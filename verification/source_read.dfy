/**
  Reading the source `address_names` rows before the name transfer.

  The driver's cursor is an oracle: whether the query is accepted, the
  outcome of scanning each row it delivers, and whether the iteration
  stopped because of an error rather than because the result set was
  exhausted. The cursor stops delivering rows in both cases; only its
  error report tells them apart.

  Two readers are modelled. `ReadAsWritten` is the loop as the tool has it:
  it never asks the cursor for an iteration error, so a read cut short is
  returned as a complete one. `ReadSourceRows` also checks that error; it
  is the reader the transfer-names command uses.
 */
module SourceRead {
  import opened Wrappers

  /** The outcome of scanning one delivered row into its seven columns. */
  datatype Scan<R> = Scanned(row: R) | ScanFailed

  /**
    What the driver does with the source query: `queryOk` says whether the
    query is accepted, `scans` lists the rows delivered in order, and
    `iterationError` says the delivery ended on an error, so that `scans`
    may be only part of the table.
   */
  datatype Cursor<R> = Cursor(queryOk: bool, scans: seq<Scan<R>>, iterationError: bool)

  datatype ReadError = QueryFailed | RowScanFailed | IterationFailed

  /** Scans the delivered rows in order, stopping at the first scan that fails. */
  function ScanAll<R>(scans: seq<Scan<R>>): (r: Result<seq<R>, ReadError>)
    ensures r.Success? <==> forall i :: 0 <= i < |scans| ==> scans[i].Scanned?
    ensures r.Success? ==> |r.value| == |scans| && forall i :: 0 <= i < |scans| ==> r.value[i] == scans[i].row
    ensures r.Failure? ==> r.error == RowScanFailed
    decreases |scans|
  {
    if |scans| == 0 then Success([])
    else
      match scans[0]
      case ScanFailed => Failure(RowScanFailed)
      case Scanned(row) =>
        match ScanAll(scans[1..])
        case Failure(e) => Failure(e)
        case Success(rest) =>
          assert forall i :: 1 <= i < |scans| ==> scans[i] == scans[1..][i - 1];
          Success([row] + rest)
  }

  /** The source read as the tool performs it: the cursor's error report is never consulted. */
  function ReadAsWritten<R>(c: Cursor<R>): (r: Result<seq<R>, ReadError>)
    ensures r.Success? <==> c.queryOk && ScanAll(c.scans).Success?
  {
    if !c.queryOk then Failure(QueryFailed) else ScanAll(c.scans)
  }

  /**
    The source read with the cursor's error report checked after the loop:
    a successful read is one whose delivery ended because the result set was
    exhausted, and it returns every delivered row, in order.
   */
  function ReadSourceRows<R>(c: Cursor<R>): (r: Result<seq<R>, ReadError>)
    ensures r.Success? <==>
              && c.queryOk
              && !c.iterationError
              && forall i :: 0 <= i < |c.scans| ==> c.scans[i].Scanned?
    ensures r.Success? ==> |r.value| == |c.scans| && forall i :: 0 <= i < |c.scans| ==> r.value[i] == c.scans[i].row
    ensures r == Failure(IterationFailed) <==> c.queryOk && ScanAll(c.scans).Success? && c.iterationError
  {
    if !c.queryOk then Failure(QueryFailed)
    else
      match ScanAll(c.scans)
      case Failure(e) => Failure(e)
      case Success(rows) => if c.iterationError then Failure(IterationFailed) else Success(rows)
  }

  /**
    The reader as written reports success on a cursor whose delivery broke
    off: one row delivered, then an iteration error.
   */
  lemma AsWrittenAcceptsBrokenCursor<R>(row: R)
    ensures ReadAsWritten(Cursor(true, [Scanned(row)], true)) == Success([row])
    ensures ReadSourceRows(Cursor(true, [Scanned(row)], true)) == Failure(IterationFailed)
  {
    var scans := [Scanned(row)];
    assert ScanAll(scans[1..]) == Success([]) by { assert scans[1..] == []; }
    assert [row] + [] == [row];
    assert ScanAll(scans) == Success([row]);
  }

  /** The reader as written gives the same answer whether or not the delivery broke off. */
  lemma AsWrittenIgnoresIterationError<R>(c: Cursor<R>)
    ensures ReadAsWritten(c) == ReadAsWritten(c.(iterationError := false))
  {
  }

  /** Wherever the delivery did not break off, the two readers agree. */
  lemma ReadersAgreeWithoutIterationError<R>(c: Cursor<R>)
    requires !c.iterationError
    ensures ReadSourceRows(c) == ReadAsWritten(c)
  {
  }
}
