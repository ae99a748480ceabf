/**
  The name-transfer reconciler: every `address_names` row read from the
  source is written to the destination unless a destination row already has
  its `address_hash`.

  The destination table is a value (a sequence of rows, newest last); what the
  database answers for each source row is an oracle `Fault`. The column types
  the tool never inspects (the hash bytes, the timestamps, the JSON metadata)
  are type parameters compared only by equality.
 */
module NameTransfer {
  import opened Wrappers

  /** One row of `address_names`, with its seven columns. */
  datatype NameRow<Hash, Time, Meta> = NameRow(
    addressHash: Hash,
    name: string,
    primary: bool,
    insertedAt: Time,
    updatedAt: Time,
    metadata: Meta,
    id: int)

  type Table<Hash, Time, Meta> = seq<NameRow<Hash, Time, Meta>>

  /** What the destination does with the two queries issued for one row. */
  datatype Fault =
    | Healthy     // both queries succeed
    | CheckFails  // the existence query reports an error
    | InsertFails // the insert, if issued, reports an error

  /** The error a single row write returns to the loop, which only logs it. */
  datatype WriteError = CheckQueryFailed | InsertQueryFailed

  /** The destination after one row write, and the error it returned. */
  datatype Written<Hash, Time, Meta> = Written(table: Table<Hash, Time, Meta>, err: Option<WriteError>)

  /** The destination after a whole run, and what each row's write returned, in order. */
  datatype Run<Hash, Time, Meta> = Run(table: Table<Hash, Time, Meta>, log: seq<Option<WriteError>>)

  /** The answer of the existence query: some row of `t` has address hash `key`. */
  predicate HasKey<Hash(==), Time, Meta>(t: Table<Hash, Time, Meta>, key: Hash)
  {
    exists i :: 0 <= i < |t| && t[i].addressHash == key
  }

  /** No two rows of `t` share an address hash. */
  ghost predicate UniqueKeys<Hash, Time, Meta>(t: Table<Hash, Time, Meta>)
  {
    forall i, j :: 0 <= i < j < |t| ==> t[i].addressHash != t[j].addressHash
  }

  /** Every row written during a run with these answers succeeds. */
  predicate AllHealthy(faults: seq<Fault>)
  {
    forall i :: 0 <= i < |faults| ==> faults[i] == Healthy
  }

  lemma HasKeyAppend<Hash, Time, Meta>(t: Table<Hash, Time, Meta>, row: NameRow<Hash, Time, Meta>, key: Hash)
    ensures HasKey(t + [row], key) <==> HasKey(t, key) || row.addressHash == key
  {
    if HasKey(t, key) {
      var i :| 0 <= i < |t| && t[i].addressHash == key;
      assert (t + [row])[i] == t[i];
    }
    if row.addressHash == key {
      assert (t + [row])[|t|] == row;
    }
  }

  /**
    Writes one source row: asks whether the destination already holds its
    address hash; if not, inserts the seven columns as read.
   */
  function WriteToTarget<Hash(==), Time, Meta>(dest: Table<Hash, Time, Meta>, row: NameRow<Hash, Time, Meta>,
                                               fault: Fault): (w: Written<Hash, Time, Meta>)
    // the table either stays as it was or gains exactly `row`, at the end
    ensures w.table == dest || w.table == dest + [row]
    ensures w.table == dest + [row] <==> fault == Healthy && !HasKey(dest, row.addressHash)
    // an existing key is never written over, and counts as success unless the check fails
    ensures HasKey(dest, row.addressHash) ==> w.table == dest
    ensures HasKey(dest, row.addressHash) && fault != CheckFails ==> w.err == None
    // the error returned names the query that failed
    ensures w.err == Some(CheckQueryFailed) <==> fault == CheckFails
    ensures w.err == Some(InsertQueryFailed) <==> fault == InsertFails && !HasKey(dest, row.addressHash)
    // a successful write leaves the key present, without duplicating it
    ensures w.err == None ==> HasKey(w.table, row.addressHash)
    ensures UniqueKeys(dest) ==> UniqueKeys(w.table)
  {
    assert dest + [row] != dest by { assert |dest + [row]| != |dest|; }
    if fault == CheckFails then Written(dest, Some(CheckQueryFailed))
    else if HasKey(dest, row.addressHash) then Written(dest, None)
    else if fault == InsertFails then Written(dest, Some(InsertQueryFailed))
    else
      HasKeyAppend(dest, row, row.addressHash);
      assert fault == Healthy;
      Written(dest + [row], None)
  }

  /**
    The transfer-names loop: writes the source rows in order, each against
    the table the previous writes left, whatever error the previous row
    returned. `faults[i]` is the database's answer for `src[i]`.
   */
  function Reconcile<Hash(==), Time, Meta>(dest: Table<Hash, Time, Meta>, src: Table<Hash, Time, Meta>,
                                           faults: seq<Fault>): (r: Run<Hash, Time, Meta>)
    requires |faults| == |src|
    // one logged outcome per source row: every row is attempted
    ensures |r.log| == |src|
    // rows already in the destination stay, unchanged and in place
    ensures |dest| <= |r.table| && r.table[..|dest|] == dest
    // every added row is a source row, copied whole
    ensures forall j :: |dest| <= j < |r.table| ==> r.table[j] in src
    decreases |src|
  {
    if |src| == 0 then Run(dest, [])
    else
      var w := WriteToTarget(dest, src[0], faults[0]);
      var rest := Reconcile(w.table, src[1..], faults[1..]);
      assert rest.table[..|dest|] == dest by {
        assert rest.table[..|w.table|] == w.table;
        assert w.table[..|dest|] == dest;
      }
      assert forall j :: |dest| <= j < |rest.table| ==> rest.table[j] in src by {
        forall j | |dest| <= j < |rest.table| ensures rest.table[j] in src {
          if j < |w.table| {
            assert w.table == dest + [src[0]] && j == |dest|;
            assert rest.table[j] == rest.table[..|w.table|][j] == src[0];
          } else {
            assert rest.table[j] in src[1..];
          }
        }
      }
      Run(rest.table, [w.err] + rest.log)
  }

  /**
    The loop of the transfer-names command as the tool runs it, returning the
    final destination and, for each row, the error its write returned.
   */
  method TransferNames<Hash(==), Time, Meta>(dest: Table<Hash, Time, Meta>, src: Table<Hash, Time, Meta>,
                                             faults: seq<Fault>)
    returns (table: Table<Hash, Time, Meta>, log: seq<Option<WriteError>>)
    requires |faults| == |src|
    ensures Run(table, log) == Reconcile(dest, src, faults)
    ensures |log| == |src|
    ensures forall i :: 0 <= i < |src| && faults[i] == Healthy ==> log[i] == None
  {
    table, log := dest, [];
    var i := 0;
    while i < |src|
      invariant 0 <= i <= |src|
      invariant Run(table, log) == Reconcile(dest, src[..i], faults[..i])
      invariant forall j :: 0 <= j < i && faults[j] == Healthy ==> log[j] == None
    {
      var w := WriteToTarget(table, src[i], faults[i]);
      ReconcileSplit(dest, src[..i], [src[i]], faults[..i], [faults[i]]);
      assert src[..i] + [src[i]] == src[..i + 1];
      assert faults[..i] + [faults[i]] == faults[..i + 1];
      table, log := w.table, log + [w.err];
      i := i + 1;
    }
    assert src[..i] == src && faults[..i] == faults;
  }

  /**
    Running over `a + b` is running over `a`, then over `b` from where `a`
    left the table; the logs follow each other.
   */
  lemma {:induction false} ReconcileSplit<Hash, Time, Meta>(
    dest: Table<Hash, Time, Meta>, a: Table<Hash, Time, Meta>, b: Table<Hash, Time, Meta>,
    fa: seq<Fault>, fb: seq<Fault>)
    requires |fa| == |a| && |fb| == |b|
    ensures Reconcile(dest, a + b, fa + fb)
         == var ra := Reconcile(dest, a, fa);
            var rb := Reconcile(ra.table, b, fb);
            Run(rb.table, ra.log + rb.log)
    decreases |a|
  {
    if |a| == 0 {
      assert a + b == b && fa + fb == fb;
    } else {
      var w := WriteToTarget(dest, a[0], fa[0]);
      assert (a + b)[0] == a[0] && (fa + fb)[0] == fa[0];
      assert (a + b)[1..] == a[1..] + b && (fa + fb)[1..] == fa[1..] + fb;
      ReconcileSplit(w.table, a[1..], b, fa[1..], fb);
    }
  }
}
