/**
  Text of the bulk-copy statements the tool sends to PostgreSQL, and the name
  of the intermediate dump file. Everything is plain concatenation: table
  names, the filter condition and file paths are spliced in without quoting
  or escaping.

  The builders have no inverse in general (because nothing is escaped), so
  each is paired with a parser that recovers its pieces whenever the file path
  contains no single quote, and with round-trip lemmas connecting the two.
 */
module CopyQueries {
  import opened Wrappers
  import opened Connection

  const DumpFilePrefix: string := "dump-"
  const DumpFileSuffix: string := ".txt"

  const DumpQueryPrefix: string := "COPY (SELECT * FROM "
  const DumpQueryFileMarker: string := ") TO "
  const LoadQueryPrefix: string := "COPY "
  const LoadQueryFileMarker: string := " FROM "
  const QuerySuffix: string := "' WITH BINARY"

  // ---------------------------------------------------------------------
  // String helpers
  // ---------------------------------------------------------------------

  /** The last position of `c` in `s`, if any. */
  function LastIndexOf(s: string, c: char): (r: Option<nat>)
    ensures r.None? <==> c !in s
    ensures r.Some? ==> r.value < |s| && s[r.value] == c
    ensures r.Some? ==> forall j :: r.value < j < |s| ==> s[j] != c
    decreases |s|
  {
    if |s| == 0 then None
    else if s[|s| - 1] == c then Some(|s| - 1)
    else LastIndexOf(s[..|s| - 1], c)
  }

  /** The part of `s` between `prefix` and `suffix`, when `s` has both. */
  function Between(s: string, prefix: string, suffix: string): (r: Option<string>)
    ensures r.Some? <==> |prefix| + |suffix| <= |s| && prefix <= s && s[|s| - |suffix|..] == suffix
    ensures r.Some? ==> s == prefix + r.value + suffix
  {
    if |prefix| + |suffix| <= |s| && prefix <= s && s[|s| - |suffix|..] == suffix then
      var mid := s[|prefix|..|s| - |suffix|];
      assert s == prefix + mid + suffix by {
        assert s == s[..|prefix|] + s[|prefix|..|s| - |suffix|] + s[|s| - |suffix|..];
      }
      Some(mid)
    else None
  }

  /**
    Splits `s` as `head + marker + "'" + tail` at the LAST single quote of
    `s`, so that `tail` holds no quote.
   */
  function SplitAtLastQuote(s: string, marker: string): (r: Option<(string, string)>)
    ensures r.Some? ==> s == r.value.0 + marker + "'" + r.value.1 && '\'' !in r.value.1
  {
    match LastIndexOf(s, '\'')
    case None => None
    case Some(k) =>
      if |marker| <= k && s[k - |marker|..k] == marker then
        var head, tail := s[..k - |marker|], s[k + 1..];
        assert s == head + marker + "'" + tail by {
          assert s == s[..k - |marker|] + s[k - |marker|..k] + [s[k]] + s[k + 1..];
        }
        assert '\'' !in tail by {
          forall j | 0 <= j < |tail| ensures tail[j] != '\'' {
            assert tail[j] == s[k + 1 + j];
          }
        }
        Some((head, tail))
      else None
  }

  lemma ConcatRegroup(a: string, b: string, c: string, d: string, e: string, f: string)
    ensures a + (b + c + d + e) + f == a + b + c + d + e + f
  {
  }

  lemma {:induction false} BetweenOfConcat(prefix: string, mid: string, suffix: string)
    ensures Between(prefix + mid + suffix, prefix, suffix) == Some(mid)
  {
    var s := prefix + mid + suffix;
    assert prefix <= s by { assert s[..|prefix|] == prefix; }
    assert s[|s| - |suffix|..] == suffix;
    assert s[|prefix|..|s| - |suffix|] == mid;
  }

  /** Splitting undoes `head + marker + "'" + tail` whenever `tail` holds no quote. */
  lemma {:induction false} SplitAtLastQuoteOfConcat(head: string, marker: string, tail: string)
    requires '\'' !in tail
    ensures SplitAtLastQuote(head + marker + "'" + tail, marker) == Some((head, tail))
  {
    var s := head + marker + "'" + tail;
    var k := |head| + |marker|;
    assert s[k] == '\'';
    assert forall j :: k < j < |s| ==> s[j] == tail[j - k - 1];
    var r := LastIndexOf(s, '\'');
    assert '\'' in s;
    assert r == Some(k);
    assert s[k - |marker|..k] == marker;
    assert s[..k - |marker|] == head;
    assert s[k + 1..] == tail;
  }

  // ---------------------------------------------------------------------
  // Dump file name
  // ---------------------------------------------------------------------

  /** The file the dump, transfer and load commands name after a table. */
  function DumpFileName(table: string): (f: string)
    ensures TableOfDumpFile(f) == Some(table)
  {
    var f := DumpFilePrefix + table + DumpFileSuffix;
    BetweenOfConcat(DumpFilePrefix, table, DumpFileSuffix);
    f
  }

  /** Recovers the table name from a dump file name. */
  function TableOfDumpFile(f: string): (r: Option<string>)
    ensures r.Some? ==> f == DumpFilePrefix + r.value + DumpFileSuffix
  {
    Between(f, DumpFilePrefix, DumpFileSuffix)
  }

  /** Two tables share a dump file exactly when they have the same name. */
  lemma DumpFileNameInjective(a: string, b: string)
    ensures DumpFileName(a) == DumpFileName(b) <==> a == b
  {
  }

  // ---------------------------------------------------------------------
  // COPY ... TO (dump) and COPY ... FROM (load)
  // ---------------------------------------------------------------------

  /** What a dump statement selects from, and the file it writes. */
  datatype DumpParts = DumpParts(selection: string, filename: string)

  /** The table a load statement fills, and the file it reads. */
  datatype LoadParts = LoadParts(table: string, filename: string)

  /** What the export selects from: the table, filtered when a condition is given. */
  function Selection(table: string, condition: string): string
  {
    if condition != "" then table + " WHERE " + condition else table
  }

  /**
    The export statement of the dump step. The WHERE clause is decided by the
    CONFIGURED condition; the `condition` argument is accepted and ignored.
   */
  function DumpQuery(config: Config, table: string, filename: string, condition: string): (q: string)
    ensures '\'' !in filename ==>
              ParseDumpQuery(q) == Some(DumpParts(Selection(table, config.condition), filename))
  {
    var selection := Selection(table, config.condition);
    var q := DumpQueryPrefix + selection + DumpQueryFileMarker + "'" + filename + QuerySuffix;
    if '\'' !in filename then
      assert q == DumpQueryPrefix + (selection + DumpQueryFileMarker + "'" + filename) + QuerySuffix;
      BetweenOfConcat(DumpQueryPrefix, selection + DumpQueryFileMarker + "'" + filename, QuerySuffix);
      SplitAtLastQuoteOfConcat(selection, DumpQueryFileMarker, filename);
      q
    else q
  }

  /** Reads the selection and the file path back out of an export statement. */
  function ParseDumpQuery(q: string): (r: Option<DumpParts>)
    ensures r.Some? ==>
              q == DumpQueryPrefix + r.value.selection + DumpQueryFileMarker + "'" + r.value.filename + QuerySuffix
  {
    match Between(q, DumpQueryPrefix, QuerySuffix)
    case None => None
    case Some(mid) =>
      match SplitAtLastQuote(mid, DumpQueryFileMarker)
      case None => None
      case Some(parts) =>
        var selection, filename := parts.0, parts.1;
        ConcatRegroup(DumpQueryPrefix, selection, DumpQueryFileMarker, "'", filename, QuerySuffix);
        Some(DumpParts(selection, filename))
  }

  /** The import statement of the load step. */
  function LoadQuery(table: string, filename: string): (q: string)
    ensures '\'' !in filename ==> ParseLoadQuery(q) == Some(LoadParts(table, filename))
  {
    var q := LoadQueryPrefix + table + LoadQueryFileMarker + "'" + filename + QuerySuffix;
    if '\'' !in filename then
      assert q == LoadQueryPrefix + (table + LoadQueryFileMarker + "'" + filename) + QuerySuffix;
      BetweenOfConcat(LoadQueryPrefix, table + LoadQueryFileMarker + "'" + filename, QuerySuffix);
      SplitAtLastQuoteOfConcat(table, LoadQueryFileMarker, filename);
      q
    else q
  }

  /** Reads the table and the file path back out of an import statement. */
  function ParseLoadQuery(q: string): (r: Option<LoadParts>)
    ensures r.Some? ==>
              q == LoadQueryPrefix + r.value.table + LoadQueryFileMarker + "'" + r.value.filename + QuerySuffix
  {
    match Between(q, LoadQueryPrefix, QuerySuffix)
    case None => None
    case Some(mid) =>
      match SplitAtLastQuote(mid, LoadQueryFileMarker)
      case None => None
      case Some(parts) =>
        var table, filename := parts.0, parts.1;
        ConcatRegroup(LoadQueryPrefix, table, LoadQueryFileMarker, "'", filename, QuerySuffix);
        Some(LoadParts(table, filename))
  }

  // ---------------------------------------------------------------------
  // Properties of the dump statement
  // ---------------------------------------------------------------------

  /** The `condition` argument has no influence on the statement. */
  lemma DumpQueryIgnoresConditionArgument(config: Config, table: string, filename: string,
                                          c1: string, c2: string)
    ensures DumpQuery(config, table, filename, c1) == DumpQuery(config, table, filename, c2)
  {
  }

  /**
    The filter is spliced into the table position: a configured condition
    gives the same text as no condition with " WHERE <cond>" appended to the
    table name. So the statement text alone cannot tell a filter from a
    strange table name.
   */
  lemma DumpConditionIsSplicedIntoTable(config: Config, table: string, filename: string, condition: string)
    requires config.condition != ""
    ensures DumpQuery(config, table, filename, condition)
         == DumpQuery(config.(condition := ""), table + " WHERE " + config.condition, filename, condition)
  {
  }
}
