/**
  Properties of the name-transfer reconciler: what happens to each row of a
  run, continuation after errors, key uniqueness, idempotence, and the
  result of a failure-free run against an independent description of it.
 */
module NameTransferProps {
  import opened Wrappers
  import opened NameTransfer

  /** A key present in a table is still present in any extension of it. */
  lemma HasKeyPrefix<Hash, Time, Meta>(t: Table<Hash, Time, Meta>, u: Table<Hash, Time, Meta>, key: Hash)
    requires t <= u
    ensures HasKey(t, key) ==> HasKey(u, key)
  {
  }

  // ---------------------------------------------------------------------
  // One row of a run
  // ---------------------------------------------------------------------

  /**
    Row `i` of a run is written against exactly the table that rows
    `0..i-1` left behind, whatever errors those rows returned; its write
    is logged at position `i`, and what it left survives to the end.
   */
  lemma {:induction false} RowOutcome<Hash, Time, Meta>(
    dest: Table<Hash, Time, Meta>, src: Table<Hash, Time, Meta>, faults: seq<Fault>, i: nat)
    requires |faults| == |src| && i < |src|
    ensures var w := WriteToTarget(Reconcile(dest, src[..i], faults[..i]).table, src[i], faults[i]);
            var r := Reconcile(dest, src, faults);
            r.log[i] == w.err && w.table <= r.table
  {
    var ra := Reconcile(dest, src[..i], faults[..i]);
    var w := WriteToTarget(ra.table, src[i], faults[i]);
    ReconcileSplit(dest, src[..i], src[i..], faults[..i], faults[i..]);
    assert src[..i] + src[i..] == src && faults[..i] + faults[i..] == faults;
    var rb := Reconcile(ra.table, src[i..], faults[i..]);
    assert src[i..][0] == src[i] && faults[i..][0] == faults[i];
    assert src[i..][1..] == src[i + 1..] && faults[i..][1..] == faults[i + 1..];
    var rest := Reconcile(w.table, src[i + 1..], faults[i + 1..]);
    assert rb == Run(rest.table, [w.err] + rest.log);
    assert w.table <= rest.table;
  }

  /**
    Continue-on-error: whatever earlier rows did, a row whose queries
    succeed logs no error and leaves its key in the final destination; a
    row's write reports a check failure exactly when its check failed, and
    an insert failure only when its insert failed.
   */
  lemma RowErrorsAreIsolated<Hash, Time, Meta>(
    dest: Table<Hash, Time, Meta>, src: Table<Hash, Time, Meta>, faults: seq<Fault>, i: nat)
    requires |faults| == |src| && i < |src|
    ensures var r := Reconcile(dest, src, faults);
            && (faults[i] == Healthy ==> r.log[i] == None && HasKey(r.table, src[i].addressHash))
            && (r.log[i] == Some(CheckQueryFailed) <==> faults[i] == CheckFails)
            && (r.log[i] == Some(InsertQueryFailed) ==> faults[i] == InsertFails)
  {
    RowOutcome(dest, src, faults, i);
    var w := WriteToTarget(Reconcile(dest, src[..i], faults[..i]).table, src[i], faults[i]);
    HasKeyPrefix(w.table, Reconcile(dest, src, faults).table, src[i].addressHash);
  }

  // ---------------------------------------------------------------------
  // Whole-run invariants
  // ---------------------------------------------------------------------

  /** Distinct destination keys stay distinct, even if the source repeats a key. */
  lemma {:induction false} ReconcileKeepsUniqueKeys<Hash, Time, Meta>(
    dest: Table<Hash, Time, Meta>, src: Table<Hash, Time, Meta>, faults: seq<Fault>)
    requires |faults| == |src|
    requires UniqueKeys(dest)
    ensures UniqueKeys(Reconcile(dest, src, faults).table)
    decreases |src|
  {
    if |src| > 0 {
      var w := WriteToTarget(dest, src[0], faults[0]);
      ReconcileKeepsUniqueKeys(w.table, src[1..], faults[1..]);
    }
  }

  /** Rows are added only for keys the destination did not hold before the run. */
  lemma {:induction false} ReconcileInsertsOnlyAbsentKeys<Hash, Time, Meta>(
    dest: Table<Hash, Time, Meta>, src: Table<Hash, Time, Meta>, faults: seq<Fault>)
    requires |faults| == |src|
    ensures forall j :: |dest| <= j < |Reconcile(dest, src, faults).table| ==>
                          !HasKey(dest, Reconcile(dest, src, faults).table[j].addressHash)
    decreases |src|
  {
    if |src| > 0 {
      var w := WriteToTarget(dest, src[0], faults[0]);
      var rest := Reconcile(w.table, src[1..], faults[1..]);
      ReconcileInsertsOnlyAbsentKeys(w.table, src[1..], faults[1..]);
      forall j | |dest| <= j < |rest.table|
        ensures !HasKey(dest, rest.table[j].addressHash)
      {
        if j < |w.table| {
          assert w.table != dest && w.table == dest + [src[0]];
          assert !HasKey(dest, src[0].addressHash);
          assert rest.table[j] == rest.table[..|w.table|][j] == w.table[j] == src[0];
        } else {
          assert !HasKey(w.table, rest.table[j].addressHash);
          assert dest <= w.table;
          HasKeyPrefix(dest, w.table, rest.table[j].addressHash);
        }
      }
    }
  }

  // ---------------------------------------------------------------------
  // Failure-free runs and idempotence
  // ---------------------------------------------------------------------

  /** After a failure-free run every source key is present and no error was logged. */
  lemma HealthyRunCoversSource<Hash, Time, Meta>(
    dest: Table<Hash, Time, Meta>, src: Table<Hash, Time, Meta>, faults: seq<Fault>)
    requires |faults| == |src| && AllHealthy(faults)
    ensures var r := Reconcile(dest, src, faults);
            && (forall i :: 0 <= i < |src| ==> HasKey(r.table, src[i].addressHash))
            && (forall i :: 0 <= i < |src| ==> r.log[i] == None)
  {
    forall i | 0 <= i < |src|
      ensures HasKey(Reconcile(dest, src, faults).table, src[i].addressHash)
      ensures Reconcile(dest, src, faults).log[i] == None
    {
      RowErrorsAreIsolated(dest, src, faults, i);
    }
  }

  /**
    When every source key is already in the destination, a run inserts
    nothing, whatever the database answers; only check failures can be logged.
   */
  lemma {:induction false} CoveredRunIsNoOp<Hash, Time, Meta>(
    dest: Table<Hash, Time, Meta>, src: Table<Hash, Time, Meta>, faults: seq<Fault>)
    requires |faults| == |src|
    requires forall i :: 0 <= i < |src| ==> HasKey(dest, src[i].addressHash)
    ensures var r := Reconcile(dest, src, faults);
            && r.table == dest
            && (forall i :: 0 <= i < |src| ==> r.log[i] != Some(InsertQueryFailed))
    decreases |src|
  {
    if |src| > 0 {
      assert HasKey(dest, src[0].addressHash);
      assert forall i :: 0 <= i < |src[1..]| ==> src[1..][i] == src[i + 1];
      CoveredRunIsNoOp(dest, src[1..], faults[1..]);
    }
  }

  /**
    Idempotence: once a run over `src` has succeeded for every row, running
    it again over the same source leaves the destination identical, and
    logs nothing at all when the second run's queries also succeed.
   */
  lemma ReconcileIdempotent<Hash, Time, Meta>(
    dest: Table<Hash, Time, Meta>, src: Table<Hash, Time, Meta>, first: seq<Fault>, second: seq<Fault>)
    requires |first| == |src| && |second| == |src| && AllHealthy(first)
    ensures var t := Reconcile(dest, src, first).table;
            var r := Reconcile(t, src, second);
            && r.table == t
            && (AllHealthy(second) ==> forall i :: 0 <= i < |src| ==> r.log[i] == None)
  {
    var t := Reconcile(dest, src, first).table;
    HealthyRunCoversSource(dest, src, first);
    CoveredRunIsNoOp(t, src, second);
    if AllHealthy(second) {
      HealthyRunCoversSource(t, src, second);
    }
  }

  // ---------------------------------------------------------------------
  // Reference description of a failure-free run
  // ---------------------------------------------------------------------

  /**
    The rows a failure-free run adds, described without the loop: each
    source row whose key is neither in the destination nor carried by an
    earlier source row, in source order.
   */
  ghost function Missing<Hash, Time, Meta>(dest: Table<Hash, Time, Meta>, src: Table<Hash, Time, Meta>)
    : Table<Hash, Time, Meta>
    decreases |src|
  {
    if |src| == 0 then []
    else
      var init, last := src[..|src| - 1], src[|src| - 1];
      Missing(dest, init) + (if HasKey(dest, last.addressHash) || HasKey(init, last.addressHash) then [] else [last])
  }

  /** The keys of `dest` plus the missing rows are those of `dest` and `src` together. */
  lemma {:induction false} MissingKeys<Hash, Time, Meta>(dest: Table<Hash, Time, Meta>, src: Table<Hash, Time, Meta>,
                                                         key: Hash)
    ensures HasKey(dest + Missing(dest, src), key) <==> HasKey(dest, key) || HasKey(src, key)
    decreases |src|
  {
    if |src| == 0 {
      assert dest + Missing(dest, src) == dest;
    } else {
      var init, last := src[..|src| - 1], src[|src| - 1];
      assert src == init + [last];
      HasKeyAppend(init, last, key);
      MissingKeys(dest, init, key);
      var m := Missing(dest, init);
      if HasKey(dest, last.addressHash) || HasKey(init, last.addressHash) {
        assert dest + Missing(dest, src) == dest + m;
        MissingKeys(dest, init, last.addressHash);
      } else {
        assert dest + Missing(dest, src) == (dest + m) + [last];
        HasKeyAppend(dest + m, last, key);
      }
    }
  }

  /** A run over a single row is that row's write. */
  lemma SingleRowRun<Hash, Time, Meta>(t: Table<Hash, Time, Meta>, row: NameRow<Hash, Time, Meta>, fault: Fault)
    ensures Reconcile(t, [row], [fault]).table == WriteToTarget(t, row, fault).table
  {
  }

  /** `Missing` of a source extended by one row. */
  lemma MissingSnoc<Hash, Time, Meta>(dest: Table<Hash, Time, Meta>, init: Table<Hash, Time, Meta>,
                                      last: NameRow<Hash, Time, Meta>)
    ensures Missing(dest, init + [last])
         == Missing(dest, init) + (if HasKey(dest, last.addressHash) || HasKey(init, last.addressHash) then [] else [last])
  {
  }

  /** Writing one more healthy row extends the reference description by that row's contribution. */
  lemma HealthyStep<Hash, Time, Meta>(dest: Table<Hash, Time, Meta>, init: Table<Hash, Time, Meta>,
                                      last: NameRow<Hash, Time, Meta>)
    ensures WriteToTarget(dest + Missing(dest, init), last, Healthy).table == dest + Missing(dest, init + [last])
  {
    var t := dest + Missing(dest, init);
    MissingKeys(dest, init, last.addressHash);
    MissingSnoc(dest, init, last);
    if HasKey(dest, last.addressHash) || HasKey(init, last.addressHash) {
      assert Missing(dest, init + [last]) == Missing(dest, init) + [];
    } else {
      assert Missing(dest, init + [last]) == Missing(dest, init) + [last];
    }
  }

  /** A failure-free run appends exactly the missing rows, as read and in source order. */
  lemma {:induction false} HealthyRunAppendsMissing<Hash, Time, Meta>(
    dest: Table<Hash, Time, Meta>, src: Table<Hash, Time, Meta>, faults: seq<Fault>)
    requires |faults| == |src| && AllHealthy(faults)
    ensures Reconcile(dest, src, faults).table == dest + Missing(dest, src)
    decreases |src|
  {
    if |src| == 0 {
      assert dest + Missing(dest, src) == dest;
    } else {
      var n := |src| - 1;
      var init, last, fi := src[..n], src[n], faults[..n];
      assert src == init + [last] && faults == fi + [Healthy];
      assert AllHealthy(fi) by {
        forall i | 0 <= i < |fi| ensures fi[i] == Healthy {
          assert fi[i] == faults[i];
        }
      }
      HealthyRunAppendsMissing(dest, init, fi);
      ReconcileSplit(dest, init, [last], fi, [Healthy]);
      SingleRowRun(dest + Missing(dest, init), last, Healthy);
      HealthyStep(dest, init, last);
    }
  }

  /**
    The destination holds `a`; the source holds `a2`, which has `a`'s key,
    and then `b`. A failure-free run keeps `a` as it was and adds `b`
    as read, and nothing else.
   */
  lemma TwoRowExample<Hash, Time, Meta>(a: NameRow<Hash, Time, Meta>, a2: NameRow<Hash, Time, Meta>,
                                        b: NameRow<Hash, Time, Meta>)
    requires a2.addressHash == a.addressHash && b.addressHash != a.addressHash
    ensures Reconcile([a], [a2, b], [Healthy, Healthy]).table == [a, b]
  {
    HealthyRunAppendsMissing([a], [a2, b], [Healthy, Healthy]);
    assert [a2, b][..1] == [a2];
    assert [a2][..0] == [];
    assert HasKey([a], a2.addressHash) by { assert [a][0].addressHash == a2.addressHash; }
    assert Missing([a], [a2]) == [];
    assert !HasKey([a], b.addressHash);
    assert !HasKey([a2], b.addressHash);
  }
}
