/** Maximal runs of consecutive dirty pages in a cache table, the unit of sequential write-back. */
module DirtyRuns {
  import opened Sets
  import opened TrackedPages
  import opened WriteBack

  /** A lookup that finds the page and finds it dirty; keys below zero are never found. */
  predicate Dirty(m: map<Key, bool>, k: int) {
    k >= 0 && k in m && m[k]
  }

  datatype Run = Run(start: nat, length: nat)
  {
    predicate Has(k: int) { start <= k < start + length }

    ghost function Keys(): set<Key> { set k: nat | k < start + length && Has(k) }
  }

  /** r is a maximal run: all dirty, and neither neighbour is. */
  ghost predicate IsRun(m: map<Key, bool>, r: Run) {
    && r.length > 0 && (forall k: int :: r.Has(k) ==> Dirty(m, k))
    && !Dirty(m, r.start - 1) && !Dirty(m, r.start + r.length)
  }

  /** Two maximal runs that share a page are the same. */
  lemma {:induction false} RunUnique(m: map<Key, bool>, r: Run, q: Run, k: int)
    requires IsRun(m, r) && IsRun(m, q) && r.Has(k) && q.Has(k)
    ensures r == q
  {
    if r.start < q.start { assert r.Has(q.start - 1); }
    if q.start < r.start { assert q.Has(r.start - 1); }
    if r.start + r.length < q.start + q.length { assert q.Has(r.start + r.length); }
    if q.start + q.length < r.start + r.length { assert r.Has(q.start + q.length); }
  }

  lemma {:induction false} KeysSize(r: Run)
    ensures |r.Keys()| == r.length
    decreases r.length
  {
    if r.length == 0 {
      assert r.Keys() == {};
    } else {
      var q := Run(r.start, r.length - 1);
      KeysSize(q);
      assert r.Keys() == q.Keys() + {r.start + r.length - 1};
    }
  }

  /** The pages of a run made clean. */
  ghost function Cleaned(m: map<Key, bool>, r: Run): map<Key, bool> {
    map k | k in m :: m[k] && !r.Has(k)
  }

  lemma {:induction false} CleanedDirty(m: map<Key, bool>, r: Run)
    ensures forall k: int :: Dirty(Cleaned(m, r), k) <==> Dirty(m, k) && !r.Has(k)
  {
  }

  lemma {:induction false} CleanedCount(m: map<Key, bool>, r: Run)
    requires IsRun(m, r)
    ensures |DirtyKeys(Cleaned(m, r))| == |DirtyKeys(m)| - r.length
  {
    KeysSize(r);
    forall k | k in r.Keys() ensures k in DirtyKeys(m) {
      assert r.Has(k);
    }
    assert DirtyKeys(Cleaned(m, r)) == DirtyKeys(m) - r.Keys();
  }

  /** A run has at most as many pages as the table. */
  lemma {:induction false} RunFits(m: map<Key, bool>, r: Run)
    requires IsRun(m, r)
    ensures r.Keys() <= m.Keys && r.length <= |m|
  {
    KeysSize(r);
    forall k | k in r.Keys() ensures k in m {
      assert r.Has(k);
    }
    SubsetSize(r.Keys(), m.Keys);
    assert |m.Keys| == |m|;
  }

  /** Keys are bounded, so a search upwards ends. */
  lemma {:induction false} KeyBound(s: set<Key>) returns (b: nat)
    ensures forall k :: k in s ==> k < b
    decreases s
  {
    b := 0;
    if s != {} {
      var x :| x in s;
      var c := KeyBound(s - {x});
      b := if x < c then c else x + 1;
      assert forall k :: k in s ==> k == x || k in s - {x};
    }
  }

  /** The search of the eviction and flush loops: up from k while pages are dirty, then down from k - 1. */
  method FindRun(m: map<Key, bool>, k: Key) returns (r: Run)
    requires Dirty(m, k)
    ensures IsRun(m, r) && r.Has(k)
  {
    ghost var bound := KeyBound(m.Keys);
    var after: nat, length: nat := k, 0;
    while Dirty(m, after)
      invariant k <= after <= bound && length == after - k
      invariant forall j: int :: k <= j < after ==> Dirty(m, j)
      decreases bound - after
    {
      after := after + 1;
      length := length + 1;
    }
    var before: int := k - 1;
    while Dirty(m, before)
      invariant -1 <= before < k && length == after - before - 1
      invariant forall j: int :: before < j < after ==> Dirty(m, j)
      decreases before + 1
    {
      before := before - 1;
      length := length + 1;
    }
    r := Run(before + 1, length);
  }

  // ---------- partition ----------

  /** The dirty pages of m are those of m0 less some whole maximal runs of m0. */
  ghost predicate LessRuns(m0: map<Key, bool>, m: map<Key, bool>, runs: seq<Run>) {
    && m.Keys == m0.Keys
    && (forall i :: 0 <= i < |runs| ==> IsRun(m0, runs[i]))
    && (forall i, j :: 0 <= i < j < |runs| ==> runs[i] != runs[j])
    && (forall k: int :: Dirty(m, k) <==> Dirty(m0, k) && !InSome(runs, k))
  }

  ghost predicate InSome(runs: seq<Run>, k: int) {
    exists i :: 0 <= i < |runs| && runs[i].Has(k)
  }

  lemma {:induction false} LessRunsStarts(m: map<Key, bool>)
    ensures LessRuns(m, m, [])
  {
  }

  lemma {:induction false} LessRunsKeys(m0: map<Key, bool>, m: map<Key, bool>, runs: seq<Run>)
    requires LessRuns(m0, m, runs)
    ensures m.Keys == m0.Keys
  {
  }

  /** A maximal run of what is left is a maximal run of the whole. */
  lemma {:induction false} LeftRunIsRun(m0: map<Key, bool>, m: map<Key, bool>, runs: seq<Run>, r: Run)
    requires LessRuns(m0, m, runs) && IsRun(m, r)
    ensures IsRun(m0, r) && r !in runs
  {
    var lo, hi := r.start - 1, r.start + r.length;
    assert r.Has(r.start) && r.Has(hi - 1);
    forall k: int | r.Has(k) ensures Dirty(m0, k) && !InSome(runs, k) {
      assert Dirty(m, k);
    }
    if Dirty(m0, lo) { AdjacentInSome(m0, runs, lo); }
    if Dirty(m0, hi) { AdjacentInSome(m0, runs, hi - 1); }
    assert r in runs ==> InSome(runs, r.start);
  }

  /** Of two neighbouring dirty pages a maximal run has both or neither. */
  lemma {:induction false} AdjacentInSome(m0: map<Key, bool>, runs: seq<Run>, k: int)
    requires forall i :: 0 <= i < |runs| ==> IsRun(m0, runs[i])
    requires Dirty(m0, k) && Dirty(m0, k + 1)
    ensures InSome(runs, k) <==> InSome(runs, k + 1)
  {
    forall i | 0 <= i < |runs| ensures runs[i].Has(k) <==> runs[i].Has(k + 1) {
      assert IsRun(m0, runs[i]);
    }
  }

  lemma {:induction false} LessRunsStep(m0: map<Key, bool>, m: map<Key, bool>, runs: seq<Run>, r: Run)
    requires LessRuns(m0, m, runs) && IsRun(m, r)
    ensures LessRuns(m0, Cleaned(m, r), runs + [r])
  {
    LeftRunIsRun(m0, m, runs, r);
    forall k: int ensures InSome(runs + [r], k) <==> InSome(runs, k) || r.Has(k) {
      if InSome(runs, k) {
        var i :| 0 <= i < |runs| && runs[i].Has(k);
        assert (runs + [r])[i].Has(k);
      }
      if r.Has(k) { assert (runs + [r])[|runs|].Has(k); }
    }
    assert forall k: int :: Dirty(Cleaned(m, r), k) <==> Dirty(m, k) && !r.Has(k);
  }

  /** The runs emitted are exactly the maximal runs, each once. */
  ghost predicate Partitions(m0: map<Key, bool>, runs: seq<Run>) {
    && (forall r :: r in runs <==> IsRun(m0, r))
    && (forall i, j :: 0 <= i < j < |runs| ==> runs[i] != runs[j])
  }

  /** When nothing dirty is left, every maximal run was emitted. */
  lemma {:induction false} NothingLeft(m0: map<Key, bool>, m: map<Key, bool>, runs: seq<Run>)
    requires LessRuns(m0, m, runs) && forall k :: k in m ==> !m[k]
    ensures Partitions(m0, runs)
  {
    forall r | IsRun(m0, r) ensures r in runs {
      assert r.Has(r.start);
      assert Dirty(m0, r.start) && !Dirty(m, r.start);
      assert InSome(runs, r.start);
      var i :| 0 <= i < |runs| && runs[i].Has(r.start);
      RunUnique(m0, r, runs[i], r.start);
    }
  }
}
