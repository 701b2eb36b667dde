/** LRU caches that evict whole runs of dirty pages, with an adaptive threshold on the run length
    (src/lru_dynamic.h, lru_dynamicB.h, lru_dynamicC.h, which differ in the threshold update only). */
module DynamicLru {
  import opened CacheStatus
  import opened TrackedPages
  import opened DirtyRuns

  /** The three threshold rules: when a long run is found, and when none is. */
  datatype Policy = AddHalve | AddSubtract | DoubleSubtract
  {
    function Raised(threshold: int): int {
      if this == DoubleSubtract then threshold * 2 else threshold + 1
    }

    function Lowered(threshold: int): int {
      if this != AddHalve then threshold - 1
      else if threshold >= 0 then threshold / 2 else -(-threshold / 2)
    }

    /** The largest threshold a cache of capacity c reaches. */
    function Highest(c: nat): nat {
      if this == DoubleSubtract then 2 * c else c + 1
    }
  }

  datatype State = State(t: Tracked, threshold: int, cleanOut: nat, seqOut: nat, nonSeqOut: nat)

  function Empty(): State { State(Tracked([], map[]), 1, 0, 0, 0) }

  ghost predicate Inv(p: Policy, s: State, c: nat) {
    c > 0 && s.t.Ok() && s.t.Size() <= c && 1 <= s.threshold <= p.Highest(c)
  }

  // ---------- removing a run ----------

  /** The keys outside a run, in their order. */
  ghost function Kept(keys: seq<Key>, r: Run): seq<Key> {
    if keys == [] then [] else (if r.Has(keys[0]) then [] else [keys[0]]) + Kept(keys[1..], r)
  }

  lemma {:induction false} KeptMembers(keys: seq<Key>, r: Run)
    ensures forall k :: k in Kept(keys, r) <==> k in keys && !r.Has(k)
  {
    if keys != [] { KeptMembers(keys[1..], r); }
  }

  lemma {:induction false} KeptDistinct(keys: seq<Key>, r: Run)
    requires Distinct(keys)
    ensures Distinct(Kept(keys, r))
  {
    if keys != [] {
      KeptMembers(keys[1..], r);
      KeptDistinct(keys[1..], r);
      var w := Kept(keys[1..], r);
      forall j | 0 <= j < |w| ensures w[j] != keys[0] {
        assert w[j] in w;
      }
    }
  }

  lemma {:induction false} KeptNone(keys: seq<Key>, start: nat)
    ensures Kept(keys, Run(start, 0)) == keys
  {
    if keys != [] { KeptNone(keys[1..], start); }
  }

  lemma {:induction false} KeptMore(keys: seq<Key>, start: nat, z: nat)
    ensures Without(Kept(keys, Run(start, z)), start + z) == Kept(keys, Run(start, z + 1))
  {
    if keys != [] {
      KeptMore(keys[1..], start, z);
      var w := Kept(keys[1..], Run(start, z));
      var head := if Run(start, z).Has(keys[0]) then [] else [keys[0]];
      WithoutConcat(head, w, start + z);
      assert Without(head, start + z) == if Run(start, z + 1).Has(keys[0]) then [] else [keys[0]];
    }
  }

  lemma {:induction false} KeptRecency(keys: seq<Key>, r: Run, ops: seq<Access>, n: nat)
    requires n <= |ops| && ByRecency(keys, ops, n)
    ensures ByRecency(Kept(keys, r), ops, n)
  {
    if keys != [] {
      hide ByRecency, LastUse;
      RecencyTail(keys, ops, n);
      KeptRecency(keys[1..], r, ops, n);
      KeptMembers(keys[1..], r);
      if r.Has(keys[0]) {
        assert Kept(keys, r) == Kept(keys[1..], r);
      } else {
        RecencyCons(keys[0], Kept(keys[1..], r), ops, n);
      }
    }
  }

  /** The list and table without the pages of a run. */
  ghost function Cut(t: Tracked, r: Run): Tracked {
    Tracked(Kept(t.keys, r), t.table - r.Keys())
  }

  /** Removing a maximal run removes as many pages as it is long, and at least one. */
  lemma {:induction false} CutOk(t: Tracked, r: Run)
    requires t.Ok() && IsRun(t.table, r)
    ensures Cut(t, r).Ok() && Cut(t, r).Size() == t.Size() - r.length && 1 <= r.length <= t.Size()
  {
    KeptMembers(t.keys, r);
    KeptDistinct(t.keys, r);
    KeysSize(r);
    RunFits(t.table, r);
    assert (t.table - r.Keys()).Keys == t.table.Keys - r.Keys();
  }

  // ---------- eviction ----------

  /** No maximal run around one of the first i keys reaches the threshold. */
  ghost predicate NoneLong(t: Tracked, threshold: int, i: nat)
    requires i <= |t.keys|
  {
    forall j, q :: 0 <= j < i && IsRun(t.table, q) && q.Has(t.keys[j]) ==> q.length < threshold
  }

  /** r is the maximal run around the first key in recency order whose run reaches the threshold. */
  ghost predicate FirstLong(t: Tracked, threshold: int, r: Run) {
    IsRun(t.table, r) && r.length >= threshold
    && exists i :: 0 <= i < |t.keys| && r.Has(t.keys[i]) && NoneLong(t, threshold, i)
  }

  /** No run reaches the threshold, and r is the maximal run around the least recently used key. */
  ghost predicate FrontRun(t: Tracked, threshold: int, r: Run) {
    IsRun(t.table, r) && |t.keys| > 0 && r.Has(t.keys[0]) && NoneLong(t, threshold, |t.keys|)
  }

  ghost predicate EvictsFront(s: State, s': State) {
    && |s.t.keys| > 0 && s.t.keys[0] in s.t.table && !s.t.table[s.t.keys[0]]
    && s' == s.(t := Tracked(s.t.keys[1..], s.t.table - {s.t.keys[0]}), cleanOut := s.cleanOut + 1)
  }

  ghost predicate EvictsLong(p: Policy, s: State, s': State, r: Run) {
    && |s.t.keys| > 0 && Dirty(s.t.table, s.t.keys[0]) && FirstLong(s.t, s.threshold, r)
    && s' == s.(t := Cut(s.t, r), threshold := p.Raised(s.threshold), seqOut := s.seqOut + r.length)
  }

  ghost predicate EvictsShort(p: Policy, s: State, s': State, r: Run) {
    && |s.t.keys| > 0 && Dirty(s.t.table, s.t.keys[0]) && FrontRun(s.t, s.threshold, r)
    && s' == s.(t := Cut(s.t, r), threshold := p.Lowered(s.threshold), nonSeqOut := s.nonSeqOut + r.length)
  }

  ghost predicate Evicts(p: Policy, s: State, s': State) {
    || EvictsFront(s, s')
    || (exists r :: EvictsLong(p, s, s', r))
    || (exists r :: EvictsShort(p, s, s', r))
  }

  ghost function Evictions(s: State): nat { s.cleanOut + s.seqOut + s.nonSeqOut }

  /** What eviction leaves: room, the invariant, and only pages that were there, with their dirty bits. */
  ghost predicate Evicted(p: Policy, s: State, s': State, c: nat) {
    && Inv(p, s', c) && s'.t.Size() < s.t.Size()
    && s'.t.Size() + Evictions(s') == s.t.Size() + Evictions(s)
    && s'.t.table.Keys <= s.t.table.Keys && forall k :: k in s'.t.table ==> s'.t.table[k] == s.t.table[k]
  }

  lemma {:induction false} EvictsFrontKeeps(p: Policy, s: State, s': State, c: nat)
    requires Inv(p, s, c) && EvictsFront(s, s')
    ensures Evicted(p, s, s', c)
  {
    hide Distinct, Without;
    FrontOk(s.t);
    RemoveOk(s.t, s.t.keys[0]);
  }

  lemma {:induction false} EvictsLongKeeps(p: Policy, s: State, s': State, c: nat, r: Run)
    requires Inv(p, s, c) && EvictsLong(p, s, s', r)
    ensures Evicted(p, s, s', c)
  {
    hide Tracked.Ok, IsRun, NoneLong, Kept;
    CutOk(s.t, r);
  }

  lemma {:induction false} EvictsShortKeeps(p: Policy, s: State, s': State, c: nat, r: Run)
    requires Inv(p, s, c) && EvictsShort(p, s, s', r)
    ensures Evicted(p, s, s', c)
  {
    ShortThreshold(s.t, s.threshold, r);
    hide Tracked.Ok, IsRun, NoneLong, Kept;
    CutOk(s.t, r);
  }

  /** Eviction makes room, and keeps the threshold in bounds: it is raised only when a run reached it, and a
      threshold of one is always reached when the front is dirty, so one is never lowered. */
  lemma {:induction false} EvictsKeeps(p: Policy, s: State, s': State, c: nat)
    requires Inv(p, s, c) && Evicts(p, s, s')
    ensures Inv(p, s', c) && s'.t.Size() < s.t.Size()
    ensures s'.t.Size() + Evictions(s') == s.t.Size() + Evictions(s)
    ensures s'.t.table.Keys <= s.t.table.Keys && forall k :: k in s'.t.table ==> s'.t.table[k] == s.t.table[k]
  {
    hide Inv, EvictsFront, EvictsLong, EvictsShort;
    if EvictsFront(s, s') {
      EvictsFrontKeeps(p, s, s', c);
    } else if r :| EvictsLong(p, s, s', r) {
      EvictsLongKeeps(p, s, s', c, r);
    } else {
      var r :| EvictsShort(p, s, s', r);
      EvictsShortKeeps(p, s, s', c, r);
    }
  }

  lemma {:induction false} ShortThreshold(t: Tracked, threshold: int, r: Run)
    requires FrontRun(t, threshold, r)
    ensures 1 <= r.length < threshold
  {
  }

  lemma {:induction false} EvictsRecency(p: Policy, s: State, s': State, ops: seq<Access>, n: nat)
    requires n <= |ops| && ByRecency(s.t.keys, ops, n) && Evicts(p, s, s')
    ensures ByRecency(s'.t.keys, ops, n)
  {
    if EvictsFront(s, s') {
    } else if r :| EvictsLong(p, s, s', r) {
      KeptRecency(s.t.keys, r, ops, n);
    } else {
      var r :| EvictsShort(p, s, s', r);
      KeptRecency(s.t.keys, r, ops, n);
    }
  }

  // ---------- one access ----------

  /** A hit stores the request's flags, so a read hit makes the page clean. */
  function Hit(s: State, a: Access): State {
    s.(t := s.t.Removed(a.key).PushBack(a.key, a.write))
  }

  function Pushed(s: State, a: Access): State { s.(t := s.t.PushBack(a.key, a.write)) }

  ghost predicate Steps(p: Policy, s: State, c: nat, a: Access, s': State) {
    if a.key in s.t.table then s' == Hit(s, a)
    else if s.t.Size() < c then s' == Pushed(s, a)
    else exists room :: Evicts(p, s, room) && s' == Pushed(room, a)
  }

  ghost predicate DirtyIfLastWrite(s: State, ops: seq<Access>, n: nat)
    requires n <= |ops|
  {
    forall k :: k in s.t.table ==>
      LastUse(ops, n, k) > 0 && (s.t.table[k] <==> ops[LastUse(ops, n, k) - 1].write)
  }

  /** What holds of the cache after the first n accesses. */
  ghost predicate Reached(p: Policy, s: State, c: nat, ops: seq<Access>, n: nat)
    requires n <= |ops|
  {
    Inv(p, s, c) && ByRecency(s.t.keys, ops, n) && DirtyIfLastWrite(s, ops, n)
  }

  lemma {:induction false} HitKeeps(p: Policy, s: State, c: nat, ops: seq<Access>, n: nat)
    requires n < |ops| && Reached(p, s, c, ops, n) && ops[n].key in s.t.table
    ensures Reached(p, Hit(s, ops[n]), c, ops, n + 1) && Hit(s, ops[n]).t.Size() == s.t.Size()
  {
    hide Tracked.Ok, ByRecency, DirtyIfLastWrite;
    var k := ops[n].key;
    RemoveOk(s.t, k);
    PushOk(s.t.Removed(k), k, ops[n].write);
    RecencyWithout(s.t.keys, ops, n, k);
    WithoutMembers(s.t.keys, k);
    RecencyStep(Without(s.t.keys, k), ops, n);
    LastWriteStep(s, Hit(s, ops[n]), ops, n);
  }

  lemma {:induction false} PushKeeps(p: Policy, s: State, c: nat, ops: seq<Access>, n: nat)
    requires n < |ops| && Reached(p, s, c, ops, n) && ops[n].key !in s.t.table && s.t.Size() < c
    ensures Reached(p, Pushed(s, ops[n]), c, ops, n + 1) && Pushed(s, ops[n]).t.Size() == s.t.Size() + 1
  {
    hide Tracked.Ok, ByRecency, DirtyIfLastWrite;
    PushOk(s.t, ops[n].key, ops[n].write);
    NotListed(s.t, ops[n].key);
    RecencyStep(s.t.keys, ops, n);
    LastWriteStep(s, Pushed(s, ops[n]), ops, n);
  }

  lemma {:induction false} NotListed(t: Tracked, k: Key)
    requires t.Ok() && k !in t.table
    ensures k !in t.keys
  {
  }

  lemma {:induction false} LastWriteStep(s: State, s': State, ops: seq<Access>, n: nat)
    requires n < |ops| && DirtyIfLastWrite(s, ops, n)
    requires ops[n].key in s'.t.table && s'.t.table[ops[n].key] == ops[n].write
    requires forall k :: k in s'.t.table && k != ops[n].key ==> k in s.t.table && s'.t.table[k] == s.t.table[k]
    ensures DirtyIfLastWrite(s', ops, n + 1)
  {
  }

  /** Every access keeps all of it, and pages and evictions together grow by one exactly on a miss. */
  lemma {:induction false} StepKeeps(p: Policy, s: State, c: nat, ops: seq<Access>, n: nat, s': State)
    requires n < |ops| && Reached(p, s, c, ops, n) && Steps(p, s, c, ops[n], s')
    ensures Reached(p, s', c, ops, n + 1)
    ensures s'.t.Size() + Evictions(s') == s.t.Size() + Evictions(s) + if ops[n].key in s.t.table then 0 else 1
  {
    hide Reached, Evicts, Tracked.Ok;
    if ops[n].key in s.t.table {
      HitKeeps(p, s, c, ops, n);
    } else if s.t.Size() < c {
      PushKeeps(p, s, c, ops, n);
    } else {
      var room :| Evicts(p, s, room) && s' == Pushed(room, ops[n]);
      EvictReached(p, s, c, ops, n, room);
      PushKeeps(p, room, c, ops, n);
    }
  }

  lemma {:induction false} EvictReached(p: Policy, s: State, c: nat, ops: seq<Access>, n: nat, room: State)
    requires n <= |ops| && Reached(p, s, c, ops, n) && Evicts(p, s, room)
    ensures Reached(p, room, c, ops, n) && room.t.Size() < c
    ensures room.t.Size() + Evictions(room) == s.t.Size() + Evictions(s)
    ensures room.t.table.Keys <= s.t.table.Keys
  {
    hide Evicts, Tracked.Ok, ByRecency, LastUse;
    EvictsKeeps(p, s, room, c);
    EvictsRecency(p, s, room, ops, n);
  }

  // ---------- runs ----------

  /** The states over the first n accesses, and the last of them. */
  ghost predicate RunTo(p: Policy, c: nat, ops: seq<Access>, run: seq<State>, n: nat, last: State)
    requires n <= |ops|
  {
    && |run| == n + 1 && run[0] == Empty() && run[n] == last
    && forall i :: 0 <= i < n ==> Steps(p, run[i], c, ops[i], run[i + 1])
  }

  ghost predicate RunOf(p: Policy, c: nat, ops: seq<Access>, run: seq<State>) {
    |run| > 0 && RunTo(p, c, ops, run, |ops|, run[|run| - 1])
  }

  ghost function MissesOf(ops: seq<Access>, run: seq<State>, n: nat): nat
    requires n <= |ops| && n <= |run|
  {
    if n == 0 then 0 else MissesOf(ops, run, n - 1) + if ops[n - 1].key in run[n - 1].t.table then 0 else 1
  }

  /** In every run of every variant: list and table agree and fit the capacity, the threshold is within its bounds,
      the list is in recency order, a page is dirty exactly if its last access was a write, and every miss is a
      cached page or an eviction. */
  lemma {:induction false} EveryRun(p: Policy, c: nat, ops: seq<Access>, run: seq<State>, n: nat)
    requires c > 0 && RunOf(p, c, ops, run) && n <= |ops|
    ensures Reached(p, run[n], c, ops, n)
    ensures run[n].t.Size() + Evictions(run[n]) == MissesOf(ops, run, n)
  {
    hide *;
    if n == 0 {
      RunStarts(p, c, ops, run);
    } else {
      EveryRun(p, c, ops, run, n - 1);
      RunStep(p, c, ops, run, n);
      StepKeeps(p, run[n - 1], c, ops, n - 1, run[n]);
    }
  }

  lemma {:induction false} RunStarts(p: Policy, c: nat, ops: seq<Access>, run: seq<State>)
    requires c > 0 && RunOf(p, c, ops, run)
    ensures |run| > 0 && Reached(p, run[0], c, ops, 0)
    ensures run[0].t.Size() + Evictions(run[0]) == MissesOf(ops, run, 0)
  {
    hide Steps, Reached, Evictions;
    EmptyReached(p, c, ops);
  }

  lemma {:induction false} EmptyReached(p: Policy, c: nat, ops: seq<Access>)
    requires c > 0
    ensures Reached(p, Empty(), c, ops, 0) && Empty().t.Size() + Evictions(Empty()) == 0
  {
  }

  lemma {:induction false} RunStep(p: Policy, c: nat, ops: seq<Access>, run: seq<State>, n: nat)
    requires RunOf(p, c, ops, run) && 0 < n <= |ops|
    ensures |run| == |ops| + 1 && Steps(p, run[n - 1], c, ops[n - 1], run[n])
    ensures MissesOf(ops, run, n)
      == MissesOf(ops, run, n - 1) + if ops[n - 1].key in run[n - 1].t.table then 0 else 1
  {
    hide Steps;
    assert Steps(p, run[n - 1], c, ops[n - 1], run[n - 1 + 1]);
  }

  // ---------- the threshold ----------

  /** The access wrote back a run that was long enough, or for want of one the run of the front. */
  ghost predicate Long(s: State, s': State) { s'.seqOut > s.seqOut }

  ghost predicate Short(s: State, s': State) { s'.nonSeqOut > s.nonSeqOut }

  /** What an access does to the threshold: a long eviction adds one or doubles it, a short one subtracts one or halves
      it, rounding down, and nothing else changes it. */
  ghost predicate ThresholdAfter(p: Policy, s: State, s': State) {
    && !(Long(s, s') && Short(s, s'))
    && (Long(s, s') ==> s'.threshold == if p == DoubleSubtract then 2 * s.threshold else s.threshold + 1)
    && (Short(s, s') ==> if p == AddHalve then 2 * s'.threshold <= s.threshold < 2 * s'.threshold + 2
                         else s'.threshold == s.threshold - 1)
    && (!Long(s, s') && !Short(s, s') ==> s'.threshold == s.threshold)
  }

  lemma {:induction false} EvictsThreshold(p: Policy, s: State, s': State, c: nat)
    requires Inv(p, s, c) && Evicts(p, s, s')
    ensures ThresholdAfter(p, s, s')
  {
    hide Tracked.Ok, Cut, NoneLong;
    if EvictsFront(s, s') {
    } else if r :| EvictsLong(p, s, s', r) {
      assert r.length >= 1;
    } else {
      var r :| EvictsShort(p, s, s', r);
      assert r.length >= 1;
    }
  }

  lemma {:induction false} StepThreshold(p: Policy, s: State, c: nat, a: Access, s': State)
    requires Inv(p, s, c) && Steps(p, s, c, a, s')
    ensures ThresholdAfter(p, s, s')
  {
    hide Evicts, Inv;
    if a.key !in s.t.table && s.t.Size() >= c {
      var room :| Evicts(p, s, room) && s' == Pushed(room, a);
      EvictsThreshold(p, s, room, c);
    }
  }

  // ---------- who is evicted ----------

  /** All pages from x up to, but not including, y are cached dirty. */
  ghost predicate AllDirty(m: map<Key, bool>, x: int, y: int) {
    forall j: int :: x <= j < y ==> Dirty(m, j)
  }

  /** The n pages from x on are dirty, and k is among them. */
  ghost predicate RowOf(m: map<Key, bool>, x: int, n: int, k: int) {
    x <= k < x + n && AllDirty(m, x, x + n)
  }

  /** n dirty pages in a row have k among them. */
  ghost predicate Around(m: map<Key, bool>, k: int, n: int) {
    exists x: int :: RowOf(m, x, n, k)
  }

  /** All pages from the one to the other are dirty. */
  ghost predicate Linked(m: map<Key, bool>, j: int, k: int) {
    AllDirty(m, j, k + 1) && AllDirty(m, k, j + 1) && Dirty(m, k)
  }

  ghost predicate Leaves(s: State, s': State, k: int) {
    k >= 0 && k in s.t.table && k !in s'.t.table
  }

  /** A long eviction takes the first key, from the least recently used one, around which as many dirty pages in a row
      are cached as the threshold says; a short one takes the least recently used key, for want of such a key. With the
      key go exactly the pages linked to it. Both need that key to be dirty; a clean one goes alone. */
  ghost predicate Whom(s: State, s': State) {
    var keys, m := s.t.keys, s.t.table;
    && (Long(s, s') ==>
          exists i :: 0 <= i < |keys| && Leaves(s, s', keys[i]) && Around(m, keys[i], s.threshold)
                      && forall j :: 0 <= j < i ==> !Around(m, keys[j], s.threshold))
    && (Short(s, s') ==>
          && keys != [] && Leaves(s, s', keys[0])
          && forall j :: 0 <= j < |keys| ==> !Around(m, keys[j], s.threshold))
    && (Long(s, s') || Short(s, s') ==>
          && keys != [] && Dirty(m, keys[0])
          && forall j, k :: Leaves(s, s', j) ==> (Leaves(s, s', k) <==> Linked(m, j, k)))
    && (!Long(s, s') && !Short(s, s') ==>
          forall k :: Leaves(s, s', k) ==> keys != [] && k == keys[0] && !m[k])
  }

  lemma {:induction false} RunUp(m: map<Key, bool>, k: int, bound: nat) returns (e: int)
    requires forall x :: x in m ==> x < bound
    ensures e >= k && AllDirty(m, k, e) && !Dirty(m, e)
    decreases bound - k
  {
    e := k;
    if Dirty(m, k) { e := RunUp(m, k + 1, bound); }
  }

  lemma {:induction false} RunDown(m: map<Key, bool>, k: int) returns (b: int)
    requires k >= -1
    ensures -1 <= b <= k && AllDirty(m, b + 1, k + 1) && !Dirty(m, b)
    decreases k + 1
  {
    b := k;
    if Dirty(m, k) { b := RunDown(m, k - 1); }
  }

  lemma {:induction false} RunThrough(m: map<Key, bool>, k: Key) returns (r: Run)
    requires Dirty(m, k)
    ensures IsRun(m, r) && r.Has(k)
  {
    var bound := KeyBound(m.Keys);
    var e := RunUp(m, k, bound);
    var b := RunDown(m, k);
    r := Run(b + 1, e - b - 1);
    forall x: int | r.Has(x) ensures Dirty(m, x) {
      if x < k { assert b + 1 <= x < k + 1; }
    }
  }

  /** A maximal run is as long as the longest row of dirty pages around one of its pages. */
  lemma {:induction false} AroundRun(m: map<Key, bool>, r: Run, k: int, n: int)
    requires IsRun(m, r) && r.Has(k) && n >= 1
    ensures Around(m, k, n) <==> r.length >= n
  {
    if r.length >= n {
      var x: int := if k - n + 1 < r.start then r.start else k - n + 1;
      forall j: int | x <= j < x + n ensures Dirty(m, j) { assert r.Has(j); }
      assert RowOf(m, x, n, k);
    }
    if Around(m, k, n) {
      var x: int :| RowOf(m, x, n, k);
      assert !Dirty(m, r.start - 1) && !Dirty(m, r.start + r.length);
      assert x >= r.start && x + n <= r.start + r.length;
    }
  }

  lemma {:induction false} AroundDirty(m: map<Key, bool>, k: int, n: int)
    requires Around(m, k, n)
    ensures Dirty(m, k)
  {
    var x: int :| RowOf(m, x, n, k);
    assert Dirty(m, k);
  }

  /** Where no run reaches the threshold, no row does. */
  lemma {:induction false} NoneAround(t: Tracked, n: int, i: nat)
    requires i <= |t.keys| && NoneLong(t, n, i) && n >= 1
    ensures forall j :: 0 <= j < i ==> !Around(t.table, t.keys[j], n)
  {
    hide Around, IsRun;
    forall j | 0 <= j < i ensures !Around(t.table, t.keys[j], n) {
      if Around(t.table, t.keys[j], n) {
        AroundDirty(t.table, t.keys[j], n);
        var r := RunThrough(t.table, t.keys[j]);
        AroundRun(t.table, r, t.keys[j], n);
      }
    }
  }

  /** Pages of the same run are linked, and no others. */
  lemma {:induction false} RunLinks(m: map<Key, bool>, r: Run, j: int, k: int)
    requires IsRun(m, r) && r.Has(j)
    ensures r.Has(k) <==> Linked(m, j, k)
  {
    if k < r.start {
      assert !Dirty(m, r.start - 1);
      assert !AllDirty(m, k, j + 1);
    } else if k >= r.start + r.length {
      assert !Dirty(m, r.start + r.length);
      assert !AllDirty(m, j, k + 1);
    } else {
      assert r.Has(k);
      assert forall i: int :: j <= i <= k || k <= i <= j ==> r.Has(i);
    }
  }

  lemma {:induction false} RunLeaves(s: State, s': State, r: Run)
    requires IsRun(s.t.table, r) && s'.t == Cut(s.t, r)
    ensures forall k: int :: Leaves(s, s', k) <==> r.Has(k)
    ensures forall j: int, k: int :: Leaves(s, s', j) ==> (Leaves(s, s', k) <==> Linked(s.t.table, j, k))
  {
    forall k: int ensures Leaves(s, s', k) <==> r.Has(k) {
      if r.Has(k) { assert Dirty(s.t.table, k); }
    }
    hide IsRun, Leaves, Linked, Cut;
    forall j: int, k: int | Leaves(s, s', j) ensures Leaves(s, s', k) <==> Linked(s.t.table, j, k) {
      RunLinks(s.t.table, r, j, k);
    }
  }

  lemma {:induction false} LongWhom(p: Policy, s: State, s': State, c: nat, r: Run)
    requires Inv(p, s, c) && EvictsLong(p, s, s', r)
    ensures Whom(s, s')
  {
    hide Tracked.Ok, NoneLong, Around, Linked, Leaves, Cut;
    assert r.length >= 1;
    RunLeaves(s, s', r);
    var i :| 0 <= i < |s.t.keys| && r.Has(s.t.keys[i]) && NoneLong(s.t, s.threshold, i);
    NoneAround(s.t, s.threshold, i);
    AroundRun(s.t.table, r, s.t.keys[i], s.threshold);
    assert Leaves(s, s', s.t.keys[i]);
  }

  lemma {:induction false} ShortWhom(p: Policy, s: State, s': State, c: nat, r: Run)
    requires Inv(p, s, c) && EvictsShort(p, s, s', r)
    ensures Whom(s, s')
  {
    hide Tracked.Ok, NoneLong, Around, Linked, Leaves, Cut;
    assert r.length >= 1;
    RunLeaves(s, s', r);
    NoneAround(s.t, s.threshold, |s.t.keys|);
  }

  /** The pages that leave for an access. */
  lemma {:induction false} StepWhom(p: Policy, s: State, c: nat, a: Access, s': State)
    requires Inv(p, s, c) && Steps(p, s, c, a, s')
    ensures Whom(s, s')
  {
    hide Inv, EvictsFront, EvictsLong, EvictsShort, Around, Linked;
    if a.key in s.t.table || s.t.Size() < c {
      assert forall k: int :: !Leaves(s, s', k);
    } else {
      var room :| Evicts(p, s, room) && s' == Pushed(room, a);
      if EvictsFront(s, room) {
        FrontWhom(s, room);
      } else if r :| EvictsLong(p, s, room, r) {
        LongWhom(p, s, room, c, r);
      } else {
        var r :| EvictsShort(p, s, room, r);
        ShortWhom(p, s, room, c, r);
      }
      PushedWhom(s, room, a);
    }
  }

  lemma {:induction false} FrontWhom(s: State, s': State)
    requires EvictsFront(s, s')
    ensures Whom(s, s')
  {
    hide Around, Linked;
  }

  lemma {:induction false} PushedWhom(s: State, room: State, a: Access)
    requires Whom(s, room) && a.key !in s.t.table
    ensures Whom(s, Pushed(room, a))
  {
    var s' := Pushed(room, a);
    assert forall k: int :: Leaves(s, s', k) <==> Leaves(s, room, k);
    hide Leaves, Around, Linked;
  }

  /** Long and short evictions among accesses i to n. */
  ghost function Longs(run: seq<State>, i: nat, n: nat): nat
    requires i <= n < |run|
  {
    if n == i then 0 else Longs(run, i, n - 1) + if Long(run[n - 1], run[n]) then 1 else 0
  }

  ghost function Shorts(run: seq<State>, i: nat, n: nat): nat
    requires i <= n < |run|
  {
    if n == i then 0 else Shorts(run, i, n - 1) + if Short(run[n - 1], run[n]) then 1 else 0
  }

  function Power(k: nat): nat { if k == 0 then 1 else 2 * Power(k - 1) }

  lemma {:induction false} RunThreshold(p: Policy, c: nat, ops: seq<Access>, run: seq<State>, n: nat)
    requires c > 0 && RunOf(p, c, ops, run) && 0 < n <= |ops|
    ensures |run| == |ops| + 1 && ThresholdAfter(p, run[n - 1], run[n]) && run[n].threshold >= 1
    ensures run[n - 1].threshold >= 1
  {
    hide *;
    EveryRun(p, c, ops, run, n - 1);
    EveryRun(p, c, ops, run, n);
    RunStep(p, c, ops, run, n);
    ReachedInv(p, run[n - 1], c, ops, n - 1);
    ReachedInv(p, run[n], c, ops, n);
    StepThreshold(p, run[n - 1], c, ops[n - 1], run[n]);
  }

  lemma {:induction false} ReachedInv(p: Policy, s: State, c: nat, ops: seq<Access>, n: nat)
    requires n <= |ops| && Reached(p, s, c, ops, n)
    ensures Inv(p, s, c) && s.threshold >= 1
  {
  }

  /** Adding and subtracting: in every run the threshold is one, plus the long evictions, less the short ones. */
  lemma {:induction false} ThresholdCounts(c: nat, ops: seq<Access>, run: seq<State>, n: nat)
    requires c > 0 && RunOf(AddSubtract, c, ops, run) && n <= |ops|
    ensures |run| == |ops| + 1 && run[n].threshold == 1 + Longs(run, 0, n) - Shorts(run, 0, n)
  {
    hide Steps, Long, Short;
    if n > 0 {
      ThresholdCounts(c, ops, run, n - 1);
      RunThreshold(AddSubtract, c, ops, run, n);
    }
  }

  /** Over any stretch of a run without short evictions the long ones each add one, or each double the threshold. */
  lemma {:induction false} LongStretch(p: Policy, c: nat, ops: seq<Access>, run: seq<State>, i: nat, n: nat)
    requires c > 0 && RunOf(p, c, ops, run) && i <= n <= |ops|
    ensures |run| == |ops| + 1
    ensures Shorts(run, i, n) == 0 ==>
      run[n].threshold == if p == DoubleSubtract then run[i].threshold * Power(Longs(run, i, n))
                          else run[i].threshold + Longs(run, i, n)
  {
    hide Steps, Long, Short;
    if n > i {
      LongStretch(p, c, ops, run, i, n - 1);
      RunThreshold(p, c, ops, run, n);
      TwiceMore(run[i].threshold, Longs(run, i, n - 1));
    }
  }

  lemma {:induction false} TwiceMore(t: int, k: nat)
    ensures t * Power(k + 1) == 2 * (t * Power(k))
  {
  }

  /** Over any stretch of a run without long evictions the short ones each subtract one; or together divide the
      threshold by a power of two, rounding down. */
  lemma {:induction false} ShortStretch(p: Policy, c: nat, ops: seq<Access>, run: seq<State>, i: nat, n: nat)
    requires c > 0 && RunOf(p, c, ops, run) && i <= n <= |ops|
    ensures |run| == |ops| + 1
    ensures Longs(run, i, n) == 0 && p != AddHalve ==> run[n].threshold == run[i].threshold - Shorts(run, i, n)
    ensures Longs(run, i, n) == 0 && p == AddHalve ==>
      var q := Power(Shorts(run, i, n));
      run[n].threshold * q <= run[i].threshold < (run[n].threshold + 1) * q
  {
    hide Steps, Long, Short;
    if n > i {
      ShortStretch(p, c, ops, run, i, n - 1);
      RunThreshold(p, c, ops, run, n);
      if p == AddHalve && Longs(run, i, n) == 0 && Short(run[n - 1], run[n]) {
        HalfMore(run[i].threshold, run[n - 1].threshold, run[n].threshold, Shorts(run, i, n - 1));
      }
    }
  }

  lemma {:induction false} MulLe(a: int, b: int, q: nat)
    requires a <= b
    ensures a * q <= b * q
  {
    assert (b - a) * q == b * q - a * q;
  }

  lemma {:induction false} HalfMore(t: int, u: int, v: int, k: nat)
    requires u * Power(k) <= t < (u + 1) * Power(k) && 2 * v <= u < 2 * v + 2
    ensures v * Power(k + 1) <= t < (v + 1) * Power(k + 1)
  {
    TwiceMore(v, k);
    TwiceMore(v + 1, k);
    MulLe(2 * v, u, Power(k));
    MulLe(u + 1, 2 * v + 2, Power(k));
    Regroup(v, Power(k));
    Regroup(v + 1, Power(k));
    hide Power;
  }

  lemma {:induction false} Regroup(v: int, q: nat)
    ensures (2 * v) * q == 2 * (v * q)
  {
  }

  class DynamicLruCache {
    const policy: Policy
    const capacity: nat
    var keyTracker: seq<Key>
    var keyToValue: map<Key, bool>
    var threshold: int
    var totalEvictedCleanPages: nat
    var totalSeqEvictedDirtyPages: nat
    var totalNonSeqEvictedDirtyPages: nat

    ghost function View(): State
      reads this
    {
      State(Tracked(keyTracker, keyToValue), threshold,
            totalEvictedCleanPages, totalSeqEvictedDirtyPages, totalNonSeqEvictedDirtyPages)
    }

    ghost predicate Valid()
      reads this
    {
      Inv(policy, View(), capacity)
    }

    constructor (p: Policy, c: nat)
      requires c != 0
      ensures Valid() && View() == Empty() && policy == p && capacity == c
    {
      policy, capacity, keyTracker, keyToValue, threshold := p, c, [], map[], 1;
      totalEvictedCleanPages, totalSeqEvictedDirtyPages, totalNonSeqEvictedDirtyPages := 0, 0, 0;
    }

    /** One access; the flags of a request hold WRITE exactly for writes. */
    method Access(k: Key, flags: Status) returns (status: Status)
      requires Valid() && flags !! {DIRTY, PAGEHIT, PAGEMISS, EVICT, SEQEVICT, LESSSEQEVICT}
      modifies this
      ensures Valid()
      ensures Steps(policy, old(View()), capacity, TrackedPages.Access(k, WRITE in flags), View())
      ensures Whom(old(View()), View())
      ensures PAGEHIT in status <==> k in old(keyToValue)
      ensures PAGEMISS in status <==> k !in old(keyToValue)
      ensures EVICT in status <==> k !in old(keyToValue) && old(|keyToValue|) == capacity
      ensures SEQEVICT in status <==> Long(old(View()), View())
      ensures LESSSEQEVICT in status <==> Short(old(View()), View())
      ensures flags <= status <= flags + {DIRTY, PAGEHIT, BLKHIT, PAGEMISS, EVICT, SEQEVICT, LESSSEQEVICT}
      ensures DIRTY in status <==> WRITE in flags
      ensures BLKHIT in status <==> BLKHIT in flags || k in old(keyToValue)
    {
      hide Inv, Steps, Long, Short, Whom;
      ghost var s := View();
      ghost var hit, full := k in keyToValue, |keyToValue| == capacity;
      status := flags;
      if WRITE in flags {
        status := status + {DIRTY};
      }
      ghost var status0 := status;
      var added: Status;
      if k !in keyToValue {
        added := Insert(k, WRITE in flags, status);
        MissFlags(status0, added);
        added := added + {PAGEMISS};
      } else {
        Touch(k, WRITE in flags);
        HitFlags(status0);
        added := {PAGEHIT, BLKHIT};
      }
      status := status + added;
      StepWhom(policy, s, capacity, TrackedPages.Access(k, WRITE in flags), View());
    }

    /** A hit: the key moves to the back with the new flags. */
    method Touch(k: Key, write: bool)
      requires Valid() && k in keyToValue
      modifies this`keyTracker, this`keyToValue
      ensures Valid() && Steps(policy, old(View()), capacity, TrackedPages.Access(k, write), View())
      ensures !Long(old(View()), View()) && !Short(old(View()), View())
    {
      hide Tracked.Ok, Without, Evicts;
      RemoveOk(View().t, k);
      keyToValue := keyToValue - {k};
      keyTracker := Without(keyTracker, k);
      assert |keyToValue| < capacity;
      PushOk(View().t, k, write);
      keyTracker := keyTracker + [k];
      keyToValue := keyToValue[k := write];
    }

    method Insert(k: Key, dirty: bool, status0: Status) returns (localStatus: Status)
      requires Valid() && k !in keyToValue && status0 !! {PAGEHIT, PAGEMISS, EVICT, SEQEVICT, LESSSEQEVICT}
      modifies this
      ensures Valid()
      ensures Steps(policy, old(View()), capacity, TrackedPages.Access(k, dirty), View())
      ensures localStatus !! {PAGEHIT, PAGEMISS} && localStatus <= status0 + {EVICT, SEQEVICT, LESSSEQEVICT}
      ensures EVICT in localStatus <==> old(|keyToValue|) == capacity
      ensures SEQEVICT in localStatus <==> Long(old(View()), View())
      ensures LESSSEQEVICT in localStatus <==> Short(old(View()), View())
    {
      hide Tracked.Ok, Without, Evicts;
      localStatus := {};
      if |keyToValue| == capacity {
        ghost var s := View();
        var status := Evict(status0);
        EvictsKeeps(policy, s, View(), capacity);
        localStatus := {EVICT} + status;
      }
      PushOk(View().t, k, dirty);
      keyTracker := keyTracker + [k];
      keyToValue := keyToValue[k := dirty];
    }

    /** A clean front is dropped alone; otherwise the first long enough run in recency order, or failing that the run
        of the front, is written back and dropped. */
    method Evict(status0: Status) returns (status: Status)
      requires Valid() && |keyToValue| == capacity
      requires status0 !! {PAGEHIT, PAGEMISS, EVICT, SEQEVICT, LESSSEQEVICT}
      modifies this
      ensures Evicts(policy, old(View()), View())
      ensures status !! {PAGEHIT, PAGEMISS, EVICT} && status <= status0 + {SEQEVICT, LESSSEQEVICT}
      ensures SEQEVICT in status <==> Long(old(View()), View())
      ensures LESSSEQEVICT in status <==> Short(old(View()), View())
    {
      hide Without, Cut, Distinct, IsRun, NoneLong;
      FrontOk(View().t);
      status := status0;
      var front := keyTracker[0];
      if !keyToValue[front] {
        keyToValue := keyToValue - {front};
        keyTracker := keyTracker[1..];
        totalEvictedCleanPages := totalEvictedCleanPages + 1;
      } else {
        var evicted := EvictLongRun();
        if evicted {
          status := status + {SEQEVICT};
        } else {
          EvictFrontRun();
          status := status + {LESSSEQEVICT};
        }
      }
    }

    /** The scan of the recency list for a dirty page whose run reaches the threshold. */
    method EvictLongRun() returns (evicted: bool)
      requires Valid() && |keyTracker| > 0 && Dirty(keyToValue, keyTracker[0])
      modifies this
      ensures evicted ==> exists r :: EvictsLong(policy, old(View()), View(), r)
      ensures evicted ==> Long(old(View()), View()) && !Short(old(View()), View())
      ensures !evicted ==> View() == old(View()) && NoneLong(View().t, threshold, |keyTracker|)
    {
      hide Without, Cut, Distinct, NoneLong, IsRun;
      evicted := false;
      var i := 0;
      NoneLongStarts(View().t, threshold);
      while i < |keyTracker|
        invariant i <= |keyTracker| && View() == old(View()) && !evicted
        invariant NoneLong(View().t, threshold, i)
      {
        if keyToValue[keyTracker[i]] {
          var r := FindRun(keyToValue, keyTracker[i]);
          if r.length > threshold - 1 {
            threshold := policy.Raised(threshold);
            totalSeqEvictedDirtyPages := totalSeqEvictedDirtyPages + r.length;
            Remove(r);
            evicted := true;
            assert FirstLong(old(View()).t, old(threshold), r);
            assert EvictsLong(policy, old(View()), View(), r);
            RunLonger(old(View()).t.table, r);
            return;
          }
          NoneLongNext(View().t, threshold, i, r);
        } else {
          NoneLongClean(View().t, threshold, i);
        }
        i := i + 1;
      }
    }

    method EvictFrontRun()
      requires Valid() && |keyTracker| > 0 && Dirty(keyToValue, keyTracker[0])
      requires NoneLong(View().t, threshold, |keyTracker|)
      modifies this
      ensures exists r :: EvictsShort(policy, old(View()), View(), r)
      ensures Short(old(View()), View()) && !Long(old(View()), View())
    {
      hide Without, Cut, Distinct, NoneLong, IsRun;
      threshold := policy.Lowered(threshold);
      var r := FindRun(keyToValue, keyTracker[0]);
      totalNonSeqEvictedDirtyPages := totalNonSeqEvictedDirtyPages + r.length;
      Remove(r);
      assert FrontRun(old(View()).t, old(threshold), r);
      assert EvictsShort(policy, old(View()), View(), r);
      RunLonger(old(View()).t.table, r);
    }

    /** Erases the pages of a run one by one; each is found. */
    method Remove(r: Run)
      requires IsRun(keyToValue, r)
      modifies this`keyTracker, this`keyToValue
      ensures View().t == Cut(old(View()).t, r)
    {
      hide Without, Kept;
      ghost var keys, m := keyTracker, keyToValue;
      KeptNone(keys, r.start);
      var z := 0;
      while z < r.length
        invariant z <= r.length
        invariant keyTracker == Kept(keys, Run(r.start, z))
        invariant keyToValue == m - Run(r.start, z).Keys()
      {
        KeptMore(keys, r.start, z);
        assert r.Has(r.start + z);
        assert r.start + z in keyToValue;
        keyToValue := keyToValue - {r.start + z};
        keyTracker := Without(keyTracker, r.start + z);
        z := z + 1;
      }
      assert Run(r.start, z) == r;
    }
  }

  lemma {:induction false} MissFlags(flags: Status, added: Status)
    requires flags !! {PAGEHIT, PAGEMISS, EVICT, SEQEVICT, LESSSEQEVICT} && added !! {PAGEHIT, PAGEMISS}
    ensures var r := flags + (added + {PAGEMISS});
      && PAGEHIT !in r && PAGEMISS in r && (EVICT in r <==> EVICT in added)
      && (SEQEVICT in r <==> SEQEVICT in added) && (LESSSEQEVICT in r <==> LESSSEQEVICT in added)
  {
  }

  lemma {:induction false} HitFlags(flags: Status)
    requires flags !! {PAGEHIT, PAGEMISS, EVICT, SEQEVICT, LESSSEQEVICT}
    ensures var r := flags + {PAGEHIT, BLKHIT};
      PAGEHIT in r && PAGEMISS !in r && EVICT !in r && SEQEVICT !in r && LESSSEQEVICT !in r
  {
  }

  lemma {:induction false} RunLonger(m: map<Key, bool>, r: Run)
    requires IsRun(m, r)
    ensures r.length >= 1
  {
  }

  lemma {:induction false} NoneLongStarts(t: Tracked, threshold: int)
    ensures NoneLong(t, threshold, 0)
  {
  }

  lemma {:induction false} NoneLongNext(t: Tracked, threshold: int, i: nat, r: Run)
    requires i < |t.keys| && NoneLong(t, threshold, i)
    requires IsRun(t.table, r) && r.Has(t.keys[i]) && r.length < threshold
    ensures NoneLong(t, threshold, i + 1)
  {
    forall q | IsRun(t.table, q) && q.Has(t.keys[i]) ensures q == r {
      RunUnique(t.table, q, r, t.keys[i]);
    }
  }

  lemma {:induction false} NoneLongClean(t: Tracked, threshold: int, i: nat)
    requires i < |t.keys| && NoneLong(t, threshold, i) && !Dirty(t.table, t.keys[i])
    ensures NoneLong(t, threshold, i + 1)
  {
  }

  /** The cache run over a trace from empty, counting misses. */
  method Simulate(p: Policy, c: nat, ops: seq<Access>) returns (misses: nat, cached: set<Key>, ghost run: seq<State>)
    requires c != 0
    ensures RunOf(p, c, ops, run) && misses == MissesOf(ops, run, |ops|)
    ensures cached == run[|ops|].t.table.Keys && |cached| <= c
  {
    hide Steps, MissesOf, Inv, RunTo;
    var cache := new DynamicLruCache(p, c);
    misses, run := 0, [cache.View()];
    RunToNothing(p, c, ops);
    var i := 0;
    while i < |ops|
      invariant i <= |ops| && fresh(cache) && cache.Valid() && cache.policy == p && cache.capacity == c
      invariant |run| == i + 1 && RunTo(p, c, ops, run, i, cache.View()) && misses == MissesOf(ops, run, i)
    {
      ghost var s := cache.View();
      var flags: Status := if ops[i].write then {WRITE} else {READ};
      flags := cache.Access(ops[i].key, flags);
      RunToExtend(p, c, ops, run, s, cache.View(), i);
      run := run + [cache.View()];
      if PAGEMISS in flags { misses := misses + 1; }
      i := i + 1;
    }
    cached := cache.keyToValue.Keys;
    InvSize(p, cache.View(), c);
    RunToWhole(p, c, ops, run, cache.View());
  }

  lemma {:induction false} RunToNothing(p: Policy, c: nat, ops: seq<Access>)
    ensures RunTo(p, c, ops, [Empty()], 0, Empty()) && MissesOf(ops, [Empty()], 0) == 0
  {
  }

  lemma {:induction false} RunToExtend(p: Policy, c: nat, ops: seq<Access>, run: seq<State>, s: State, s': State,
                                       n: nat)
    requires n < |ops| && RunTo(p, c, ops, run, n, s) && Steps(p, s, c, ops[n], s')
    ensures RunTo(p, c, ops, run + [s'], n + 1, s') && |run| == n + 1
    ensures MissesOf(ops, run + [s'], n + 1) == MissesOf(ops, run, n) + if ops[n].key in s.t.table then 0 else 1
  {
    hide Steps;
    MissesPrefix(ops, run, run + [s'], n);
  }

  lemma {:induction false} RunToWhole(p: Policy, c: nat, ops: seq<Access>, run: seq<State>, s: State)
    requires RunTo(p, c, ops, run, |ops|, s)
    ensures RunOf(p, c, ops, run) && |run| == |ops| + 1 && run[|ops|] == s
  {
    hide Steps;
  }

  lemma {:induction false} InvSize(p: Policy, s: State, c: nat)
    requires Inv(p, s, c)
    ensures |s.t.table.Keys| <= c
  {
    assert |s.t.table.Keys| == |s.t.table|;
  }

  lemma {:induction false} MissesPrefix(ops: seq<Access>, a: seq<State>, b: seq<State>, n: nat)
    requires n <= |ops| && n <= |a| && a <= b
    ensures MissesOf(ops, a, n) == MissesOf(ops, b, n)
  {
    if n > 0 { MissesPrefix(ops, a, b, n - 1); }
  }
}
