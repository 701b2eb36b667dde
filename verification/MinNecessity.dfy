/** Every pattern that is not safe has a trace on which furthest-next-use replacement is beaten. */
module MinNecessity {
  import opened Trace
  import opened MinOptimality

  // ---------- runs, built step by step ----------

  ghost predicate Prefix(t: seq<Request>, c: nat, run: seq<set<Key>>, n: nat) {
    && n <= |t| && |run| == n + 1 && run[0] == {}
    && forall i :: 0 <= i < n ==> HeapStep(t, i, c, run[i], run[i + 1])
  }

  lemma {:induction false} PrefixPlus(t: seq<Request>, c: nat, run: seq<set<Key>>, n: nat, s: set<Key>)
    requires Prefix(t, c, run, n) && n < |t| && HeapStep(t, n, c, run[n], s)
    ensures Prefix(t, c, run + [s], n + 1)
  {
    hide HeapStep;
  }

  /** u does not come before v in the heap. */
  ghost predicate NotAhead(t: seq<Request>, n: nat, u: Key, v: Key)
    requires n <= |t|
  {
    && NextUse(t, n, u) <= NextUse(t, n, v)
    && (NextUse(t, n, u) == NextUse(t, n, v) ==> LastRequest(t, n, v) <= LastRequest(t, n, u))
  }

  lemma {:induction false} AheadTrans(t: seq<Request>, n: nat, k: Key, u: Key, v: Key)
    requires n <= |t|
    ensures NotAhead(t, n, v, v) && (NotAhead(t, n, u, v) || NotAhead(t, n, v, u))
    ensures NotAhead(t, n, k, u) && NotAhead(t, n, u, v) ==> NotAhead(t, n, k, v)
  {
    hide NextUse, LastRequest;
  }

  lemma {:induction false} FrontExists(t: seq<Request>, n: nat, s: set<Key>) returns (v: Key)
    requires n <= |t| && s != {}
    ensures v in s && forall u :: u in s ==> NotAhead(t, n, u, v)
  {
    hide NotAhead;
    var w :| w in s;
    var rest := s - {w};
    v := w;
    if rest != {} {
      var u := FrontExists(t, n, rest);
      v := if NotAhead(t, n, u, w) then w else u;
      forall k | k in s ensures NotAhead(t, n, k, v) {
        assert k in rest || k == w;
        AheadTrans(t, n, k, u, w);
      }
    } else {
      forall k | k in s ensures NotAhead(t, n, k, v) {
        assert k in rest || k == w;
        AheadTrans(t, n, k, k, k);
      }
    }
  }

  lemma {:induction false} FrontIs(t: seq<Request>, n: nat, s: set<Key>, v: Key)
    requires n <= |t| && v in s && forall u :: u in s ==> NotAhead(t, n, u, v)
    ensures IsFront(t, n, s, v)
  {
    hide NextUse, LastRequest;
  }

  lemma {:induction false} StepExists(t: seq<Request>, c: nat, n: nat, s: set<Key>) returns (s': set<Key>)
    requires n < |t| && c >= 1
    ensures HeapStep(t, n, c, s, s')
  {
    hide IsFront;
    var k := t[n].key;
    if k in s || !t[n].write {
      s' := s;
    } else if |s| < c {
      s' := s + {k};
    } else {
      var v := FrontExists(t, n + 1, s);
      FrontIs(t, n + 1, s, v);
      s' := s - {v} + {k};
    }
  }

  /** A run can be carried on. */
  lemma {:induction false} Extend(t: seq<Request>, c: nat, run: seq<set<Key>>, n: nat, n': nat)
      returns (run': seq<set<Key>>)
    requires Prefix(t, c, run, n) && n <= n' <= |t| && c >= 1
    ensures Prefix(t, c, run', n') && run <= run'
  {
    run' := run;
    if n < n' {
      var r := Extend(t, c, run, n, n' - 1);
      var s := StepExists(t, c, n' - 1, r[n' - 1]);
      PrefixPlus(t, c, r, n' - 1, s);
      run' := r + [s];
    }
  }

  // ---------- two schedules compared ----------

  /** The two are the same up to the request at e. */
  lemma {:induction false} SameMisses(t: seq<Request>, a: seq<set<Key>>, b: seq<set<Key>>, n: nat)
    requires n <= |t| && n <= |a| && n <= |b| && forall m :: 0 <= m < n ==> a[m] == b[m]
    ensures Misses(t, a, n) == Misses(t, b, n)
  {
    if n > 0 { SameMisses(t, a, b, n - 1); }
  }

  /** After e all requests but at most the one at h are missed. */
  ghost predicate HitsOnlyAt(t: seq<Request>, run: seq<set<Key>>, e: nat, h: nat) {
    |run| == |t| + 1 && forall m :: e < m < |t| && m != h ==> t[m].key !in run[m]
  }

  lemma {:induction false} MissesFrom(t: seq<Request>, run: seq<set<Key>>, e: nat, h: nat, n: nat)
    requires HitsOnlyAt(t, run, e, h) && e < n <= |t|
    ensures Misses(t, run, n) >= Misses(t, run, e + 1) + (n - e - 1) - (if h < n then 1 else 0)
  {
    if n > e + 1 { MissesFrom(t, run, e, h, n - 1); }
  }

  lemma {:induction false} HitsTwice(t: seq<Request>, sched: seq<set<Key>>, e: nat, h1: nat, h2: nat, n: nat)
    requires e < n <= |t| && |sched| == |t| + 1 && e < h1 < h2 < |t|
    requires t[h1].key in sched[h1] && t[h2].key in sched[h2]
    ensures Misses(t, sched, n)
      <= Misses(t, sched, e + 1) + (n - e - 1) - (if h1 < n then 1 else 0) - (if h2 < n then 1 else 0)
  {
    if n > e + 1 { HitsTwice(t, sched, e, h1, h2, n - 1); }
  }

  // ---------- the first writes of a pattern ----------

  /** x and y are the only writes before e, a write. */
  ghost predicate OnlyWrites(w: seq<Shape>, x: nat, y: nat, e: nat) {
    && x != y && x < e && y < e < |w| && w[x].write && w[y].write && w[e].write
    && forall m :: 0 <= m < e && m != x && m != y ==> !w[m].write
  }

  lemma {:induction false} FirstWrite(w: seq<Shape>, from: nat, m: nat) returns (f: nat)
    requires from <= m < |w| && w[m].write
    ensures from <= f <= m && w[f].write && forall i :: from <= i < f ==> !w[i].write
    decreases m - from
  {
    if w[from].write { f := from; } else { f := FirstWrite(w, from + 1, m); }
  }

  lemma {:induction false} FirstThree(w: seq<Shape>, x: nat, y: nat, e: nat) returns (x0: nat, y0: nat, e0: nat)
    requires PatternOk(w) && x < y < e < |w| && w[x].write && w[y].write && w[e].write
    ensures x0 < y0 < e0 <= e && OnlyWrites(w, x0, y0, e0) && x0 <= x && y0 <= y
    ensures w[x0].line <= w[x].line && w[y0].line <= w[y].line
  {
    x0 := FirstWrite(w, 0, x);
    y0 := FirstWrite(w, x0 + 1, y);
    e0 := FirstWrite(w, y0 + 1, e);
  }

  // ---------- the trace and the rival ----------

  /** Page 1 at `one`, page 2 at `two`; what both cases have in common up to the write at e. */
  ghost predicate Setting(t: seq<Request>, one: nat, two: nat, e: nat) {
    && LineOrdered(t) && OnlyWrites(Pattern(t), one, two, e)
    && t[one].key == 1 && t[two].key == 2 && t[e].key == e + 3
    && (forall m :: 0 <= m < e && m != one && m != two ==> t[m].key == m + 3)
  }

  lemma {:induction false} FillStep(t: seq<Request>, one: nat, two: nat, e: nat, n: nat, s: set<Key>, s': set<Key>)
    requires Setting(t, one, two, e) && n < e && MinStep(t, n, 2, s, s')
    requires s == (if one < n then {1} else {}) + (if two < n then {2} else {})
    ensures s' == (if one < n + 1 then {1} else {}) + (if two < n + 1 then {2} else {})
  {
    hide IsFurthest, LineOrdered;
    assert t[n].write == Pattern(t)[n].write;
    assert t[n].write <==> n == one || n == two;
    if t[n].write {
      assert t[n].key == if n == one then 1 else 2;
      assert |s| < 2;
    }
  }

  /** Two pages fill the cache before anything has to be given up. */
  lemma {:induction false} Filled(t: seq<Request>, one: nat, two: nat, e: nat, run: seq<set<Key>>, n: nat)
    requires Setting(t, one, two, e) && n <= e && Prefix(t, 2, run, e)
    ensures run[n] == (if one < n then {1} else {}) + (if two < n then {2} else {})
  {
    hide Setting, HeapStep;
    if n > 0 {
      Filled(t, one, two, e, run, n - 1);
      assert HeapStep(t, n - 1, 2, run[n - 1], run[n - 1 + 1]);
      HeapStepIsMin(t, n - 1, 2, run[n - 1], run[n]);
      FillStep(t, one, two, e, n - 1, run[n - 1], run[n]);
    }
  }

  lemma {:induction false} RequestedAt(t: seq<Request>, one: nat, two: nat, e: nat, n: nat)
    requires Setting(t, one, two, e) && n <= e + 1
    ensures one < n ==> LastRequest(t, n, 1) == one + 1
    ensures two < n ==> LastRequest(t, n, 2) == two + 1
  {
    if n > 0 {
      RequestedAt(t, one, two, e, n - 1);
      hide LineOrdered, OnlyWrites;
    }
  }

  lemma {:induction false} OneIsFront(t: seq<Request>, one: nat, two: nat, e: nat)
    requires Setting(t, one, two, e) && NextUse(t, e + 1, 2) <= NextUse(t, e + 1, 1)
    requires NextUse(t, e + 1, 2) == NextUse(t, e + 1, 1) ==> one < two
    ensures HeapStep(t, e, 2, {1, 2}, {2, e + 3})
  {
    RequestedAt(t, one, two, e, e + 1);
    assert t[e].write == Pattern(t)[e].write;
    hide LineOrdered, NextUse, LastRequest, OnlyWrites;
    FrontIs(t, e + 1, {1, 2}, 1);
    hide IsFront;
    assert {1, 2} - {1} + {e + 3} == {2, e + 3};
  }

  /** The cache gives up page 1 at e, when page 2 is wanted earlier, or on the same line and was requested later. */
  lemma {:induction false} GiveUpOne(t: seq<Request>, one: nat, two: nat, e: nat) returns (run: seq<set<Key>>)
    requires Setting(t, one, two, e) && NextUse(t, e + 1, 2) <= NextUse(t, e + 1, 1)
    requires NextUse(t, e + 1, 2) == NextUse(t, e + 1, 1) ==> one < two
    ensures Prefix(t, 2, run, e + 1) && run[e] == {1, 2} && run[e + 1] == {2, e + 3}
  {
    hide LineOrdered, NextUse, HeapStep;
    run := Extend(t, 2, [{}], 0, e);
    Filled(t, one, two, e, run, e);
    OneIsFront(t, one, two, e);
    assert run[e] == {1, 2};
    PrefixPlus(t, 2, run, e, {2, e + 3});
    run := run + [{2, e + 3}];
  }

  /** The page written last before n. */
  ghost function LastKey(t: seq<Request>, n: nat): Key
    requires n <= |t|
  {
    if n == 0 then 0 else if t[n - 1].write then t[n - 1].key else LastKey(t, n - 1)
  }

  /** What the rival holds after e: page 1 up to p and `later` beyond, and the page written last. */
  ghost function RivalSet(t: seq<Request>, n: nat, p: nat, later: Key): set<Key>
    requires n <= |t|
  {
    {if n <= p then 1 else later, LastKey(t, n)}
  }

  /** The rival: as the cache up to e, then on its own. */
  ghost function Rival(t: seq<Request>, run: seq<set<Key>>, e: nat, p: nat, later: Key): seq<set<Key>>
    requires |run| == |t| + 1
  {
    seq(|t| + 1, n requires 0 <= n <= |t| => if n <= e then run[n] else RivalSet(t, n, p, later))
  }

  lemma {:induction false} StepAllowed(t: seq<Request>, n: nat, c: nat, s: set<Key>, s': set<Key>)
    requires n < |t| && MinStep(t, n, c, s, s') && |s'| <= c
    ensures AllowedStep(t[n], c, s, s')
  {
    hide IsFurthest;
  }

  lemma {:induction false} PairSize(u: Key, v: Key)
    ensures |{u, v}| <= 2
  {
  }

  lemma {:induction false} RivalStep(t: seq<Request>, n: nat, p: nat, later: Key)
    requires n < |t| && (n == p ==> t[p].write && t[p].key == 1 && LastKey(t, p) == later)
    ensures AllowedStep(t[n], 2, RivalSet(t, n, p, later), RivalSet(t, n + 1, p, later))
  {
    PairSize(if n + 1 <= p then 1 else later, LastKey(t, n + 1));
  }

  lemma {:induction false} RivalTurns(t: seq<Request>, e: nat, p: nat, later: Key)
    requires e < p && e < |t| && t[e].write
    ensures AllowedStep(t[e], 2, {1, 2}, RivalSet(t, e + 1, p, later))
  {
    PairSize(1, t[e].key);
  }

  lemma {:induction false} RivalIs(t: seq<Request>, run: seq<set<Key>>, e: nat, p: nat, later: Key, n: nat)
    requires |run| == |t| + 1 && n <= |t|
    ensures Rival(t, run, e, p, later)[n] == if n <= e then run[n] else RivalSet(t, n, p, later)
  {
  }

  lemma {:induction false} EarlyStep(t: seq<Request>, run: seq<set<Key>>, n: nat)
    requires MinRun(t, 2, run) && n < |t|
    ensures AllowedStep(t[n], 2, run[n], run[n + 1])
  {
    RunSize(t, 2, run, n + 1);
    assert MinStep(t, n, 2, run[n], run[n + 1]);
    hide MinRun, MinStep, AllowedStep;
    StepAllowed(t, n, 2, run[n], run[n + 1]);
  }

  lemma {:induction false} RivalAllowedAt(t: seq<Request>, run: seq<set<Key>>, e: nat, p: nat, later: Key, n: nat)
    requires MinRun(t, 2, run) && n < |t| && e < p && e < |t| && t[e].write && run[e] == {1, 2}
    requires p < |t| ==> t[p].write && t[p].key == 1 && LastKey(t, p) == later
    ensures AllowedStep(t[n], 2, Rival(t, run, e, p, later)[n], Rival(t, run, e, p, later)[n + 1])
  {
    assert |run| == |t| + 1;
    hide MinRun, AllowedStep, RivalSet, Rival, LastKey;
    RivalIs(t, run, e, p, later, n);
    RivalIs(t, run, e, p, later, n + 1);
    if n < e {
      EarlyStep(t, run, n);
    } else if n == e {
      RivalTurns(t, e, p, later);
    } else {
      RivalStep(t, n, p, later);
    }
  }

  /** The rival obeys the rules if it changes the page it keeps only by a write of page 1, `later` having been written
      last. */
  lemma {:induction false} RivalAllowed(t: seq<Request>, run: seq<set<Key>>, one: nat, two: nat, e: nat, p: nat,
                                        later: Key)
    requires Setting(t, one, two, e) && MinRun(t, 2, run) && run[e] == {1, 2} && e < p
    requires p < |t| ==> t[p].write && t[p].key == 1 && LastKey(t, p) == later
    ensures Allowed(t, 2, Rival(t, run, e, p, later))
  {
    assert t[e].write == Pattern(t)[e].write;
    assert |run| == |t| + 1 && run[0] == {};
    RivalIs(t, run, e, p, later, 0);
    var sched := Rival(t, run, e, p, later);
    assert |sched| == |t| + 1;
    hide Setting, AllowedStep, RivalSet, Rival, MinRun, LastKey;
    forall n | 0 <= n < |t| ensures AllowedStep(t[n], 2, sched[n], sched[n + 1]) {
      RivalAllowedAt(t, run, e, p, later, n);
    }
  }

  /** What a key that is not written in between does: stay out. */
  lemma {:induction false} StaysOut(t: seq<Request>, c: nat, run: seq<set<Key>>, k: Key, m: nat, n: nat)
    requires MinRun(t, c, run) && m <= n <= |t| && k !in run[m]
    requires forall i :: m <= i < n && t[i].write ==> t[i].key != k
    ensures k !in run[n]
  {
    if m < n {
      StaysOut(t, c, run, k, m, n - 1);
      assert MinStep(t, n - 1, c, run[n - 1], run[n]);
    }
  }

  /** A page not requested before is missed. */
  lemma {:induction false} FreshMissed(t: seq<Request>, c: nat, run: seq<set<Key>>, n: nat)
    requires MinRun(t, c, run) && n < |t| && forall m :: 0 <= m < n ==> t[m].key != t[n].key
    ensures t[n].key !in run[n]
  {
    if t[n].key in run[n] { var m := WeWrote(t, c, run, n, t[n].key); }
  }

  ghost predicate Beaten(t: seq<Request>, c: nat) {
    && LineOrdered(t) && c >= 1
    && exists run, sched :: HeapRun(t, c, run) && Allowed(t, c, sched) && Misses(t, sched, |t|) < Misses(t, run, |t|)
  }

  /** One hit after e against two. */
  lemma {:induction false} OneHitLoses(t: seq<Request>, run: seq<set<Key>>, e: nat, h: nat, p: nat, later: Key, h1: nat,
                                       h2: nat)
    requires LineOrdered(t) && HeapRun(t, 2, run) && Allowed(t, 2, Rival(t, run, e, p, later))
    requires HitsOnlyAt(t, run, e, h) && e < h1 < h2 < |t|
    requires t[h1].key == (if h1 <= p then 1 else later) && t[h2].key == (if h2 <= p then 1 else later)
    ensures Beaten(t, 2)
  {
    var sched := Rival(t, run, e, p, later);
    SameMisses(t, run, sched, e + 1);
    MissesFrom(t, run, e, h, |t|);
    HitsTwice(t, sched, e, h1, h2, |t|);
  }

  lemma {:induction false} ShapeLine(w: seq<Shape>, i: nat)
    requires PatternOk(w) && i < |w|
    ensures w[i].line < INF
  {
  }

  lemma {:induction false} NoUse(t: seq<Request>, n: nat, k: Key)
    requires LineOrdered(t) && n <= |t| && forall m :: n <= m < |t| ==> t[m].key != k
    ensures NextUse(t, n, k) == INF
  {
    NextUseMeaning(t, n, k);
  }

  // ---------- a costly read ----------

  ghost function ReadTrace(w: seq<Shape>, x: nat, y: nat, i: nat, j: nat): seq<Request> {
    seq(|w|, m requires 0 <= m < |w| =>
      Request(if m == y || m == j || m == |w| - 1 then 1 else if m == x || m == i then 2 else m + 3,
              w[m].line, w[m].write))
  }

  lemma {:induction false} ReadLines(w: seq<Shape>, x: nat, y: nat, e: nat, i: nat, j: nat, a: nat, b: nat)
    requires CostlyReadAt(w, x, y, e, i, j) && a < b < |w|
    requires var t := ReadTrace(w, x, y, i, j); t[a].key == t[b].key
    ensures w[a].line < w[b].line
  {
  }

  lemma {:induction false} ReadTraceOrdered(w: seq<Shape>, x: nat, y: nat, e: nat, i: nat, j: nat)
    requires PatternOk(w) && CostlyReadAt(w, x, y, e, i, j)
    ensures LineOrdered(ReadTrace(w, x, y, i, j)) && Pattern(ReadTrace(w, x, y, i, j)) == w
  {
    var t := ReadTrace(w, x, y, i, j);
    forall a, b | 0 <= a < b < |t| && t[a].key == t[b].key ensures t[a].line < t[b].line {
      ReadLines(w, x, y, e, i, j, a, b);
    }
    hide CostlyReadAt;
  }

  lemma {:induction false} ReadTraceSet(w: seq<Shape>, x: nat, y: nat, e: nat, i: nat, j: nat)
    requires PatternOk(w) && CostlyReadAt(w, x, y, e, i, j) && OnlyWrites(w, x, y, e)
    ensures Setting(ReadTrace(w, x, y, i, j), y, x, e)
  {
    ReadTraceOrdered(w, x, y, e, i, j);
    hide LineOrdered, PatternOk, Pattern;
    assert OnlyWrites(w, y, x, e);
  }

  lemma {:induction false} ReadKeys(w: seq<Shape>, x: nat, y: nat, e: nat, i: nat, j: nat)
    requires CostlyReadAt(w, x, y, e, i, j)
    ensures var t := ReadTrace(w, x, y, i, j);
      && |t| == |w| && e < i < |t| && t[i].key == 2 && t[i].line == w[i].line <= w[j].line
      && forall m :: e < m < |t| && t[m].key == 1 ==> t[m].line >= w[j].line
  {
  }

  lemma {:induction false} ReadUses(w: seq<Shape>, x: nat, y: nat, e: nat, i: nat, j: nat)
    requires PatternOk(w) && CostlyReadAt(w, x, y, e, i, j)
    ensures var t := ReadTrace(w, x, y, i, j);
      && NextUse(t, e + 1, 2) <= NextUse(t, e + 1, 1)
      && (NextUse(t, e + 1, 2) == NextUse(t, e + 1, 1) ==> w[i].line == w[j].line)
  {
    var t := ReadTrace(w, x, y, i, j);
    ReadTraceOrdered(w, x, y, e, i, j);
    ReadKeys(w, x, y, e, i, j);
    ShapeLine(w, i);
    hide CostlyReadAt, ReadTrace, LineOrdered, PatternOk, NextUse;
    NextUseAtMost(t, e + 1, i, 2);
    if NextUse(t, e + 1, 1) < INF { var m := UseAt(t, e + 1, 1); }
  }

  lemma {:induction false} ReadMisses(w: seq<Shape>, x: nat, y: nat, e: nat, i: nat, j: nat, run: seq<set<Key>>, m: nat)
    requires CostlyReadAt(w, x, y, e, i, j) && e < m < |w| && m != i
    requires MinRun(ReadTrace(w, x, y, i, j), 2, run) && run[e + 1] == {2, e + 3}
    ensures ReadTrace(w, x, y, i, j)[m].key !in run[m]
  {
    var t := ReadTrace(w, x, y, i, j);
    hide MinRun;
    if m == j || m == |t| - 1 { StaysOut(t, 2, run, 1, e + 1, m); } else { FreshMissed(t, 2, run, m); }
  }

  lemma {:induction false} CostlyReadLoses(w: seq<Shape>, x: nat, y: nat, e: nat, i: nat, j: nat)
    requires PatternOk(w) && CostlyReadAt(w, x, y, e, i, j) && OnlyWrites(w, x, y, e)
    requires w[i].line == w[j].line ==> y < x
    ensures Pattern(ReadTrace(w, x, y, i, j)) == w && Beaten(ReadTrace(w, x, y, i, j), 2)
  {
    var t := ReadTrace(w, x, y, i, j);
    ReadTraceOrdered(w, x, y, e, i, j);
    ReadTraceSet(w, x, y, e, i, j);
    ReadUses(w, x, y, e, i, j);
    assert t[j].key == 1 && t[|t| - 1].key == 1;
    hide LineOrdered, NextUse, PatternOk, HeapStep, MinStep, Setting, ReadTrace, Rival, Allowed;
    var r := GiveUpOne(t, y, x, e);
    var run := Extend(t, 2, r, e + 1, |t|);
    HeapRunIsMin(t, 2, run);
    forall m | e < m < |t| && m != i ensures t[m].key !in run[m] {
      ReadMisses(w, x, y, e, i, j, run, m);
    }
    RivalAllowed(t, run, y, x, e, |t|, 0);
    OneHitLoses(t, run, e, i, |t|, 0, j, |t| - 1);
  }

  // ---------- a costly tie ----------

  ghost function TieTrace(w: seq<Shape>, x: nat, y: nat, s: nat, p: nat, q: nat, r: nat): seq<Request> {
    seq(|w|, m requires 0 <= m < |w| =>
      Request(if m == x || m == p then 1 else if m == y || m == q then 2 else if m == r then s + 3 else m + 3,
              w[m].line, w[m].write))
  }

  lemma {:induction false} TieLines(w: seq<Shape>, x: nat, y: nat, s: nat, p: nat, q: nat, r: nat, a: nat, b: nat)
    requires PatternOk(w) && CostlyTieAt(w, x, y, s, p, q, r) && a < b < |w|
    requires var t := TieTrace(w, x, y, s, p, q, r); t[a].key == t[b].key
    ensures w[a].line < w[b].line
  {
    assert w[x].line <= w[y].line;
    hide PatternOk;
  }

  lemma {:induction false} TieTraceOrdered(w: seq<Shape>, x: nat, y: nat, s: nat, p: nat, q: nat, r: nat)
    requires PatternOk(w) && CostlyTieAt(w, x, y, s, p, q, r)
    ensures LineOrdered(TieTrace(w, x, y, s, p, q, r)) && Pattern(TieTrace(w, x, y, s, p, q, r)) == w
  {
    var t := TieTrace(w, x, y, s, p, q, r);
    forall a, b | 0 <= a < b < |t| && t[a].key == t[b].key ensures t[a].line < t[b].line {
      TieLines(w, x, y, s, p, q, r, a, b);
    }
    hide CostlyTieAt;
  }

  /** Such a trace, request by request. */
  ghost predicate Tied(t: seq<Request>, x: nat, y: nat, e: nat, s: nat, p: nat, q: nat, r: nat) {
    && x < y < e <= s < p < q < |t| && p < r < |t| && q != r && t[e].write && t[p].write
    && t[p].line == t[q].line < INF && (forall m :: s < m < p ==> !t[m].write)
    && t[x].key == 1 && t[p].key == 1 && t[y].key == 2 && t[q].key == 2 && t[r].key == s + 3
    && forall m :: 0 <= m < |t| && m != x && m != p && m != y && m != q && m != r ==> t[m].key == m + 3
  }

  lemma {:induction false} TieTraceTied(w: seq<Shape>, x: nat, y: nat, e: nat, s: nat, p: nat, q: nat, r: nat)
    requires PatternOk(w) && CostlyTieAt(w, x, y, s, p, q, r) && OnlyWrites(w, x, y, e) && e <= s
    ensures Tied(TieTrace(w, x, y, s, p, q, r), x, y, e, s, p, q, r)
  {
    ShapeLine(w, p);
    assert e != y && y < e;
    hide PatternOk, OnlyWrites;
  }

  lemma {:induction false} TieTraceSet(w: seq<Shape>, x: nat, y: nat, e: nat, s: nat, p: nat, q: nat, r: nat)
    requires PatternOk(w) && CostlyTieAt(w, x, y, s, p, q, r) && OnlyWrites(w, x, y, e) && e <= s
    ensures Setting(TieTrace(w, x, y, s, p, q, r), x, y, e)
  {
    TieTraceOrdered(w, x, y, s, p, q, r);
    hide LineOrdered, PatternOk, Pattern;
  }

  lemma {:induction false} TieUsesAtE(t: seq<Request>, x: nat, y: nat, e: nat, s: nat, p: nat, q: nat, r: nat)
    requires LineOrdered(t) && Tied(t, x, y, e, s, p, q, r)
    ensures NextUse(t, e + 1, 2) <= NextUse(t, e + 1, 1)
  {
    NextUseAtMost(t, e + 1, q, 2);
    hide LineOrdered, NextUse;
    if NextUse(t, e + 1, 1) < INF { var m := UseAt(t, e + 1, 1); }
  }

  /** Page 2 is kept, and the page written last gives way to the next. */
  lemma {:induction false} TwoStays(t: seq<Request>, n: nat, last: Key, s: set<Key>, s': set<Key>)
    requires n < |t| && MinStep(t, n, 2, s, s') && s == {2, last} && last != 2 && t[n].key !in s
    requires t[n].write ==> NextUse(t, n + 1, 2) < NextUse(t, n + 1, last)
    ensures s' == if t[n].write then {2, t[n].key} else s
  {
    if t[n].write {
      assert |s| == 2;
      var v :| IsFurthest(t, n + 1, s, v) && s' == s - {v} + {t[n].key};
      assert v == last;
    }
  }

  /** Page 2 is still wanted at q, and no page written between is. */
  lemma {:induction false} TieUses(t: seq<Request>, x: nat, y: nat, e: nat, s: nat, p: nat, q: nat, r: nat, n: nat,
                                   l: nat)
    requires LineOrdered(t) && Tied(t, x, y, e, s, p, q, r) && y < l < n <= p && l != s
    ensures NextUse(t, n, 2) < INF && NextUse(t, n, l + 3) == INF
  {
    NextUseAtMost(t, n, q, 2);
    hide LineOrdered, NextUse;
    NoUse(t, n, l + 3);
  }

  /** What the cache holds from e on up to p: page 2 and the page written last, at l. */
  ghost predicate Holds(t: seq<Request>, s: nat, e: nat, n: nat, cached: set<Key>, l: nat)
    requires n <= |t|
  {
    e <= l < n && l <= s && (n > s ==> l == s) && LastKey(t, n) == l + 3 && cached == {2, l + 3}
  }

  lemma {:induction false} HoldsStep(t: seq<Request>, x: nat, y: nat, e: nat, s: nat, p: nat, q: nat, r: nat, n: nat,
                                     a: set<Key>, a': set<Key>, l: nat) returns (l': nat)
    requires LineOrdered(t) && Tied(t, x, y, e, s, p, q, r) && e < n < p && t[s].write
    requires MinStep(t, n, 2, a, a') && Holds(t, s, e, n, a, l)
    ensures Holds(t, s, e, n + 1, a', l')
  {
    if t[n].write { TieUses(t, x, y, e, s, p, q, r, n + 1, l); }
    l' := if t[n].write then n else l;
    hide LineOrdered, MinStep, NextUse;
    TwoStays(t, n, l + 3, a, a');
  }

  lemma {:induction false} HoldsFirst(t: seq<Request>, x: nat, y: nat, e: nat, s: nat, p: nat, q: nat, r: nat)
    requires Tied(t, x, y, e, s, p, q, r)
    ensures Holds(t, s, e, e + 1, {2, e + 3}, e)
  {
  }

  /** Up to p the cache holds page 2 and the page written last. */
  lemma {:induction false} KeepsTwo(t: seq<Request>, x: nat, y: nat, e: nat, s: nat, p: nat, q: nat, r: nat,
                                    run: seq<set<Key>>, n: nat) returns (l: nat)
    requires LineOrdered(t) && Tied(t, x, y, e, s, p, q, r) && t[s].write
    requires Prefix(t, 2, run, p) && run[e + 1] == {2, e + 3} && e < n <= p
    ensures Holds(t, s, e, n, run[n], l)
  {
    hide LineOrdered, Tied, HeapStep, MinStep, Holds;
    if n == e + 1 {
      HoldsFirst(t, x, y, e, s, p, q, r);
      l := e;
    } else {
      l := KeepsTwo(t, x, y, e, s, p, q, r, run, n - 1);
      assert HeapStep(t, n - 1, 2, run[n - 1], run[n - 1 + 1]);
      HeapStepIsMin(t, n - 1, 2, run[n - 1], run[n]);
      l := HoldsStep(t, x, y, e, s, p, q, r, n - 1, run[n - 1], run[n], l);
    }
  }

  /** At p page 2 and the page written at s are left; page 2 is kept unless both are wanted on that line. */
  ghost function Kept(t: seq<Request>, s: nat, p: nat): Key
    requires p < |t|
  {
    if NextUse(t, p + 1, 2) < NextUse(t, p + 1, s + 3) then 2 else s + 3
  }

  /** Neither page was requested again before p. */
  lemma {:induction false} AgesAtP(t: seq<Request>, x: nat, y: nat, e: nat, s: nat, p: nat, q: nat, r: nat, n: nat)
    requires Tied(t, x, y, e, s, p, q, r) && n <= p + 1
    ensures y < n ==> LastRequest(t, n, 2) == y + 1
    ensures s < n ==> LastRequest(t, n, s + 3) == s + 1
  {
    if n > 0 { AgesAtP(t, x, y, e, s, p, q, r, n - 1); }
  }

  lemma {:induction false} GiveUpLater(t: seq<Request>, x: nat, y: nat, e: nat, s: nat, p: nat, q: nat, r: nat,
                                       a: set<Key>)
    requires LineOrdered(t) && Tied(t, x, y, e, s, p, q, r) && a == {2, s + 3}
    ensures HeapStep(t, p, 2, a, {Kept(t, s, p), 1})
  {
    NextUseAtMost(t, p + 1, q, 2);
    NextUseBound(t, p, s + 3);
    AgesAtP(t, x, y, e, s, p, q, r, p + 1);
    var v := if Kept(t, s, p) == 2 then s + 3 else 2;
    hide LineOrdered, NextUse, LastRequest;
    FrontIs(t, p + 1, a, v);
    hide IsFront;
    assert a - {v} + {1} == {Kept(t, s, p), 1};
  }

  /** The run that gives up page 1 at e, and at p one of the two it then holds. */
  ghost predicate TieRuns(t: seq<Request>, e: nat, s: nat, p: nat, run: seq<set<Key>>) {
    && e < p < |t| && HeapRun(t, 2, run) && LastKey(t, p) == s + 3
    && run[e] == {1, 2} && run[e + 1] == {2, e + 3} && run[p + 1] == {Kept(t, s, p), 1}
  }

  lemma {:induction false} FinishTie(t: seq<Request>, e: nat, s: nat, p: nat, b: seq<set<Key>>)
      returns (run: seq<set<Key>>)
    requires e < p < |t| && Prefix(t, 2, b, p) && LastKey(t, p) == s + 3
    requires HeapStep(t, p, 2, b[p], {Kept(t, s, p), 1})
    requires b[e] == {1, 2} && b[e + 1] == {2, e + 3}
    ensures TieRuns(t, e, s, p, run)
  {
    hide HeapStep, LastKey, Kept;
    PrefixPlus(t, 2, b, p, {Kept(t, s, p), 1});
    run := Extend(t, 2, b + [{Kept(t, s, p), 1}], p + 1, |t|);
  }

  lemma {:induction false} TieRun(t: seq<Request>, x: nat, y: nat, e: nat, s: nat, p: nat, q: nat, r: nat)
      returns (run: seq<set<Key>>)
    requires Setting(t, x, y, e) && LineOrdered(t) && Tied(t, x, y, e, s, p, q, r) && t[s].write
    ensures TieRuns(t, e, s, p, run)
  {
    TieParts(t, x, y, e, s, p, q, r);
    TieUsesAtE(t, x, y, e, s, p, q, r);
    hide LineOrdered, NextUse, HeapStep, Setting, Tied, LastKey, TieRuns, Kept;
    var a := GiveUpOne(t, x, y, e);
    var b := Extend(t, 2, a, e + 1, p);
    var l := KeepsTwo(t, x, y, e, s, p, q, r, b, p);
    GiveUpLater(t, x, y, e, s, p, q, r, b[p]);
    run := FinishTie(t, e, s, p, b);
  }

  /** Where the run may hit after e. */
  ghost function HitAt(t: seq<Request>, s: nat, p: nat, q: nat, r: nat): nat
    requires p < |t|
  {
    if Kept(t, s, p) == 2 then q else r
  }

  lemma {:induction false} MissAtP(t: seq<Request>, x: nat, y: nat, e: nat, s: nat, p: nat, q: nat, r: nat,
                                   run: seq<set<Key>>)
    requires Tied(t, x, y, e, s, p, q, r) && MinRun(t, 2, run) && run[e + 1] == {2, e + 3}
    ensures t[p].key !in run[p]
  {
    hide MinRun;
    StaysOut(t, 2, run, 1, e + 1, p);
  }

  lemma {:induction false} MissAfterP(t: seq<Request>, x: nat, y: nat, e: nat, s: nat, p: nat, q: nat, r: nat,
                                      run: seq<set<Key>>, keep: Key)
    requires Tied(t, x, y, e, s, p, q, r) && MinRun(t, 2, run) && run[p + 1] == {keep, 1}
    ensures keep == 2 ==> t[r].key !in run[r]
    ensures keep == s + 3 ==> t[q].key !in run[q]
  {
    hide MinRun;
    if keep == 2 { StaysOut(t, 2, run, s + 3, p + 1, r); }
    if keep == s + 3 { StaysOut(t, 2, run, 2, p + 1, q); }
  }

  lemma {:induction false} MissElsewhere(t: seq<Request>, x: nat, y: nat, e: nat, s: nat, p: nat, q: nat, r: nat,
                                         run: seq<set<Key>>, m: nat)
    requires Tied(t, x, y, e, s, p, q, r) && MinRun(t, 2, run) && e < m < |t| && m != p && m != q && m != r
    ensures t[m].key !in run[m]
  {
    hide MinRun;
    FreshMissed(t, 2, run, m);
  }

  lemma {:induction false} TieMisses(t: seq<Request>, x: nat, y: nat, e: nat, s: nat, p: nat, q: nat, r: nat,
                                     run: seq<set<Key>>, m: nat)
    requires Tied(t, x, y, e, s, p, q, r) && TieRuns(t, e, s, p, run) && e < m < |t| && m != HitAt(t, s, p, q, r)
    ensures t[m].key !in run[m]
  {
    hide HeapRun, MinRun, NextUse, LastKey, Tied;
    HeapRunIsMin(t, 2, run);
    if m == p {
      MissAtP(t, x, y, e, s, p, q, r, run);
    } else if m == q || m == r {
      MissAfterP(t, x, y, e, s, p, q, r, run, Kept(t, s, p));
    } else {
      MissElsewhere(t, x, y, e, s, p, q, r, run, m);
    }
  }

  lemma {:induction false} TieHits(t: seq<Request>, x: nat, y: nat, e: nat, s: nat, p: nat, q: nat, r: nat,
                                   run: seq<set<Key>>)
    requires Tied(t, x, y, e, s, p, q, r) && TieRuns(t, e, s, p, run)
    ensures HitsOnlyAt(t, run, e, HitAt(t, s, p, q, r))
  {
    assert |run| == |t| + 1;
    hide Tied, TieRuns, HitAt;
    forall m | e < m < |t| && m != HitAt(t, s, p, q, r) ensures t[m].key !in run[m] {
      TieMisses(t, x, y, e, s, p, q, r, run, m);
    }
  }

  lemma {:induction false} TieParts(t: seq<Request>, x: nat, y: nat, e: nat, s: nat, p: nat, q: nat, r: nat)
    requires Tied(t, x, y, e, s, p, q, r)
    ensures x < y < e <= s < p < r < |t| && t[p].write && t[p].key == 1 && t[r].key == s + 3
  {
  }

  lemma {:induction false} TieLoses(t: seq<Request>, x: nat, y: nat, e: nat, s: nat, p: nat, q: nat, r: nat)
    requires Setting(t, x, y, e) && LineOrdered(t) && Tied(t, x, y, e, s, p, q, r) && s < |t| && t[s].write
    ensures Beaten(t, 2)
  {
    hide LineOrdered, HeapRun, MinRun, Setting, Rival, Allowed, HitsOnlyAt, LastKey, Beaten, Tied, HitAt;
    TieParts(t, x, y, e, s, p, q, r);
    var run := TieRun(t, x, y, e, s, p, q, r);
    TieHits(t, x, y, e, s, p, q, r, run);
    HeapRunIsMin(t, 2, run);
    RivalAllowed(t, run, x, y, e, p, s + 3);
    OneHitLoses(t, run, e, HitAt(t, s, p, q, r), p, s + 3, p, r);
  }

  lemma {:induction false} CostlyTieLoses(w: seq<Shape>, x: nat, y: nat, e: nat, s: nat, p: nat, q: nat, r: nat)
    requires PatternOk(w) && CostlyTieAt(w, x, y, s, p, q, r) && OnlyWrites(w, x, y, e) && e <= s
    ensures Pattern(TieTrace(w, x, y, s, p, q, r)) == w && Beaten(TieTrace(w, x, y, s, p, q, r), 2)
  {
    TieTraceOrdered(w, x, y, s, p, q, r);
    TieTraceSet(w, x, y, e, s, p, q, r);
    TieTraceTied(w, x, y, e, s, p, q, r);
    assert TieTrace(w, x, y, s, p, q, r)[s].write;
    hide CostlyTieAt, LineOrdered, Setting, PatternOk, OnlyWrites, TieTrace, Pattern, Tied, Beaten;
    TieLoses(TieTrace(w, x, y, s, p, q, r), x, y, e, s, p, q, r);
  }

  // ---------- the exact condition ----------

  /** With room for c pages the policy is optimal on every trace of this pattern. */
  ghost predicate OptimalAt(w: seq<Shape>, c: nat) {
    forall t: seq<Request>, run: seq<set<Key>>, sched: seq<set<Key>> ::
      LineOrdered(t) && Pattern(t) == w && HeapRun(t, c, run) && Allowed(t, c, sched) ==>
        Misses(t, run, |t|) <= Misses(t, sched, |t|)
  }

  /** And so it is for every capacity. */
  ghost predicate AlwaysOptimal(w: seq<Shape>) {
    forall c: nat :: c >= 1 ==> OptimalAt(w, c)
  }

  lemma {:induction false} SwapReads(w: seq<Shape>, x: nat, y: nat, e: nat)
    requires OnlyWrites(w, x, y, e)
    ensures OnlyWrites(w, y, x, e)
  {
  }

  lemma {:induction false} EarlierRead(w: seq<Shape>, x: nat, y: nat, e: nat, i: nat, j: nat, x0: nat, y0: nat, e0: nat)
    requires CostlyReadAt(w, x, y, e, i, j) && OnlyWrites(w, x0, y0, e0) && e0 <= e
    requires w[x0].line <= w[x].line && w[y0].line <= w[y].line
    ensures CostlyReadAt(w, x0, y0, e0, i, j)
  {
  }

  /** On one line the two pages change places. */
  lemma {:induction false} SwapRead(w: seq<Shape>, x: nat, y: nat, e: nat, i: nat, j: nat)
    requires CostlyReadAt(w, x, y, e, i, j) && w[i].line == w[j].line
    ensures CostlyReadAt(w, y, x, e, i, j)
  {
  }

  lemma {:induction false} ReadIsBeaten(w: seq<Shape>, x: nat, y: nat, e: nat, i: nat, j: nat) returns (t: seq<Request>)
    requires PatternOk(w) && CostlyReadAt(w, x, y, e, i, j)
    ensures Pattern(t) == w && Beaten(t, 2)
  {
    hide PatternOk, OnlyWrites, Pattern, Beaten, ReadTrace;
    var x0, y0, e0;
    if x < y {
      x0, y0, e0 := FirstThree(w, x, y, e);
    } else {
      y0, x0, e0 := FirstThree(w, y, x, e);
      SwapReads(w, y0, x0, e0);
    }
    EarlierRead(w, x, y, e, i, j, x0, y0, e0);
    if x0 < y0 && w[i].line == w[j].line {
      SwapReads(w, x0, y0, e0);
      SwapRead(w, x0, y0, e0, i, j);
      x0, y0 := y0, x0;
    }
    hide CostlyReadAt;
    CostlyReadLoses(w, x0, y0, e0, i, j);
    t := ReadTrace(w, x0, y0, i, j);
  }

  lemma {:induction false} EarlierTie(w: seq<Shape>, x: nat, y: nat, s: nat, p: nat, q: nat, r: nat, x0: nat, y0: nat,
                                      e0: nat)
    requires CostlyTieAt(w, x, y, s, p, q, r) && OnlyWrites(w, x0, y0, e0) && x0 < y0 < e0 <= s
    requires w[y0].line <= w[y].line
    ensures CostlyTieAt(w, x0, y0, s, p, q, r)
  {
  }

  lemma {:induction false} UnsafeIsBeaten(w: seq<Shape>) returns (t: seq<Request>)
    requires PatternOk(w) && !Safe(w)
    ensures Pattern(t) == w && Beaten(t, 2)
  {
    hide PatternOk, OnlyWrites, Pattern, Beaten, CostlyReadAt, TieTrace;
    if x: nat, y: nat, e: nat, i: nat, j: nat :| CostlyReadAt(w, x, y, e, i, j) {
      t := ReadIsBeaten(w, x, y, e, i, j);
    } else {
      var x: nat, y: nat, s: nat, p: nat, q: nat, r: nat :| CostlyTieAt(w, x, y, s, p, q, r);
      var x0, y0, e0 := FirstThree(w, x, y, s);
      EarlierTie(w, x, y, s, p, q, r, x0, y0, e0);
      CostlyTieLoses(w, x0, y0, e0, s, p, q, r);
      t := TieTrace(w, x0, y0, s, p, q, r);
    }
  }

  lemma {:induction false} SafeIsOptimal(w: seq<Shape>, c: nat)
    requires Safe(w) && c >= 1
    ensures OptimalAt(w, c)
  {
    forall t: seq<Request>, run: seq<set<Key>>, sched: seq<set<Key>>
      | LineOrdered(t) && Pattern(t) == w && HeapRun(t, c, run) && Allowed(t, c, sched)
      ensures Misses(t, run, |t|) <= Misses(t, sched, |t|)
    {
      HeapRunIsMin(t, c, run);
      MinIsOptimal(t, c, run, sched);
    }
  }

  /** With room for two pages furthest-next-use with the write-allocate rule is optimal exactly on the safe patterns. */
  lemma {:induction false} OptimalAtTwo(w: seq<Shape>)
    requires PatternOk(w)
    ensures OptimalAt(w, 2) <==> Safe(w)
  {
    if Safe(w) {
      hide OptimalAt;
      SafeIsOptimal(w, 2);
    } else {
      hide LineOrdered, HeapRun, Allowed;
      var t := UnsafeIsBeaten(w);
      var run, sched :| HeapRun(t, 2, run) && Allowed(t, 2, sched) && Misses(t, sched, |t|) < Misses(t, run, |t|);
    }
  }

  /** So it is optimal for every capacity exactly on those. */
  lemma {:induction false} OptimalExactlyWhenSafe(w: seq<Shape>)
    requires PatternOk(w)
    ensures AlwaysOptimal(w) <==> Safe(w)
  {
    hide OptimalAt, Safe;
    OptimalAtTwo(w);
    if Safe(w) {
      forall c: nat | c >= 1 ensures OptimalAt(w, c) {
        SafeIsOptimal(w, c);
      }
    }
  }

  /** Who always holds at least what the rival holds misses no more. */
  lemma {:induction false} CoveredMisses(t: seq<Request>, run: seq<set<Key>>, sched: seq<set<Key>>, n: nat)
    requires n <= |t| && |run| == |sched| == |t| + 1 && forall m :: 0 <= m < n ==> sched[m] <= run[m]
    ensures Misses(t, run, n) <= Misses(t, sched, n)
  {
    if n > 0 { CoveredMisses(t, run, sched, n - 1); }
  }

  /** With room for one page the policy is optimal on every pattern. */
  lemma {:induction false} OptimalAtOne(w: seq<Shape>)
    ensures OptimalAt(w, 1)
  {
    forall t: seq<Request>, run: seq<set<Key>>, sched: seq<set<Key>>
      | LineOrdered(t) && Pattern(t) == w && HeapRun(t, 1, run) && Allowed(t, 1, sched)
      ensures Misses(t, run, |t|) <= Misses(t, sched, |t|)
    {
      HeapRunIsMin(t, 1, run);
      hide HeapRun;
      forall m | 0 <= m < |t| ensures sched[m] <= run[m] {
        CapacityOneCovers(t, run, sched, m);
      }
      CoveredMisses(t, run, sched, |t|);
    }
  }

  /** A cache with room for every write gives nothing up. */
  lemma {:induction false} NothingGivenUp(t: seq<Request>, c: nat, run: seq<set<Key>>, sched: seq<set<Key>>, n: nat)
    requires MinRun(t, c, run) && Allowed(t, c, sched) && n <= |t| && c >= Writes(Pattern(t), |t|)
    ensures sched[n] <= run[n] && |run[n]| <= Writes(Pattern(t), n)
  {
    if n > 0 {
      NothingGivenUp(t, c, run, sched, n - 1);
      WritesMonotone(Pattern(t), n, |t|);
      assert MinStep(t, n - 1, c, run[n - 1], run[n]) && AllowedStep(t[n - 1], c, sched[n - 1], sched[n]);
      assert Pattern(t)[n - 1].write == t[n - 1].write;
      hide IsFurthest;
    }
  }

  /** And so it is with room for every write. */
  lemma {:induction false} OptimalWithRoom(w: seq<Shape>, c: nat)
    requires c >= Writes(w, |w|)
    ensures OptimalAt(w, c)
  {
    forall t: seq<Request>, run: seq<set<Key>>, sched: seq<set<Key>>
      | LineOrdered(t) && Pattern(t) == w && HeapRun(t, c, run) && Allowed(t, c, sched)
      ensures Misses(t, run, |t|) <= Misses(t, sched, |t|)
    {
      HeapRunIsMin(t, c, run);
      hide HeapRun, Writes;
      forall m | 0 <= m < |t| ensures sched[m] <= run[m] {
        NothingGivenUp(t, c, run, sched, m);
      }
      CoveredMisses(t, run, sched, |t|);
    }
  }

  /** Six writes, two of them on one line, are enough to lose. */
  lemma {:induction false} SharedLineLoses()
    ensures var w := [Shape(true, 1), Shape(true, 2), Shape(true, 3), Shape(true, 4), Shape(true, 4), Shape(true, 5)];
      PatternOk(w) && !AlwaysOptimal(w)
  {
    var w := [Shape(true, 1), Shape(true, 2), Shape(true, 3), Shape(true, 4), Shape(true, 4), Shape(true, 5)];
    assert CostlyTieAt(w, 0, 1, 2, 3, 4, 5);
    hide AlwaysOptimal;
    OptimalExactlyWhenSafe(w);
  }

  // ---------- one request per line ----------

  /** Number of writes among the first n requests. */
  function Writes(w: seq<Shape>, n: nat): nat
    requires n <= |w|
  {
    if n == 0 then 0 else Writes(w, n - 1) + if w[n - 1].write then 1 else 0
  }

  ghost predicate OnePerLine(w: seq<Shape>) {
    PatternOk(w) && forall i, j :: 0 <= i < j < |w| ==> w[i].line < w[j].line
  }

  lemma {:induction false} WritesMonotone(w: seq<Shape>, m: nat, n: nat)
    requires m <= n <= |w|
    ensures Writes(w, m) <= Writes(w, n)
  {
    if m < n { WritesMonotone(w, m, n - 1); }
  }

  lemma {:induction false} ThreeBefore(w: seq<Shape>, x: nat, y: nat, e: nat, n: nat)
    requires x < y < e < n <= |w| && w[x].write && w[y].write && w[e].write
    ensures Writes(w, n) >= 3
  {
    WritesMonotone(w, x + 1, y);
    WritesMonotone(w, y + 1, e);
    WritesMonotone(w, e + 1, n);
  }

  lemma {:induction false} WriteBefore(w: seq<Shape>, n: nat) returns (i: nat)
    requires n <= |w| && Writes(w, n) > 0
    ensures i < n && w[i].write && Writes(w, i) == Writes(w, n) - 1
  {
    if w[n - 1].write { i := n - 1; } else { i := WriteBefore(w, n - 1); }
  }

  lemma {:induction false} RareReads(w: seq<Shape>)
    requires OnePerLine(w) && forall j :: 0 < j < |w| - 1 && !w[j].write ==> Writes(w, j - 1) < 3
    ensures !CostlyRead(w)
  {
    forall x: nat, y: nat, e: nat, i: nat, j: nat ensures !CostlyReadAt(w, x, y, e, i, j) {
      if CostlyReadAt(w, x, y, e, i, j) {
        LineOfIndex(w, i, j);
        ThreeBefore(w, if x < y then x else y, if x < y then y else x, e, j - 1);
      }
    }
  }

  lemma {:induction false} LateRead(w: seq<Shape>, j: nat)
    requires OnePerLine(w) && 0 < j < |w| - 1 && !w[j].write && Writes(w, j - 1) >= 3
    ensures CostlyRead(w)
  {
    var e := WriteBefore(w, j - 1);
    var y := WriteBefore(w, e);
    var x := WriteBefore(w, y);
    LinesRise(w, x, y, j);
    hide OnePerLine, Writes;
    assert CostlyReadAt(w, x, y, e, j - 1, j);
  }

  /** With one request per line a pattern is safe if and only if no read but the last request comes after three writes
      with a request in between. */
  lemma {:induction false} OnePerLineSafe(w: seq<Shape>)
    requires OnePerLine(w)
    ensures Safe(w) <==> forall j :: 0 < j < |w| - 1 && !w[j].write ==> Writes(w, j - 1) < 3
  {
    hide OnePerLine, CostlyRead, CostlyTie, Writes;
    NoTies(w);
    if j :| 0 < j < |w| - 1 && !w[j].write && Writes(w, j - 1) >= 3 {
      LateRead(w, j);
    } else {
      RareReads(w);
    }
  }

  lemma {:induction false} LinesRise(w: seq<Shape>, x: nat, y: nat, j: nat)
    requires OnePerLine(w) && x < y < j - 1 < |w| - 2
    ensures w[x].line < w[j - 1].line < w[j].line < w[|w| - 1].line && w[y].line < w[j].line
  {
  }

  lemma {:induction false} LineOfIndex(w: seq<Shape>, i: nat, j: nat)
    requires OnePerLine(w) && i < |w| && j < |w| && w[i].line <= w[j].line
    ensures i <= j
  {
  }

  lemma {:induction false} NoTies(w: seq<Shape>)
    requires OnePerLine(w)
    ensures !CostlyTie(w)
  {
  }

  /** The special case the policy is named for: one write per line. */
  lemma {:induction false} AllWritesSafe(t: seq<Request>)
    requires ValidTrace(t) && forall i :: 0 <= i < |t| ==> t[i].write
    ensures Safe(Pattern(t))
  {
    var w := Pattern(t);
    assert OnePerLine(w);
    OnePerLineSafe(w);
  }
}
