/** One request per line: for each capacity the exact patterns on which furthest-next-use replacement is optimal. */
module MinCapacity {
  import opened Sets
  import opened Trace
  import opened MinOptimality
  import opened MinNecessity

  /** Read j, not the last request, comes after c + 1 writes with at least c - 1 requests in between. */
  predicate LateReadAt(w: seq<Shape>, c: nat, j: nat) {
    j < |w| - 1 && !w[j].write && c <= j + 1 && Writes(w, j + 1 - c) >= c + 1
  }

  predicate SafeFor(w: seq<Shape>, c: nat) {
    forall j :: 0 <= j < |w| ==> !LateReadAt(w, c, j)
  }

  // ---------- without such a read nobody misses less ----------

  /** The first position from i on at which k is requested, |t| if there is none. */
  ghost function NextPos(t: seq<Request>, i: nat, k: Key): nat
    requires i <= |t|
    decreases |t| - i
  {
    if i == |t| || t[i].key == k then i else NextPos(t, i + 1, k)
  }

  lemma {:induction false} NextPosIs(t: seq<Request>, i: nat, k: Key)
    requires i <= |t|
    ensures i <= NextPos(t, i, k) <= |t|
    ensures NextPos(t, i, k) < |t| ==> t[NextPos(t, i, k)].key == k && t[NextPos(t, i, k)].line == NextUse(t, i, k)
    ensures NextPos(t, i, k) == |t| ==> NextUse(t, i, k) == INF
    decreases |t| - i
  {
    if i < |t| && t[i].key != k { NextPosIs(t, i + 1, k); }
  }

  /** Keys wanted after e before position n are no more than the requests in between. */
  lemma {:induction false} WantedFew(t: seq<Request>, s: set<Key>, e: nat, n: nat)
    requires e < n <= |t| && forall u :: u in s ==> NextPos(t, e + 1, u) < n
    ensures |s| <= n - e - 1
  {
    forall u | u in s ensures e + 1 <= NextPos(t, e + 1, u) < n && t[NextPos(t, e + 1, u)].key == u {
      NextPosIs(t, e + 1, u);
    }
    hide NextPos;
    var m: map<Key, nat> := map u | u in s :: NextPos(t, e + 1, u) - (e + 1);
    assert m.Keys == s;
    InjectiveSize(m);
    assert |m| == |m.Keys|;
    forall p | p in m.Values ensures p in Below(n - e - 1) {
      var u :| u in s && m[u] == p;
    }
    SubsetSize(m.Values, Below(n - e - 1));
  }

  lemma {:induction false} CachedWritten(t: seq<Request>, c: nat, run: seq<set<Key>>, n: nat)
    requires MinRun(t, c, run) && n <= |t|
    ensures |run[n]| <= Writes(Pattern(t), n)
  {
    if n > 0 {
      CachedWritten(t, c, run, n - 1);
      assert MinStep(t, n - 1, c, run[n - 1], run[n]);
      assert Pattern(t)[n - 1].write == t[n - 1].write;
      hide IsFurthest, MinRun;
    }
  }

  /** A key given up at e for others, and requested at n: the others are all wanted in between. */
  lemma {:induction false} OthersBetween(t: seq<Request>, s: set<Key>, e: nat, n: nat)
    requires ValidTrace(t) && e < n < |t| && IsFurthest(t, e + 1, s, t[n].key)
    ensures forall u :: u in s - {t[n].key} ==> NextPos(t, e + 1, u) < n
  {
    ValidIsOrdered(t);
    NextUseAtMost(t, e + 1, n, t[n].key);
    forall u | u in s - {t[n].key} ensures NextPos(t, e + 1, u) < n {
      NextPosIs(t, e + 1, u);
      assert NextUse(t, e + 1, u) <= t[n].line;
    }
  }

  lemma {:induction false} ValidIsOrdered(t: seq<Request>)
    requires ValidTrace(t)
    ensures LineOrdered(t)
  {
  }

  lemma {:induction false} LostReadIsLate(t: seq<Request>, c: nat, run: seq<set<Key>>, sched: seq<set<Key>>, n: nat)
    requires ValidTrace(t) && Contest(t, c, run, sched) && n < |t| - 1
    requires !t[n].write && t[n].key in sched[n] && t[n].key !in run[n]
    ensures LateReadAt(Pattern(t), c, n)
  {
    var k, w := t[n].key, Pattern(t);
    var y, e, x, u := LostKey(t, c, run, sched, n);
    OthersBetween(t, run[e], e, n);
    hide NextPos, IsFurthest, MinStep;
    WantedFew(t, run[e] - {k}, e, n);
    assert |run[e] - {k}| == |run[e]| - 1;
    CachedWritten(t, c, run, e);
    WritesMonotone(w, e + 1, n + 1 - c);
  }

  /** With one request per line no page ties with the one requested. */
  lemma {:induction false} NoTie(t: seq<Request>, i: nat, a: set<Key>, b: set<Key>)
    requires ValidTrace(t) && i < |t| && t[i].key in b && t[i].key !in a
    ensures !Behind(t, i, a, b, 0)
  {
    ValidIsOrdered(t);
    if Behind(t, i, a, b, 0) { var q := TiedPage(t, i, a, b); }
  }

  lemma {:induction false} CapacityPotential(t: seq<Request>, c: nat, run: seq<set<Key>>, sched: seq<set<Key>>, n: nat)
      returns (d: nat)
    requires ValidTrace(t) && Contest(t, c, run, sched) && SafeFor(Pattern(t), c) && n <= |t|
    ensures Behind(t, n, run[n], sched[n], d) && Misses(t, run, n) + d == Misses(t, sched, n)
  {
    if n == 0 {
      d := 0;
    } else {
      var e := CapacityPotential(t, c, run, sched, n - 1);
      var k, a, b := t[n - 1].key, run[n - 1], sched[n - 1];
      assert MinStep(t, n - 1, c, a, run[n]) && AllowedStep(t[n - 1], c, b, sched[n]);
      RunSize(t, c, run, n - 1);
      if k in b && k !in a {
        NoTie(t, n - 1, a, b);
        if !t[n - 1].write { LostIsLast(t, c, run, sched, n - 1); }
      }
      hide MinStep, AllowedStep, Behind, SafeFor, NextUse, ValidTrace;
      d := PotentialStep(t, n - 1, c, a, run[n], b, sched[n], e);
    }
  }

  lemma {:induction false} LostIsLast(t: seq<Request>, c: nat, run: seq<set<Key>>, sched: seq<set<Key>>, n: nat)
    requires ValidTrace(t) && Contest(t, c, run, sched) && SafeFor(Pattern(t), c) && n < |t|
    requires !t[n].write && t[n].key in sched[n] && t[n].key !in run[n]
    ensures NextUse(t, n + 1, t[n].key) == INF
  {
    if n < |t| - 1 { LostReadIsLate(t, c, run, sched, n); }
  }

  lemma {:induction false} SafeForIsOptimal(t: seq<Request>, c: nat, run: seq<set<Key>>, sched: seq<set<Key>>)
    requires ValidTrace(t) && Contest(t, c, run, sched) && SafeFor(Pattern(t), c)
    ensures Misses(t, run, |t|) <= Misses(t, sched, |t|)
  {
    var d := CapacityPotential(t, c, run, sched, |t|);
  }

  // ---------- with such a read somebody does ----------

  /** e is the write after the first c, and j a late read. */
  ghost predicate Late(w: seq<Shape>, c: nat, e: nat, j: nat) {
    && c >= 2 && OnePerLine(w) && e + c <= j < |w| - 1 && !w[j].write
    && w[e].write && Writes(w, e) == c
  }

  lemma {:induction false} FindWrite(w: seq<Shape>, n: nat, c: nat) returns (e: nat)
    requires n <= |w| && Writes(w, n) >= c + 1
    ensures e < n && w[e].write && Writes(w, e) == c
  {
    if Writes(w, n - 1) >= c + 1 { e := FindWrite(w, n - 1, c); } else { e := n - 1; }
  }

  /** Pages 1 to c at the first c writes; 1 to c - 1 right after e; page c at j and at the end. */
  ghost function CapKey(w: seq<Shape>, c: nat, e: nat, j: nat, m: nat): Key
    requires m < |w|
  {
    if m < e && w[m].write then Writes(w, m) + 1
    else if e < m < e + c then m - e
    else if m == j || m == |w| - 1 then c
    else m + c + 1
  }

  ghost function CapTrace(w: seq<Shape>, c: nat, e: nat, j: nat): seq<Request> {
    seq(|w|, m requires 0 <= m < |w| => Request(CapKey(w, c, e, j, m), w[m].line, w[m].write))
  }

  lemma {:induction false} CapTraceOk(w: seq<Shape>, c: nat, e: nat, j: nat)
    requires Late(w, c, e, j)
    ensures var t := CapTrace(w, c, e, j); Pattern(t) == w && ValidTrace(t)
  {
    hide Writes, CapKey;
  }

  ghost function UpTo(k: nat): (s: set<Key>)
    ensures |s| == k && forall u :: u in s <==> 1 <= u <= k
  {
    if k == 0 then {} else UpTo(k - 1) + {k}
  }

  /** Until e the pages fill the cache one by one. */
  lemma {:induction false} CapFilled(w: seq<Shape>, c: nat, e: nat, j: nat, run: seq<set<Key>>, n: nat)
    requires Late(w, c, e, j) && MinRun(CapTrace(w, c, e, j), c, run) && n <= e
    ensures run[n] == UpTo(Writes(w, n))
  {
    if n > 0 {
      var t := CapTrace(w, c, e, j);
      CapFilled(w, c, e, j, run, n - 1);
      WritesMonotone(w, n, e);
      assert MinStep(t, n - 1, c, run[n - 1], run[n]);
      assert t[n - 1].write == w[n - 1].write;
      hide IsFurthest, MinRun, OnePerLine;
      if w[n - 1].write { assert t[n - 1].key == Writes(w, n - 1) + 1; }
    }
  }

  /** Page u < c is wanted at e + u, page c at j. */
  lemma {:induction false} CapUses(w: seq<Shape>, c: nat, e: nat, j: nat, u: Key)
    requires Late(w, c, e, j) && 1 <= u <= c
    ensures var t := CapTrace(w, c, e, j);
      NextUse(t, e + 1, u) == if u < c then w[e + u].line else w[j].line
  {
    var t := CapTrace(w, c, e, j);
    CapTraceOk(w, c, e, j);
    ValidIsOrdered(t);
    var at := if u < c then e + u else j;
    assert t[at].key == u;
    FirstUse(t, e + 1, at, u);
  }

  lemma {:induction false} FirstUse(t: seq<Request>, i: nat, at: nat, k: Key)
    requires i <= at < |t| && t[at].key == k && forall m :: i <= m < at ==> t[m].key != k
    ensures NextUse(t, i, k) == t[at].line
    decreases at - i
  {
    if i < at { FirstUse(t, i + 1, at, k); }
  }

  /** At e the cache gives up page c. */
  lemma {:induction false} GivesUpLast(w: seq<Shape>, c: nat, e: nat, j: nat, run: seq<set<Key>>)
    requires Late(w, c, e, j) && MinRun(CapTrace(w, c, e, j), c, run)
    ensures run[e] == UpTo(c) && c !in run[e + 1]
  {
    var t := CapTrace(w, c, e, j);
    CapFilled(w, c, e, j, run, e);
    assert MinStep(t, e, c, run[e], run[e + 1]);
    assert t[e].key == e + c + 1 && t[e].write;
    forall u | u in UpTo(c) && u < c ensures NextUse(t, e + 1, u) < NextUse(t, e + 1, c) {
      CapUses(w, c, e, j, u);
      CapUses(w, c, e, j, c);
    }
    hide MinRun, NextUse, OnePerLine, CapTrace;
    var v :| IsFurthest(t, e + 1, run[e], v) && run[e + 1] == run[e] - {v} + {t[e].key};
    assert v == c;
  }

  lemma {:induction false} CapKeys(w: seq<Shape>, c: nat, e: nat, j: nat, m: nat)
    requires Late(w, c, e, j) && m < |w|
    ensures var t := CapTrace(w, c, e, j);
      && |t| == |w| && t[m].write == w[m].write
      && (m > e && m >= e + c && m != j && m != |w| - 1 ==> t[m].key == m + c + 1)
      && (m > e && t[m].write && m < |w| - 1 ==> t[m].key != c)
      && (t[m].key == c <==> m == j || m == |w| - 1 || (m < e && w[m].write && Writes(w, m) == c - 1))
      && (e < m < e + c ==> t[m].key == m - e)
  {
    if m < e && w[m].write { WritesMonotone(w, m + 1, e); }
  }

  /** After e the run hits at most right behind it. */
  lemma {:induction false} CapMisses(w: seq<Shape>, c: nat, e: nat, j: nat, run: seq<set<Key>>, m: nat)
    requires Late(w, c, e, j) && MinRun(CapTrace(w, c, e, j), c, run) && e + c <= m < |w|
    ensures CapTrace(w, c, e, j)[m].key !in run[m]
  {
    var t := CapTrace(w, c, e, j);
    CapKeys(w, c, e, j, m);
    GivesUpLast(w, c, e, j, run);
    if m == j || m == |w| - 1 {
      forall i | e + 1 <= i < m && t[i].write ensures t[i].key != c {
        CapKeys(w, c, e, j, i);
      }
      hide MinRun, CapTrace, OnePerLine;
      StaysOut(t, c, run, c, e + 1, m);
    } else {
      forall i | 0 <= i < m ensures t[i].key != t[m].key {
        if i < e && w[i].write { WritesMonotone(w, i + 1, e); }
      }
      hide MinRun, CapTrace, OnePerLine;
      FreshMissed(t, c, run, m);
    }
  }

  /** The rival gives up page 1 instead: after e it holds page c, of 2 to c - 1 those still to come, and the page
      written last. */
  ghost function CapRivalSet(t: seq<Request>, c: nat, e: nat, n: nat): set<Key>
    requires n <= |t|
  {
    Waiting(c, e, n) + {c, LastKey(t, n)}
  }

  ghost function Waiting(c: nat, e: nat, n: nat): set<Key> {
    set u | u in UpTo(c) && 2 <= u < c && n <= e + u
  }

  ghost function CapRival(t: seq<Request>, c: nat, run: seq<set<Key>>, e: nat): seq<set<Key>>
    requires |run| == |t| + 1
  {
    seq(|t| + 1, n requires 0 <= n <= |t| => if n <= e then run[n] else CapRivalSet(t, c, e, n))
  }

  lemma {:induction false} CapRivalSize(t: seq<Request>, c: nat, e: nat, n: nat)
    requires c >= 2 && n <= |t|
    ensures |CapRivalSet(t, c, e, n)| <= c
  {
    var x := UpTo(c) - {1, c};
    assert |UpTo(c) - {1}| == c - 1 && UpTo(c) - {1} - {c} == x && |x| == c - 2;
    SubsetSize(Waiting(c, e, n), x);
    var k := LastKey(t, n);
    hide LastKey, Waiting, UpTo;
    PairSize(c, k);
    UnionSize(Waiting(c, e, n), {c, k});
  }

  lemma {:induction false} UnionSize(a: set<Key>, b: set<Key>)
    ensures |a + b| <= |a| + |b|
  {
    assert a + b == a + (b - a);
    SubsetSize(b - a, b);
  }

  lemma {:induction false} CapRivalIs(t: seq<Request>, c: nat, run: seq<set<Key>>, e: nat, n: nat)
    requires |run| == |t| + 1 && n <= |t|
    ensures |CapRival(t, c, run, e)| == |t| + 1
    ensures CapRival(t, c, run, e)[n] == if n <= e then run[n] else CapRivalSet(t, c, e, n)
  {
  }

  lemma {:induction false} WaitingLess(c: nat, e: nat, n: nat)
    ensures Waiting(c, e, n + 1) <= Waiting(c, e, n)
  {
    hide UpTo;
  }

  lemma {:induction false} LastKeyNext(t: seq<Request>, n: nat)
    requires n < |t|
    ensures LastKey(t, n + 1) == if t[n].write then t[n].key else LastKey(t, n)
  {
  }

  lemma {:induction false} CapRivalStep(t: seq<Request>, c: nat, e: nat, n: nat)
    requires c >= 2 && e < n < |t|
    ensures AllowedStep(t[n], c, CapRivalSet(t, c, e, n), CapRivalSet(t, c, e, n + 1))
  {
    hide UpTo, Waiting, LastKey;
    CapRivalSize(t, c, e, n + 1);
    WaitingLess(c, e, n);
    LastKeyNext(t, n);
  }

  lemma {:induction false} WaitingIn(c: nat, e: nat, n: nat)
    ensures Waiting(c, e, n) <= UpTo(c)
  {
    hide UpTo;
  }

  lemma {:induction false} CapRivalTurns(t: seq<Request>, c: nat, e: nat)
    requires c >= 2 && e < |t| && t[e].write
    ensures AllowedStep(t[e], c, UpTo(c), CapRivalSet(t, c, e, e + 1))
  {
    assert c in UpTo(c);
    hide UpTo, Waiting, LastKey;
    CapRivalSize(t, c, e, e + 1);
    WaitingIn(c, e, e + 1);
    LastKeyNext(t, e);
  }

  lemma {:induction false} CapEarly(t: seq<Request>, c: nat, run: seq<set<Key>>, n: nat)
    requires MinRun(t, c, run) && c >= 1 && n < |t|
    ensures AllowedStep(t[n], c, run[n], run[n + 1])
  {
    RunSize(t, c, run, n + 1);
    assert MinStep(t, n, c, run[n], run[n + 1]);
    hide MinRun, MinStep, AllowedStep;
    StepAllowed(t, n, c, run[n], run[n + 1]);
  }

  lemma {:induction false} CapRivalAllowedAt(t: seq<Request>, c: nat, run: seq<set<Key>>, e: nat, n: nat)
    requires c >= 2 && MinRun(t, c, run) && e < |t| && t[e].write && run[e] == UpTo(c) && n < |t|
    ensures |CapRival(t, c, run, e)| == |t| + 1
    ensures AllowedStep(t[n], c, CapRival(t, c, run, e)[n], CapRival(t, c, run, e)[n + 1])
  {
    assert |run| == |t| + 1;
    hide MinRun, AllowedStep, CapRivalSet, CapRival, UpTo;
    CapRivalIs(t, c, run, e, n);
    CapRivalIs(t, c, run, e, n + 1);
    if n < e {
      CapEarly(t, c, run, n);
    } else if n == e {
      CapRivalTurns(t, c, e);
    } else {
      CapRivalStep(t, c, e, n);
    }
  }

  lemma {:induction false} CapRivalAllowed(t: seq<Request>, c: nat, run: seq<set<Key>>, e: nat)
    requires c >= 2 && MinRun(t, c, run) && e < |t| && t[e].write && run[e] == UpTo(c)
    ensures Allowed(t, c, CapRival(t, c, run, e))
  {
    var sched := CapRival(t, c, run, e);
    assert |run| == |t| + 1 && run[0] == {};
    CapRivalIs(t, c, run, e, 0);
    hide MinRun, AllowedStep, CapRivalSet, CapRival, UpTo;
    forall n | 0 <= n < |t| ensures AllowedStep(t[n], c, sched[n], sched[n + 1]) {
      CapRivalAllowedAt(t, c, run, e, n);
    }
  }

  /** The rival hits right behind e from the second request on, and at j and at the end. */
  lemma {:induction false} CapRivalHits(w: seq<Shape>, c: nat, e: nat, j: nat, run: seq<set<Key>>, m: nat)
    requires Late(w, c, e, j) && |run| == |w| + 1 && m < |w|
    requires e + 2 <= m < e + c || m == j || m == |w| - 1
    ensures var t := CapTrace(w, c, e, j); t[m].key in CapRival(t, c, run, e)[m]
  {
    var t := CapTrace(w, c, e, j);
    CapKeys(w, c, e, j, m);
    CapRivalIs(t, c, run, e, m);
    hide CapTrace, CapRival, OnePerLine, LastKey;
  }

  lemma {:induction false} OursFrom(t: seq<Request>, run: seq<set<Key>>, e: nat, c: nat, n: nat)
    requires c >= 1 && e < n <= |t| && |run| == |t| + 1 && forall m :: e + c <= m < |t| ==> t[m].key !in run[m]
    ensures Misses(t, run, n) >= Misses(t, run, e + 1) + (if n <= e + c then 0 else n - e - c)
  {
    if n > e + 1 { OursFrom(t, run, e, c, n - 1); }
  }

  lemma {:induction false} TheirsFrom(t: seq<Request>, sched: seq<set<Key>>, e: nat, c: nat, j: nat, n: nat)
    requires e < n <= |t| && |sched| == |t| + 1 && c >= 2 && e + c <= j < |t| - 1
    requires forall m :: e + 2 <= m < |t| && (m < e + c || m == j || m == |t| - 1) ==> t[m].key in sched[m]
    ensures Misses(t, sched, n) <= Misses(t, sched, e + 1) + (if n == e + 1 then 0 else 1)
      + (if n <= e + c then 0 else n - e - c) - (if j < n then 1 else 0) - (if n == |t| then 1 else 0)
  {
    if n > e + 1 { TheirsFrom(t, sched, e, c, j, n - 1); }
  }

  lemma {:induction false} LateIsBeaten(w: seq<Shape>, c: nat, e: nat, j: nat)
    requires Late(w, c, e, j)
    ensures var t := CapTrace(w, c, e, j); Pattern(t) == w && Beaten(t, c)
  {
    var t := CapTrace(w, c, e, j);
    CapTraceOk(w, c, e, j);
    ValidIsOrdered(t);
    CapKeys(w, c, e, j, e);
    hide LineOrdered, CapTrace, HeapRun, MinRun, OnePerLine, ValidTrace, HeapStep, Allowed;
    var run := RunExists(t, c);
    HeapRunIsMin(t, c, run);
    RunLength(t, c, run);
    GivesUpLast(w, c, e, j, run);
    CapRivalAllowed(t, c, run, e);
    var sched := CapRival(t, c, run, e);
    forall m | e + c <= m < |t| ensures t[m].key !in run[m] {
      CapMisses(w, c, e, j, run, m);
    }
    CapRivalIs(t, c, run, e, 0);
    forall m | e + 2 <= m < |t| && (m < e + c || m == j || m == |t| - 1) ensures t[m].key in sched[m] {
      CapRivalHits(w, c, e, j, run, m);
    }
    forall m | 0 <= m < e + 1 ensures run[m] == sched[m] {
      CapRivalIs(t, c, run, e, m);
    }
    hide CapRival;
    SameMisses(t, run, sched, e + 1);
    OursFrom(t, run, e, c, |t|);
    TheirsFrom(t, sched, e, c, j, |t|);
  }

  lemma {:induction false} RunLength(t: seq<Request>, c: nat, run: seq<set<Key>>)
    requires MinRun(t, c, run)
    ensures |run| == |t| + 1
  {
  }

  lemma {:induction false} RunExists(t: seq<Request>, c: nat) returns (run: seq<set<Key>>)
    requires c >= 1
    ensures HeapRun(t, c, run)
  {
    hide HeapStep;
    run := Extend(t, c, [{}], 0, |t|);
  }

  // ---------- the exact condition ----------

  /** With one request per line and room for two pages or more, the policy is optimal on a pattern if and only if no
      read but the last request comes after c + 1 writes with at least c - 1 requests in between. */
  lemma {:induction false} OptimalAtCapacity(w: seq<Shape>, c: nat)
    requires OnePerLine(w) && c >= 2
    ensures OptimalAt(w, c) <==> SafeFor(w, c)
  {
    hide LineOrdered, HeapStep, AllowedStep, OnePerLine, Misses, MinRun;
    if SafeFor(w, c) {
      forall t: seq<Request>, run: seq<set<Key>>, sched: seq<set<Key>>
        | LineOrdered(t) && Pattern(t) == w && HeapRun(t, c, run) && Allowed(t, c, sched)
        ensures Misses(t, run, |t|) <= Misses(t, sched, |t|)
      {
        HeapRunIsMin(t, c, run);
        OneByOne(t, w);
        SafeForIsOptimal(t, c, run, sched);
      }
    } else {
      var j :| 0 <= j < |w| && LateReadAt(w, c, j);
      var e := FindWrite(w, j + 1 - c, c);
      LateIsBeaten(w, c, e, j);
      BeatenIsNot(CapTrace(w, c, e, j), w, c);
    }
  }

  lemma {:induction false} OneByOne(t: seq<Request>, w: seq<Shape>)
    requires OnePerLine(w) && Pattern(t) == w
    ensures ValidTrace(t)
  {
    assert forall i :: 0 <= i < |t| ==> w[i].line == t[i].line;
  }

  lemma {:induction false} BeatenIsNot(t: seq<Request>, w: seq<Shape>, c: nat)
    requires Beaten(t, c) && Pattern(t) == w
    ensures !OptimalAt(w, c)
  {
    hide LineOrdered, HeapStep, AllowedStep;
    var run, sched :| HeapRun(t, c, run) && Allowed(t, c, sched) && Misses(t, sched, |t|) < Misses(t, run, |t|);
  }
}
