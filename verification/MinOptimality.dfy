/** Furthest-next-use replacement against every other policy with the same admission rule. */
module MinOptimality {
  import opened Trace
  import opened Sets

  /** One step of the policy coded in src/min.cpp: hits and read misses leave the contents alone,
      a write miss inserts, and a full cache first drops some key whose next use is furthest. */
  ghost predicate MinStep(t: seq<Request>, i: nat, c: nat, s: set<Key>, s': set<Key>)
    requires i < |t|
  {
    var k := t[i].key;
    if k in s || !t[i].write then s' == s
    else if |s| < c then s' == s + {k}
    else exists v :: IsFurthest(t, i + 1, s, v) && s' == s - {v} + {k}
  }

  ghost predicate IsFurthest(t: seq<Request>, i: nat, s: set<Key>, v: Key)
    requires i <= |t|
  {
    v in s && forall u :: u in s ==> NextUse(t, i, u) <= NextUse(t, i, v)
  }

  ghost predicate MinRun(t: seq<Request>, c: nat, run: seq<set<Key>>) {
    && |run| == |t| + 1
    && run[0] == {}
    && forall i :: 0 <= i < |t| ==> MinStep(t, i, c, run[i], run[i + 1])
  }

  /** One more than the position of the last request for k before n, 0 if there is none. */
  ghost function LastRequest(t: seq<Request>, n: nat, k: Key): nat
    requires n <= |t|
  {
    if n == 0 then 0 else if t[n - 1].key == k then n else LastRequest(t, n - 1, k)
  }

  /** The front of the heap: of the keys with the furthest next use the one requested longest ago. */
  ghost predicate IsFront(t: seq<Request>, n: nat, s: set<Key>, v: Key)
    requires n <= |t|
  {
    && IsFurthest(t, n, s, v)
    && forall u :: u in s && NextUse(t, n, u) == NextUse(t, n, v) ==> LastRequest(t, n, v) <= LastRequest(t, n, u)
  }

  /** The step with the heap's own choice among keys that are next requested on the same line. */
  ghost predicate HeapStep(t: seq<Request>, i: nat, c: nat, s: set<Key>, s': set<Key>)
    requires i < |t|
  {
    var k := t[i].key;
    if k in s || !t[i].write then s' == s
    else if |s| < c then s' == s + {k}
    else exists v :: IsFront(t, i + 1, s, v) && s' == s - {v} + {k}
  }

  ghost predicate HeapRun(t: seq<Request>, c: nat, run: seq<set<Key>>) {
    && |run| == |t| + 1
    && run[0] == {}
    && forall i :: 0 <= i < |t| ==> HeapStep(t, i, c, run[i], run[i + 1])
  }

  lemma {:induction false} HeapStepIsMin(t: seq<Request>, i: nat, c: nat, s: set<Key>, s': set<Key>)
    requires i < |t| && HeapStep(t, i, c, s, s')
    ensures MinStep(t, i, c, s, s')
  {
    hide IsFurthest;
    if t[i].write && t[i].key !in s && |s| >= c {
      var v :| IsFront(t, i + 1, s, v) && s' == s - {v} + {t[i].key};
      assert IsFurthest(t, i + 1, s, v);
    }
  }

  lemma {:induction false} HeapRunIsMin(t: seq<Request>, c: nat, run: seq<set<Key>>)
    requires HeapRun(t, c, run)
    ensures MinRun(t, c, run)
  {
    hide HeapStep, MinStep;
    forall i | 0 <= i < |t| ensures MinStep(t, i, c, run[i], run[i + 1]) {
      HeapStepIsMin(t, i, c, run[i], run[i + 1]);
    }
  }

  /** Any policy of capacity c: a written key is in the cache afterwards, a read miss inserts nothing,
      nothing is prefetched; beyond that keys may be dropped at any time, in any number. */
  ghost predicate AllowedStep(r: Request, c: nat, s: set<Key>, s': set<Key>) {
    && |s'| <= c
    && (if r.write then r.key in s' && s' <= s + {r.key} else s' <= s)
  }

  ghost predicate Allowed(t: seq<Request>, c: nat, sched: seq<set<Key>>) {
    && |sched| == |t| + 1
    && sched[0] == {}
    && forall i :: 0 <= i < |t| ==> AllowedStep(t[i], c, sched[i], sched[i + 1])
  }

  ghost function Miss(k: Key, s: set<Key>): nat {
    if k in s then 0 else 1
  }

  /** Misses among the first n requests. */
  ghost function Misses(t: seq<Request>, sched: seq<set<Key>>, n: nat): nat
    requires n <= |t| && n <= |sched|
  {
    if n == 0 then 0
    else Misses(t, sched, n - 1) + Miss(t[n - 1].key, sched[n - 1])
  }

  // ---------- the potential: how many cached keys are wanted before line x ----------

  ghost function Soon(t: seq<Request>, i: nat, s: set<Key>, x: nat): set<Key>
    requires i <= |t|
  {
    set k | k in s && NextUse(t, i, k) < x
  }

  /** s is behind a by at most d keys, at every horizon. */
  ghost predicate Behind(t: seq<Request>, i: nat, a: set<Key>, b: set<Key>, d: nat)
    requires i <= |t|
  {
    forall x: nat :: x <= INF ==> BehindAt(t, i, a, b, d, x)
  }

  ghost predicate BehindAt(t: seq<Request>, i: nat, a: set<Key>, b: set<Key>, d: nat, x: nat)
    requires i <= |t|
  {
    |Soon(t, i, b, x)| <= |Soon(t, i, a, x)| + d
  }

  /** How one request moves the horizon count of a set. */
  lemma {:induction false} SoonStep(t: seq<Request>, i: nat, s: set<Key>, x: nat)
    requires LineOrdered(t) && i < |t|
    ensures x <= t[i].line ==> Soon(t, i, s, x) == {} && Soon(t, i + 1, s, x) == {}
    ensures var k := t[i].key;
      t[i].line < x ==>
        && |Soon(t, i, s, x)| == |Soon(t, i + 1, s - {k}, x)| + (if k in s then 1 else 0)
        && |Soon(t, i + 1, s, x)|
           == |Soon(t, i + 1, s - {k}, x)| + (if k in s && NextUse(t, i + 1, k) < x then 1 else 0)
  {
    var k := t[i].key;
    forall u ensures t[i].line <= NextUse(t, i + 1, u) && t[i].line <= NextUse(t, i, u)
                     && NextUse(t, i, u) == if k == u then t[i].line else NextUse(t, i + 1, u)
    {
      NextUseBound(t, i, u);
      NextUseStays(t, i, u);
    }
    hide NextUse;
    if t[i].line < x {
      var rest := Soon(t, i + 1, s - {k}, x);
      assert Soon(t, i, s, x) == if k in s then rest + {k} else rest;
      assert Soon(t, i + 1, s, x) == if k in s && NextUse(t, i + 1, k) < x then rest + {k} else rest;
    }
  }

  lemma {:induction false} SoonMonotone(t: seq<Request>, i: nat, s: set<Key>, s': set<Key>, x: nat)
    requires i <= |t| && s <= s'
    ensures |Soon(t, i, s, x)| <= |Soon(t, i, s', x)|
  {
    SubsetSize(Soon(t, i, s, x), Soon(t, i, s', x));
  }

  lemma {:induction false} SoonSize(t: seq<Request>, i: nat, s: set<Key>, x: nat)
    requires i <= |t|
    ensures |Soon(t, i, s, x)| <= |s|
  {
    SubsetSize(Soon(t, i, s, x), s);
  }

  /** Removing the furthest key of a full cache costs nothing before its use, and leaves the cache
      saturated beyond it. */
  lemma {:induction false} EvictionHorizon(t: seq<Request>, i: nat, a: set<Key>, v: Key, x: nat)
    requires i <= |t| && IsFurthest(t, i, a, v)
    ensures x <= NextUse(t, i, v) ==> Soon(t, i, a - {v}, x) == Soon(t, i, a, x)
    ensures x > NextUse(t, i, v) ==> Soon(t, i, a - {v}, x) == a - {v}
  {
  }

  /** At every horizon the rival's lead grows by at most (rival's miss - our miss), or is at most zero. */
  lemma {:induction false} HorizonStep(t: seq<Request>, i: nat, c: nat,
                    a: set<Key>, a': set<Key>, b: set<Key>, b': set<Key>, x: nat)
    requires LineOrdered(t) && i < |t| && x <= INF
    requires |a| <= c && MinStep(t, i, c, a, a') && AllowedStep(t[i], c, b, b')
    requires var k := t[i].key;
      !t[i].write && k in b && k !in a ==> NextUse(t, i + 1, k) == INF
    ensures var lead := |Soon(t, i, b, x)| - |Soon(t, i, a, x)| + Miss(t[i].key, b) - Miss(t[i].key, a);
      |Soon(t, i + 1, b', x)| <= |Soon(t, i + 1, a', x)| + (if lead > 0 && t[i].line < x then lead else 0)
  {
    hide Soon, NextUse, LineOrdered, IsFurthest;
    var k := t[i].key;
    SoonStep(t, i, a, x);
    SoonStep(t, i, b, x);
    SoonStep(t, i, a', x);
    SoonStep(t, i, b', x);
    if t[i].line < x {
      SoonMonotone(t, i + 1, b' - {k}, b - {k}, x);
      if k in a || !t[i].write || |a| < c {
        assert a' - {k} == a - {k};
      } else {
        var v :| IsFurthest(t, i + 1, a, v) && a' == a - {v} + {k};
        assert a' - {k} == a - {v} && a - {k} == a && v in a by { FurthestIn(t, i + 1, a, v); }
        EvictionHorizon(t, i + 1, a, v, x);
        SoonSize(t, i + 1, b' - {k}, x);
        assert |a - {v}| == |a| - 1;
        assert |b' - {k}| == |b'| - 1;
      }
    }
  }

  lemma {:induction false} FurthestIn(t: seq<Request>, i: nat, s: set<Key>, v: Key)
    requires i <= |t| && IsFurthest(t, i, s, v)
    ensures v in s
  {
  }

  /** Potential step: our misses plus the allowance never outgrow the rival's misses, unless the allowance is used up
      and only the rival hits. */
  lemma {:induction false} PotentialStep(t: seq<Request>, i: nat, c: nat,
                      a: set<Key>, a': set<Key>, b: set<Key>, b': set<Key>, d: nat) returns (d': nat)
    requires LineOrdered(t) && i < |t|
    requires |a| <= c && MinStep(t, i, c, a, a') && AllowedStep(t[i], c, b, b')
    requires var k := t[i].key;
      && (!t[i].write && k in b && k !in a ==> NextUse(t, i + 1, k) == INF)
      && (k in b && k !in a ==> d > 0)
    requires Behind(t, i, a, b, d)
    ensures Behind(t, i + 1, a', b', d')
    ensures Miss(t[i].key, a) + d' == Miss(t[i].key, b) + d
  {
    var k := t[i].key;
    d' := d + Miss(k, b) - Miss(k, a);
    var e, n := d', i + 1;
    forall x: nat | x <= INF ensures BehindAt(t, n, a', b', e, x) {
      assert BehindAt(t, i, a, b, d, x);
      HorizonStep(t, i, c, a, a', b, b', x);
    }
  }

  lemma {:induction false} RunSize(t: seq<Request>, c: nat, run: seq<set<Key>>, n: nat)
    requires MinRun(t, c, run) && n <= |t| && c >= 1
    ensures |run[n]| <= c
  {
    if n > 0 {
      RunSize(t, c, run, n - 1);
      assert MinStep(t, n - 1, c, run[n - 1], run[n]);
    }
  }

  // ---------- patterns of writes, reads and lines ----------

  /** What a pattern says of a request: all but the key. */
  datatype Shape = Shape(write: bool, line: nat)

  ghost function Pattern(t: seq<Request>): seq<Shape> {
    seq(|t|, i requires 0 <= i < |t| => Shape(t[i].write, t[i].line))
  }

  ghost predicate PatternOk(w: seq<Shape>) {
    && (forall i :: 0 <= i < |w| ==> 1 <= w[i].line < INF)
    && (forall i, j :: 0 <= i < j < |w| ==> w[i].line <= w[j].line)
  }

  /** A page written at y and read at j may be given up at e for one written at x and requested at i, and be requested
      again on the last line: it is not readmitted at j. */
  ghost predicate CostlyReadAt(w: seq<Shape>, x: nat, y: nat, e: nat, i: nat, j: nat) {
    && x != y && x < e && y < e && e < i < |w| && e < j < |w| && i != j
    && w[x].write && w[y].write && w[e].write && !w[j].write
    && w[x].line < w[i].line <= w[j].line && w[y].line < w[j].line < w[|w| - 1].line
  }

  /** Pages written at x and y and requested on one line, first at p and later at q, tie when a page is needed: giving
      up the one requested first costs the page written at s, which is requested at r. */
  ghost predicate CostlyTieAt(w: seq<Shape>, x: nat, y: nat, s: nat, p: nat, q: nat, r: nat) {
    && x < y < s < p < q < |w| && p < r < |w| && q != r
    && w[x].write && w[y].write && w[s].write && w[p].write
    && (forall m :: s < m < p ==> !w[m].write)
    && w[y].line < w[p].line == w[q].line && w[s].line < w[r].line
  }

  ghost predicate CostlyRead(w: seq<Shape>) {
    exists x: nat, y: nat, e: nat, i: nat, j: nat :: CostlyReadAt(w, x, y, e, i, j)
  }

  ghost predicate CostlyTie(w: seq<Shape>) {
    exists x: nat, y: nat, s: nat, p: nat, q: nat, r: nat :: CostlyTieAt(w, x, y, s, p, q, r)
  }

  ghost predicate Safe(w: seq<Shape>) { !CostlyRead(w) && !CostlyTie(w) }

  lemma {:induction false} NoCostlyRead(w: seq<Shape>, x: nat, y: nat, e: nat, i: nat, j: nat)
    requires !CostlyRead(w)
    ensures !CostlyReadAt(w, x, y, e, i, j)
  {
  }

  lemma {:induction false} NoCostlyTie(w: seq<Shape>, x: nat, y: nat, s: nat, p: nat, q: nat, r: nat)
    requires !CostlyTie(w)
    ensures !CostlyTieAt(w, x, y, s, p, q, r)
  {
  }

  // ---------- on a safe pattern nobody misses less ----------

  /** What the argument is about: a run of the policy and a rival's schedule on a trace of a safe pattern. */
  ghost predicate Contest(t: seq<Request>, c: nat, run: seq<set<Key>>, sched: seq<set<Key>>) {
    LineOrdered(t) && c >= 1 && MinRun(t, c, run) && Allowed(t, c, sched)
  }

  lemma {:induction false} CapacityOneCovers(t: seq<Request>, run: seq<set<Key>>, sched: seq<set<Key>>, n: nat)
    requires MinRun(t, 1, run) && Allowed(t, 1, sched) && n <= |t|
    ensures sched[n] <= run[n]
  {
    if n > 0 {
      CapacityOneCovers(t, run, sched, n - 1);
      assert MinStep(t, n - 1, 1, run[n - 1], run[n]);
      assert AllowedStep(t[n - 1], 1, sched[n - 1], sched[n]);
      if t[n - 1].write {
        SubsetSize(sched[n] - {t[n - 1].key}, sched[n]);
        assert sched[n] == {t[n - 1].key};
      }
    }
  }

  /** A key in the rival's cache was written before. */
  lemma {:induction false} RivalWrote(t: seq<Request>, c: nat, sched: seq<set<Key>>, n: nat, k: Key) returns (m: nat)
    requires Allowed(t, c, sched) && n <= |t| && k in sched[n]
    ensures m < n && t[m].write && t[m].key == k
  {
    assert AllowedStep(t[n - 1], c, sched[n - 1], sched[n]);
    if t[n - 1].write && t[n - 1].key == k { m := n - 1; } else { m := RivalWrote(t, c, sched, n - 1, k); }
  }

  lemma {:induction false} WeWrote(t: seq<Request>, c: nat, run: seq<set<Key>>, n: nat, k: Key) returns (m: nat)
    requires MinRun(t, c, run) && n <= |t| && k in run[n]
    ensures m < n && t[m].write && t[m].key == k
  {
    assert MinStep(t, n - 1, c, run[n - 1], run[n]);
    if t[n - 1].write && t[n - 1].key == k { m := n - 1; } else { m := WeWrote(t, c, run, n - 1, k); }
  }

  lemma {:induction false} StepGivesUp(t: seq<Request>, n: nat, c: nat, s: set<Key>, s': set<Key>, k: Key)
    requires n < |t| && MinStep(t, n, c, s, s') && k in s && k !in s'
    ensures t[n].write && t[n].key !in s && |s| >= c && IsFurthest(t, n + 1, s, k)
  {
    hide IsFurthest;
    if t[n].write && t[n].key !in s && |s| >= c {
      var v :| IsFurthest(t, n + 1, s, v) && s' == s - {v} + {t[n].key};
      assert v == k;
    }
  }

  /** A key that was cached and is no longer was given up by a write on a full cache. */
  lemma {:induction false} GivenUp(t: seq<Request>, c: nat, run: seq<set<Key>>, m: nat, n: nat, k: Key)
      returns (e: nat)
    requires MinRun(t, c, run) && m < n <= |t| && k in run[m] && k !in run[n]
    ensures m <= e < n && k in run[e] && t[e].write && t[e].key !in run[e] && |run[e]| >= c
    ensures IsFurthest(t, e + 1, run[e], k)
  {
    hide IsFurthest, MinStep;
    if k in run[n - 1] {
      e := n - 1;
      assert MinStep(t, e, c, run[e], run[e + 1]);
      StepGivesUp(t, e, c, run[e], run[e + 1], k);
    } else {
      e := GivenUp(t, c, run, m, n - 1, k);
    }
  }

  /** Where the rival has the key requested and we do not: it was written, and given up while another was cached. */
  lemma {:induction false} LostKey(t: seq<Request>, c: nat, run: seq<set<Key>>, sched: seq<set<Key>>, n: nat)
      returns (y: nat, e: nat, x: nat, u: Key)
    requires Contest(t, c, run, sched) && n < |t| && t[n].key in sched[n] && t[n].key !in run[n]
    ensures c >= 2 && x != y && x < e && y < e < n && t[x].write && t[y].write && t[e].write
    ensures t[y].key == t[n].key && t[x].key == u && u in run[e] && t[e].key !in run[e]
    ensures u != t[n].key && |run[e]| >= c && IsFurthest(t, e + 1, run[e], t[n].key)
  {
    var k := t[n].key;
    if c == 1 { CapacityOneCovers(t, run, sched, n); }
    var y0 := RivalWrote(t, c, sched, n, k);
    assert MinStep(t, y0, c, run[y0], run[y0 + 1]);
    e := GivenUp(t, c, run, y0 + 1, n, k);
    hide MinStep, IsFurthest;
    y := WeWrote(t, c, run, e, k);
    u :| u in run[e] - {k} by {
      assert |run[e] - {k}| == |run[e]| - 1;
    }
    x := WeWrote(t, c, run, e, u);
  }

  /** The read at n recurs, its page was given up at e for u: that is a costly read. */
  lemma {:induction false} RecurringRead(t: seq<Request>, s: set<Key>, x: nat, y: nat, e: nat, n: nat, u: Key)
    requires LineOrdered(t) && n < |t| && !t[n].write && NextUse(t, n + 1, t[n].key) < INF
    requires x != y && x < e && y < e < n && t[x].write && t[y].write && t[e].write
    requires t[y].key == t[n].key && t[x].key == u && u != t[n].key
    requires u in s && IsFurthest(t, e + 1, s, t[n].key)
    ensures CostlyRead(Pattern(t))
  {
    var k := t[n].key;
    NextUseAtMost(t, e + 1, n, k);
    assert NextUse(t, e + 1, u) <= t[n].line;
    hide IsFurthest, CostlyReadAt;
    var j := UseAt(t, n + 1, k);
    var i := UseAt(t, e + 1, u);
    hide NextUse;
    ReadPattern(t, x, y, e, i, n, j);
  }

  lemma {:induction false} ReadPattern(t: seq<Request>, x: nat, y: nat, e: nat, i: nat, n: nat, j: nat)
    requires LineOrdered(t) && x != y && x < e && y < e < n < j < |t| && e < i < |t| && i != n
    requires t[x].write && t[y].write && t[e].write && !t[n].write
    requires t[x].key == t[i].key && t[y].key == t[n].key == t[j].key && t[i].line <= t[n].line
    ensures CostlyReadAt(Pattern(t), x, y, e, i, n)
  {
    assert t[x].line < t[i].line && t[y].line < t[n].line < t[j].line <= t[|t| - 1].line;
    hide LineOrdered;
  }

  /** Where a finite next use is. */
  lemma {:induction false} UseAt(t: seq<Request>, n: nat, k: Key) returns (m: nat)
    requires LineOrdered(t) && n <= |t| && NextUse(t, n, k) < INF
    ensures n <= m < |t| && t[m].key == k && t[m].line == NextUse(t, n, k)
  {
    NextUseMeaning(t, n, k);
    m :| n <= m < |t| && t[m].key == k && t[m].line == NextUse(t, n, k);
  }

  /** On a safe pattern a read that the rival hits and we miss does not recur. */
  lemma {:induction false} LostReadIsLast(t: seq<Request>, c: nat, run: seq<set<Key>>, sched: seq<set<Key>>, n: nat)
    requires Contest(t, c, run, sched) && !CostlyRead(Pattern(t))
    requires n < |t| && !t[n].write && t[n].key in sched[n] && t[n].key !in run[n]
    ensures NextUse(t, n + 1, t[n].key) == INF
  {
    var y, e, x, u := LostKey(t, c, run, sched, n);
    NextUseMeaning(t, n + 1, t[n].key);
    hide NextUse, MinRun, Allowed, CostlyRead, IsFurthest;
    if NextUse(t, n + 1, t[n].key) < INF { RecurringRead(t, run[e], x, y, e, n, u); }
  }

  /** Three writes, the first two on lines before that of position n. */
  ghost predicate ThreeWrites(t: seq<Request>, x: nat, y: nat, e: nat, n: nat) {
    && x < y < e < n < |t| && t[x].write && t[y].write && t[e].write && t[y].line < t[n].line
  }

  lemma {:induction false} SortWrites(t: seq<Request>, m1: nat, m2: nat, m3: nat, n: nat)
      returns (x: nat, y: nat, e: nat)
    requires LineOrdered(t) && m1 < n && m2 < n && m3 < n < |t| && m1 != m2 && m1 != m3 && m2 != m3
    requires t[m1].write && t[m2].write && t[m3].write && t[m1].line < t[n].line && t[m2].line < t[n].line
    ensures ThreeWrites(t, x, y, e, n)
  {
    var lo, hi := if m1 < m2 then m1 else m2, if m1 < m2 then m2 else m1;
    if m3 < lo { x, y, e := m3, lo, hi; } else if m3 < hi { x, y, e := lo, m3, hi; } else { x, y, e := lo, hi, m3; }
  }

  /** The allowance is used up and only the rival hits: a page we hold ties with the one requested. */
  lemma {:induction false} TiedPage(t: seq<Request>, i: nat, a: set<Key>, b: set<Key>) returns (q: nat)
    requires LineOrdered(t) && i < |t| && Behind(t, i, a, b, 0) && t[i].key in b && t[i].key !in a
    ensures i < q < |t| && t[q].key in a && t[q].line == t[i].line
  {
    var k, x := t[i].key, t[i].line + 1;
    assert BehindAt(t, i, a, b, 0, x);
    NextUseStays(t, i, k);
    assert k in Soon(t, i, b, x);
    var u :| u in Soon(t, i, a, x);
    NextUseBound(t, i, u);
    NextUseMeaning(t, i, u);
    q :| i <= q < |t| && t[q].key == u && t[q].line == NextUse(t, i, u);
  }

  lemma {:induction false} TroubleWrites(t: seq<Request>, c: nat, run: seq<set<Key>>, sched: seq<set<Key>>, n: nat,
                                         q: nat)
      returns (x: nat, y: nat, e: nat)
    requires Contest(t, c, run, sched) && n < |t| && t[n].key in sched[n] && t[n].key !in run[n]
    requires n < q < |t| && t[q].key in run[n] && t[q].line == t[n].line
    ensures c >= 2 && ThreeWrites(t, x, y, e, n)
  {
    var y0, e0, x0, u := LostKey(t, c, run, sched, n);
    var m := WeWrote(t, c, run, n, t[q].key);
    x, y, e := SortWrites(t, y0, m, if e0 == m then x0 else e0, n);
  }

  /** The last write before n. */
  lemma {:induction false} LastWrite(t: seq<Request>, m: nat, n: nat) returns (s: nat)
    requires m < n <= |t| && t[m].write
    ensures m <= s < n && t[s].write && forall j :: s < j < n ==> !t[j].write
  {
    if t[n - 1].write { s := n - 1; } else { s := LastWrite(t, m, n - 1); }
  }

  /** From n on all requests are on the last line, and three writes came before. */
  ghost predicate Tail(t: seq<Request>, c: nat, n: nat) {
    c >= 2 && n < |t| && t[|t| - 1].line == t[n].line && exists x, y, e :: ThreeWrites(t, x, y, e, n)
  }

  /** On a safe pattern this happens on the last line only. */
  lemma {:induction false} TroubleIsLate(t: seq<Request>, c: nat, run: seq<set<Key>>, sched: seq<set<Key>>, n: nat)
    requires Contest(t, c, run, sched) && Safe(Pattern(t))
    requires n < |t| && t[n].key in sched[n] && t[n].key !in run[n] && Behind(t, n, run[n], sched[n], 0)
    ensures Tail(t, c, n)
  {
    var q := TiedPage(t, n, run[n], sched[n]);
    var x, y, e := TroubleWrites(t, c, run, sched, n, q);
    hide Behind, MinRun, Allowed, CostlyRead, CostlyTie, KeyOrdered;
    var w := Pattern(t);
    assert t[q].line <= t[|t| - 1].line;
    NoCostlyRead(w, x, y, e, q, n);
    if t[n].write {
      var s := LastWrite(t, e, n);
      NoCostlyTie(w, x, y, s, n, q, |t| - 1);
    }
  }

  /** On the last line nothing is wanted twice. */
  lemma {:induction false} LastLineOnce(t: seq<Request>, n: nat, m: nat)
    requires LineOrdered(t) && m <= n < |t| && t[|t| - 1].line == t[m].line
    ensures NextUse(t, n + 1, t[m].key) == INF
  {
    NextUseMeaning(t, n + 1, t[m].key);
  }

  /** Reads leave the contents alone. */
  lemma {:induction false} ReadsKeep(t: seq<Request>, c: nat, run: seq<set<Key>>, s: nat, n: nat)
    requires MinRun(t, c, run) && s <= n <= |t| && forall j :: s <= j < n ==> !t[j].write
    ensures run[n] == run[s]
  {
    if s < n {
      ReadsKeep(t, c, run, s, n - 1);
      assert MinStep(t, n - 1, c, run[n - 1], run[n]);
    }
  }


  lemma {:induction false} NextUseMost(t: seq<Request>, n: nat)
    requires LineOrdered(t) && n <= |t|
    ensures forall u :: NextUse(t, n, u) <= INF
  {
    forall u ensures NextUse(t, n, u) <= INF {
      NextUseMeaning(t, n, u);
    }
  }

  /** Two wanted pages are cached at n: then so is the page written last, and it is not wanted. */
  lemma {:induction false} JustWritten(t: seq<Request>, c: nat, run: seq<set<Key>>, n: nat, q: nat, r: nat)
      returns (z: Key)
    requires LineOrdered(t) && MinRun(t, c, run) && !CostlyTie(Pattern(t)) && Tail(t, c, n) && t[n].write
    requires n < q < |t| && n < r < |t| && q != r
    ensures z in run[n] && NextUse(t, n + 1, z) == INF
  {
    var x, y, e :| ThreeWrites(t, x, y, e, n);
    var s := LastWrite(t, e, n);
    z := t[s].key;
    assert MinStep(t, s, c, run[s], run[s + 1]);
    ReadsKeep(t, c, run, s + 1, n);
    hide MinRun, MinStep, CostlyTie, NextUse, KeyOrdered;
    NoCostlyTie(Pattern(t), x, y, s, n, q, r);
    assert t[n].line <= t[q].line <= t[|t| - 1].line && t[n].line <= t[r].line <= t[|t| - 1].line;
    assert t[s].line <= t[n].line;
    LastLineOnce(t, n, s);
  }

  /** In the tail of a safe pattern a full cache holds a page that is not wanted any more. */
  lemma {:induction false} Unwanted(t: seq<Request>, c: nat, run: seq<set<Key>>, n: nat) returns (z: Key)
    requires LineOrdered(t) && MinRun(t, c, run) && !CostlyTie(Pattern(t)) && Tail(t, c, n)
    requires t[n].write && |run[n]| >= c
    ensures z in run[n] && NextUse(t, n + 1, z) == INF
  {
    NextUseMost(t, n + 1);
    hide LineOrdered, CostlyTie, NextUse;
    z :| z in run[n];
    var u :| u in run[n] - {z} by {
      assert |run[n] - {z}| == |run[n]| - 1;
    }
    hide MinRun;
    if NextUse(t, n + 1, u) == INF {
      z := u;
    } else if NextUse(t, n + 1, z) != INF {
      var q := UseAt(t, n + 1, u);
      var r := UseAt(t, n + 1, z);
      z := JustWritten(t, c, run, n, q, r);
    }
  }

  /** In the tail we give up nothing that is wanted. */
  lemma {:induction false} TailStep(t: seq<Request>, c: nat, run: seq<set<Key>>, n: nat)
    requires LineOrdered(t) && MinRun(t, c, run) && !CostlyTie(Pattern(t)) && Tail(t, c, n)
    ensures |Soon(t, n + 1, run[n + 1], INF)| == |Soon(t, n, run[n], INF)| - 1 + Miss(t[n].key, run[n])
  {
    var k, a, a' := t[n].key, run[n], run[n + 1];
    assert MinStep(t, n, c, a, a');
    LastLineOnce(t, n, n);
    SoonStep(t, n, a, INF);
    var z: Key := k;
    if k !in a && t[n].write && |a| >= c { z := Unwanted(t, c, run, n); }
    hide NextUse, Tail, MinRun, CostlyTie;
    TailKeeps(t, n, c, a, a', z);
  }

  lemma {:induction false} TailKeeps(t: seq<Request>, n: nat, c: nat, a: set<Key>, a': set<Key>, z: Key)
    requires LineOrdered(t) && n < |t| && MinStep(t, n, c, a, a') && NextUse(t, n + 1, t[n].key) == INF
    requires t[n].key !in a && t[n].write && |a| >= c ==> z in a && NextUse(t, n + 1, z) == INF
    ensures Soon(t, n + 1, a', INF) == Soon(t, n + 1, a, INF)
  {
    forall u | u in a || u == t[n].key ensures NextUse(t, n + 1, u) <= INF {
      NextUseMeaning(t, n + 1, u);
    }
    hide NextUse;
  }

  lemma {:induction false} RivalTailStep(t: seq<Request>, c: nat, b: set<Key>, b': set<Key>, n: nat)
    requires LineOrdered(t) && n < |t| && t[|t| - 1].line == t[n].line && AllowedStep(t[n], c, b, b')
    ensures |Soon(t, n + 1, b', INF)| <= |Soon(t, n, b, INF)| - 1 + Miss(t[n].key, b)
  {
    LastLineOnce(t, n, n);
    SoonStep(t, n, b, INF);
    hide NextUse;
    SubsetSize(Soon(t, n + 1, b', INF), Soon(t, n + 1, b, INF));
  }

  /** Where the contest stands: the rival is ahead at every horizon by at most what it has paid; or only the last line
      is left, and it is ahead in pages still wanted by at most that. */
  ghost predicate Standing(t: seq<Request>, c: nat, a: set<Key>, b: set<Key>, n: nat, d: int)
    requires n <= |t|
  {
    || (d >= 0 && Behind(t, n, a, b, d))
    || ((n < |t| ==> Tail(t, c, n)) && |Soon(t, n, b, INF)| <= |Soon(t, n, a, INF)| + d)
  }

  lemma {:induction false} Potential(t: seq<Request>, c: nat, run: seq<set<Key>>, sched: seq<set<Key>>, n: nat)
      returns (d: int)
    requires Contest(t, c, run, sched) && Safe(Pattern(t)) && n <= |t|
    ensures Standing(t, c, run[n], sched[n], n, d)
    ensures Misses(t, run, n) + d == Misses(t, sched, n)
  {
    if n == 0 {
      d := 0;
      assert Behind(t, 0, run[0], sched[0], 0);
    } else {
      var e := Potential(t, c, run, sched, n - 1);
      d := e + Miss(t[n - 1].key, sched[n - 1]) - Miss(t[n - 1].key, run[n - 1]);
      StandingStep(t, c, run, sched, n - 1, e);
    }
  }

  lemma {:induction false} StandingStep(t: seq<Request>, c: nat, run: seq<set<Key>>, sched: seq<set<Key>>, n: nat,
                                        d: int)
    requires Contest(t, c, run, sched) && Safe(Pattern(t)) && n < |t| && Standing(t, c, run[n], sched[n], n, d)
    ensures Standing(t, c, run[n + 1], sched[n + 1], n + 1,
                     d + Miss(t[n].key, sched[n]) - Miss(t[n].key, run[n]))
  {
    var k, a, b := t[n].key, run[n], sched[n];
    assert MinStep(t, n, c, a, run[n + 1]) && AllowedStep(t[n], c, b, sched[n + 1]);
    RunSize(t, c, run, n);
    if d >= 0 && Behind(t, n, a, b, d) && !(k in b && k !in a && d == 0) {
      if !t[n].write && k in b && k !in a { LostReadIsLast(t, c, run, sched, n); }
      hide Behind, MinStep, AllowedStep, NextUse, Safe;
      var _ := PotentialStep(t, n, c, a, run[n + 1], b, sched[n + 1], d);
    } else {
      if d >= 0 && Behind(t, n, a, b, d) {
        TroubleIsLate(t, c, run, sched, n);
        assert BehindAt(t, n, a, b, 0, INF);
      }
      hide Behind, MinStep, AllowedStep, NextUse, CostlyTie, CostlyRead, Soon;
      TailStep(t, c, run, n);
      TailLine(t, c, n);
      RivalTailStep(t, c, b, sched[n + 1], n);
    }
  }

  lemma {:induction false} TailLine(t: seq<Request>, c: nat, n: nat)
    requires LineOrdered(t) && Tail(t, c, n)
    ensures t[|t| - 1].line == t[n].line && (n + 1 < |t| ==> Tail(t, c, n + 1))
  {
    var x, y, e :| ThreeWrites(t, x, y, e, n);
    if n + 1 < |t| {
      assert t[n].line <= t[n + 1].line;
      assert n + 1 < |t| - 1 ==> t[n + 1].line <= t[|t| - 1].line;
      assert ThreeWrites(t, x, y, e, n + 1);
    }
  }

  lemma {:induction false} NothingSoon(t: seq<Request>, s: set<Key>)
    ensures Soon(t, |t|, s, INF) == {}
  {
  }

  /** On a safe pattern no policy of the same capacity misses less. */
  lemma {:induction false} MinIsOptimal(t: seq<Request>, c: nat, run: seq<set<Key>>, sched: seq<set<Key>>)
    requires LineOrdered(t) && c >= 1 && MinRun(t, c, run) && Allowed(t, c, sched)
    requires Safe(Pattern(t))
    ensures Misses(t, run, |t|) <= Misses(t, sched, |t|)
  {
    var d := Potential(t, c, run, sched, |t|);
    NothingSoon(t, run[|t|]);
    NothingSoon(t, sched[|t|]);
  }
}
