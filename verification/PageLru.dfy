/** The page LRU cache with a periodic flush (src/lru_stl.h). */
module PageLru {
  import opened CacheStatus
  import opened TrackedPages
  import opened WriteBack
  import opened DirtyRuns
  import PureLru

  const FLUSH_TIME_GAP := 30000  // milliseconds
  const UINT := 0x1_0000_0000

  /** Times from here on have no later deadline that fits 32 bits. */
  const LAST_DEADLINE := 143165 * FLUSH_TIME_GAP

  datatype Request = Request(access: Access, issueTime: real)

  /** The LRU state; its dirtyOut counts all pages written back, by flush or eviction, its cleanOut is not counted by
      the source. The next flush is due at Deadline(mult). */
  datatype State = State(lru: PureLru.State, mult: nat)

  function Empty(): State { State(PureLru.Empty(), 1) }

  ghost predicate Inv(s: State, c: nat) { PureLru.Inv(s.lru, c) }

  ghost function AllClean(m: map<Key, bool>): map<Key, bool> {
    map k | k in m :: false
  }

  /** When the next flush is due; products, sums and differences are taken in 32 bits. */
  function Deadline(mult: nat): nat { (FLUSH_TIME_GAP * mult) % UINT }

  /** The multiple counter after a flush at time t. */
  function NextMult(mult: nat, t: real): nat {
    (mult + (t.Floor - Deadline(mult)) / FLUSH_TIME_GAP + 1) % UINT
  }

  lemma {:induction false} DivShift(f: int, m: nat)
    ensures m + (f - FLUSH_TIME_GAP * m) / FLUSH_TIME_GAP == f / FLUSH_TIME_GAP
  {
  }

  /** Before the last deadline nothing wraps. */
  lemma {:induction false} NextMultIs(mult: nat, t: real)
    requires t >= (FLUSH_TIME_GAP * mult) as real && t.Floor < LAST_DEADLINE
    ensures Deadline(mult) == FLUSH_TIME_GAP * mult
    ensures NextMult(mult, t) == t.Floor / FLUSH_TIME_GAP + 1 && NextMult(mult, t) > mult
    ensures Deadline(NextMult(mult, t)) == FLUSH_TIME_GAP * NextMult(mult, t)
  {
    assert t.Floor >= FLUSH_TIME_GAP * mult;
    DivShift(t.Floor, mult);
  }

  /** The first time beyond t that is a whole number of gaps from the deadline now passed. */
  function NextTime(mult: nat, t: real): int {
    t.Floor + FLUSH_TIME_GAP - (t.Floor - Deadline(mult)) % FLUSH_TIME_GAP
  }

  /** Multiples of the gap modulo 2^32 only depend on the counter modulo 2^32. */
  lemma {:induction false} WrapOnce(m: nat)
    ensures Deadline(m % UINT) == Deadline(m)
  {
    var q, r := m / UINT, m % UINT;
    assert m == q * UINT + r;
    assert FLUSH_TIME_GAP * m == FLUSH_TIME_GAP * r + (FLUSH_TIME_GAP * q) * UINT;
    AddMultiple(FLUSH_TIME_GAP * r, FLUSH_TIME_GAP * q);
  }

  lemma {:induction false} AddMultiple(a: nat, q: nat)
    ensures (a + q * UINT) % UINT == a % UINT
  {
  }

  lemma {:induction false} DeadlineSum(m: nat, j: nat)
    ensures Deadline(m + j) == (Deadline(m) + FLUSH_TIME_GAP * j) % UINT
  {
    var a, q := FLUSH_TIME_GAP * m, FLUSH_TIME_GAP * m / UINT;
    assert a == q * UINT + a % UINT;
    AddMultiple(a % UINT + FLUSH_TIME_GAP * j, q);
  }

  /** The deadline after a flush, whatever the counter and however often it has wrapped: it lies ahead if and only if
      that time fits 32 bits; else it is 2^32 less, a time that has passed. */
  lemma {:induction false} DeadlineAhead(mult: nat, t: real)
    requires Deadline(mult) as real <= t && t.Floor < UINT
    ensures t.Floor < NextTime(mult, t) <= t.Floor + FLUSH_TIME_GAP
    ensures Deadline(NextMult(mult, t)) == NextTime(mult, t) - if NextTime(mult, t) < UINT then 0 else UINT
    ensures t < Deadline(NextMult(mult, t)) as real <==> NextTime(mult, t) < UINT
  {
    var d, f := Deadline(mult), t.Floor;
    var j := (f - d) / FLUSH_TIME_GAP + 1;
    WrapOnce(mult + j);
    DeadlineSum(mult, j);
    assert d + FLUSH_TIME_GAP * j == NextTime(mult, t);
  }

  predicate Due(s: State, t: real) { t >= Deadline(s.mult) as real }

  ghost function Flushed(s: State, t: real): State
    requires Due(s, t)
  {
    State(s.lru.(t := s.lru.t.(table := AllClean(s.lru.t.table)),
                 dirtyOut := s.lru.dirtyOut + |DirtyKeys(s.lru.t.table)|),
          NextMult(s.mult, t))
  }

  /** The state an access finds, after the flush if one is due. */
  ghost function Prepared(s: State, t: real): State {
    if Due(s, t) then Flushed(s, t) else s
  }

  ghost function Step(s: State, c: nat, r: Request): State
    requires Inv(s, c)
  {
    var p := Prepared(s, r.issueTime);
    PreparedKeeps(s, c, r.issueTime);
    PureLru.StepKeeps(p.lru, c, r.access);
    p.(lru := PureLru.Step(p.lru, c, r.access))
  }

  /** A flush cleans every page, counts each dirty page once, and leaves keys and recency alone. */
  lemma {:induction false} PreparedKeeps(s: State, c: nat, t: real)
    requires Inv(s, c)
    ensures var p := Prepared(s, t);
      && Inv(p, c) && p.lru.t.keys == s.lru.t.keys && p.lru.t.table.Keys == s.lru.t.table.Keys
      && |DirtyKeys(p.lru.t.table)| + p.lru.dirtyOut == |DirtyKeys(s.lru.t.table)| + s.lru.dirtyOut
      && (Due(s, t) ==> DirtyKeys(p.lru.t.table) == {})
  {
    var p := Prepared(s, t);
    assert p.lru.t.table.Keys == s.lru.t.table.Keys;
    assert |p.lru.t.table.Keys| == |p.lru.t.table| && |s.lru.t.table.Keys| == |s.lru.t.table|;
    if Due(s, t) { assert DirtyKeys(p.lru.t.table) == {}; }
  }

  lemma {:induction false} StepInv(s: State, c: nat, r: Request)
    requires Inv(s, c)
    ensures Inv(Step(s, c, r), c)
  {
    PreparedKeeps(s, c, r.issueTime);
    PureLru.StepKeeps(Prepared(s, r.issueTime).lru, c, r.access);
  }

  // ---------- runs ----------

  ghost function After(c: nat, rs: seq<Request>, n: nat): (s: State)
    requires c > 0 && n <= |rs|
    ensures Inv(s, c)
  {
    if n == 0 then Empty()
    else
      StepInv(After(c, rs, n - 1), c, rs[n - 1]);
      Step(After(c, rs, n - 1), c, rs[n - 1])
  }

  lemma {:induction false} AfterNothing(c: nat, rs: seq<Request>)
    requires c > 0
    ensures After(c, rs, 0) == Empty()
  {
  }

  lemma {:induction false} AfterStep(c: nat, rs: seq<Request>, n: nat)
    requires c > 0 && 0 < n <= |rs|
    ensures After(c, rs, n) == Step(After(c, rs, n - 1), c, rs[n - 1])
  {
    hide Inv, Step;
  }

  function Accesses(rs: seq<Request>): seq<Access> {
    seq(|rs|, i requires 0 <= i < |rs| => rs[i].access)
  }

  /** Flushing changes no hit: at every point the recency list is that of the pure LRU cache. */
  lemma {:induction false} SameKeysAsPureLru(c: nat, rs: seq<Request>, n: nat)
    requires c > 0 && n <= |rs|
    ensures After(c, rs, n).lru.t.keys == PureLru.After(c, Accesses(rs), n).t.keys
    ensures After(c, rs, n).lru.t.table.Keys == PureLru.After(c, Accesses(rs), n).t.table.Keys
  {
    hide *;
    if n == 0 {
      NothingYet(c, rs);
    } else {
      SameKeysAsPureLru(c, rs, n - 1);
      AfterStep(c, rs, n);
      AccessAt(rs, n - 1);
      PureLru.AfterKeys(c, Accesses(rs), n);
      StepKeys(After(c, rs, n - 1), c, rs[n - 1]);
      SameTables(After(c, rs, n), PureLru.After(c, Accesses(rs), n), c);
    }
  }

  lemma {:induction false} NothingYet(c: nat, rs: seq<Request>)
    requires c > 0
    ensures After(c, rs, 0).lru == PureLru.After(c, Accesses(rs), 0)
  {
  }

  lemma {:induction false} AccessAt(rs: seq<Request>, i: nat)
    requires i < |rs|
    ensures |Accesses(rs)| == |rs| && Accesses(rs)[i] == rs[i].access
  {
  }

  lemma {:induction false} SameTables(s: State, q: PureLru.State, c: nat)
    requires Inv(s, c) && PureLru.Inv(q, c) && s.lru.t.keys == q.t.keys
    ensures s.lru.t.table.Keys == q.t.table.Keys
  {
    hide Distinct;
    OkSize(s.lru.t);
    OkSize(q.t);
  }

  lemma {:induction false} StepKeys(s: State, c: nat, r: Request)
    requires Inv(s, c)
    ensures Step(s, c, r).lru.t.keys == PureLru.Used(s.lru.t.keys, c, r.access.key)
  {
    hide Tracked.Ok, PureLru.Step, PureLru.Used, DirtyKeys;
    PreparedKeeps(s, c, r.issueTime);
    PureLru.StepKeys(Prepared(s, r.issueTime).lru, c, r.access);
  }

  /** How often an access turned a page dirty, looking at its state after any flush. */
  ghost function TurnedDirty(c: nat, rs: seq<Request>, n: nat): nat
    requires c > 0 && n <= |rs|
  {
    if n == 0 then 0
    else TurnedDirty(c, rs, n - 1) + (if Turns(After(c, rs, n - 1), rs[n - 1]) then 1 else 0)
  }

  ghost predicate Turns(s: State, r: Request) {
    r.access.write && !Dirty(Prepared(s, r.issueTime).lru.t.table, r.access.key)
  }

  ghost function DirtySum(s: State): nat { |DirtyKeys(s.lru.t.table)| + s.lru.dirtyOut }

  lemma {:induction false} StepDirtySum(s: State, c: nat, r: Request)
    requires Inv(s, c)
    ensures DirtySum(Step(s, c, r)) == DirtySum(s) + if Turns(s, r) then 1 else 0
  {
    hide DirtyKeys, PureLru.Step, Serves, Tracked.Ok;
    PreparedKeeps(s, c, r.issueTime);
    var p := Prepared(s, r.issueTime);
    PureLru.StepKeeps(p.lru, c, r.access);
    ServesBalance(PureLru.Books(p.lru), PureLru.Books(PureLru.Step(p.lru, c, r.access)), r.access,
                  PureLru.Gone(p.lru, c, r.access.key));
  }

  /** Every page that became dirty is still cached dirty or was written back, once, by a flush or an eviction. */
  lemma {:induction false} DirtyConserved(c: nat, rs: seq<Request>, n: nat)
    requires c > 0 && n <= |rs|
    ensures DirtySum(After(c, rs, n)) == TurnedDirty(c, rs, n)
  {
    hide After, Step, Inv, DirtySum, Turns;
    if n == 0 {
      AfterNothing(c, rs);
      NoDirtySum();
    } else {
      DirtyConserved(c, rs, n - 1);
      AfterStep(c, rs, n);
      StepDirtySum(After(c, rs, n - 1), c, rs[n - 1]);
    }
  }

  lemma {:induction false} NoDirtySum()
    ensures DirtySum(Empty()) == 0
  {
    assert DirtyKeys(map[]) == {};
  }

  /** Times do not go back. */
  ghost predicate InOrder(rs: seq<Request>) {
    forall i, j :: 0 <= i < j < |rs| ==> rs[i].issueTime <= rs[j].issueTime
  }

  /** k was written by one of the first n requests at or after time t. */
  ghost predicate WrittenFrom(rs: seq<Request>, n: nat, k: Key, t: int)
    requires n <= |rs|
  {
    exists i :: 0 <= i < n && rs[i].access == Access(k, true) && rs[i].issueTime >= t as real
  }

  /** The multiple of the gap at or before t. */
  function WindowOf(t: real): int { t.Floor / FLUSH_TIME_GAP * FLUSH_TIME_GAP }

  /** Every dirty page was written in the window that begins at `from`. */
  ghost predicate DirtyIsFresh(s: State, rs: seq<Request>, n: nat, from: int)
    requires n <= |rs|
  {
    forall k :: k in DirtyKeys(s.lru.t.table) ==> WrittenFrom(rs, n, k, from)
  }

  /** A run in order of time, at times whose integer part fits 32 bits. */
  ghost predicate Timed(rs: seq<Request>) {
    InOrder(rs) && forall i :: 0 <= i < |rs| ==> 0.0 <= rs[i].issueTime && rs[i].issueTime.Floor < UINT
  }

  /** When the last of the first n requests was issued. */
  function LastTime(rs: seq<Request>, n: nat): real
    requires n <= |rs|
  {
    if n == 0 then 0.0 else rs[n - 1].issueTime
  }

  /** Up to the last deadline that fits 32 bits the counter names the next multiple of the gap. */
  ghost predicate OnGrid(s: State, t: real) {
    t.Floor < LAST_DEADLINE ==> s.mult == t.Floor / FLUSH_TIME_GAP + 1 && Deadline(s.mult) == FLUSH_TIME_GAP * s.mult
  }

  lemma {:induction false} TimesAt(rs: seq<Request>, n: nat)
    requires Timed(rs) && 0 < n <= |rs|
    ensures 0.0 <= LastTime(rs, n - 1) <= LastTime(rs, n) == rs[n - 1].issueTime
    ensures 0 <= LastTime(rs, n).Floor < UINT && LastTime(rs, n - 1).Floor <= LastTime(rs, n).Floor
  {
  }

  lemma {:induction false} CounterStep(s: State, u: real, t: real)
    requires 0.0 <= u <= t && t.Floor < UINT && OnGrid(s, u)
    ensures OnGrid(Prepared(s, t), t)
    ensures u.Floor < LAST_DEADLINE ==> (Due(s, t) <==> WindowOf(u) < WindowOf(t))
  {
    hide DirtyKeys, AllClean;
    if u.Floor < LAST_DEADLINE {
      DueNextWindow(s.mult, u, t);
      if Due(s, t) && t.Floor < LAST_DEADLINE { NextMultIs(s.mult, t); }
    }
  }

  lemma {:induction false} DueNextWindow(mult: nat, u: real, t: real)
    requires 0.0 <= u <= t && mult == u.Floor / FLUSH_TIME_GAP + 1
    ensures t >= (FLUSH_TIME_GAP * mult) as real <==> WindowOf(u) < WindowOf(t)
    ensures WindowOf(u) >= WindowOf(t) ==> t.Floor / FLUSH_TIME_GAP == u.Floor / FLUSH_TIME_GAP
  {
  }

  lemma {:induction false} StepCounter(s: State, c: nat, r: Request)
    requires Inv(s, c)
    ensures Step(s, c, r).mult == Prepared(s, r.issueTime).mult
  {
    hide PureLru.Step, Prepared;
  }

  lemma {:induction false} CounterKept(c: nat, rs: seq<Request>, n: nat)
    requires c > 0 && n <= |rs| && Timed(rs)
    ensures OnGrid(After(c, rs, n), LastTime(rs, n))
  {
    hide *;
    if n == 0 {
      AfterNothing(c, rs);
      CounterStarts(rs);
    } else {
      CounterKept(c, rs, n - 1);
      AfterStep(c, rs, n);
      TimesAt(rs, n);
      CounterStep(After(c, rs, n - 1), LastTime(rs, n - 1), LastTime(rs, n));
      StepCounter(After(c, rs, n - 1), c, rs[n - 1]);
      SameCounter(Prepared(After(c, rs, n - 1), LastTime(rs, n)), After(c, rs, n), LastTime(rs, n));
    }
  }

  lemma {:induction false} CounterStarts(rs: seq<Request>)
    ensures OnGrid(Empty(), LastTime(rs, 0))
  {
  }

  lemma {:induction false} SameCounter(s: State, s': State, t: real)
    requires OnGrid(s, t) && s'.mult == s.mult
    ensures OnGrid(s', t)
  {
  }

  /** In every run: the next deadline is the first multiple of the gap beyond the time of the last request exactly as
      long as that request came before the last deadline that fits 32 bits. */
  lemma {:induction false} DeadlineIsNext(c: nat, rs: seq<Request>, n: nat)
    requires c > 0 && n <= |rs| && Timed(rs)
    ensures var t := LastTime(rs, n);
      Deadline(After(c, rs, n).mult) == WindowOf(t) + FLUSH_TIME_GAP <==> t.Floor < LAST_DEADLINE
  {
    hide *;
    CounterKept(c, rs, n);
    LastTimeOk(rs, n);
    GridExactly(After(c, rs, n), LastTime(rs, n));
  }

  lemma {:induction false} LastTimeOk(rs: seq<Request>, n: nat)
    requires Timed(rs) && n <= |rs|
    ensures 0.0 <= LastTime(rs, n) && LastTime(rs, n).Floor < UINT
  {
  }

  lemma {:induction false} DeadlineBound(m: nat)
    ensures Deadline(m) < UINT
  {
  }

  lemma {:induction false} LateWindow(t: real)
    requires 0.0 <= t
    ensures t.Floor >= LAST_DEADLINE <==> WindowOf(t) + FLUSH_TIME_GAP >= UINT
  {
    var q := t.Floor / FLUSH_TIME_GAP;
    assert t.Floor >= LAST_DEADLINE <==> q >= 143165;
  }

  lemma {:induction false} GridExactly(s: State, t: real)
    requires OnGrid(s, t) && 0.0 <= t && t.Floor < UINT
    ensures Deadline(s.mult) == WindowOf(t) + FLUSH_TIME_GAP <==> t.Floor < LAST_DEADLINE
  {
    DeadlineBound(s.mult);
    LateWindow(t);
    hide Deadline;
  }

  /** Request n flushes exactly if it is the first of its window. */
  ghost predicate OnTime(c: nat, rs: seq<Request>, n: nat)
    requires c > 0 && n < |rs|
  {
    Due(After(c, rs, n), rs[n].issueTime) <==> WindowOf(LastTime(rs, n)) < WindowOf(rs[n].issueTime)
  }

  lemma {:induction false} FlushesOnTime(c: nat, rs: seq<Request>, n: nat)
    requires c > 0 && n < |rs| && Timed(rs) && LastTime(rs, n).Floor < LAST_DEADLINE
    ensures OnTime(c, rs, n)
  {
    hide *;
    CounterKept(c, rs, n);
    TimesAt(rs, n + 1);
    CounterStep(After(c, rs, n), LastTime(rs, n), LastTime(rs, n + 1));
    OnTimeIs(c, rs, n);
  }

  lemma {:induction false} OnTimeIs(c: nat, rs: seq<Request>, n: nat)
    requires c > 0 && n < |rs|
    ensures OnTime(c, rs, n)
      <==> (Due(After(c, rs, n), LastTime(rs, n + 1)) <==> WindowOf(LastTime(rs, n)) < WindowOf(LastTime(rs, n + 1)))
  {
    hide After, Due, WindowOf;
  }

  /** The first request at or after the last deadline leaves a deadline that has passed. */
  lemma {:induction false} LateCounter(s: State, u: real, t: real)
    requires 0.0 <= u <= t && u.Floor < LAST_DEADLINE <= t.Floor < UINT && OnGrid(s, u)
    ensures Deadline(Prepared(s, t).mult) == 12704
  {
    hide DirtyKeys, AllClean;
    DivShift(t.Floor, s.mult);
    assert t.Floor / FLUSH_TIME_GAP + 1 == 143166;
  }

  lemma {:induction false} OneWindow(u: real, t: real, s: State)
    requires LAST_DEADLINE <= u.Floor < UINT && LAST_DEADLINE <= t.Floor < UINT && Deadline(s.mult) == 12704
    ensures WindowOf(u) == WindowOf(t) && Due(s, t)
  {
  }

  /** The second request at or after the last deadline flushes, though it is not the first of its window. */
  lemma {:induction false} SecondLate(c: nat, rs: seq<Request>, n: nat)
    requires c > 0 && n + 1 < |rs| && Timed(rs)
    requires LastTime(rs, n).Floor < LAST_DEADLINE <= LastTime(rs, n + 1).Floor
    ensures !OnTime(c, rs, n + 1)
  {
    CounterKept(c, rs, n);
    hide *;
    TimesAt(rs, n + 1);
    TimesAt(rs, n + 2);
    AfterStep(c, rs, n + 1);
    StepCounter(After(c, rs, n), c, rs[n]);
    LateCounter(After(c, rs, n), LastTime(rs, n), LastTime(rs, n + 1));
    OneWindow(LastTime(rs, n + 1), LastTime(rs, n + 2), After(c, rs, n + 1));
    OnTimeIs(c, rs, n + 1);
  }

  /** The first request at or after the last deadline among the first n. */
  lemma {:induction false} FirstLate(rs: seq<Request>, n: nat) returns (m: nat)
    requires Timed(rs) && n <= |rs| && LastTime(rs, n).Floor >= LAST_DEADLINE
    ensures m < n && LastTime(rs, m).Floor < LAST_DEADLINE <= LastTime(rs, m + 1).Floor
  {
    m := n - 1;
    if LastTime(rs, n - 1).Floor >= LAST_DEADLINE { m := FirstLate(rs, n - 1); }
  }

  /** Over a run: every request flushes exactly if it is the first of its window if and only if no request but the last
      is at or after the last deadline that fits 32 bits. */
  lemma {:induction false} OnTimeExactly(c: nat, rs: seq<Request>)
    requires c > 0 && Timed(rs)
    ensures (forall n :: 0 <= n < |rs| ==> OnTime(c, rs, n))
      <==> |rs| == 0 || LastTime(rs, |rs| - 1).Floor < LAST_DEADLINE
  {
    hide OnTime, Timed;
    if |rs| == 0 || LastTime(rs, |rs| - 1).Floor < LAST_DEADLINE {
      forall n | 0 <= n < |rs| ensures OnTime(c, rs, n) {
        EarlierTime(rs, n, |rs| - 1);
        FlushesOnTime(c, rs, n);
      }
    } else {
      var m := FirstLate(rs, |rs| - 1);
      SecondLate(c, rs, m);
    }
  }

  lemma {:induction false} EarlierTime(rs: seq<Request>, m: nat, n: nat)
    requires Timed(rs) && m <= n < |rs|
    ensures LastTime(rs, m).Floor <= LastTime(rs, n).Floor
  {
  }

  /** In every run a dirty page was written in the window of the last request. So no page stays dirty beyond the window
      it was written in, wrapped deadlines or not. */
  lemma {:induction false} DirtyWindow(c: nat, rs: seq<Request>, n: nat)
    requires c > 0 && n <= |rs| && Timed(rs)
    ensures DirtyIsFresh(After(c, rs, n), rs, n, WindowOf(LastTime(rs, n)))
  {
    hide *;
    if n == 0 {
      AfterNothing(c, rs);
      NothingDirtyYet(rs);
    } else {
      DirtyWindow(c, rs, n - 1);
      CounterKept(c, rs, n - 1);
      AfterStep(c, rs, n);
      TimesAt(rs, n);
      WindowClosed(After(c, rs, n - 1), LastTime(rs, n - 1), LastTime(rs, n));
      StepFresh(After(c, rs, n - 1), c, rs, n, WindowOf(LastTime(rs, n - 1)));
    }
  }

  lemma {:induction false} NothingDirtyYet(rs: seq<Request>)
    ensures DirtyIsFresh(Empty(), rs, 0, WindowOf(LastTime(rs, 0)))
  {
  }

  /** A request in a later window flushes: past the last deadline there is only one window. */
  lemma {:induction false} WindowClosed(s: State, u: real, t: real)
    requires 0.0 <= u <= t && t.Floor < UINT && OnGrid(s, u)
    ensures Due(s, t) || WindowOf(t) == WindowOf(u)
  {
    CounterStep(s, u, t);
    assert u.Floor <= t.Floor;
    hide OnGrid, Due, Prepared;
  }

  lemma {:induction false} WindowBefore(t: real)
    ensures t >= WindowOf(t) as real
  {
  }

  lemma {:induction false} StepFresh(s: State, c: nat, rs: seq<Request>, n: nat, from: int)
    requires 0 < n <= |rs| && Inv(s, c) && DirtyIsFresh(s, rs, n - 1, from)
    requires Due(s, rs[n - 1].issueTime) || WindowOf(rs[n - 1].issueTime) == from
    ensures DirtyIsFresh(Step(s, c, rs[n - 1]), rs, n, WindowOf(rs[n - 1].issueTime))
  {
    var r := rs[n - 1];
    var p := Prepared(s, r.issueTime);
    PreparedKeeps(s, c, r.issueTime);
    PureLru.StepKeeps(p.lru, c, r.access);
    WindowBefore(r.issueTime);
    hide PureLru.Step, WindowOf, Due;
    var s' := Step(s, c, r);
    forall k | k in DirtyKeys(s'.lru.t.table) ensures WrittenFrom(rs, n, k, WindowOf(r.issueTime)) {
      if k == r.access.key && r.access.write {
        assert rs[n - 1].access == Access(k, true);
      } else {
        assert k in DirtyKeys(p.lru.t.table);
        var i :| 0 <= i < n - 1 && rs[i].access == Access(k, true) && rs[i].issueTime >= from as real;
      }
    }
  }

  function AtTheEnd(a: Access): seq<Request> {
    [Request(a, 4294950000.0), Request(a, 4294950001.0), Request(a, 4294950002.0)]
  }

  /** Three requests at the end of the 32-bit range: after the first the deadline has passed, after the second, which
      flushes for that, it lies ahead again, and the third does not flush. */
  lemma {:induction false} WrapReached(c: nat, a: Access)
    requires c > 0
    ensures var rs := AtTheEnd(a);
      && Timed(rs) && |rs| == 3 && rs[0].issueTime.Floor == LAST_DEADLINE
      && Deadline(After(c, rs, 1).mult) == 12704 && Due(After(c, rs, 1), rs[1].issueTime)
      && Deadline(After(c, rs, 2).mult) == 4294962704 && !Due(After(c, rs, 2), rs[2].issueTime)
  {
    var rs := AtTheEnd(a);
    EndTimes(a);
    WrapNumbers();
    hide *;
    CounterFrom(c, rs, 0, 1);
    CounterFrom(c, rs, 1, 143166);
    DueIs(After(c, rs, 2), rs[2].issueTime);
  }

  lemma {:induction false} EndTimes(a: Access)
    ensures var rs := AtTheEnd(a);
      && Timed(rs) && |rs| == 3 && rs[0].issueTime.Floor == LAST_DEADLINE
      && rs[0].issueTime == 4294950000.0 && rs[1].issueTime == 4294950001.0 && rs[2].issueTime == 4294950002.0
  {
  }

  lemma {:induction false} DueIs(s: State, t: real)
    ensures Due(s, t) <==> t >= Deadline(s.mult) as real
  {
  }

  lemma {:induction false} CounterFrom(c: nat, rs: seq<Request>, n: nat, m: nat)
    requires c > 0 && n < |rs| && (n == 0 ==> m == 1) && (n > 0 ==> After(c, rs, n).mult == m)
    ensures var t := rs[n].issueTime;
      && (Due(After(c, rs, n), t) <==> t >= Deadline(m) as real)
      && After(c, rs, n + 1).mult == if t >= Deadline(m) as real then NextMult(m, t) else m
  {
    AfterNothing(c, rs);
    AfterStep(c, rs, n + 1);
    hide After, Step, NextMult, Deadline, Prepared, Inv;
    StepCounter(After(c, rs, n), c, rs[n]);
    PreparedCounter(After(c, rs, n), rs[n].issueTime);
  }

  lemma {:induction false} PreparedCounter(s: State, t: real)
    ensures Prepared(s, t).mult == if Due(s, t) then NextMult(s.mult, t) else s.mult
  {
    hide DirtyKeys, AllClean;
  }

  lemma {:induction false} WrapNumbers()
    ensures Deadline(1) == 30000 && NextMult(1, 4294950000.0) == 143166
    ensures Deadline(143166) == 12704 && NextMult(143166, 4294950001.0) == 286331
    ensures Deadline(286331) == 4294962704
  {
  }

  class PageLruCache {
    const capacity: nat
    var keyTracker: seq<Key>
    var keyToValue: map<Key, bool>
    var multipleFlushTimeGap: nat
    var totalSeqEvictedDirtyPages: nat
    ghost var cleanOut: nat

    ghost function View(): State
      reads this
    {
      State(PureLru.State(Tracked(keyTracker, keyToValue), cleanOut, totalSeqEvictedDirtyPages), multipleFlushTimeGap)
    }

    ghost predicate Valid()
      reads this
    {
      Inv(View(), capacity)
    }

    constructor (c: nat)
      requires c != 0
      ensures Valid() && View() == Empty() && capacity == c
    {
      capacity, keyTracker, keyToValue := c, [], map[];
      multipleFlushTimeGap, totalSeqEvictedDirtyPages, cleanOut := 1, 0, 0;
    }

    /** The search and cleaning upwards from a dirty page. */
    method FlushUp(k: Key) returns (after: nat)
      requires Dirty(keyToValue, k)
      modifies this`keyToValue
      ensures after > k && !Dirty(old(keyToValue), after)
      ensures forall j: int :: k <= j < after ==> Dirty(old(keyToValue), j)
      ensures keyToValue == Cleaned(old(keyToValue), Run(k, after - k))
    {
      ghost var m := keyToValue;
      ghost var bound := KeyBound(m.Keys);
      after := k;
      while Dirty(keyToValue, after)
        invariant k <= after <= bound
        invariant keyToValue == Cleaned(m, Run(k, after - k))
        invariant forall j: int :: k <= j < after ==> Dirty(m, j)
        decreases bound - after
      {
        keyToValue := keyToValue[after := false];
        after := after + 1;
      }
    }

    /** Writes back the run around a dirty page: up from it, then down, cleaning page by page. */
    method FlushRun(k: Key) returns (r: Run)
      requires Dirty(keyToValue, k)
      modifies this`keyToValue, this`totalSeqEvictedDirtyPages
      ensures IsRun(old(keyToValue), r) && r.Has(k)
      ensures keyToValue == Cleaned(old(keyToValue), r)
      ensures totalSeqEvictedDirtyPages == old(totalSeqEvictedDirtyPages) + r.length
    {
      ghost var m := keyToValue;
      var after := FlushUp(k);
      var seqLength := after - k;
      var before: int := k - 1;
      while Dirty(keyToValue, before)
        invariant -1 <= before < k < after && seqLength == after - before - 1
        invariant totalSeqEvictedDirtyPages == old(totalSeqEvictedDirtyPages)
        invariant keyToValue == Cleaned(m, Run(before + 1, seqLength))
        invariant forall j: int :: before < j < after ==> Dirty(m, j)
        decreases before + 1
      {
        keyToValue := keyToValue[before := false];
        before := before - 1;
        seqLength := seqLength + 1;
      }
      totalSeqEvictedDirtyPages := totalSeqEvictedDirtyPages + seqLength;
      r := Run(before + 1, seqLength);
    }

    /** The flush: the runs written are exactly the maximal runs of dirty pages, each once; every dirty page is
        counted once, none stays dirty, and the list is not touched. */
    method Flush() returns (runs: seq<Run>)
      requires Valid()
      modifies this`keyToValue, this`totalSeqEvictedDirtyPages
      ensures Partitions(old(keyToValue), runs)
      ensures keyToValue == AllClean(old(keyToValue))
      ensures totalSeqEvictedDirtyPages == old(totalSeqEvictedDirtyPages) + |DirtyKeys(old(keyToValue))|
    {
      hide DirtyKeys, LessRuns, Cleaned, IsRun, Partitions, Distinct, AllClean;
      ghost var m := keyToValue;
      LessRunsStarts(m);
      runs := [];
      var i := 0;
      while i < |keyTracker|
        invariant i <= |keyTracker| && LessRuns(m, keyToValue, runs)
        invariant forall j :: 0 <= j < i ==> !Dirty(keyToValue, keyTracker[j])
        invariant totalSeqEvictedDirtyPages + |DirtyKeys(keyToValue)|
          == old(totalSeqEvictedDirtyPages) + |DirtyKeys(m)|
      {
        if Dirty(keyToValue, keyTracker[i]) {
          ghost var m1 := keyToValue;
          var r := FlushRun(keyTracker[i]);
          LessRunsStep(m, m1, runs, r);
          CleanedCount(m1, r);
          CleanedDirty(m1, r);
          runs := runs + [r];
        }
        i := i + 1;
      }
      LessRunsKeys(m, keyToValue, runs);
      NothingDirty(Tracked(keyTracker, keyToValue), m);
      NothingLeft(m, keyToValue, runs);
    }

    /** One access at time issueTime; the runs flushed before it is served. The flags hold WRITE exactly for writes. */
    method Access(k: Key, flags: Status, issueTime: real) returns (status: Status, runs: seq<Run>)
      requires Valid() && flags !! {DIRTY, PAGEHIT, PAGEMISS, EVICT} && issueTime < UINT as real
      modifies this
      ensures Valid()
      ensures View() == Step(old(View()), capacity, Request(TrackedPages.Access(k, WRITE in flags), issueTime))
      ensures if Due(old(View()), issueTime) then Partitions(old(keyToValue), runs) else runs == []
      ensures PAGEHIT in status <==> k in old(keyToValue)
      ensures PAGEMISS in status <==> k !in old(keyToValue)
      ensures EVICT in status <==> k !in old(keyToValue) && old(|keyToValue|) == capacity
      ensures flags <= status <= flags + {DIRTY, PAGEHIT, BLKHIT, PAGEMISS, EVICT}
      ensures DIRTY in status <==> WRITE in flags
      ensures BLKHIT in status <==> BLKHIT in flags || k in old(keyToValue)
    {
      hide Tracked.Ok, Without, DirtyKeys, Partitions, PureLru.Step, AllClean;
      ghost var s, a := View(), TrackedPages.Access(k, WRITE in flags);
      PreparedKeeps(s, capacity, issueTime);
      StepInv(s, capacity, Request(a, issueTime));
      runs := [];
      if issueTime >= ((FLUSH_TIME_GAP * multipleFlushTimeGap) % UINT) as real {
        runs := Flush();
        var sinceDeadline := issueTime.Floor - (FLUSH_TIME_GAP * multipleFlushTimeGap) % UINT;
        multipleFlushTimeGap := (multipleFlushTimeGap + sinceDeadline / FLUSH_TIME_GAP + 1) % UINT;
      }
      assert View() == Prepared(s, issueTime);
      status := Serve(k, flags);
    }

    method Serve(k: Key, flags: Status) returns (status: Status)
      requires Valid() && flags !! {DIRTY, PAGEHIT, PAGEMISS, EVICT}
      modifies this`keyTracker, this`keyToValue, this`totalSeqEvictedDirtyPages, this`cleanOut
      ensures PureLru.Inv(old(View()).lru, capacity)
      ensures (|old(keyTracker)| > 0 && old(keyTracker)[0] in old(keyToValue)) || old(|keyToValue|) < capacity
      ensures View().lru == PureLru.Step(old(View()).lru, capacity, TrackedPages.Access(k, WRITE in flags))
      ensures PAGEHIT in status <==> k in old(keyToValue)
      ensures PAGEMISS in status <==> k !in old(keyToValue)
      ensures EVICT in status <==> k !in old(keyToValue) && old(|keyToValue|) == capacity
      ensures flags <= status <= flags + {DIRTY, PAGEHIT, BLKHIT, PAGEMISS, EVICT}
      ensures DIRTY in status <==> WRITE in flags
      ensures BLKHIT in status <==> BLKHIT in flags || k in old(keyToValue)
    {
      hide Tracked.Ok, Without;
      PureLru.InvFront(View().lru, capacity);
      status := flags;
      if WRITE in flags {
        status := status + {DIRTY};
      }
      if k !in keyToValue {
        if |keyToValue| == capacity {
          Remove(keyTracker[0]);
          status := status + {EVICT};
        }
        keyTracker := keyTracker + [k];
        keyToValue := keyToValue[k := WRITE in flags];
        status := status + {PAGEMISS};
      } else {
        var dirty := keyToValue[k] || WRITE in flags;
        keyToValue := keyToValue - {k};
        keyTracker := Without(keyTracker, k);
        keyTracker := keyTracker + [k];
        keyToValue := keyToValue[k := dirty];
        status := status + {PAGEHIT, BLKHIT};
      }
    }

    method Remove(k: Key)
      requires k in keyToValue
      modifies this`keyTracker, this`keyToValue, this`totalSeqEvictedDirtyPages, this`cleanOut
      ensures View().lru == PureLru.Evicted(old(View()).lru, k)
    {
      if keyToValue[k] {
        totalSeqEvictedDirtyPages := totalSeqEvictedDirtyPages + 1;
      } else {
        cleanOut := cleanOut + 1;
      }
      keyToValue := keyToValue - {k};
      keyTracker := Without(keyTracker, k);
    }
  }

  lemma {:induction false} NothingDirty(t: Tracked, m: map<Key, bool>)
    requires t.table.Keys == m.Keys
    requires (forall k :: k in m ==> k in t.keys) && forall j :: 0 <= j < |t.keys| ==> !Dirty(t.table, t.keys[j])
    ensures t.table == AllClean(m) && DirtyKeys(t.table) == {} && forall k :: k in t.table ==> !t.table[k]
  {
  }
}
