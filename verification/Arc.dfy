/** The adaptive replacement cache (src/arc.h): lists T1, T2 of cached pages and B1, B2 of ghosts.
    REPLACE records the key being requested, not the key it evicts, in the ghost list. */
module Arc {
  import opened CacheStatus
  import opened Options
  import opened TrackedPages
  import opened WriteBack

  /** The cache as a value; p is the target length of T1. */
  datatype State = State(t1: Tracked, t2: Tracked, b1: Tracked, b2: Tracked, p: int, cleanOut: nat, dirtyOut: nat)
  {
    /** Keys in all four lists. */
    function Total(): nat { t1.Size() + t2.Size() + b1.Size() + b2.Size() }
  }

  function Empty(): State {
    var e := Tracked([], map[]);
    State(e, e, e, e, 0, 0, 0)
  }

  ghost predicate Inv(s: State, c: nat) {
    && c > 0 && s.t1.Ok() && s.t2.Ok() && s.b1.Ok() && s.b2.Ok()
    && s.t1.Size() + s.t2.Size() <= c && s.t1.Size() + s.b1.Size() <= c
    && s.Total() <= 2 * c
    && 0 <= s.p <= c
    && s.t1.table.Keys !! s.t2.table.Keys && s.b1.table.Keys !! s.b2.table.Keys
    && (s.b1.Size() + s.b2.Size() > 0 ==> s.t1.Size() + s.t2.Size() == c)
  }

  /** The cached pages with their dirty bits. */
  ghost function Pages(s: State): map<Key, bool> { s.t1.table + s.t2.table }

  ghost function Books(s: State): Ledger { Ledger(Pages(s), s.cleanOut, s.dirtyOut) }

  // ---------- REPLACE ----------

  predicate TakesT1(s: State, k: Key) {
    s.t1.Size() > 0 && (s.t1.Size() > s.p || (k in s.b2.table && s.t1.Size() == s.p))
  }

  /** The list REPLACE takes a page from has one. */
  predicate CanReplace(s: State, k: Key) {
    if TakesT1(s, k) then |s.t1.keys| > 0 && s.t1.keys[0] in s.t1.table
    else |s.t2.keys| > 0 && s.t2.keys[0] in s.t2.table
  }

  function EvictT1(s: State): State
    requires |s.t1.keys| > 0 && s.t1.keys[0] in s.t1.table
  {
    var k := s.t1.keys[0];
    var out := s.(t1 := s.t1.Removed(k));
    if s.t1.table[k] then out.(dirtyOut := s.dirtyOut + 1) else out.(cleanOut := s.cleanOut + 1)
  }

  function EvictT2(s: State): State
    requires |s.t2.keys| > 0 && s.t2.keys[0] in s.t2.table
  {
    var k := s.t2.keys[0];
    var out := s.(t2 := s.t2.Removed(k));
    if s.t2.table[k] then out.(dirtyOut := s.dirtyOut + 1) else out.(cleanOut := s.cleanOut + 1)
  }

  function Replaced(s: State, k: Key, dirty: bool): State
    requires CanReplace(s, k)
  {
    if TakesT1(s, k) then EvictT1(s).(b1 := s.b1.PushBack(k, dirty))
    else EvictT2(s).(b2 := s.b2.PushBack(k, dirty))
  }

  // ---------- one access ----------

  function Delta(mine: nat, other: nat): nat
    requires mine > 0
  {
    if mine >= other then 1 else other / mine
  }

  /** Case I: a hit in T1 or T2. */
  function Hit(s: State, a: Access): State
    requires a.key in s.t1.table || a.key in s.t2.table
  {
    var k := a.key;
    if k in s.t1.table
    then s.(t1 := s.t1.Removed(k), t2 := s.t2.PushBack(k, a.write || s.t1.table[k]))
    else s.(t2 := s.t2.Removed(k).PushBack(k, a.write || s.t2.table[k]))
  }

  /** Case II: the key is in B1. */
  function Adapted1(s: State, c: nat): State
    requires s.b1.Size() > 0
  {
    var p := s.p + Delta(s.b1.Size(), s.b2.Size());
    s.(p := if p > c then c else p)
  }

  function GhostHit1(s: State, c: nat, a: Access): State
    requires s.b1.Size() > 0 && CanReplace(Adapted1(s, c), a.key)
  {
    var r := Replaced(Adapted1(s, c), a.key, a.write);
    r.(b1 := r.b1.Removed(a.key), t2 := r.t2.PushBack(a.key, a.write))
  }

  /** Case III: the key is in B2. */
  function Adapted2(s: State): State
    requires s.b2.Size() > 0
  {
    var p := s.p - Delta(s.b2.Size(), s.b1.Size());
    s.(p := if p > 0 then p else 0)
  }

  function GhostHit2(s: State, a: Access): State
    requires s.b2.Size() > 0 && CanReplace(Adapted2(s), a.key)
  {
    var r := Replaced(Adapted2(s), a.key, a.write);
    r.(b2 := r.b2.Removed(a.key), t2 := r.t2.PushBack(a.key, a.write))
  }

  /** Case IV: making room for a key in none of the lists. The ghosts dropped first. */
  function Forgotten(s: State, c: nat): State
    requires s.t1.Size() + s.b1.Size() == c && s.t1.Size() < c ==> |s.b1.keys| > 0
    requires s.t1.Size() + s.b1.Size() < c && s.Total() == 2 * c ==> |s.b2.keys| > 0
  {
    if s.t1.Size() + s.b1.Size() == c && s.t1.Size() < c then s.(b1 := s.b1.Removed(s.b1.keys[0]))
    else if s.t1.Size() + s.b1.Size() < c && s.Total() == 2 * c
    then s.(b2 := s.b2.Removed(s.b2.keys[0]))
    else s
  }

  /** Everything the code relies on when a key misses all lists. */
  predicate CanMakeRoom(s: State, c: nat, k: Key) {
    if s.t1.Size() + s.b1.Size() == c && s.t1.Size() == c then |s.t1.keys| > 0 && s.t1.keys[0] in s.t1.table
    else
      && (s.t1.Size() + s.b1.Size() == c ==> |s.b1.keys| > 0)
      && (s.t1.Size() + s.b1.Size() < c && s.Total() == 2 * c ==> |s.b2.keys| > 0)
      && (s.t1.Size() + s.b1.Size() == c || s.Total() >= c ==>
            CanReplace(Forgotten(s, c), k))
  }

  function RoomMade(s: State, c: nat, a: Access): State
    requires CanMakeRoom(s, c, a.key)
  {
    if s.t1.Size() + s.b1.Size() == c && s.t1.Size() == c then EvictT1(s)
    else if s.t1.Size() + s.b1.Size() == c || s.Total() >= c
    then Replaced(Forgotten(s, c), a.key, a.write)
    else s
  }

  function Missed(s: State, c: nat, a: Access): State
    requires CanMakeRoom(s, c, a.key)
  {
    var r := RoomMade(s, c, a);
    r.(t1 := r.t1.PushBack(a.key, a.write))
  }

  function Step(s: State, c: nat, a: Access): State
    requires Ready(s, c, a)
  {
    if a.key in s.t1.table || a.key in s.t2.table then Hit(s, a)
    else if a.key in s.b1.table then GhostHit1(s, c, a)
    else if a.key in s.b2.table then GhostHit2(s, a)
    else Missed(s, c, a)
  }

  /** Nothing in this access takes the front of an empty list or divides by an empty one's length. */
  predicate Ready(s: State, c: nat, a: Access) {
    if a.key in s.t1.table || a.key in s.t2.table then true
    else if a.key in s.b1.table then s.b1.Size() > 0 && CanReplace(Adapted1(s, c), a.key)
    else if a.key in s.b2.table then s.b2.Size() > 0 && CanReplace(Adapted2(s), a.key)
    else CanMakeRoom(s, c, a.key)
  }

  // ---------- what one access keeps ----------

  ghost predicate PagesOk(s: State) {
    s.t1.Ok() && s.t2.Ok() && s.t1.table.Keys !! s.t2.table.Keys
  }

  lemma {:induction false} UnionRemove(m: map<Key, bool>, n: map<Key, bool>, k: Key)
    requires m.Keys !! n.Keys
    ensures k in m ==> (m - {k}) + n == m + n - {k}
    ensures k in n ==> m + (n - {k}) == m + n - {k}
  {
    if k in m { assert ((m - {k}) + n).Keys == (m + n - {k}).Keys; }
    if k in n { assert (m + (n - {k})).Keys == (m + n - {k}).Keys; }
  }

  lemma {:induction false} UnionPut(m: map<Key, bool>, n: map<Key, bool>, k: Key, d: bool)
    ensures k !in n ==> m[k := d] + n == (m + n)[k := d]
    ensures m + n[k := d] == (m + n)[k := d]
  {
  }

  lemma {:induction false} UnionSize(m: map<Key, bool>, n: map<Key, bool>)
    requires m.Keys !! n.Keys
    ensures |m + n| == |m| + |n|
  {
    assert (m + n).Keys == m.Keys + n.Keys;
  }

  lemma {:induction false} PagesSize(s: State)
    requires s.t1.table.Keys !! s.t2.table.Keys
    ensures |Pages(s)| == s.t1.Size() + s.t2.Size()
  {
    UnionSize(s.t1.table, s.t2.table);
  }

  /** From s to s' exactly page v left the cache, counted by its dirty bit. */
  ghost predicate Drops(s: State, s': State, v: Key) {
    && v in Pages(s) && Pages(s') == Pages(s) - {v}
    && s'.dirtyOut == s.dirtyOut + (if Pages(s)[v] then 1 else 0)
    && s'.cleanOut == s.cleanOut + (if Pages(s)[v] then 0 else 1)
  }

  lemma {:induction false} EvictT1Pages(s: State)
    requires PagesOk(s) && |s.t1.keys| > 0 && s.t1.keys[0] in s.t1.table
    ensures Drops(s, EvictT1(s), s.t1.keys[0])
  {
    hide Tracked.Ok, Without;
    UnionRemove(s.t1.table, s.t2.table, s.t1.keys[0]);
    assert Pages(EvictT1(s)) == Pages(s) - {s.t1.keys[0]};
  }

  lemma {:induction false} EvictT1Drops(s: State)
    requires PagesOk(s) && s.t1.Size() > 0
    ensures |s.t1.keys| > 0 && s.t1.keys[0] in s.t1.table
    ensures PagesOk(EvictT1(s)) && Drops(s, EvictT1(s), s.t1.keys[0])
    ensures var r := EvictT1(s);
      r.t1.Size() == s.t1.Size() - 1 && r == s.(t1 := r.t1, cleanOut := r.cleanOut, dirtyOut := r.dirtyOut)
  {
    hide Tracked.Ok, Without, Drops, Pages;
    FrontOk(s.t1);
    RemoveOk(s.t1, s.t1.keys[0]);
    EvictT1Pages(s);
  }

  lemma {:induction false} EvictT2Pages(s: State)
    requires PagesOk(s) && |s.t2.keys| > 0 && s.t2.keys[0] in s.t2.table
    ensures Drops(s, EvictT2(s), s.t2.keys[0])
  {
    hide Tracked.Ok, Without;
    UnionRemove(s.t1.table, s.t2.table, s.t2.keys[0]);
    assert Pages(EvictT2(s)) == Pages(s) - {s.t2.keys[0]};
  }

  lemma {:induction false} EvictT2Drops(s: State)
    requires PagesOk(s) && s.t2.Size() > 0
    ensures |s.t2.keys| > 0 && s.t2.keys[0] in s.t2.table
    ensures PagesOk(EvictT2(s)) && Drops(s, EvictT2(s), s.t2.keys[0])
    ensures var r := EvictT2(s);
      r.t2.Size() == s.t2.Size() - 1 && r == s.(t2 := r.t2, cleanOut := r.cleanOut, dirtyOut := r.dirtyOut)
  {
    hide Tracked.Ok, Without, Drops, Pages;
    FrontOk(s.t2);
    RemoveOk(s.t2, s.t2.keys[0]);
    EvictT2Pages(s);
  }

  /** The page REPLACE evicts. */
  function Victim(s: State, k: Key): Key
    requires CanReplace(s, k)
  {
    if TakesT1(s, k) then s.t1.keys[0] else s.t2.keys[0]
  }

  /** Sizes and ghost lists after REPLACE. */
  ghost predicate ReplacedLists(s: State, r: State, k: Key, dirty: bool) {
    && r.p == s.p
    && if TakesT1(s, k)
       then r.t1.Size() == s.t1.Size() - 1 && r.t2 == s.t2 && r.b1 == s.b1.PushBack(k, dirty) && r.b2 == s.b2
       else r.t1 == s.t1 && r.t2.Size() == s.t2.Size() - 1 && r.b1 == s.b1 && r.b2 == s.b2.PushBack(k, dirty)
  }

  lemma {:induction false} SamePages(s: State, s': State)
    requires s.t1 == s'.t1 && s.t2 == s'.t2
    ensures Pages(s) == Pages(s') && (PagesOk(s) <==> PagesOk(s'))
  {
  }

  lemma {:induction false} TakesT1HasPage(s: State, k: Key)
    ensures TakesT1(s, k) ==> s.t1.Size() > 0
  {
  }

  lemma {:induction false} ReplacedDrops(s: State, k: Key, dirty: bool)
    requires PagesOk(s) && (!TakesT1(s, k) ==> s.t2.Size() > 0)
    ensures CanReplace(s, k)
    ensures PagesOk(Replaced(s, k, dirty)) && Drops(s, Replaced(s, k, dirty), Victim(s, k))
    ensures ReplacedLists(s, Replaced(s, k, dirty), k, dirty)
  {
    hide Tracked.Ok, Without, EvictT1, EvictT2, Pages, PagesOk;
    TakesT1HasPage(s, k);
    if TakesT1(s, k) {
      EvictT1Drops(s);
      SamePages(EvictT1(s), Replaced(s, k, dirty));
    } else {
      EvictT2Drops(s);
      SamePages(EvictT2(s), Replaced(s, k, dirty));
    }
  }

  lemma {:induction false} DroppedLacks(s1: State, r: State, k: Key, v: Key)
    requires Drops(s1, r, v) && k !in Pages(s1)
    ensures k !in Pages(r) && k != v
  {
    hide Pages;
  }

  lemma {:induction false} Push1Pages(r: State, s': State, a: Access)
    requires PagesOk(r) && a.key !in Pages(r) && s' == r.(t1 := r.t1.PushBack(a.key, a.write), b1 := s'.b1, b2 := s'.b2)
    ensures PagesOk(s') && Pages(s') == Pages(r)[a.key := a.write] && s'.t1.Size() == r.t1.Size() + 1
  {
    hide Tracked.Ok;
    PushOk(r.t1, a.key, a.write);
    UnionPut(r.t1.table, r.t2.table, a.key, a.write);
  }

  lemma {:induction false} Push2Pages(r: State, s': State, a: Access)
    requires PagesOk(r) && a.key !in Pages(r) && s' == r.(t2 := r.t2.PushBack(a.key, a.write), b1 := s'.b1, b2 := s'.b2)
    ensures PagesOk(s') && Pages(s') == Pages(r)[a.key := a.write] && s'.t2.Size() == r.t2.Size() + 1
  {
    hide Tracked.Ok;
    PushOk(r.t2, a.key, a.write);
    UnionPut(r.t1.table, r.t2.table, a.key, a.write);
  }

  lemma {:induction false} DropServes(s: State, s1: State, r: State, s': State, a: Access, v: Key)
    requires Pages(s1) == Pages(s) && s1.cleanOut == s.cleanOut && s1.dirtyOut == s.dirtyOut
    requires Drops(s1, r, v) && a.key !in Pages(s) && a.key != v
    requires Pages(s') == Pages(r)[a.key := a.write] && s'.cleanOut == r.cleanOut && s'.dirtyOut == r.dirtyOut
    ensures Serves(Books(s), Books(s'), a, Some(v))
  {
    hide Pages;
  }

  lemma {:induction false} DropThenPush1(s: State, s1: State, r: State, s': State, a: Access, v: Key)
    requires s1 == s.(p := s1.p, b1 := s1.b1, b2 := s1.b2)
    requires PagesOk(r) && Drops(s1, r, v) && a.key !in Pages(s)
    requires s' == r.(t1 := r.t1.PushBack(a.key, a.write), b1 := s'.b1, b2 := s'.b2)
    ensures PagesOk(s') && Serves(Books(s), Books(s'), a, Some(v)) && s'.t1.Size() == r.t1.Size() + 1
  {
    hide Tracked.Ok, Without, PagesOk, Drops;
    DroppedLacks(s1, r, a.key, v);
    Push1Pages(r, s', a);
    hide Pages;
    DropServes(s, s1, r, s', a, v);
  }

  lemma {:induction false} DropThenPush2(s: State, s1: State, r: State, s': State, a: Access, v: Key)
    requires s1 == s.(p := s1.p, b1 := s1.b1, b2 := s1.b2)
    requires PagesOk(r) && Drops(s1, r, v) && a.key !in Pages(s)
    requires s' == r.(t2 := r.t2.PushBack(a.key, a.write), b1 := s'.b1, b2 := s'.b2)
    ensures PagesOk(s') && Serves(Books(s), Books(s'), a, Some(v)) && s'.t2.Size() == r.t2.Size() + 1
  {
    hide Tracked.Ok, Without, PagesOk, Drops;
    DroppedLacks(s1, r, a.key, v);
    Push2Pages(r, s', a);
    hide Pages;
    DropServes(s, s1, r, s', a, v);
  }

  lemma {:induction false} PushKeeps(s: State, s': State, a: Access)
    requires PagesOk(s) && a.key !in Pages(s) && s' == s.(t1 := s.t1.PushBack(a.key, a.write))
    ensures PagesOk(s') && Serves(Books(s), Books(s'), a, None) && s'.t1.Size() == s.t1.Size() + 1
  {
    hide Tracked.Ok, Without;
    PushOk(s.t1, a.key, a.write);
    UnionPut(s.t1.table, s.t2.table, a.key, a.write);
  }

  /** Case I. */
  lemma {:induction false} HitKeeps(s: State, c: nat, a: Access)
    requires Inv(s, c) && a.key in Pages(s)
    ensures Inv(Hit(s, a), c) && Serves(Books(s), Books(Hit(s, a)), a, None)
  {
    HitOk(s, c, a);
    HitPages(s, a);
  }

  lemma {:induction false} HitPages(s: State, a: Access)
    requires PagesOk(s) && a.key in Pages(s)
    ensures Pages(Hit(s, a)) == Pages(s)[a.key := a.write || Pages(s)[a.key]]
  {
    hide Tracked.Ok, Without;
    var k := a.key;
    var d := a.write || Pages(s)[k];
    UnionRemove(s.t1.table, s.t2.table, k);
    PutAgain(Pages(s), k, d);
    if k in s.t1.table {
      UnionPut(s.t1.table - {k}, s.t2.table, k, d);
    } else {
      UnionPut(s.t1.table, s.t2.table - {k}, k, d);
    }
  }

  lemma {:induction false} HitOk1(s: State, c: nat, a: Access)
    requires Inv(s, c) && a.key in s.t1.table
    ensures Inv(Hit(s, a), c)
  {
    hide Tracked.Ok, Without;
    RemoveOk(s.t1, a.key);
    PushOk(s.t2, a.key, a.write || s.t1.table[a.key]);
  }

  lemma {:induction false} HitOk2(s: State, c: nat, a: Access)
    requires Inv(s, c) && a.key !in s.t1.table && a.key in s.t2.table
    ensures Inv(Hit(s, a), c)
  {
    hide Tracked.Ok, Without;
    RemoveOk(s.t2, a.key);
    PushOk(s.t2.Removed(a.key), a.key, a.write || s.t2.table[a.key]);
  }

  lemma {:induction false} HitOk(s: State, c: nat, a: Access)
    requires Inv(s, c) && a.key in Pages(s)
    ensures Inv(Hit(s, a), c)
  {
    hide Inv, Hit;
    if a.key in s.t1.table { HitOk1(s, c, a); } else { HitOk2(s, c, a); }
  }

  lemma {:induction false} DeltaPositive(mine: nat, other: nat)
    requires mine > 0
    ensures Delta(mine, other) >= 1
  {
    if mine < other {
      var q, r := other / mine, other % mine;
      assert other == mine * q + r;
      if q <= 0 { NonPositiveProduct(mine, q); }
    }
  }

  lemma {:induction false} NonPositiveProduct(m: nat, q: int)
    requires q <= 0
    ensures m * q <= 0
  {
  }

  lemma {:induction false} MemberSize(t: Tracked, k: Key)
    requires k in t.table
    ensures t.Size() > 0
  {
  }

  /** Case II: B1 is not empty and T1 does not fill the cache, so REPLACE finds a page. */
  lemma {:induction false} GhostHit1Keeps(s: State, c: nat, a: Access)
    requires Inv(s, c) && a.key !in Pages(s) && a.key in s.b1.table
    ensures s.b1.Size() > 0 && CanReplace(Adapted1(s, c), a.key)
    ensures Inv(GhostHit1(s, c, a), c)
    ensures Serves(Books(s), Books(GhostHit1(s, c, a)), a, Some(Victim(Adapted1(s, c), a.key)))
  {
    hide Tracked.Ok, Without, Drops, Serves, EvictT1, EvictT2, Pages;
    var k := a.key;
    MemberSize(s.b1, k);
    DeltaPositive(s.b1.Size(), s.b2.Size());
    var s1 := Adapted1(s, c);
    ReplacedDrops(s1, k, a.write);
    RemoveOk(s.b1, k);
    if TakesT1(s1, k) { PushedAgain(s.b1, k, a.write); } else { PushOk(s.b2, k, a.write); }
    DropThenPush2(s, s1, Replaced(s1, k, a.write), GhostHit1(s, c, a), a, Victim(s1, k));
  }

  /** Case III: the target drops below the capacity, so even a T1 that fills the cache gives a page. */
  lemma {:induction false} GhostHit2Keeps(s: State, c: nat, a: Access)
    requires Inv(s, c) && a.key !in Pages(s) && a.key !in s.b1.table && a.key in s.b2.table
    ensures s.b2.Size() > 0 && CanReplace(Adapted2(s), a.key)
    ensures Inv(GhostHit2(s, a), c) && Serves(Books(s), Books(GhostHit2(s, a)), a, Some(Victim(Adapted2(s), a.key)))
  {
    hide Tracked.Ok, Without, Drops, Serves, EvictT1, EvictT2, Pages;
    var k := a.key;
    MemberSize(s.b2, k);
    DeltaPositive(s.b2.Size(), s.b1.Size());
    var s1 := Adapted2(s);
    ReplacedDrops(s1, k, a.write);
    RemoveOk(s.b2, k);
    if TakesT1(s1, k) { PushOk(s.b1, k, a.write); } else { PushedAgain(s.b2, k, a.write); }
    DropThenPush2(s, s1, Replaced(s1, k, a.write), GhostHit2(s, a), a, Victim(s1, k));
  }

  /** Dropping a ghost touches no page. */
  lemma {:induction false} ForgottenKeeps(s: State, c: nat)
    requires Inv(s, c) && s.t1.Size() < c
    ensures s.t1.Size() + s.b1.Size() == c ==> |s.b1.keys| > 0
    ensures s.t1.Size() + s.b1.Size() < c && s.Total() == 2 * c ==> |s.b2.keys| > 0
    ensures var f := Forgotten(s, c);
      && Inv(f, c) && f == s.(b1 := f.b1, b2 := f.b2)
      && f.t1.Size() + f.b1.Size() < c && f.Total() < 2 * c
      && f.b1.table.Keys <= s.b1.table.Keys && f.b2.table.Keys <= s.b2.table.Keys
  {
    hide Tracked.Ok, Without;
    if s.t1.Size() + s.b1.Size() == c {
      FrontOk(s.b1);
      RemoveOk(s.b1, s.b1.keys[0]);
    } else if s.Total() == 2 * c {
      FrontOk(s.b2);
      RemoveOk(s.b2, s.b2.keys[0]);
    }
  }

  /** The page a miss on all lists evicts: the front of a T1 that fills the cache, else what REPLACE takes, if the
      cache is full. */
  function MissVictim(s: State, c: nat, k: Key): Option<Key>
    requires CanMakeRoom(s, c, k)
  {
    if s.t1.Size() + s.b1.Size() == c && s.t1.Size() == c then Some(s.t1.keys[0])
    else if s.t1.Size() + s.b1.Size() == c || s.Total() >= c
    then Some(Victim(Forgotten(s, c), k))
    else None
  }

  /** Case IV. */
  lemma {:induction false} MissedKeeps(s: State, c: nat, a: Access)
    requires Inv(s, c) && a.key !in Pages(s) && a.key !in s.b1.table && a.key !in s.b2.table
    ensures CanMakeRoom(s, c, a.key)
    ensures Inv(Missed(s, c, a), c) && Serves(Books(s), Books(Missed(s, c, a)), a, MissVictim(s, c, a.key))
    ensures MissVictim(s, c, a.key).Some? <==> s.t1.Size() + s.t2.Size() == c
  {
    if s.t1.Size() == c { T1FullKeeps(s, c, a); } else { T1ShortKeeps(s, c, a); }
  }

  lemma {:induction false} T1FullKeeps(s: State, c: nat, a: Access)
    requires Inv(s, c) && a.key !in Pages(s) && s.t1.Size() == c
    ensures CanMakeRoom(s, c, a.key)
    ensures Inv(Missed(s, c, a), c) && Serves(Books(s), Books(Missed(s, c, a)), a, MissVictim(s, c, a.key))
    ensures MissVictim(s, c, a.key).Some?
  {
    hide Tracked.Ok, Without, Drops, Serves, EvictT1, EvictT2, Pages;
    EvictT1Drops(s);
    DropThenPush1(s, s, EvictT1(s), Missed(s, c, a), a, s.t1.keys[0]);
  }

  /** A page pushed after REPLACE on a full cache whose ghost lists have room breaks no bound. */
  lemma {:induction false} ReplacePushFits(f: State, c: nat, r: State, s': State, k: Key, dirty: bool)
    requires Inv(f, c) && f.t1.Size() < c && f.t1.Size() + f.t2.Size() == c
    requires f.t1.Size() + f.b1.Size() < c && f.Total() < 2 * c
    requires k !in f.b1.table && k !in f.b2.table && ReplacedLists(f, r, k, dirty)
    requires PagesOk(s') && s' == r.(t1 := s'.t1) && s'.t1.Size() == r.t1.Size() + 1
    ensures Inv(s', c)
  {
    hide Tracked.Ok;
    if TakesT1(f, k) { PushOk(f.b1, k, dirty); } else { PushOk(f.b2, k, dirty); }
  }

  lemma {:induction false} ReplacePushKeeps(s: State, f: State, c: nat, a: Access)
    requires Inv(f, c) && f.t1.Size() < c && f.t1.Size() + f.t2.Size() == c
    requires f == s.(b1 := f.b1, b2 := f.b2)
    requires f.t1.Size() + f.b1.Size() < c && f.Total() < 2 * c
    requires a.key !in Pages(s) && a.key !in f.b1.table && a.key !in f.b2.table
    ensures CanReplace(f, a.key)
    ensures var r := Replaced(f, a.key, a.write);
      var s' := r.(t1 := r.t1.PushBack(a.key, a.write));
      Inv(s', c) && Serves(Books(s), Books(s'), a, Some(Victim(f, a.key)))
  {
    var k := a.key;
    InvParts(f, c);
    hide Inv, PagesOk, Drops, Serves, Replaced, ReplacedLists, Pages, Tracked.PushBack;
    ReplacedDrops(f, k, a.write);
    var r := Replaced(f, k, a.write);
    var s' := r.(t1 := r.t1.PushBack(k, a.write));
    DropThenPush1(s, f, r, s', a, Victim(f, k));
    ReplacePushFits(f, c, r, s', k, a.write);
  }

  lemma {:induction false} InvParts(s: State, c: nat)
    requires Inv(s, c)
    ensures PagesOk(s)
  {
  }

  lemma {:induction false} T1ShortKeeps(s: State, c: nat, a: Access)
    requires Inv(s, c) && s.t1.Size() < c
    requires a.key !in Pages(s) && a.key !in s.b1.table && a.key !in s.b2.table
    ensures CanMakeRoom(s, c, a.key)
    ensures Inv(Missed(s, c, a), c) && Serves(Books(s), Books(Missed(s, c, a)), a, MissVictim(s, c, a.key))
    ensures MissVictim(s, c, a.key).Some? <==> s.t1.Size() + s.t2.Size() == c
  {
    hide Tracked.Ok, Without, Drops, Serves, EvictT1, EvictT2, Pages;
    var k := a.key;
    ForgottenKeeps(s, c);
    var f := Forgotten(s, c);
    if s.t1.Size() + s.b1.Size() == c || s.Total() >= c {
      ReplacePushKeeps(s, f, c, a);
    } else {
      PushKeeps(s, Missed(s, c, a), a);
    }
  }

  /** The page evicted for an access. */
  function Gone(s: State, c: nat, a: Access): Option<Key>
    requires Ready(s, c, a)
  {
    if a.key in s.t1.table || a.key in s.t2.table then None
    else if a.key in s.b1.table then Some(Victim(Adapted1(s, c), a.key))
    else if a.key in s.b2.table then Some(Victim(Adapted2(s), a.key))
    else MissVictim(s, c, a.key)
  }

  /** Every access keeps the invariant, finds the pages it looks for, evicts at most one page and only from a full
      cache, and serves its page. */
  lemma {:induction false} StepKeeps(s: State, c: nat, a: Access)
    requires Inv(s, c)
    ensures Ready(s, c, a) && Inv(Step(s, c, a), c)
    ensures Serves(Books(s), Books(Step(s, c, a)), a, Gone(s, c, a))
    ensures Gone(s, c, a).Some? <==> a.key !in Pages(s) && |Pages(s)| == c
  {
    hide Tracked.Ok, Without, Serves, Pages, Hit, GhostHit1, GhostHit2, Missed, CanReplace, CanMakeRoom;
    KeyWhere(s, a.key);
    PagesSize(s);
    if a.key in Pages(s) { HitKeeps(s, c, a); }
    else if a.key in s.b1.table { MemberSize(s.b1, a.key); GhostHit1Keeps(s, c, a); }
    else if a.key in s.b2.table { MemberSize(s.b2, a.key); GhostHit2Keeps(s, c, a); }
    else { MissedKeeps(s, c, a); }
  }

  lemma {:induction false} KeyWhere(s: State, k: Key)
    ensures k in Pages(s) <==> k in s.t1.table || k in s.t2.table
  {
  }

  // ---------- what the ghost lists remember ----------

  ghost function Ghosts(s: State): set<Key> { s.b1.table.Keys + s.b2.table.Keys }

  /** The requested key is among the ghosts afterwards: it was and is only moved within the cache, or REPLACE put it
      into the ghost list it is not removed from. */
  predicate BecomesGhost(s: State, c: nat, a: Access)
    requires Ready(s, c, a)
  {
    if a.key in s.t1.table || a.key in s.t2.table then a.key in s.b1.table || a.key in s.b2.table
    else if a.key in s.b1.table then !TakesT1(Adapted1(s, c), a.key)
    else if a.key in s.b2.table then TakesT1(Adapted2(s), a.key)
    else s.t1.Size() + s.t2.Size() == c && s.t1.Size() < c
  }

  /** The ghost forgotten to make room for a key in none of the lists. */
  function Forgets(s: State, c: nat, a: Access): Option<Key>
    requires Ready(s, c, a)
  {
    if a.key in s.t1.table || a.key in s.t2.table || a.key in s.b1.table || a.key in s.b2.table then None
    else Blocking(s, c)
  }

  /** The ghosts after an access, exactly. The page evicted is never added. */
  lemma {:induction false} GhostsAreRequested(s: State, c: nat, a: Access)
    requires Inv(s, c) && Ready(s, c, a)
    ensures a.key in Ghosts(Step(s, c, a)) <==> BecomesGhost(s, c, a)
    ensures forall x :: x != a.key ==>
      (x in Ghosts(Step(s, c, a)) <==> x in Ghosts(s) && Forgets(s, c, a) != Some(x))
    ensures Gone(s, c, a).Some? && Gone(s, c, a).value !in Ghosts(s) ==> Gone(s, c, a).value !in Ghosts(Step(s, c, a))
  {
    StepGhosts(s, c, a);
    StepKeeps(s, c, a);
    hide Tracked.Ok, Without, Step, Serves, Ready, Gone, Forgets, BecomesGhost, Ghosts;
    NotGone(s, c, a);
  }

  lemma {:induction false} NotGone(s: State, c: nat, a: Access)
    requires Ready(s, c, a) && Serves(Books(s), Books(Step(s, c, a)), a, Gone(s, c, a))
    ensures Gone(s, c, a).Some? ==> Gone(s, c, a).value != a.key
  {
    hide Step, Ready, Gone, Pages;
  }

  lemma {:induction false} PushedKeys(t: Tracked, k: Key, dirty: bool)
    ensures t.PushBack(k, dirty).table.Keys == t.table.Keys + {k}
  {
  }

  lemma {:induction false} ReplacedGhosts(s: State, k: Key, dirty: bool)
    requires CanReplace(s, k)
    ensures var r := Replaced(s, k, dirty);
      if TakesT1(s, k) then r.b1.table.Keys == s.b1.table.Keys + {k} && r.b2 == s.b2
      else r.b1 == s.b1 && r.b2.table.Keys == s.b2.table.Keys + {k}
  {
    PushedKeys(s.b1, k, dirty);
    PushedKeys(s.b2, k, dirty);
    hide Tracked.PushBack, Tracked.Removed;
  }

  /** What one access does to the ghosts, case by case. */
  ghost predicate GhostStep(s: State, c: nat, a: Access, s': State)
    requires Ready(s, c, a)
  {
    && (a.key in Ghosts(s') <==> BecomesGhost(s, c, a))
    && forall x :: x != a.key ==> (x in Ghosts(s') <==> x in Ghosts(s) && Forgets(s, c, a) != Some(x))
  }

  lemma {:induction false} RemovedKeys(t: Tracked, k: Key)
    ensures t.Removed(k).table.Keys == t.table.Keys - {k}
  {
    hide Without;
  }

  lemma {:induction false} GhostHit1Ghosts(s: State, c: nat, a: Access)
    requires Ready(s, c, a) && a.key in s.b1.table && a.key !in s.b2.table
    requires a.key !in s.t1.table && a.key !in s.t2.table
    ensures Ghosts(GhostHit1(s, c, a)) == if TakesT1(Adapted1(s, c), a.key) then Ghosts(s) - {a.key} else Ghosts(s)
  {
    hide CanReplace, Replaced, TakesT1, Tracked.Removed, Delta;
    ReplacedGhosts(Adapted1(s, c), a.key, a.write);
    RemovedKeys(Replaced(Adapted1(s, c), a.key, a.write).b1, a.key);
  }

  lemma {:induction false} GhostHit2Ghosts(s: State, c: nat, a: Access)
    requires Ready(s, c, a) && a.key !in s.b1.table && a.key in s.b2.table
    requires a.key !in s.t1.table && a.key !in s.t2.table
    ensures Ghosts(GhostHit2(s, a)) == if TakesT1(Adapted2(s), a.key) then Ghosts(s) else Ghosts(s) - {a.key}
  {
    hide CanReplace, Replaced, TakesT1, Tracked.Removed, Delta;
    ReplacedGhosts(Adapted2(s), a.key, a.write);
    RemovedKeys(Replaced(Adapted2(s), a.key, a.write).b2, a.key);
  }

  /** When a key in none of the lists is served by REPLACE. */
  predicate MissReplaces(s: State, c: nat) {
    s.t1.Size() < c
    && (s.t1.Size() + s.b1.Size() == c || s.Total() >= c)
  }

  lemma {:induction false} FullReplaces(s: State, c: nat)
    requires Inv(s, c)
    ensures MissReplaces(s, c) <==> s.t1.Size() + s.t2.Size() == c && s.t1.Size() < c
  {
    hide Tracked.Ok;
  }

  /** The front of a ghost list that stands in the way of a key in none of the lists. */
  function Blocking(s: State, c: nat): Option<Key>
    requires s.t1.Size() + s.b1.Size() == c && s.t1.Size() < c ==> |s.b1.keys| > 0
    requires s.t1.Size() + s.b1.Size() < c && s.Total() == 2 * c ==> |s.b2.keys| > 0
  {
    if s.t1.Size() == c then None
    else if s.t1.Size() + s.b1.Size() == c && s.t1.Size() < c then Some(s.b1.keys[0])
    else if s.t1.Size() + s.b1.Size() < c && s.Total() == 2 * c
    then Some(s.b2.keys[0])
    else None
  }

  ghost function Drop(keys: set<Key>, k: Option<Key>): set<Key> {
    if k.Some? then keys - {k.value} else keys
  }

  lemma {:induction false} ForgottenGhosts(s: State, c: nat)
    requires Inv(s, c) && s.t1.Size() < c
    requires s.t1.Size() + s.b1.Size() == c && s.t1.Size() < c ==> |s.b1.keys| > 0
    requires s.t1.Size() + s.b1.Size() < c && s.Total() == 2 * c ==> |s.b2.keys| > 0
    ensures Ghosts(Forgotten(s, c)) == Drop(Ghosts(s), Blocking(s, c))
    ensures Blocking(s, c).Some? ==> MissReplaces(s, c)
  {
    hide Tracked.Removed, Tracked.Ok;
    if s.t1.Size() + s.b1.Size() == c {
      FrontOk(s.b1);
      GhostsLess(s, s.b1.keys[0]);
    } else if s.Total() == 2 * c {
      FrontOk(s.b2);
      GhostsLess(s, s.b2.keys[0]);
    }
    hide Ghosts;
  }

  lemma {:induction false} GhostsLess(s: State, k: Key)
    requires s.b1.table.Keys !! s.b2.table.Keys
    ensures k in s.b1.table ==> Ghosts(s.(b1 := s.b1.Removed(k))) == Ghosts(s) - {k}
    ensures k in s.b2.table ==> Ghosts(s.(b2 := s.b2.Removed(k))) == Ghosts(s) - {k}
  {
    hide Tracked.Removed;
    RemovedKeys(s.b1, k);
    RemovedKeys(s.b2, k);
  }

  lemma {:induction false} MissedGhosts(s: State, c: nat, a: Access)
    requires Inv(s, c) && CanMakeRoom(s, c, a.key)
    ensures Ghosts(Missed(s, c, a))
      == if MissReplaces(s, c) then Ghosts(Forgotten(s, c)) + {a.key} else Ghosts(s)
  {
    hide Tracked.Ok, CanReplace, Replaced, Forgotten, EvictT1, Ghosts;
    if MissReplaces(s, c) {
      var f := Forgotten(s, c);
      ReplacedGhosts(f, a.key, a.write);
      GhostsPlus(f, Replaced(f, a.key, a.write), a.key);
      SameGhosts(Replaced(f, a.key, a.write), Missed(s, c, a));
    } else if s.t1.Size() == c {
      EvictT1Ghosts(s);
      SameGhosts(s, Missed(s, c, a));
    } else {
      SameGhosts(s, Missed(s, c, a));
    }
  }

  lemma {:induction false} EvictT1Ghosts(s: State)
    requires |s.t1.keys| > 0 && s.t1.keys[0] in s.t1.table
    ensures EvictT1(s).b1 == s.b1 && EvictT1(s).b2 == s.b2
  {
  }

  lemma {:induction false} SameGhosts(s: State, s': State)
    requires s.b1 == s'.b1 && s.b2 == s'.b2
    ensures Ghosts(s) == Ghosts(s')
  {
  }

  lemma {:induction false} GhostsPlus(s: State, r: State, k: Key)
    requires (r.b1.table.Keys == s.b1.table.Keys + {k} && r.b2 == s.b2)
             || (r.b1 == s.b1 && r.b2.table.Keys == s.b2.table.Keys + {k})
    ensures Ghosts(r) == Ghosts(s) + {k}
  {
  }

  lemma {:induction false} MissedSetsShort(s: State, c: nat, a: Access)
    requires Inv(s, c) && CanMakeRoom(s, c, a.key) && s.t1.Size() < c
    ensures s.t1.Size() + s.b1.Size() == c ==> |s.b1.keys| > 0
    ensures s.t1.Size() + s.b1.Size() < c && s.Total() == 2 * c ==> |s.b2.keys| > 0
    ensures Ghosts(Missed(s, c, a)) == Drop(Ghosts(s), Blocking(s, c)) + if MissReplaces(s, c) then {a.key} else {}
  {
    hide Ghosts, Missed, CanMakeRoom, Forgotten, Tracked.Ok, MissReplaces, Drop;
    MissedGhosts(s, c, a);
    ForgottenKeeps(s, c);
    ForgottenGhosts(s, c);
    if !MissReplaces(s, c) { DropNone(Ghosts(s)); }
  }

  lemma {:induction false} DropNone(keys: set<Key>)
    ensures Drop(keys, None) == keys
  {
  }

  lemma {:induction false} MissedSetsFull(s: State, c: nat, a: Access)
    requires Inv(s, c) && CanMakeRoom(s, c, a.key) && s.t1.Size() == c
    ensures Ghosts(Missed(s, c, a)) == Drop(Ghosts(s), Blocking(s, c)) + if MissReplaces(s, c) then {a.key} else {}
  {
    MissedGhosts(s, c, a);
    DropNone(Ghosts(s));
    hide Ghosts, Missed, CanMakeRoom, Tracked.Ok, Drop;
  }

  /** A miss: the ghost in the way is forgotten, and REPLACE adds the key. */
  lemma {:induction false} MissedSets(s: State, c: nat, a: Access)
    requires Inv(s, c) && a.key !in Ghosts(s) && a.key !in s.t1.table && a.key !in s.t2.table
    ensures CanMakeRoom(s, c, a.key)
    ensures s.t1.Size() + s.b1.Size() == c && s.t1.Size() < c ==> |s.b1.keys| > 0
    ensures s.t1.Size() + s.b1.Size() < c && s.Total() == 2 * c ==> |s.b2.keys| > 0
    ensures Ghosts(Missed(s, c, a)) == Drop(Ghosts(s), Blocking(s, c)) + if MissReplaces(s, c) then {a.key} else {}
  {
    KeyWhere(s, a.key);
    NotGhost(s, a.key);
    hide Ghosts, Missed, CanMakeRoom, Pages, Drop, Blocking, MissReplaces, Tracked.Ok;
    MissedKeeps(s, c, a);
    if s.t1.Size() < c { MissedSetsShort(s, c, a); } else { MissedSetsFull(s, c, a); }
  }

  lemma {:induction false} NotGhost(s: State, k: Key)
    ensures k in Ghosts(s) <==> k in s.b1.table || k in s.b2.table
  {
  }

  lemma {:induction false} MissedGhostStep(s: State, c: nat, a: Access)
    requires Inv(s, c) && Ready(s, c, a) && a.key !in Ghosts(s) && a.key !in s.t1.table && a.key !in s.t2.table
    ensures GhostStep(s, c, a, Missed(s, c, a))
  {
    NotGhost(s, a.key);
    FullReplaces(s, c);
    MissedSets(s, c, a);
    hide Inv, Missed, CanMakeRoom, Ghosts, MissReplaces, Blocking, GhostStep, Drop;
    GhostStepSets(s, c, a, Missed(s, c, a));
  }

  lemma {:induction false} GhostStepSets(s: State, c: nat, a: Access, s': State)
    requires Ready(s, c, a) && a.key !in Ghosts(s)
    requires Ghosts(s') == Drop(Ghosts(s), Forgets(s, c, a)) + if BecomesGhost(s, c, a) then {a.key} else {}
    ensures GhostStep(s, c, a, s')
  {
    hide Ready, Forgets, BecomesGhost, Ghosts;
  }

  lemma {:induction false} StepGhosts(s: State, c: nat, a: Access)
    requires Inv(s, c) && Ready(s, c, a)
    ensures GhostStep(s, c, a, Step(s, c, a))
  {
    NotGhost(s, a.key);
    if a.key in s.t1.table || a.key in s.t2.table {
      HitGhosts(s, c, a);
    } else if a.key in s.b1.table || a.key in s.b2.table {
      GhostHitGhosts(s, c, a);
    } else {
      hide Inv, GhostStep, CanMakeRoom, Ghosts;
      MissedGhostStep(s, c, a);
    }
  }

  lemma {:induction false} HitGhosts(s: State, c: nat, a: Access)
    requires Ready(s, c, a) && (a.key in s.t1.table || a.key in s.t2.table)
    ensures GhostStep(s, c, a, Step(s, c, a))
  {
    SameGhosts(s, Step(s, c, a));
    NotGhost(s, a.key);
    hide Ghosts, Step;
  }

  lemma {:induction false} GhostHitGhosts(s: State, c: nat, a: Access)
    requires Inv(s, c) && Ready(s, c, a) && a.key !in s.t1.table && a.key !in s.t2.table
    requires a.key in s.b1.table || a.key in s.b2.table
    ensures GhostStep(s, c, a, Step(s, c, a))
  {
    hide Tracked.Ok, CanReplace, GhostHit1, GhostHit2, TakesT1, Ghosts;
    NotGhost(s, a.key);
    if a.key in s.b1.table { GhostHit1Ghosts(s, c, a); } else { GhostHit2Ghosts(s, c, a); }
  }

  /** Cached pages and ghosts have no key in common. */
  ghost predicate Apart(s: State) { Pages(s).Keys !! Ghosts(s) }

  /** One access keeps them apart exactly if its key does not become a ghost. */
  lemma {:induction false} ApartStep(s: State, c: nat, a: Access)
    requires Inv(s, c) && Ready(s, c, a) && Apart(s)
    ensures Apart(Step(s, c, a)) <==> !BecomesGhost(s, c, a)
  {
    StepKeeps(s, c, a);
    GhostsAreRequested(s, c, a);
    ServedKeys(Books(s), Books(Step(s, c, a)), a, Gone(s, c, a));
    hide Inv, Ready, Step, Gone, BecomesGhost, Forgets, Ghosts, Serves;
  }

  lemma {:induction false} ServedKeys(l: Ledger, l': Ledger, a: Access, gone: Option<Key>)
    requires Serves(l, l', a, gone)
    ensures a.key in l'.pages && l'.pages.Keys <= l.pages.Keys + {a.key}
  {
  }

  // ---------- where the target goes, and which page leaves ----------

  /** How far a hit in a ghost list of length `mine` moves the target: one, or how many times longer the other is. */
  ghost predicate IsMove(d: int, mine: nat, other: nat) {
    if mine >= other then d == 1 else d * mine <= other < (d + 1) * mine
  }

  /** The target after an access: a hit in B1 raises it, up to the capacity, a hit in B2 lowers it, down to 0, and
      nothing else changes it. */
  ghost predicate TargetAfter(s: State, c: nat, a: Access, p: int) {
    if a.key in Pages(s) || (a.key !in s.b1.table && a.key !in s.b2.table) then p == s.p
    else if a.key in s.b1.table then
      exists d :: IsMove(d, |s.b1.keys|, |s.b2.keys|) && p == if s.p + d <= c then s.p + d else c
    else
      exists d :: IsMove(d, |s.b2.keys|, |s.b1.keys|) && p == if s.p - d >= 0 then s.p - d else 0
  }

  /** With target p the page that leaves is the front of T1: T1 is longer than that, or as long and the key is in B2. */
  ghost predicate LeavesT1(s: State, p: int, k: Key) {
    |s.t1.keys| > 0 && (|s.t1.keys| > p || (|s.t1.keys| == p && k in s.b2.table))
  }

  /** Both page lists after an access, for target p: a page hit moves to the back of T2, a ghost hit enters there in
      exchange for a page, and a new key enters T1, in exchange for a page if the cache is full. */
  ghost predicate PagesAfter(s: State, c: nat, a: Access, p: int, t1: seq<Key>, t2: seq<Key>) {
    var k, u, v := a.key, s.t1.keys, s.t2.keys;
    if k in Pages(s) then t1 == Without(u, k) && t2 == Without(v, k) + [k]
    else if k in s.b1.table || k in s.b2.table then
      if LeavesT1(s, p, k) then t1 == u[1..] && t2 == v + [k]
      else |v| > 0 && t1 == u && t2 == v[1..] + [k]
    else if |u| + |v| < c then t1 == u + [k] && t2 == v
    else if |u| == c || LeavesT1(s, p, k) then |u| > 0 && t1 == u[1..] + [k] && t2 == v
    else |v| > 0 && t1 == u + [k] && t2 == v[1..]
  }

  /** Both ghost lists after an access: a ghost hit leaves its list, the oldest in the way of a new key is dropped, and
      whenever a page is replaced the key is put behind the list of that page's side; but it is not kept where it was
      just found. */
  ghost predicate GhostsAfter(s: State, c: nat, a: Access, p: int, b1: seq<Key>, b2: seq<Key>) {
    var k, g, h := a.key, s.b1.keys, s.b2.keys;
    if k in Pages(s) then b1 == g && b2 == h
    else if k in s.b1.table then b1 == Without(g, k) && b2 == h + if LeavesT1(s, p, k) then [] else [k]
    else if k in s.b2.table then b1 == g + (if LeavesT1(s, p, k) then [k] else []) && b2 == Without(h, k)
    else if |s.t1.keys| + |s.t2.keys| < c || |s.t1.keys| == c then b1 == g && b2 == h
    else
      && (|s.t1.keys| + |g| == c ==> |g| > 0)
      && (|s.t1.keys| + |g| < c && |s.t1.keys| + |s.t2.keys| + |g| + |h| == 2 * c ==> |h| > 0)
      && var g' := if |s.t1.keys| + |g| == c then g[1..] else g;
         var h' := if |s.t1.keys| + |g| < c && |s.t1.keys| + |s.t2.keys| + |g| + |h| == 2 * c then h[1..] else h;
         if LeavesT1(s, p, k) then b1 == g' + [k] && b2 == h' else b1 == g' && b2 == h' + [k]
  }

  /** One access, stated on the four lists and the target alone. */
  ghost predicate Transition(s: State, c: nat, a: Access, s': State) {
    && TargetAfter(s, c, a, s'.p)
    && PagesAfter(s, c, a, s'.p, s'.t1.keys, s'.t2.keys)
    && GhostsAfter(s, c, a, s'.p, s'.b1.keys, s'.b2.keys)
  }

  lemma {:induction false} DeltaIsMove(mine: nat, other: nat)
    requires mine > 0
    ensures IsMove(Delta(mine, other), mine, other)
  {
    if mine < other {
      var q, r := other / mine, other % mine;
      assert other == mine * q + r && mine * q == q * mine && (q + 1) * mine == q * mine + mine;
    }
  }

  lemma {:induction false} SizesAre(s: State, c: nat)
    requires Inv(s, c)
    ensures s.t1.Size() == |s.t1.keys| && s.t2.Size() == |s.t2.keys|
    ensures s.b1.Size() == |s.b1.keys| && s.b2.Size() == |s.b2.keys|
    ensures forall k :: k in Pages(s) <==> k in s.t1.table || k in s.t2.table
    ensures forall k :: !(k in s.b1.table && k in s.b2.table)
  {
    OkSize(s.t1);
    OkSize(s.t2);
    OkSize(s.b1);
    OkSize(s.b2);
    hide Tracked.Ok;
  }

  /** The key lists after REPLACE. */
  lemma {:induction false} ReplacedKeys(s: State, k: Key, dirty: bool)
    requires CanReplace(s, k) && s.t1.Ok() && s.t2.Ok()
    ensures var r := Replaced(s, k, dirty);
      && r.p == s.p
      && if TakesT1(s, k)
         then |s.t1.keys| > 0 && r.t1.keys == s.t1.keys[1..] && r.t2 == s.t2
              && r.b1 == s.b1.PushBack(k, dirty) && r.b2 == s.b2
         else |s.t2.keys| > 0 && r.t1 == s.t1 && r.t2.keys == s.t2.keys[1..]
              && r.b1 == s.b1 && r.b2 == s.b2.PushBack(k, dirty)
  {
    if TakesT1(s, k) { FrontCut(s.t1); } else { FrontCut(s.t2); }
    hide Tracked.Ok, Tracked.Removed, Tracked.PushBack;
  }

  lemma {:induction false} FrontCut(t: Tracked)
    requires t.Ok() && |t.keys| > 0
    ensures t.Removed(t.keys[0]).keys == t.keys[1..]
  {
    OkSize(t);
    FrontOk(t);
  }

  lemma {:induction false} HitTransition(s: State, c: nat, a: Access)
    requires Inv(s, c) && a.key in Pages(s)
    ensures Transition(s, c, a, Step(s, c, a))
  {
    var k := a.key;
    SizesAre(s, c);
    AbsentKept(s.t1, k);
    AbsentKept(s.t2, k);
    HitIs(s, c, a);
    hide Inv, Without, Step, Hit, Pages;
  }

  lemma {:induction false} HitIs(s: State, c: nat, a: Access)
    requires a.key in s.t1.table || a.key in s.t2.table
    ensures var k, s' := a.key, Step(s, c, a);
      && s'.p == s.p && s'.b1 == s.b1 && s'.b2 == s.b2
      && s'.t1.keys == (if k in s.t1.table then Without(s.t1.keys, k) else s.t1.keys)
      && s'.t2.keys == (if k in s.t1.table then s.t2.keys else Without(s.t2.keys, k)) + [k]
  {
    hide Without;
  }

  lemma {:induction false} AbsentKept(t: Tracked, k: Key)
    requires t.Ok()
    ensures k !in t.table ==> Without(t.keys, k) == t.keys
  {
    if k !in t.table { WithoutAbsent(t.keys, k); }
  }

  lemma {:induction false} TakesIs(s: State, s1: State, c: nat, k: Key)
    requires Inv(s, c) && s1.t1 == s.t1 && (k in s1.b2.table <==> k in s.b2.table)
    ensures TakesT1(s1, k) <==> LeavesT1(s, s1.p, k)
  {
    OkSize(s.t1);
    hide Tracked.Ok;
  }

  /** The lists after REPLACE with target s1.p in the cache s, its ghost lists changed or not. */
  ghost predicate ReplacedTo(s: State, s1: State, k: Key, r: State) {
    && r.p == s1.p
    && if LeavesT1(s, s1.p, k)
       then |s.t1.keys| > 0 && r.t1.keys == s.t1.keys[1..] && r.t2.keys == s.t2.keys
            && r.b1.keys == s1.b1.keys + [k] && r.b2.keys == s1.b2.keys
       else |s.t2.keys| > 0 && r.t1.keys == s.t1.keys && r.t2.keys == s.t2.keys[1..]
            && r.b1.keys == s1.b1.keys && r.b2.keys == s1.b2.keys + [k]
  }

  lemma {:induction false} ReplaceLists(s: State, s1: State, c: nat, k: Key, dirty: bool)
    requires Inv(s, c) && s1 == s.(p := s1.p, b1 := s1.b1, b2 := s1.b2) && (k in s1.b2.table <==> k in s.b2.table)
    requires CanReplace(s1, k)
    ensures ReplacedTo(s, s1, k, Replaced(s1, k, dirty))
  {
    TakesIs(s, s1, c, k);
    ReplacedKeys(s1, k, dirty);
    hide Inv, TakesT1, LeavesT1, Replaced, CanReplace;
  }

  lemma {:induction false} Target1(s: State, c: nat)
    requires Inv(s, c) && s.b1.Size() > 0
    ensures exists d :: IsMove(d, |s.b1.keys|, |s.b2.keys|) && Adapted1(s, c).p == if s.p + d <= c then s.p + d else c
    ensures Adapted1(s, c) == s.(p := Adapted1(s, c).p)
  {
    SizesAre(s, c);
    DeltaIsMove(s.b1.Size(), s.b2.Size());
    hide Inv, Delta, IsMove;
  }

  lemma {:induction false} Target2(s: State, c: nat)
    requires Inv(s, c) && s.b2.Size() > 0
    ensures exists d :: IsMove(d, |s.b2.keys|, |s.b1.keys|) && Adapted2(s).p == if s.p - d >= 0 then s.p - d else 0
    ensures Adapted2(s) == s.(p := Adapted2(s).p)
  {
    SizesAre(s, c);
    DeltaIsMove(s.b2.Size(), s.b1.Size());
    hide Inv, Delta, IsMove;
  }

  lemma {:induction false} NoKey(keys: seq<Key>, k: Key)
    ensures Without(keys + [k], k) == Without(keys, k)
    ensures Without([k], k) == []
  {
    WithoutConcat(keys, [k], k);
  }

  /** The state after the key entered T2 and left a ghost list. */
  ghost predicate EnteredT2(r: State, s': State, k: Key, fromB1: bool) {
    && s'.p == r.p && s'.t1.keys == r.t1.keys && s'.t2.keys == r.t2.keys + [k]
    && s'.b1.keys == (if fromB1 then Without(r.b1.keys, k) else r.b1.keys)
    && s'.b2.keys == if fromB1 then r.b2.keys else Without(r.b2.keys, k)
  }

  lemma {:induction false} Ghost1Is(s: State, c: nat, a: Access)
    requires Ready(s, c, a) && a.key !in Pages(s) && a.key in s.b1.table
    ensures CanReplace(Adapted1(s, c), a.key)
    ensures EnteredT2(Replaced(Adapted1(s, c), a.key, a.write), Step(s, c, a), a.key, true)
  {
    KeyWhere(s, a.key);
    hide Replaced, CanReplace, Pages, Without, Adapted1;
  }

  lemma {:induction false} Ghost2Is(s: State, c: nat, a: Access)
    requires Ready(s, c, a) && a.key !in Pages(s) && a.key !in s.b1.table && a.key in s.b2.table
    ensures CanReplace(Adapted2(s), a.key)
    ensures EnteredT2(Replaced(Adapted2(s), a.key, a.write), Step(s, c, a), a.key, false)
  {
    KeyWhere(s, a.key);
    hide Replaced, CanReplace, Pages, Without, Adapted2;
  }

  lemma {:induction false} EnteredAfter(s: State, s1: State, c: nat, a: Access, r: State, s': State)
    requires a.key !in Pages(s) && (a.key in s.b1.table || a.key in s.b2.table)
    requires s1.b1 == s.b1 && s1.b2 == s.b2 && ReplacedTo(s, s1, a.key, r)
    requires EnteredT2(r, s', a.key, a.key in s.b1.table)
    ensures PagesAfter(s, c, a, s'.p, s'.t1.keys, s'.t2.keys) && GhostsAfter(s, c, a, s'.p, s'.b1.keys, s'.b2.keys)
  {
    NoKey(s.b1.keys, a.key);
    NoKey(s.b2.keys, a.key);
    hide Pages, Without, LeavesT1;
  }

  lemma {:induction false} Ghost1Transition(s: State, c: nat, a: Access)
    requires Inv(s, c) && Ready(s, c, a) && a.key !in Pages(s) && a.key in s.b1.table
    ensures Transition(s, c, a, Step(s, c, a))
  {
    var k, s1 := a.key, Adapted1(s, c);
    MemberSize(s.b1, k);
    Target1(s, c);
    Ghost1Is(s, c, a);
    hide Inv, Adapted1, IsMove, Replaced, CanReplace, Pages, Step, Ready, PagesAfter, GhostsAfter, ReplacedTo;
    ReplaceLists(s, s1, c, k, a.write);
    EnteredAfter(s, s1, c, a, Replaced(s1, k, a.write), Step(s, c, a));
  }

  lemma {:induction false} Ghost2Transition(s: State, c: nat, a: Access)
    requires Inv(s, c) && Ready(s, c, a) && a.key !in Pages(s) && a.key !in s.b1.table && a.key in s.b2.table
    ensures Transition(s, c, a, Step(s, c, a))
  {
    var k, s1 := a.key, Adapted2(s);
    MemberSize(s.b2, k);
    Target2(s, c);
    Ghost2Is(s, c, a);
    hide Inv, Adapted2, IsMove, Replaced, CanReplace, Pages, Step, Ready, PagesAfter, GhostsAfter, ReplacedTo;
    ReplaceLists(s, s1, c, k, a.write);
    EnteredAfter(s, s1, c, a, Replaced(s1, k, a.write), Step(s, c, a));
  }

  lemma {:induction false} MissIs(s: State, c: nat, a: Access)
    requires Ready(s, c, a) && a.key !in Pages(s) && a.key !in s.b1.table && a.key !in s.b2.table
    ensures CanMakeRoom(s, c, a.key)
    ensures var r, s' := RoomMade(s, c, a), Step(s, c, a);
      s'.p == r.p && s'.t1.keys == r.t1.keys + [a.key] && s'.t2 == r.t2 && s'.b1 == r.b1 && s'.b2 == r.b2
  {
    KeyWhere(s, a.key);
    hide RoomMade, CanMakeRoom, Pages;
  }

  lemma {:induction false} MissTransition(s: State, c: nat, a: Access)
    requires Inv(s, c) && Ready(s, c, a) && a.key !in Pages(s) && a.key !in s.b1.table && a.key !in s.b2.table
    ensures Transition(s, c, a, Step(s, c, a))
  {
    MissIs(s, c, a);
    FullReplaces(s, c);
    if MissReplaces(s, c) {
      RoomByReplace(s, c, a);
    } else {
      RoomWithout(s, c, a);
    }
    hide Inv, Ready, Step, RoomMade, CanMakeRoom, Pages, PagesAfter, GhostsAfter, MissReplaces;
    MissAfter(s, c, a, RoomMade(s, c, a), Step(s, c, a));
  }

  /** What making room for a new key leaves: the page lists less the page that leaves, and the ghosts as stated. */
  ghost predicate RoomFor(s: State, c: nat, a: Access, r: State) {
    && r.p == s.p && PagesAfter(s, c, a, r.p, r.t1.keys + [a.key], r.t2.keys)
    && GhostsAfter(s, c, a, r.p, r.b1.keys, r.b2.keys)
  }

  lemma {:induction false} MissAfter(s: State, c: nat, a: Access, r: State, s': State)
    requires a.key !in Pages(s) && a.key !in s.b1.table && a.key !in s.b2.table && RoomFor(s, c, a, r)
    requires s'.p == r.p && s'.t1.keys == r.t1.keys + [a.key] && s'.t2 == r.t2 && s'.b1 == r.b1 && s'.b2 == r.b2
    ensures Transition(s, c, a, s')
  {
    hide Pages, PagesAfter, GhostsAfter;
  }

  lemma {:induction false} RoomMadeIs(s: State, c: nat, a: Access)
    requires Inv(s, c) && CanMakeRoom(s, c, a.key)
    ensures |s.t1.keys| + |s.t2.keys| <= c && |s.t1.keys| + |s.b1.keys| <= c
    ensures s.Total() == |s.t1.keys| + |s.t2.keys| + |s.b1.keys| + |s.b2.keys| <= 2 * c
    ensures |s.t1.keys| + |s.t2.keys| < c ==> RoomMade(s, c, a) == s && s.b1.keys == [] && s.b2.keys == []
    ensures |s.t1.keys| == c ==>
      var r := RoomMade(s, c, a);
      r.p == s.p && r.t1 == s.t1.Removed(s.t1.keys[0]) && r.t2 == s.t2 && r.b1 == s.b1 && r.b2 == s.b2
    ensures |s.t1.keys| + |s.t2.keys| == c && |s.t1.keys| < c ==>
      && CanReplace(Forgotten(s, c), a.key) && MissReplaces(s, c)
      && RoomMade(s, c, a) == Replaced(Forgotten(s, c), a.key, a.write)
  {
    SizesAre(s, c);
    FullReplaces(s, c);
    hide Tracked.Ok, Tracked.Removed, Replaced, CanReplace, Forgotten, Pages;
  }

  lemma {:induction false} RoomByReplace(s: State, c: nat, a: Access)
    requires Inv(s, c) && CanMakeRoom(s, c, a.key) && MissReplaces(s, c)
    requires a.key !in Pages(s) && a.key !in s.b1.table && a.key !in s.b2.table
    ensures RoomFor(s, c, a, RoomMade(s, c, a))
  {
    SizesAre(s, c);
    RoomMadeIs(s, c, a);
    FullReplaces(s, c);
    ForgottenKeys(s, c);
    var f := Forgotten(s, c);
    hide Inv, Replaced, CanReplace, CanMakeRoom, Forgotten, Pages, LeavesT1, RoomMade, MissReplaces, State.Total;
    ReplaceLists(s, f, c, a.key, a.write);
    RoomOf(s, c, a, f, Replaced(f, a.key, a.write));
  }

  lemma {:induction false} RoomOf(s: State, c: nat, a: Access, f: State, r: State)
    requires a.key !in Pages(s) && a.key !in s.b1.table && a.key !in s.b2.table
    requires |s.t1.keys| + |s.t2.keys| == c && |s.t1.keys| < c && f.p == s.p && ReplacedTo(s, f, a.key, r)
    requires |s.t1.keys| + |s.b1.keys| <= c
    requires |s.t1.keys| + |s.b1.keys| == c ==> |s.b1.keys| > 0
    requires |s.t1.keys| + |s.b1.keys| < c && |s.t1.keys| + |s.t2.keys| + |s.b1.keys| + |s.b2.keys| == 2 * c ==>
      |s.b2.keys| > 0
    requires f.b1.keys == if |s.t1.keys| + |s.b1.keys| == c then s.b1.keys[1..] else s.b1.keys
    requires f.b2.keys == if |s.t1.keys| + |s.b1.keys| < c
                             && |s.t1.keys| + |s.t2.keys| + |s.b1.keys| + |s.b2.keys| == 2 * c
                          then s.b2.keys[1..] else s.b2.keys
    ensures RoomFor(s, c, a, r)
  {
    hide Pages, LeavesT1;
  }

  lemma {:induction false} RoomWithout(s: State, c: nat, a: Access)
    requires Inv(s, c) && CanMakeRoom(s, c, a.key) && !MissReplaces(s, c)
    requires a.key !in Pages(s) && a.key !in s.b1.table && a.key !in s.b2.table
    ensures RoomFor(s, c, a, RoomMade(s, c, a))
  {
    SizesAre(s, c);
    RoomMadeIs(s, c, a);
    FullReplaces(s, c);
    var r := RoomMade(s, c, a);
    if |s.t1.keys| == c {
      FrontCut(s.t1);
      assert c > 0 && r.t1.keys == s.t1.keys[1..] && |s.t2.keys| == 0;
    }
    RoomKept(s, c, a, r);
  }

  lemma {:induction false} RoomKept(s: State, c: nat, a: Access, r: State)
    requires a.key !in Pages(s) && a.key !in s.b1.table && a.key !in s.b2.table
    requires r.p == s.p && r.t2 == s.t2 && r.b1 == s.b1 && r.b2 == s.b2
    requires if |s.t1.keys| + |s.t2.keys| < c then r.t1 == s.t1
             else |s.t1.keys| == c && |s.t1.keys| > 0 && r.t1.keys == s.t1.keys[1..]
    ensures RoomFor(s, c, a, r)
  {
    hide Pages, LeavesT1;
  }

  lemma {:induction false} ForgottenKeys(s: State, c: nat)
    requires Inv(s, c) && s.t1.Size() < c
    requires s.t1.Size() + s.b1.Size() == c ==> |s.b1.keys| > 0
    requires s.t1.Size() + s.b1.Size() < c && s.Total() == 2 * c ==> |s.b2.keys| > 0
    ensures var f := Forgotten(s, c);
      && f == s.(b1 := f.b1, b2 := f.b2) && f.b2.table.Keys <= s.b2.table.Keys
      && f.b1.keys == (if s.t1.Size() + s.b1.Size() == c then s.b1.keys[1..] else s.b1.keys)
      && f.b2.keys
         == if s.t1.Size() + s.b1.Size() < c && s.Total() == 2 * c then s.b2.keys[1..] else s.b2.keys
  {
    if s.t1.Size() + s.b1.Size() == c { FrontCut(s.b1); } else if s.Total() == 2 * c { FrontCut(s.b2); }
    hide Tracked.Ok, Without;
  }

  /** Every access, case by case, without the code's own steps. */
  lemma {:induction false} StepTransition(s: State, c: nat, a: Access)
    requires Inv(s, c)
    ensures Ready(s, c, a) && Transition(s, c, a, Step(s, c, a))
  {
    StepKeeps(s, c, a);
    hide Inv, Ready, Step, Transition, Pages;
    if a.key in Pages(s) { HitTransition(s, c, a); }
    else if a.key in s.b1.table { Ghost1Transition(s, c, a); }
    else if a.key in s.b2.table { Ghost2Transition(s, c, a); }
    else { MissTransition(s, c, a); }
  }

  // ---------- recency ----------

  /** keys' is what is left of keys once some key was removed, with k put at the back or not, and k nowhere else. */
  ghost predicate Shifts(keys: seq<Key>, keys': seq<Key>, k: Key) {
    exists rest :: IsRest(keys, rest, k) && (keys' == rest || keys' == rest + [k])
  }

  ghost predicate IsRest(keys: seq<Key>, rest: seq<Key>, k: Key) {
    k !in rest && (rest == keys || exists z :: rest == Without(keys, z))
  }

  lemma {:induction false} ShiftsByRecency(keys: seq<Key>, keys': seq<Key>, ops: seq<Access>, n: nat)
    requires n < |ops| && ByRecency(keys, ops, n) && Shifts(keys, keys', ops[n].key)
    ensures ByRecency(keys', ops, n + 1)
  {
    var k := ops[n].key;
    var rest :| IsRest(keys, rest, k) && (keys' == rest || keys' == rest + [k]);
    if rest != keys {
      var z :| rest == Without(keys, z);
      RecencyWithout(keys, ops, n, z);
    }
    RecencyStep(rest, ops, n);
  }

  lemma {:induction false} ShiftKeep(keys: seq<Key>, k: Key)
    requires k !in keys
    ensures Shifts(keys, keys, k) && Shifts(keys, keys + [k], k)
  {
    assert IsRest(keys, keys, k);
  }

  lemma {:induction false} ShiftCut(keys: seq<Key>, z: Key, k: Key)
    requires k !in keys || z == k
    ensures Shifts(keys, Without(keys, z), k) && Shifts(keys, Without(keys, z) + [k], k)
  {
    WithoutMembers(keys, z);
    assert IsRest(keys, Without(keys, z), k);
  }

  lemma {:induction false} NotListed(t: Tracked, k: Key)
    requires t.Ok()
    ensures k in t.keys <==> k in t.table
  {
  }

  /** keys' and keys' with k put last both come from keys. */
  ghost predicate Shifts2(keys: seq<Key>, keys': seq<Key>, k: Key) {
    Shifts(keys, keys', k) && Shifts(keys, keys' + [k], k)
  }

  lemma {:induction false} ReplacedShifts(s: State, k: Key, dirty: bool)
    requires CanReplace(s, k) && k !in s.t1.keys && k !in s.t2.keys
    ensures Shifts2(s.t1.keys, Replaced(s, k, dirty).t1.keys, k) && Shifts2(s.t2.keys, Replaced(s, k, dirty).t2.keys, k)
  {
    hide Shifts, Without;
    ShiftKeep(s.t1.keys, k);
    ShiftKeep(s.t2.keys, k);
    if TakesT1(s, k) { ShiftCut(s.t1.keys, s.t1.keys[0], k); } else { ShiftCut(s.t2.keys, s.t2.keys[0], k); }
  }

  lemma {:induction false} MissedShifts(s: State, c: nat, a: Access)
    requires CanMakeRoom(s, c, a.key) && a.key !in s.t1.keys && a.key !in s.t2.keys
    ensures Shifts(s.t1.keys, Missed(s, c, a).t1.keys, a.key) && Shifts(s.t2.keys, Missed(s, c, a).t2.keys, a.key)
  {
    hide Shifts, Without, Replaced, CanReplace;
    var k := a.key;
    ShiftKeep(s.t1.keys, k);
    ShiftKeep(s.t2.keys, k);
    if s.t1.Size() + s.b1.Size() == c && s.t1.Size() == c {
      ShiftCut(s.t1.keys, s.t1.keys[0], k);
    } else if s.t1.Size() + s.b1.Size() == c || s.Total() >= c {
      ReplacedShifts(Forgotten(s, c), k, a.write);
    }
  }

  /** In both page lists the key served is taken out or put last, and at most one other key is taken out. */
  lemma {:induction false} StepShifts(s: State, c: nat, a: Access)
    requires Inv(s, c) && Ready(s, c, a)
    ensures Shifts(s.t1.keys, Step(s, c, a).t1.keys, a.key) && Shifts(s.t2.keys, Step(s, c, a).t2.keys, a.key)
  {
    hide Tracked.Ok, Without, Shifts, Replaced, CanReplace, Missed, CanMakeRoom;
    var k := a.key;
    NotListed(s.t1, k);
    NotListed(s.t2, k);
    if k in s.t1.table {
      ShiftCut(s.t1.keys, k, k);
      ShiftKeep(s.t2.keys, k);
    } else if k in s.t2.table {
      ShiftKeep(s.t1.keys, k);
      ShiftCut(s.t2.keys, k, k);
    } else if k in s.b1.table {
      ReplacedShifts(Adapted1(s, c), k, a.write);
    } else if k in s.b2.table {
      ReplacedShifts(Adapted2(s), k, a.write);
    } else {
      MissedShifts(s, c, a);
    }
  }

  ghost predicate ListsRecent(s: State, ops: seq<Access>, n: nat)
    requires n <= |ops|
  {
    ByRecency(s.t1.keys, ops, n) && ByRecency(s.t2.keys, ops, n)
  }

  lemma {:induction false} StepRecent(s: State, c: nat, ops: seq<Access>, n: nat)
    requires Inv(s, c) && n < |ops| && Ready(s, c, ops[n]) && ListsRecent(s, ops, n)
    ensures ListsRecent(Step(s, c, ops[n]), ops, n + 1)
  {
    hide ByRecency, Shifts, Inv, Step, Ready;
    StepShifts(s, c, ops[n]);
    ShiftsByRecency(s.t1.keys, Step(s, c, ops[n]).t1.keys, ops, n);
    ShiftsByRecency(s.t2.keys, Step(s, c, ops[n]).t2.keys, ops, n);
  }

  // ---------- runs ----------

  /** The cache after the first n accesses. */
  ghost function After(c: nat, ops: seq<Access>, n: nat): (s: State)
    requires c > 0 && n <= |ops|
    ensures Inv(s, c)
  {
    if n == 0 then Empty()
    else
      StepKeeps(After(c, ops, n - 1), c, ops[n - 1]);
      Step(After(c, ops, n - 1), c, ops[n - 1])
  }

  lemma {:induction false} AfterNothing(c: nat, ops: seq<Access>)
    requires c > 0
    ensures After(c, ops, 0) == Empty() && ListsRecent(After(c, ops, 0), ops, 0)
  {
  }

  lemma {:induction false} AfterStep(c: nat, ops: seq<Access>, n: nat)
    requires c > 0 && 0 < n <= |ops|
    ensures Ready(After(c, ops, n - 1), c, ops[n - 1])
    ensures After(c, ops, n) == Step(After(c, ops, n - 1), c, ops[n - 1])
  {
    hide Inv, Step, Ready, Serves;
    StepKeeps(After(c, ops, n - 1), c, ops[n - 1]);
  }

  /** A run keeps cached pages and ghosts apart throughout exactly if no key requested becomes a ghost. */
  lemma {:induction false} ApartExactlyWhen(c: nat, ops: seq<Access>, n: nat)
    requires c > 0 && n <= |ops|
    ensures (forall i :: 0 <= i <= n ==> Apart(After(c, ops, i)))
      <==> forall i :: 0 <= i < n ==> StaysOut(c, ops, i)
  {
    hide *;
    if n == 0 {
      AfterNothing(c, ops);
      EmptyApart();
    } else {
      ApartExactlyWhen(c, ops, n - 1);
      AfterStep(c, ops, n);
      StaysOutIs(c, ops, n - 1);
      if Apart(After(c, ops, n - 1)) { ApartStep(After(c, ops, n - 1), c, ops[n - 1]); }
    }
  }

  /** The key of access i does not become a ghost. */
  ghost predicate StaysOut(c: nat, ops: seq<Access>, i: nat)
    requires c > 0 && i < |ops|
  {
    StepKeeps(After(c, ops, i), c, ops[i]);
    !BecomesGhost(After(c, ops, i), c, ops[i])
  }

  lemma {:induction false} StaysOutIs(c: nat, ops: seq<Access>, i: nat)
    requires c > 0 && i < |ops|
    ensures Ready(After(c, ops, i), c, ops[i]) && (StaysOut(c, ops, i) <==> !BecomesGhost(After(c, ops, i), c, ops[i]))
  {
    StepKeeps(After(c, ops, i), c, ops[i]);
    hide Inv, Ready, Step, Serves, BecomesGhost;
  }

  lemma {:induction false} EmptyApart()
    ensures Apart(Empty())
  {
  }

  /** Reading 1 twice, then 2, then 3, with room for two pages: 3 is cached in T1 and a ghost in B1, and the page
      evicted for it is remembered nowhere. */
  function OverlapRun(): seq<Access> {
    [Access(1, false), Access(1, false), Access(2, false), Access(3, false)]
  }

  lemma {:induction false} OverlapReached()
    ensures var s := After(2, OverlapRun(), 4);
      && s.t1 == Tracked([3], map[3 := false]) && s.b1 == Tracked([3], map[3 := false])
      && s.t2 == Tracked([1], map[1 := false]) && s.b2 == Tracked([], map[]) && s.cleanOut == 1
    ensures !Apart(After(2, OverlapRun(), 4))
  {
    var e := Tracked([], map[]);
    var ops := OverlapRun();
    hide After;
    AfterNothing(2, ops);
    AfterStep(2, ops, 1);
    assert After(2, ops, 1) == State(Tracked([1], map[1 := false]), e, e, e, 0, 0, 0);
    AfterStep(2, ops, 2);
    ReadTwice();
    AfterStep(2, ops, 3);
    AfterStep(2, ops, 4);
    TwoMisses();
  }

  lemma {:induction false} RemoveOnly(k: Key)
    ensures Tracked([k], map[k := false]).Removed(k) == Tracked([], map[])
  {
    assert map[k := false] - {k} == map[];
    assert Without([k], k) == [];
  }

  lemma {:induction false} ReadTwice()
    ensures var e := Tracked([], map[]);
      var s := State(Tracked([1], map[1 := false]), e, e, e, 0, 0, 0);
      Ready(s, 2, Access(1, false))
      && Step(s, 2, Access(1, false)) == State(e, Tracked([1], map[1 := false]), e, e, 0, 0, 0)
  {
    RemoveOnly(1);
  }

  lemma {:induction false} TwoMisses()
    ensures var e, one := Tracked([], map[]), Tracked([1], map[1 := false]);
      var s, s' := State(e, one, e, e, 0, 0, 0), State(Tracked([2], map[2 := false]), one, e, e, 0, 0, 0);
      && Ready(s, 2, Access(2, false)) && Step(s, 2, Access(2, false)) == s'
      && Ready(s', 2, Access(3, false))
      && Step(s', 2, Access(3, false))
         == State(Tracked([3], map[3 := false]), one, Tracked([3], map[3 := false]), e, 0, 1, 0)
  {
    RemoveOnly(2);
  }

  ghost function Ledgers(c: nat, ops: seq<Access>): seq<Ledger>
    requires c > 0
  {
    seq(|ops| + 1, i requires 0 <= i <= |ops| => Books(After(c, ops, i)))
  }

  lemma {:induction false} LedgersRun(c: nat, ops: seq<Access>)
    requires c > 0
    ensures LedgerRun(ops, Ledgers(c, ops))
  {
    hide Inv, Step, Serves;
    assert Ledgers(c, ops)[0] == Ledger(map[], 0, 0);
    forall i | 0 <= i < |ops| ensures ServesSome(Ledgers(c, ops)[i], Ledgers(c, ops)[i + 1], ops[i]) {
      StepKeeps(After(c, ops, i), c, ops[i]);
    }
  }

  /** Both page lists hold their keys least recently used first, so what is evicted is the least recently used
      page of its list. */
  lemma {:induction false} ListsByRecency(c: nat, ops: seq<Access>, n: nat)
    requires c > 0 && n <= |ops|
    ensures ListsRecent(After(c, ops, n), ops, n)
  {
    hide *;
    if n == 0 {
      AfterNothing(c, ops);
    } else {
      ListsByRecency(c, ops, n - 1);
      AfterStep(c, ops, n);
      StepRecent(After(c, ops, n - 1), c, ops, n - 1);
    }
  }

  /** In every run a page is dirty exactly if written since its last miss, and misses are cached pages plus
      evictions. */
  lemma {:induction false} RunConserves(c: nat, ops: seq<Access>, n: nat)
    requires c > 0 && n <= |ops|
    ensures Conserved(ops, Hits(ops, Ledgers(c, ops)), n, Books(After(c, ops, n)))
  {
    hide Conserved, Inv, Step;
    LedgersRun(c, ops);
    WriteBackConservation(ops, Ledgers(c, ops), n);
  }

  lemma {:induction false} InvSizes(s: State, c: nat)
    requires Inv(s, c)
    ensures s.t1.Size() + s.b1.Size() <= c
  {
  }

  class Arc {
    const capacity: nat
    var p: int
    var t1: Tracked
    var t2: Tracked
    var b1: Tracked
    var b2: Tracked
    var totalEvictedCleanPages: nat
    var totalNonSeqEvictedDirtyPages: nat

    ghost function View(): State
      reads this
    {
      State(t1, t2, b1, b2, p, totalEvictedCleanPages, totalNonSeqEvictedDirtyPages)
    }

    ghost predicate Valid()
      reads this
    {
      Inv(View(), capacity)
    }

    constructor (c: nat)
      requires c != 0
      ensures Valid() && View() == Empty() && capacity == c
    {
      var e := Tracked([], map[]);
      capacity, p, t1, t2, b1, b2 := c, 0, e, e, e, e;
      totalEvictedCleanPages, totalNonSeqEvictedDirtyPages := 0, 0;
    }

    method CountEviction(dirty: bool)
      modifies this`totalEvictedCleanPages, this`totalNonSeqEvictedDirtyPages
      ensures totalNonSeqEvictedDirtyPages == old(totalNonSeqEvictedDirtyPages) + if dirty then 1 else 0
      ensures totalEvictedCleanPages == old(totalEvictedCleanPages) + if dirty then 0 else 1
    {
      if dirty {
        totalNonSeqEvictedDirtyPages := totalNonSeqEvictedDirtyPages + 1;
      } else {
        totalEvictedCleanPages := totalEvictedCleanPages + 1;
      }
    }

    /** REPLACE: evicts from T1 or T2 and records the requested key as a ghost. */
    method Replace(k: Key, dirty: bool)
      requires CanReplace(View(), k)
      modifies this
      ensures View() == Replaced(old(View()), k, dirty)
    {
      var inB2 := k in b2.table;
      if t1.Size() > 0 && (t1.Size() > p || (inB2 && t1.Size() == p)) {
        var lru := t1.keys[0];
        CountEviction(t1.table[lru]);
        t1 := t1.Removed(lru);
        b1 := b1.PushBack(k, dirty);
      } else {
        var lru := t2.keys[0];
        CountEviction(t2.table[lru]);
        t2 := t2.Removed(lru);
        b2 := b2.PushBack(k, dirty);
      }
    }

    /** Case I: from either list to the back of T2, keeping the dirty bit. */
    method ServeHit(k: Key, write: bool)
      requires k in t1.table || k in t2.table
      modifies this`t1, this`t2
      ensures View() == Hit(old(View()), TrackedPages.Access(k, write))
    {
      if k in t1.table {
        var dirty := write || t1.table[k];
        t1 := t1.Removed(k);
        t2 := t2.PushBack(k, dirty);
      } else {
        var dirty := write || t2.table[k];
        t2 := t2.Removed(k);
        t2 := t2.PushBack(k, dirty);
      }
    }

    /** Case II: a ghost in B1 raises the target. */
    method ServeB1(k: Key, write: bool)
      requires b1.Size() > 0 && CanReplace(Adapted1(View(), capacity), k)
      modifies this
      ensures View() == GhostHit1(old(View()), capacity, TrackedPages.Access(k, write))
    {
      hide Replaced, CanReplace;
      var delta := if b1.Size() >= b2.Size() then 1 else b2.Size() / b1.Size();
      p := if p + delta > capacity then capacity else p + delta;
      Replace(k, write);
      b1 := b1.Removed(k);
      t2 := t2.PushBack(k, write);
    }

    /** Case III: a ghost in B2 lowers the target. */
    method ServeB2(k: Key, write: bool)
      requires b2.Size() > 0 && CanReplace(Adapted2(View()), k)
      modifies this
      ensures View() == GhostHit2(old(View()), TrackedPages.Access(k, write))
    {
      hide Replaced, CanReplace;
      var delta := if b2.Size() >= b1.Size() then 1 else b1.Size() / b2.Size();
      p := if p - delta > 0 then p - delta else 0;
      Replace(k, write);
      b2 := b2.Removed(k);
      t2 := t2.PushBack(k, write);
    }

    /** One access; the flags of a request hold WRITE exactly for writes. The page is served, at most one page left
        for it, and only from a full cache. */
    method Access(k: Key, flags: Status) returns (status: Status)
      requires Valid() && flags !! {DIRTY, PAGEHIT, PAGEMISS}
      modifies this
      ensures Valid()
      ensures var a := TrackedPages.Access(k, WRITE in flags);
        && Ready(old(View()), capacity, a) && View() == Step(old(View()), capacity, a)
        && Serves(Books(old(View())), Books(View()), a, Gone(old(View()), capacity, a))
        && Transition(old(View()), capacity, a, View())
      ensures PAGEHIT in status <==> k in Pages(old(View()))
      ensures PAGEMISS in status <==> k !in Pages(old(View()))
      ensures flags <= status <= flags + {DIRTY, PAGEHIT, BLKHIT, PAGEMISS}
      ensures DIRTY in status <==> WRITE in flags
      ensures BLKHIT in status <==> BLKHIT in flags || k in Pages(old(View()))
    {
      hide Inv, Serves, Hit, GhostHit1, GhostHit2, Missed, CanReplace, CanMakeRoom, Adapted1, Adapted2, Pages, Gone,
           Transition;
      StepTransition(View(), capacity, TrackedPages.Access(k, WRITE in flags));
      status := flags;
      if WRITE in flags {
        status := status + {DIRTY};
      }
      var write := WRITE in flags;
      StepKeeps(View(), capacity, TrackedPages.Access(k, write));
      KeyWhere(View(), k);
      if k in t1.table || k in t2.table {
        ServeHit(k, write);
        status := status + {PAGEHIT, BLKHIT};
        return;
      } else if k in b1.table {
        ServeB1(k, write);
      } else if k in b2.table {
        ServeB2(k, write);
      } else {
        ServeMiss(k, write);
      }
      status := status + {PAGEMISS};
    }

    method ServeMiss(k: Key, write: bool)
      requires CanMakeRoom(View(), capacity, k) && Valid()
      modifies this
      ensures View() == Missed(old(View()), capacity, TrackedPages.Access(k, write))
    {
      hide RoomMade, CanMakeRoom, Inv;
      MakeRoom(k, write);
      t1 := t1.PushBack(k, write);
    }

    /** Case IV: drops the oldest ghost or page that stands in the way of a key in none of the lists. */
    method MakeRoom(k: Key, dirty: bool)
      requires Valid() && CanMakeRoom(View(), capacity, k)
      modifies this
      ensures View() == RoomMade(old(View()), capacity, TrackedPages.Access(k, dirty))
    {
      hide Tracked.Ok, Without, Inv, Replaced, CanReplace;
      InvSizes(View(), capacity);
      if t1.Size() + b1.Size() == capacity {
        if t1.Size() < capacity {
          b1 := b1.Removed(b1.keys[0]);
          Replace(k, dirty);
        } else {
          var lru := t1.keys[0];
          CountEviction(t1.table[lru]);
          t1 := t1.Removed(lru);
        }
      } else if t1.Size() + b1.Size() < capacity {
        if t1.Size() + t2.Size() + b1.Size() + b2.Size() >= capacity {
          if t1.Size() + t2.Size() + b1.Size() + b2.Size() == 2 * capacity {
            b2 := b2.Removed(b2.keys[0]);
          }
          Replace(k, dirty);
        }
      }
    }
  }
}
