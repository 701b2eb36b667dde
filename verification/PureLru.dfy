/** The pure LRU cache (src/lru_pure.h): the stack property, inclusion across capacities, and write-back accounting. */
module PureLru {
  import opened Options
  import opened CacheStatus
  import opened TrackedPages
  import opened WriteBack

  datatype State = State(t: Tracked, cleanOut: nat, dirtyOut: nat)

  function Empty(): State { State(Tracked([], map[]), 0, 0) }

  ghost predicate Inv(s: State, c: nat) {
    c > 0 && s.t.Ok() && s.t.Size() <= c
  }

  ghost function Books(s: State): Ledger { Ledger(s.t.table, s.cleanOut, s.dirtyOut) }

  function Evicted(s: State, v: Key): State
    requires v in s.t.table
  {
    var out := s.(t := s.t.Removed(v));
    if s.t.table[v] then out.(dirtyOut := s.dirtyOut + 1) else out.(cleanOut := s.cleanOut + 1)
  }

  /** The page evicted for an access. */
  function Gone(s: State, c: nat, k: Key): Option<Key>
    requires |s.t.keys| > 0 || s.t.Size() < c
  {
    if k !in s.t.table && s.t.Size() == c then Some(s.t.keys[0]) else None
  }

  function Step(s: State, c: nat, a: Access): State
    requires (|s.t.keys| > 0 && s.t.keys[0] in s.t.table) || s.t.Size() < c
  {
    if a.key in s.t.table then s.(t := s.t.Removed(a.key).PushBack(a.key, a.write || s.t.table[a.key]))
    else
      var room := if s.t.Size() == c then Evicted(s, s.t.keys[0]) else s;
      room.(t := room.t.PushBack(a.key, a.write))
  }

  lemma {:induction false} InvFront(s: State, c: nat)
    requires Inv(s, c)
    ensures (|s.t.keys| > 0 && s.t.keys[0] in s.t.table) || s.t.Size() < c
  {
    if s.t.Size() > 0 { FrontOk(s.t); }
  }

  lemma {:induction false} StepKeeps(s: State, c: nat, a: Access)
    requires Inv(s, c)
    ensures (|s.t.keys| > 0 && s.t.keys[0] in s.t.table) || s.t.Size() < c
    ensures Inv(Step(s, c, a), c) && Serves(Books(s), Books(Step(s, c, a)), a, Gone(s, c, a.key))
  {
    hide Tracked.Ok, Without, Serves;
    InvFront(s, c);
    var k := a.key;
    RemoveOk(s.t, k);
    StepServes(s, c, a);
    if k in s.t.table {
      PushOk(s.t.Removed(k), k, a.write || s.t.table[k]);
    } else if s.t.Size() == c {
      var v := s.t.keys[0];
      RemoveOk(s.t, v);
      PushOk(Evicted(s, v).t, k, a.write);
    } else {
      PushOk(s.t, k, a.write);
    }
  }

  lemma {:induction false} StepServes(s: State, c: nat, a: Access)
    requires (|s.t.keys| > 0 && s.t.keys[0] in s.t.table) || s.t.Size() < c
    ensures Serves(Books(s), Books(Step(s, c, a)), a, Gone(s, c, a.key))
  {
    hide Without;
    if a.key in s.t.table { PutAgain(s.t.table, a.key, a.write || s.t.table[a.key]); }
  }

  /** The keys after one access, by the recency list alone. */
  lemma {:induction false} StepKeys(s: State, c: nat, a: Access)
    requires Inv(s, c)
    ensures (|s.t.keys| > 0 && s.t.keys[0] in s.t.table) || s.t.Size() < c
    ensures Step(s, c, a).t.keys == Used(s.t.keys, c, a.key)
  {
    hide Without, Distinct;
    InvFront(s, c);
    OkSize(s.t);
    if s.t.Size() > 0 { FrontOk(s.t); }
  }

  // ---------- the stack ----------

  /** Every key used so far, each once, least recently used first. */
  ghost function Stack(ops: seq<Access>, n: nat): seq<Key>
    requires n <= |ops|
  {
    if n == 0 then [] else Without(Stack(ops, n - 1), ops[n - 1].key) + [ops[n - 1].key]
  }

  /** The stack is in order of last use and holds exactly the keys used. */
  lemma {:induction false} StackMeaning(ops: seq<Access>, n: nat)
    requires n <= |ops|
    ensures ByRecency(Stack(ops, n), ops, n)
    ensures forall k :: k in Stack(ops, n) <==> LastUse(ops, n, k) > 0
  {
    hide *;
    StackHolds(ops, n);
    StackByRecency(ops, n);
  }

  lemma {:induction false} NothingStacked(ops: seq<Access>)
    ensures ByRecency(Stack(ops, 0), ops, 0)
  {
  }

  lemma {:induction false} StackByRecency(ops: seq<Access>, n: nat)
    requires n <= |ops|
    ensures ByRecency(Stack(ops, n), ops, n)
  {
    hide *;
    if n == 0 {
      NothingStacked(ops);
    } else {
      StackByRecency(ops, n - 1);
      StackHolds(ops, n - 1);
      var s, k := Stack(ops, n - 1), ops[n - 1].key;
      WithoutMembers(s, k);
      RecencyWithout(s, ops, n - 1, k);
      RecencyStep(Without(s, k), ops, n - 1);
      StackUnfolds(ops, n);
    }
  }

  lemma {:induction false} StackUnfolds(ops: seq<Access>, n: nat)
    requires 0 < n <= |ops|
    ensures Stack(ops, n) == Without(Stack(ops, n - 1), ops[n - 1].key) + [ops[n - 1].key]
  {
    hide Without;
  }

  lemma {:induction false} StackHolds(ops: seq<Access>, n: nat)
    requires n <= |ops|
    ensures forall k :: k in Stack(ops, n) <==> LastUse(ops, n, k) > 0
  {
    if n > 0 {
      StackHolds(ops, n - 1);
      hide Without;
      WithoutMembers(Stack(ops, n - 1), ops[n - 1].key);
    }
  }

  lemma {:induction false} StackDistinct(ops: seq<Access>, n: nat)
    requires n <= |ops|
    ensures Distinct(Stack(ops, n))
  {
    StackMeaning(ops, n);
  }

  /** The last c elements, or all. */
  ghost function Last(s: seq<Key>, c: nat): (r: seq<Key>)
    ensures |r| == if |s| <= c then |s| else c
    ensures s == s[..|s| - |r|] + r
  {
    if |s| <= c then s else s[|s| - c..]
  }

  lemma {:induction false} LastOf(below: seq<Key>, top: seq<Key>, c: nat)
    requires |top| <= c && (below == [] || |top| == c)
    ensures Last(below + top, c) == top
  {
  }

  lemma {:induction false} DistinctParts(a: seq<Key>, b: seq<Key>)
    requires Distinct(a + b)
    ensures Distinct(a) && Distinct(b) && forall k :: k in b ==> k !in a
  {
    var s := a + b;
    assert forall i :: 0 <= i < |a| ==> s[i] == a[i];
    forall j | 0 <= j < |b| ensures s[|a| + j] == b[j] {
    }
    forall i, j | 0 <= i < j < |b| ensures b[i] != b[j] {
      assert s[|a| + i] != s[|a| + j];
    }
    forall k | k in b ensures k !in a {
      var j :| 0 <= j < |b| && b[j] == k;
      assert s[|a| + j] == k;
    }
  }

  /** One LRU access on a recency list alone. */
  ghost function Used(keys: seq<Key>, c: nat, k: Key): seq<Key> {
    if k in keys then Without(keys, k) + [k] else if |keys| == c && c > 0 then keys[1..] + [k] else keys + [k]
  }

  lemma {:induction false} StepAbove(below: seq<Key>, top: seq<Key>, c: nat, k: Key)
    requires c > 0 && |top| <= c && (below == [] || |top| == c) && Distinct(below + top)
    ensures Last(Without(below + top, k) + [k], c) == Used(top, c, k)
  {
    hide Without, Distinct, Last;
    DistinctParts(below, top);
    WithoutConcat(below, top, k);
    if k in top {
      WithoutDistinct(top, k);
      WithoutAbsent(below, k);
      assert Without(below + top, k) + [k] == below + (Without(top, k) + [k]);
      LastOf(below, Without(top, k) + [k], c);
    } else {
      WithoutAbsent(top, k);
      if |top| == c {
        assert Without(below + top, k) + [k] == (Without(below, k) + [top[0]]) + (top[1..] + [k]);
        LastOf(Without(below, k) + [top[0]], top[1..] + [k], c);
      } else {
        assert below + top == top;
        assert Without(below + top, k) + [k] == [] + (top + [k]);
        LastOf([], top + [k], c);
      }
    }
  }

  /** Moving a key to the back of the stack acts on its last c elements as an LRU cache of capacity c does. */
  lemma {:induction false} LastStep(s: seq<Key>, c: nat, k: Key)
    requires c > 0 && Distinct(s)
    ensures Last(Without(s, k) + [k], c) == Used(Last(s, c), c, k)
  {
    hide Without, Distinct, Used;
    var top := Last(s, c);
    var below := s[..|s| - |top|];
    assert s == below + top;
    StepAbove(below, top, c, k);
  }

  // ---------- runs ----------

  /** The cache of capacity c after the first n accesses. */
  ghost function After(c: nat, ops: seq<Access>, n: nat): (s: State)
    requires c > 0 && n <= |ops|
    ensures Inv(s, c)
  {
    if n == 0 then Empty()
    else
      StepKeeps(After(c, ops, n - 1), c, ops[n - 1]);
      Step(After(c, ops, n - 1), c, ops[n - 1])
  }

  lemma {:induction false} AfterKeys(c: nat, ops: seq<Access>, n: nat)
    requires c > 0 && 0 < n <= |ops|
    ensures After(c, ops, n).t.keys == Used(After(c, ops, n - 1).t.keys, c, ops[n - 1].key)
  {
    hide Step, Inv, Without;
    StepKeys(After(c, ops, n - 1), c, ops[n - 1]);
  }

  /** The stack property: the cache is the last c elements of the stack, whatever the capacity. */
  lemma {:induction false} StackProperty(c: nat, ops: seq<Access>, n: nat)
    requires c > 0 && n <= |ops|
    ensures After(c, ops, n).t.keys == Last(Stack(ops, n), c)
  {
    hide *;
    if n == 0 {
      NothingUsed(c, ops);
    } else {
      StackProperty(c, ops, n - 1);
      AfterKeys(c, ops, n);
      StackTop(ops, n);
      LastStep(Stack(ops, n - 1), c, ops[n - 1].key);
    }
  }

  lemma {:induction false} NothingUsed(c: nat, ops: seq<Access>)
    requires c > 0
    ensures After(c, ops, 0).t.keys == Last(Stack(ops, 0), c)
  {
  }

  lemma {:induction false} StackTop(ops: seq<Access>, n: nat)
    requires 0 < n <= |ops|
    ensures Distinct(Stack(ops, n - 1))
    ensures Stack(ops, n) == Without(Stack(ops, n - 1), ops[n - 1].key) + [ops[n - 1].key]
  {
    hide Distinct, Without;
    StackDistinct(ops, n - 1);
  }

  /** A larger cache holds everything a smaller one holds, at every point of every run. */
  lemma {:induction false} Inclusion(c: nat, d: nat, ops: seq<Access>, n: nat)
    requires 0 < c <= d && n <= |ops|
    ensures After(c, ops, n).t.table.Keys <= After(d, ops, n).t.table.Keys
  {
    StackProperty(c, ops, n);
    StackProperty(d, ops, n);
    var s := Stack(ops, n);
    assert forall k :: k in Last(s, c) ==> k in Last(s, d);
    OkSize(After(c, ops, n).t);
    OkSize(After(d, ops, n).t);
  }

  ghost function Ledgers(c: nat, ops: seq<Access>): seq<Ledger>
    requires c > 0
  {
    seq(|ops| + 1, i requires 0 <= i <= |ops| => Books(After(c, ops, i)))
  }

  ghost function MissCount(c: nat, ops: seq<Access>): nat
    requires c > 0
  {
    Misses(Hits(ops, Ledgers(c, ops)), |ops|)
  }

  lemma {:induction false} FewerMisses(h: seq<bool>, h': seq<bool>, n: nat)
    requires n <= |h| == |h'| && forall i :: 0 <= i < |h| && h[i] ==> h'[i]
    ensures Misses(h', n) <= Misses(h, n)
  {
    if n > 0 { FewerMisses(h, h', n - 1); }
  }

  /** No anomaly: more capacity never means more misses. */
  lemma {:induction false} MissesMonotone(c: nat, d: nat, ops: seq<Access>)
    requires 0 < c <= d
    ensures MissCount(d, ops) <= MissCount(c, ops)
  {
    hide After, Inv;
    var h, h' := Hits(ops, Ledgers(c, ops)), Hits(ops, Ledgers(d, ops));
    forall i | 0 <= i < |ops| && h[i] ensures h'[i] {
      Inclusion(c, d, ops, i);
    }
    FewerMisses(h, h', |ops|);
  }

  /** The keys used in ops[i..n]. */
  ghost function UsedIn(ops: seq<Access>, i: nat, n: nat): set<Key>
    requires i <= n <= |ops|
  {
    set j | i <= j < n :: ops[j].key
  }

  lemma {:induction false} InOrder(s: seq<Key>, ops: seq<Access>, n: nat, q: nat, p: nat)
    requires n <= |ops| && ByRecency(s, ops, n) && q < |s| && p < |s|
    ensures LastUse(ops, n, s[q]) > LastUse(ops, n, s[p]) ==> q > p
  {
  }

  /** What lies above k on the stack is what was used after k. */
  lemma {:induction false} AboveOnStack(ops: seq<Access>, n: nat, p: nat)
    requires n <= |ops| && p < |Stack(ops, n)|
    ensures var s := Stack(ops, n);
      Members(s[p + 1..]) == UsedIn(ops, LastUse(ops, n, s[p]), n)
  {
    var s := Stack(ops, n);
    StackMeaning(ops, n);
    hide Stack, ByRecency;
    var r := LastUse(ops, n, s[p]);
    forall x ensures x in Members(s[p + 1..]) <==> x in UsedIn(ops, r, n) {
      if x in Members(s[p + 1..]) { AboveIsUsed(s, ops, n, p, x); }
      if x in UsedIn(ops, r, n) { UsedIsAbove(s, ops, n, p, x); }
    }
  }

  lemma {:induction false} AboveIsUsed(s: seq<Key>, ops: seq<Access>, n: nat, p: nat, x: Key)
    requires n <= |ops| && ByRecency(s, ops, n) && p < |s| && x in s[p + 1..]
    ensures x in UsedIn(ops, LastUse(ops, n, s[p]), n)
  {
    var q :| 0 <= q < |s[p + 1..]| && s[p + 1..][q] == x;
    assert s[p + 1 + q] == x;
    assert ops[LastUse(ops, n, x) - 1].key == x;
  }

  lemma {:induction false} UsedIsAbove(s: seq<Key>, ops: seq<Access>, n: nat, p: nat, x: Key)
    requires n <= |ops| && ByRecency(s, ops, n) && p < |s| && x in UsedIn(ops, LastUse(ops, n, s[p]), n)
    requires LastUse(ops, n, x) > 0 ==> x in s
    ensures x in s[p + 1..]
  {
    var j :| LastUse(ops, n, s[p]) <= j < n && ops[j].key == x;
    assert LastUse(ops, n, x) > j;
    var q :| 0 <= q < |s| && s[q] == x;
    InOrder(s, ops, n, q, p);
    assert s[p + 1..][q - p - 1] == x;
  }

  /** An access hits exactly if its key was used before and fewer than c distinct keys were used in between. */
  lemma {:induction false} HitIffReuseDistance(c: nat, ops: seq<Access>, n: nat)
    requires c > 0 && n < |ops|
    ensures ops[n].key in After(c, ops, n).t.table
      <==> LastUse(ops, n, ops[n].key) > 0 && |UsedIn(ops, LastUse(ops, n, ops[n].key), n)| < c
  {
    var k, s := ops[n].key, Stack(ops, n);
    StackProperty(c, ops, n);
    InKeys(After(c, ops, n), c, k);
    StackMeaning(ops, n);
    hide After, Inv, ByRecency, Last, Distinct;
    if k in s {
      var p :| 0 <= p < |s| && s[p] == k;
      AboveOnStack(ops, n, p);
      DepthOnStack(ops, n, c, p);
    } else {
      InLast(s, c, k);
    }
  }

  lemma {:induction false} InKeys(s: State, c: nat, k: Key)
    requires Inv(s, c)
    ensures k in s.t.table <==> k in s.t.keys
  {
  }

  lemma {:induction false} InLast(s: seq<Key>, c: nat, k: Key)
    ensures k in Last(s, c) ==> k in s
  {
  }

  /** An element of the stack is among the last c exactly if fewer than c lie above it. */
  lemma {:induction false} DepthOnStack(ops: seq<Access>, n: nat, c: nat, p: nat)
    requires n <= |ops| && p < |Stack(ops, n)|
    ensures var s := Stack(ops, n);
      s[p] in Last(s, c) <==> |Members(s[p + 1..])| < c
  {
    var s := Stack(ops, n);
    StackDistinct(ops, n);
    assert s == s[..p + 1] + s[p + 1..];
    DistinctParts(s[..p + 1], s[p + 1..]);
    MembersSize(s[p + 1..]);
    if |s| - p <= c {
      assert Last(s, c)[p - (|s| - |Last(s, c)|)] == s[p];
    }
  }

  lemma {:induction false} LedgersRun(c: nat, ops: seq<Access>)
    requires c > 0
    ensures LedgerRun(ops, Ledgers(c, ops))
  {
    hide Inv, Step, Serves;
    assert Ledgers(c, ops)[0] == Ledger(map[], 0, 0);
    forall i | 0 <= i < |ops| ensures ServesSome(Ledgers(c, ops)[i], Ledgers(c, ops)[i + 1], ops[i]) {
      StepKeeps(After(c, ops, i), c, ops[i]);
    }
  }

  /** In every run a page is dirty exactly if written since its last miss, and misses are cached pages plus
      evictions. */
  lemma {:induction false} RunConserves(c: nat, ops: seq<Access>, n: nat)
    requires c > 0 && n <= |ops|
    ensures Conserved(ops, Hits(ops, Ledgers(c, ops)), n, Books(After(c, ops, n)))
  {
    hide Conserved, Inv, Step;
    LedgersRun(c, ops);
    WriteBackConservation(ops, Ledgers(c, ops), n);
  }

  /** The flags added tell hit, miss and eviction, and those passed in do not interfere. */
  lemma {:induction false} OutcomeFlags(flags: Status, dirty: Status, added: Status, hit: bool, evict: bool)
    requires flags !! {DIRTY, PAGEHIT, PAGEMISS, EVICT} && dirty <= {DIRTY}
    requires added == if hit then {PAGEHIT, BLKHIT} else (if evict then {EVICT} else {}) + {PAGEMISS}
    ensures PAGEHIT in flags + dirty + added <==> hit
    ensures PAGEMISS in flags + dirty + added <==> !hit
    ensures EVICT in flags + dirty + added <==> !hit && evict
    ensures flags + dirty + added == flags + dirty + (if hit then {PAGEHIT, BLKHIT} else {PAGEMISS})
                                     + if !hit && evict then {EVICT} else {}
  {
  }

  class PureLruCache {
    const capacity: nat
    var keyTracker: seq<Key>
    var keyToValue: map<Key, bool>
    var totalEvictedCleanPages: nat
    var totalNonSeqEvictedDirtyPages: nat

    ghost function View(): State
      reads this
    {
      State(Tracked(keyTracker, keyToValue), totalEvictedCleanPages, totalNonSeqEvictedDirtyPages)
    }

    ghost predicate Valid()
      reads this
    {
      Inv(View(), capacity)
    }

    constructor (c: nat)
      requires c != 0
      ensures Valid() && View() == Empty() && capacity == c
    {
      capacity, keyTracker, keyToValue := c, [], map[];
      totalEvictedCleanPages, totalNonSeqEvictedDirtyPages := 0, 0;
    }

    /** One access; the flags of a request hold WRITE exactly for writes. */
    method Access(k: Key, flags: Status) returns (status: Status)
      requires Valid() && flags !! {DIRTY, PAGEHIT, PAGEMISS, EVICT}
      modifies this
      ensures Valid()
      ensures |old(keyTracker)| > 0 || old(|keyToValue|) < capacity
      ensures |old(keyTracker)| > 0 ==> old(keyTracker)[0] in old(keyToValue)
      ensures View() == Step(old(View()), capacity, TrackedPages.Access(k, WRITE in flags))
      ensures PAGEHIT in status <==> k in old(keyToValue)
      ensures PAGEMISS in status <==> k !in old(keyToValue)
      ensures EVICT in status <==> k !in old(keyToValue) && old(|keyToValue|) == capacity
      ensures status == flags + (if WRITE in flags then {DIRTY} else {})
                        + (if k in old(keyToValue) then {PAGEHIT, BLKHIT} else {PAGEMISS})
                        + if k !in old(keyToValue) && old(|keyToValue|) == capacity then {EVICT} else {}
    {
      hide Inv, Step, Serves, Tracked.Ok, Without;
      StepKeeps(View(), capacity, TrackedPages.Access(k, WRITE in flags));
      InvNonEmpty(View(), capacity);
      var dirty: Status := if WRITE in flags then {DIRTY} else {};
      var added: Status;
      ghost var hit, evict := k in keyToValue, |keyToValue| == capacity;
      if k !in keyToValue {
        added := Insert(k, WRITE in flags);
        added := added + {PAGEMISS};
      } else {
        Touch(k, WRITE in flags);
        added := {PAGEHIT, BLKHIT};
      }
      OutcomeFlags(flags, dirty, added, hit, evict);
      status := flags + dirty + added;
    }

    /** A hit: the key moves to the back, and a dirty page stays dirty. */
    method Touch(k: Key, write: bool)
      requires k in keyToValue
      requires (|keyTracker| > 0 && keyTracker[0] in keyToValue) || |keyToValue| < capacity
      modifies this
      ensures View() == Step(old(View()), capacity, TrackedPages.Access(k, write))
    {
      var dirty := write || keyToValue[k];
      keyToValue := keyToValue - {k};
      keyTracker := Without(keyTracker, k);
      keyTracker := keyTracker + [k];
      keyToValue := keyToValue[k := dirty];
    }

    method Insert(k: Key, dirty: bool) returns (status: Status)
      requires Valid() && k !in keyToValue
      modifies this
      ensures |old(keyTracker)| > 0 || old(|keyToValue|) < capacity
      ensures |old(keyTracker)| > 0 ==> old(keyTracker)[0] in old(keyToValue)
      ensures View() == Step(old(View()), capacity, TrackedPages.Access(k, dirty))
      ensures status == if old(|keyToValue|) == capacity then {EVICT} else {}
    {
      hide Tracked.Ok, Without;
      InvFront(View(), capacity);
      InvNonEmpty(View(), capacity);
      status := {};
      if |keyToValue| == capacity {
        Evict();
        status := {EVICT};
      }
      keyTracker := keyTracker + [k];
      keyToValue := keyToValue[k := dirty];
    }

    method Evict()
      requires |keyTracker| > 0 && keyTracker[0] in keyToValue
      modifies this
      ensures View() == Evicted(old(View()), old(keyTracker)[0])
    {
      Remove(keyTracker[0]);
    }

    method Remove(k: Key)
      requires k in keyToValue
      modifies this
      ensures View() == Evicted(old(View()), k)
    {
      if keyToValue[k] {
        totalNonSeqEvictedDirtyPages := totalNonSeqEvictedDirtyPages + 1;
      } else {
        totalEvictedCleanPages := totalEvictedCleanPages + 1;
      }
      keyToValue := keyToValue - {k};
      keyTracker := Without(keyTracker, k);
    }
  }

  lemma {:induction false} InvNonEmpty(s: State, c: nat)
    requires Inv(s, c)
    ensures |s.t.keys| > 0 ==> s.t.keys[0] in s.t.table
  {
  }
}
