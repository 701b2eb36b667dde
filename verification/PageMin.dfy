/** The offline-optimal page cache of src/min.cpp: a key map and a heap ordered by next use. */
module PageMin {
  import opened Trace
  import opened AccessIndex
  import opened CacheStatus
  import opened MinOptimality

  datatype HeapAtom = HeapAtom(line: nat, key: Key)

  /** The multiset with CompHeapAtom, in iteration order: furthest line first. */
  ghost predicate Sorted(h: seq<HeapAtom>) {
    forall a, b :: 0 <= a < b < |h| ==> h[a].line >= h[b].line
  }

  /** Number of atoms with a line strictly beyond the given one: start of its equal range. */
  function LowerBound(h: seq<HeapAtom>, line: nat): (p: nat)
    ensures p <= |h|
    ensures forall a :: 0 <= a < p ==> h[a].line > line
    ensures p < |h| ==> h[p].line <= line
  {
    if h == [] || h[0].line <= line then 0 else 1 + LowerBound(h[1..], line)
  }

  /** End of the equal range; equal atoms are inserted here. */
  function UpperBound(h: seq<HeapAtom>, line: nat): (p: nat)
    ensures p <= |h|
    ensures forall a :: 0 <= a < p ==> h[a].line >= line
    ensures p < |h| ==> h[p].line < line
  {
    if h == [] || h[0].line < line then 0 else 1 + UpperBound(h[1..], line)
  }

  /** The container's insert: equal atoms keep their order, the new one goes last among them. */
  function HeapInsert(h: seq<HeapAtom>, x: HeapAtom): seq<HeapAtom> {
    h[..UpperBound(h, x.line)] + [x] + h[UpperBound(h, x.line)..]
  }

  function HeapErase(h: seq<HeapAtom>, p: nat): seq<HeapAtom>
    requires p < |h|
  {
    h[..p] + h[p + 1..]
  }

  lemma {:induction false} InsertElements(h: seq<HeapAtom>, x: HeapAtom)
    ensures multiset(HeapInsert(h, x)) == multiset(h) + multiset{x}
  {
    assert h == h[..UpperBound(h, x.line)] + h[UpperBound(h, x.line)..];
  }

  lemma {:induction false} EraseElements(h: seq<HeapAtom>, p: nat)
    requires p < |h|
    ensures multiset(HeapErase(h, p)) == multiset(h) - multiset{h[p]}
  {
    assert h == h[..p] + [h[p]] + h[p + 1..];
  }

  /** One atom per key, carrying that key's true next line from position i on. */
  ghost function Atoms(keys: set<Key>, t: seq<Request>, i: nat): set<HeapAtom>
    requires i <= |t|
  {
    set k | k in keys :: HeapAtom(NextUse(t, i, k), k)
  }

  /** The heap holds exactly these atoms, each once. */
  ghost predicate HeapMatches(h: seq<HeapAtom>, keys: set<Key>, t: seq<Request>, i: nat)
    requires i <= |t|
  {
    multiset(h) == multiset(Atoms(keys, t, i))
  }

  /** Atoms of one line are in the order in which their keys were requested last. */
  ghost predicate Aged(h: seq<HeapAtom>, t: seq<Request>, n: nat)
    requires n <= |t|
  {
    forall a, b :: 0 <= a < b < |h| && h[a].line == h[b].line ==>
      LastRequest(t, n, h[a].key) < LastRequest(t, n, h[b].key)
  }

  /** The heap agrees with the key map and the trace after `now` requests. */
  ghost predicate HeapOk(h: seq<HeapAtom>, keys: set<Key>, t: seq<Request>, now: nat) {
    KeyOrdered(t) && now <= |t| && Sorted(h) && HeapMatches(h, keys, t, now) && Aged(h, t, now)
  }

  lemma {:induction false} InsertKeepsSorted(h: seq<HeapAtom>, x: HeapAtom)
    requires Sorted(h)
    ensures Sorted(HeapInsert(h, x))
  {
    var g, p := HeapInsert(h, x), UpperBound(h, x.line);
    forall a, b | 0 <= a < b < |g| ensures g[a].line >= g[b].line {
      if p < b {
        assert g[b] == h[b - 1];
        assert h[p].line >= h[b - 1].line;
      }
    }
  }

  lemma {:induction false} LastRequestBound(t: seq<Request>, n: nat, k: Key)
    requires n <= |t|
    ensures LastRequest(t, n, k) <= n
    ensures n > 0 && LastRequest(t, n, k) == n ==> t[n - 1].key == k
  {
    if n > 0 && t[n - 1].key != k { LastRequestBound(t, n - 1, k); }
  }

  /** The atom of the key just requested goes last among those of its line. */
  lemma {:induction false} InsertKeepsAge(h: seq<HeapAtom>, x: HeapAtom, t: seq<Request>, n: nat)
    requires 0 < n <= |t| && t[n - 1].key == x.key && Aged(h, t, n) && Sorted(h)
    requires forall a :: 0 <= a < |h| ==> h[a].key != x.key
    ensures Aged(HeapInsert(h, x), t, n)
  {
    var g, p := HeapInsert(h, x), UpperBound(h, x.line);
    assert LastRequest(t, n, x.key) == n;
    forall a | 0 <= a < |h| ensures LastRequest(t, n, h[a].key) < n {
      LastRequestBound(t, n, h[a].key);
    }
    assert forall a :: p <= a < |h| ==> h[a].line < x.line by {
      assert p < |h| ==> h[p].line < x.line;
    }
    hide LastRequest, HeapInsert;
    AgedPlus(h, x, t, n, p, g);
  }

  lemma {:induction false} AgedPlus(h: seq<HeapAtom>, x: HeapAtom, t: seq<Request>, n: nat, p: nat, g: seq<HeapAtom>)
    requires n <= |t| && p <= |h| && g == h[..p] + [x] + h[p..] && Aged(h, t, n)
    requires (forall a :: p <= a < |h| ==> h[a].line < x.line)
    requires forall a :: 0 <= a < |h| ==> LastRequest(t, n, h[a].key) < LastRequest(t, n, x.key)
    ensures Aged(g, t, n)
  {
  }

  lemma {:induction false} EraseKeepsAge(h: seq<HeapAtom>, p: nat, t: seq<Request>, n: nat)
    requires n <= |t| && p < |h| && Aged(h, t, n)
    ensures Aged(HeapErase(h, p), t, n)
  {
    hide LastRequest;
  }

  /** A request for another key ages all alike. */
  lemma {:induction false} AdvanceKeepsAge(h: seq<HeapAtom>, t: seq<Request>, n: nat)
    requires n < |t| && Aged(h, t, n) && forall a :: 0 <= a < |h| ==> h[a].key != t[n].key
    ensures Aged(h, t, n + 1)
  {
  }

  /** The atoms are those of the keys, so no atom is another key's. */
  lemma {:induction false} NoAtom(h: seq<HeapAtom>, keys: set<Key>, t: seq<Request>, n: nat, k: Key)
    requires n <= |t| && HeapMatches(h, keys, t, n) && k !in keys
    ensures forall a :: 0 <= a < |h| ==> h[a].key != k
  {
    forall a | 0 <= a < |h| ensures h[a].key != k {
      assert h[a] in multiset(h);
    }
  }

  lemma {:induction false} EraseKeepsSorted(h: seq<HeapAtom>, p: nat)
    requires Sorted(h) && p < |h|
    ensures Sorted(HeapErase(h, p))
  {
  }

  lemma {:induction false} InsertMatches(h: seq<HeapAtom>, keys: set<Key>, t: seq<Request>, i: nat, k: Key)
    requires i <= |t| && HeapMatches(h, keys, t, i) && k !in keys
    ensures HeapMatches(HeapInsert(h, HeapAtom(NextUse(t, i, k), k)), keys + {k}, t, i)
  {
    var x := HeapAtom(NextUse(t, i, k), k);
    InsertElements(h, x);
    assert Atoms(keys + {k}, t, i) == Atoms(keys, t, i) + {x};
  }

  lemma {:induction false} EraseMatches(h: seq<HeapAtom>, keys: set<Key>, t: seq<Request>, i: nat, p: nat)
    requires i <= |t| && HeapMatches(h, keys, t, i) && p < |h|
    ensures h[p].key in keys && h[p].line == NextUse(t, i, h[p].key)
    ensures HeapMatches(HeapErase(h, p), keys - {h[p].key}, t, i)
  {
    EraseElements(h, p);
    assert h[p] in multiset(h);
    assert Atoms(keys - {h[p].key}, t, i) == Atoms(keys, t, i) - {h[p]};
  }

  lemma {:induction false} KeyHasAtom(h: seq<HeapAtom>, keys: set<Key>, t: seq<Request>, i: nat, k: Key)
      returns (a: nat)
    requires i <= |t| && HeapMatches(h, keys, t, i) && k in keys
    ensures a < |h| && h[a] == HeapAtom(NextUse(t, i, k), k)
  {
    assert HeapAtom(NextUse(t, i, k), k) in multiset(h);
    a :| 0 <= a < |h| && h[a] == HeapAtom(NextUse(t, i, k), k);
  }

  /** Serving a request for an uncached key changes no cached key's next use. */
  lemma {:induction false} AdvanceMatches(h: seq<HeapAtom>, keys: set<Key>, t: seq<Request>, i: nat)
    requires KeyOrdered(t) && i < |t| && HeapMatches(h, keys, t, i) && t[i].key !in keys
    ensures HeapMatches(h, keys, t, i + 1)
  {
    forall k | k in keys ensures NextUse(t, i, k) == NextUse(t, i + 1, k) {
      NextUseStays(t, i, k);
    }
    assert Atoms(keys, t, i) == Atoms(keys, t, i + 1);
  }

  /** The front of the heap is a key whose next use is furthest. */
  lemma {:induction false} FrontIsFurthest(h: seq<HeapAtom>, keys: set<Key>, t: seq<Request>, i: nat)
    requires i <= |t| && Sorted(h) && HeapMatches(h, keys, t, i) && keys != {}
    ensures |h| > 0 && IsFurthest(t, i, keys, h[0].key)
  {
    var any :| any in keys;
    var _ := KeyHasAtom(h, keys, t, i, any);
    EraseMatches(h, keys, t, i, 0);
    forall u | u in keys ensures NextUse(t, i, u) <= NextUse(t, i, h[0].key) {
      var _ := KeyHasAtom(h, keys, t, i, u);
    }
  }

  /** And of those with that next use it is the one requested longest ago. */
  lemma {:induction false} FrontIsFront(h: seq<HeapAtom>, keys: set<Key>, t: seq<Request>, i: nat)
    requires HeapOk(h, keys, t, i) && keys != {}
    ensures |h| > 0 && IsFront(t, i, keys, h[0].key)
  {
    FrontIsFurthest(h, keys, t, i);
    EraseMatches(h, keys, t, i, 0);
    forall u | u in keys && NextUse(t, i, u) == NextUse(t, i, h[0].key)
      ensures LastRequest(t, i, h[0].key) <= LastRequest(t, i, u)
    {
      var a := KeyHasAtom(h, keys, t, i, u);
      hide HeapMatches, Sorted, IsFurthest, KeyOrdered;
      assert a > 0 ==> h[0].line == h[a].line;
    }
    hide HeapOk, IsFurthest;
  }

  /** The atom of the key just requested enters the heap. */
  lemma {:induction false} EnterAtom(h: seq<HeapAtom>, keys: set<Key>, t: seq<Request>, n: nat, k: Key)
    requires HeapOk(h, keys, t, n) && 0 < n && t[n - 1].key == k && k !in keys
    ensures HeapOk(HeapInsert(h, HeapAtom(NextUse(t, n, k), k)), keys + {k}, t, n)
  {
    hide Aged, Sorted, HeapMatches, HeapInsert;
    NoAtom(h, keys, t, n, k);
    InsertKeepsSorted(h, HeapAtom(NextUse(t, n, k), k));
    InsertMatches(h, keys, t, n, k);
    InsertKeepsAge(h, HeapAtom(NextUse(t, n, k), k), t, n);
  }

  /** An atom leaves. */
  lemma {:induction false} DropAtom(h: seq<HeapAtom>, keys: set<Key>, t: seq<Request>, n: nat, p: nat)
    requires HeapOk(h, keys, t, n) && p < |h|
    ensures h[p].key in keys && HeapOk(HeapErase(h, p), keys - {h[p].key}, t, n)
  {
    hide Aged, Sorted, HeapMatches, HeapErase;
    EraseKeepsSorted(h, p);
    EraseMatches(h, keys, t, n, p);
    EraseKeepsAge(h, p, t, n);
  }

  /** A request for a key that is not cached. */
  lemma {:induction false} PassRequest(h: seq<HeapAtom>, keys: set<Key>, t: seq<Request>, n: nat)
    requires HeapOk(h, keys, t, n) && n < |t| && t[n].key !in keys
    ensures HeapOk(h, keys, t, n + 1)
  {
    hide Aged, Sorted, HeapMatches;
    NoAtom(h, keys, t, n, t[n].key);
    AdvanceMatches(h, keys, t, n);
    AdvanceKeepsAge(h, t, n);
  }

  /** The atom of the requested key is keyed by the current line, so it lies in that line's equal range. */
  lemma {:induction false} AtomInRange(h: seq<HeapAtom>, keys: set<Key>, t: seq<Request>, i: nat) returns (at: nat)
    requires HeapOk(h, keys, t, i) && i < |t| && t[i].key in keys
    ensures LowerBound(h, t[i].line) <= at < UpperBound(h, t[i].line) <= |h| && h[at].key == t[i].key
  {
    at := KeyHasAtom(h, keys, t, i, t[i].key);
    NextUseStays(t, i, t[i].key);
  }

  /** A hit at position i: re-keying the atom of the requested key keeps the heap exact. */
  lemma {:induction false} RekeyMatches(h: seq<HeapAtom>, keys: set<Key>, t: seq<Request>, i: nat, p: nat)
    requires HeapOk(h, keys, t, i) && i < |t| && p < |h| && h[p].key == t[i].key
    ensures HeapOk(HeapInsert(HeapErase(h, p), HeapAtom(NextUse(t, i + 1, t[i].key), t[i].key)), keys, t, i + 1)
  {
    hide HeapOk, HeapErase, HeapInsert;
    var k, e := t[i].key, HeapErase(h, p);
    DropAtom(h, keys, t, i, p);
    PassRequest(e, keys - {k}, t, i);
    EnterAtom(e, keys - {k}, t, i + 1, k);
    assert keys - {k} + {k} == keys;
  }

  /** The flags one access adds. */
  function Outcome(value: Request, cached: set<Key>, capacity: nat): Status {
    if value.key in cached then {PAGEHIT, BLKHIT}
    else {PAGEMISS} + if value.write && |cached| == capacity then {EVICT} else {}
  }

  lemma {:induction false} OutcomeIs(value: Request, cached: set<Key>, capacity: nat)
    ensures value.key in cached ==> Outcome(value, cached, capacity) == {PAGEHIT, BLKHIT}
    ensures value.key !in cached ==>
      Outcome(value, cached, capacity)
      == (if value.write && |cached| == capacity then {EVICT} else {}) + {PAGEMISS}
  {
  }

  /** Every key still to be requested is in the index, with all its lines. */
  ghost predicate IndexOk(hash: map<Key, seq<nat>>, t: seq<Request>, now: nat) {
    Indexes(hash, t) && forall i :: now <= i < |t| ==> t[i].key in hash
  }

  lemma {:induction false} OkParts(h: seq<HeapAtom>, keys: set<Key>, hash: map<Key, seq<nat>>, t: seq<Request>,
                                   now: nat)
    requires HeapOk(h, keys, t, now) && IndexOk(hash, t, now)
    ensures KeyOrdered(t) && now <= |t| && Indexes(hash, t)
  {
  }

  lemma {:induction false} MinStays(t: seq<Request>, i: nat, c: nat, s: set<Key>)
    requires i < |t|
    ensures t[i].key in s || !t[i].write ==> HeapStep(t, i, c, s, s)
  {
  }

  lemma {:induction false} MinInserts(t: seq<Request>, i: nat, c: nat, s: set<Key>)
    requires i < |t| && t[i].key !in s && t[i].write && |s| < c
    ensures HeapStep(t, i, c, s, s + {t[i].key})
  {
  }

  lemma {:induction false} MinEvicts(t: seq<Request>, i: nat, c: nat, s: set<Key>, v: Key)
    requires i < |t| && t[i].key !in s && t[i].write && |s| == c && IsFront(t, i + 1, s, v)
    ensures HeapStep(t, i, c, s, s - {v} + {t[i].key})
  {
  }

  lemma {:induction false} PutKeys(m: map<Key, Request>, k: Key, v: Request)
    requires k !in m
    ensures m[k := v].Keys == m.Keys + {k} && |m[k := v]| == |m| + 1
  {
  }

  /** The key requested is in the index, and the index serves the rest of the trace. */
  lemma {:induction false} IndexHas(hash: map<Key, seq<nat>>, t: seq<Request>, now: nat)
    requires IndexOk(hash, t, now) && now < |t|
    ensures t[now].key in hash && IndexOk(hash, t, now + 1)
  {
  }

  /** A miss changes nothing that heap and index say about the rest of the trace. */
  lemma {:induction false} MissServed(h: seq<HeapAtom>, keys: set<Key>, hash: map<Key, seq<nat>>, t: seq<Request>,
                                      now: nat)
    requires HeapOk(h, keys, t, now) && IndexOk(hash, t, now) && now < |t| && t[now].key !in keys
    ensures HeapOk(h, keys, t, now + 1) && IndexOk(hash, t, now + 1) && t[now].key in hash
  {
    hide HeapOk;
    PassRequest(h, keys, t, now);
  }

  lemma {:induction false} InsertHeapOk(h: seq<HeapAtom>, keys: set<Key>, t: seq<Request>, now: nat, k: Key, next: nat)
    requires HeapOk(h, keys, t, now) && k !in keys && 0 < now && t[now - 1].key == k
    requires IsNextUse(t, k, t[now - 1].line, next)
    ensures HeapOk(HeapInsert(h, HeapAtom(next, k)), keys + {k}, t, now)
  {
    NextUseIsScan(t, now - 1, k, next);
    hide HeapOk, IsNextUse, HeapInsert, NextUse;
    EnterAtom(h, keys, t, now, k);
  }

  lemma {:induction false} EvictHeapOk(h: seq<HeapAtom>, keys: set<Key>, t: seq<Request>, now: nat)
    requires HeapOk(h, keys, t, now) && keys != {}
    ensures |h| > 0 && IsFront(t, now, keys, h[0].key)
    ensures HeapOk(HeapErase(h, 0), keys - {h[0].key}, t, now)
  {
    hide HeapOk, IsFront, HeapErase;
    FrontIsFront(h, keys, t, now);
    DropAtom(h, keys, t, now, 0);
  }

  /** The index may forget a key once it has no further use: no later lookup asks for it. */
  lemma {:induction false} ForgetIndexOk(hash: map<Key, seq<nat>>, t: seq<Request>, now: nat, k: Key, next: nat)
    requires KeyOrdered(t) && IndexOk(hash, t, now) && 0 < now <= |t| && t[now - 1].key == k
    requires IsNextUse(t, k, t[now - 1].line, next)
    ensures IndexOk(if next == INF then hash - {k} else hash, t, now)
  {
    if next == INF {
      forall i | now <= i < |t| ensures t[i].key in hash - {k} {
        assert t[i].key != k;
      }
    }
  }

  class PageMinCache {
    const capacity: nat
    const accessOrdering: AccessOrdering
    var maxHeap: seq<HeapAtom>
    var keyToValue: map<Key, Request>
    ghost const trace: seq<Request>  // what memTrace held when the index was built
    ghost var now: nat               // requests served so far

    ghost predicate Valid()
      reads this, accessOrdering
    {
      && capacity > 0 && |keyToValue| <= capacity
      && HeapOk(maxHeap, keyToValue.Keys, trace, now)
      && accessOrdering.built && IndexOk(accessOrdering.hashTable, trace, now)
    }

    constructor (c: nat, t: seq<Request>)
      requires c != 0 && KeyOrdered(t)
      ensures Valid() && fresh(accessOrdering)
      ensures capacity == c && trace == t && now == 0 && keyToValue == map[]
    {
      capacity, maxHeap, keyToValue, trace, now := c, [], map[], t, 0;
      accessOrdering := new AccessOrdering();
      new;
      accessOrdering.PageBaseBuild(t);
    }

    /** Serves the request at the front of the trace. */
    method Access(value: Request, status0: Status) returns (status: Status)
      requires Valid() && now < |trace| && value == trace[now]
      requires WRITE in status0 <==> value.write
      modifies this, accessOrdering
      ensures Valid() && now == old(now) + 1
      ensures HeapStep(trace, old(now), capacity, old(keyToValue.Keys), keyToValue.Keys)
      ensures status == status0 + Outcome(value, old(keyToValue.Keys), capacity)
    {
      hide HeapOk, IndexOk, HeapStep, Outcome;
      var added;
      if value.key !in keyToValue {
        added := ServeMiss(value);
      } else {
        MinStays(trace, now, capacity, keyToValue.Keys);
        OutcomeIs(value, keyToValue.Keys, capacity);
        added := {PAGEHIT, BLKHIT};
        ServeHit(value.key, value.line);
        now := now + 1;
      }
      status := status0 + added;
    }

    /** A miss: a written page is inserted, a read one is not. */
    method ServeMiss(value: Request) returns (added: Status)
      requires Valid() && now < |trace| && value == trace[now] && value.key !in keyToValue
      modifies this, accessOrdering
      ensures Valid() && now == old(now) + 1
      ensures HeapStep(trace, old(now), capacity, old(keyToValue.Keys), keyToValue.Keys)
      ensures added == Outcome(value, old(keyToValue.Keys), capacity)
    {
      hide HeapOk, IndexOk, HeapStep, Outcome;
      ghost var before := keyToValue.Keys;
      assert |before| == |keyToValue|;
      OutcomeIs(value, before, capacity);
      MinStays(trace, now, capacity, before);
      MissServed(maxHeap, before, accessOrdering.hashTable, trace, now);
      now := now + 1;
      added := {};
      if value.write {
        added := Insert(value.key, value);
      }
      added := added + {PAGEMISS};
    }

    /** A hit: the key's atom moves to the line of its next use. */
    method ServeHit(k: Key, line: nat)
      requires HeapOk(maxHeap, keyToValue.Keys, trace, now) && IndexOk(accessOrdering.hashTable, trace, now)
      requires now < |trace| && trace[now].key == k && trace[now].line == line
      requires k in keyToValue && accessOrdering.built
      modifies this`maxHeap, accessOrdering
      ensures HeapOk(maxHeap, keyToValue.Keys, trace, now + 1)
      ensures IndexOk(accessOrdering.hashTable, trace, now + 1) && accessOrdering.built
    {
      hide HeapOk, IndexOk;
      var next := NextUseOf(k, line);
      UpdateHeap(k, line, next);
    }

    /** Looks the key up in the index, which then serves the rest of the trace. */
    method NextUseOf(k: Key, line: nat) returns (next: nat)
      requires HeapOk(maxHeap, keyToValue.Keys, trace, now) && IndexOk(accessOrdering.hashTable, trace, now)
      requires now < |trace| && trace[now].key == k && trace[now].line == line && accessOrdering.built
      modifies accessOrdering
      ensures next == NextUse(trace, now + 1, k)
      ensures IndexOk(accessOrdering.hashTable, trace, now + 1) && accessOrdering.built
    {
      hide HeapOk, IndexOk, IsNextUse, Indexes, KeyOrdered, NextUse;
      OkParts(maxHeap, keyToValue.Keys, accessOrdering.hashTable, trace, now);
      IndexHas(accessOrdering.hashTable, trace, now);
      ghost var hash := accessOrdering.hashTable;
      next := accessOrdering.NextAccess(k, line, trace);
      NextUseIsScan(trace, now, k, next);
      ForgetIndexOk(hash, trace, now + 1, k, next);
    }

    /** Finds k's atom among those keyed by the current line, and re-inserts it under its next line. */
    method UpdateHeap(k: Key, line: nat, next: nat)
      requires HeapOk(maxHeap, keyToValue.Keys, trace, now)
      requires now < |trace| && trace[now].key == k && trace[now].line == line
      requires k in keyToValue && next == NextUse(trace, now + 1, k)
      modifies this`maxHeap
      ensures HeapOk(maxHeap, keyToValue.Keys, trace, now + 1)
    {
      hide *;
      ghost var at := AtomInRange(maxHeap, keyToValue.Keys, trace, now);
      var setit, last := LowerBound(maxHeap, line), UpperBound(maxHeap, line);
      while maxHeap[setit].key != k
        invariant setit <= at < last <= |maxHeap|
        decreases last - setit
      {
        setit := setit + 1;
      }
      RekeyMatches(maxHeap, keyToValue.Keys, trace, now, setit);
      maxHeap := HeapErase(maxHeap, setit);
      maxHeap := HeapInsert(maxHeap, HeapAtom(next, k));
    }

    method Insert(k: Key, v: Request) returns (status: Status)
      requires Valid() && 0 < now && v == trace[now - 1] && v.key == k && k !in keyToValue
      requires k in accessOrdering.hashTable && v.write
      modifies this`maxHeap, this`keyToValue, accessOrdering
      ensures Valid()
      ensures status == if |old(keyToValue)| == capacity then {EVICT} else {}
      ensures HeapStep(trace, now - 1, capacity, old(keyToValue.Keys), keyToValue.Keys)
    {
      hide HeapOk, IndexOk, IsNextUse, HeapInsert, Indexes, HeapStep, KeyOrdered, Sorted, HeapMatches;
      ghost var hash := accessOrdering.hashTable;
      status := MakeRoom(k);
      OkParts(maxHeap, keyToValue.Keys, hash, trace, now);
      assert IndexOk(hash, trace, now) && trace[now - 1].line == v.line;
      var next := accessOrdering.NextAccess(k, v.line, trace);
      InsertHeapOk(maxHeap, keyToValue.Keys, trace, now, k, next);
      ForgetIndexOk(hash, trace, now, k, next);
      maxHeap := HeapInsert(maxHeap, HeapAtom(next, k));
      StoreValue(k, v);
    }

    method StoreValue(k: Key, v: Request)
      requires k !in keyToValue
      modifies this`keyToValue
      ensures keyToValue.Keys == old(keyToValue.Keys) + {k} && |keyToValue| == |old(keyToValue)| + 1
    {
      PutKeys(keyToValue, k, v);
      keyToValue := keyToValue[k := v];
    }

    /** Makes space if necessary. */
    method MakeRoom(k: Key) returns (status: Status)
      requires Valid() && 0 < now && k == trace[now - 1].key && trace[now - 1].write && k !in keyToValue
      modifies this`maxHeap, this`keyToValue
      ensures Valid() && k !in keyToValue && |keyToValue| < capacity
      ensures status == if |old(keyToValue)| == capacity then {EVICT} else {}
      ensures HeapStep(trace, now - 1, capacity, old(keyToValue.Keys), keyToValue.Keys + {k})
    {
      hide HeapOk, IndexOk, IsFront, HeapStep;
      status := {};
      OkParts(maxHeap, keyToValue.Keys, accessOrdering.hashTable, trace, now);
      hide KeyOrdered, Indexes;
      ghost var before := keyToValue.Keys;
      assert |before| == |keyToValue|;
      if |keyToValue| == capacity {
        ghost var victim := Evict();
        MinEvicts(trace, now - 1, capacity, before, victim);
        status := {EVICT};
      } else {
        MinInserts(trace, now - 1, capacity, before);
      }
    }

    /** Drops the key at the front of the heap: no cached key is used later. */
    method Evict() returns (ghost victim: Key)
      requires Valid() && |keyToValue| > 0
      modifies this`maxHeap, this`keyToValue
      ensures Valid()
      ensures IsFront(trace, now, old(keyToValue.Keys), victim)
      ensures victim in old(keyToValue) && keyToValue == old(keyToValue) - {victim}
    {
      assert keyToValue.Keys != {};
      EvictHeapOk(maxHeap, keyToValue.Keys, trace, now);
      hide HeapOk, IndexOk, IsFront, HeapErase;
      victim := maxHeap[0].key;
      keyToValue := keyToValue - {maxHeap[0].key};
      maxHeap := HeapErase(maxHeap, 0);
    }
  }

  /** One cache level fed the whole trace: the simulation loop of src/main.cpp, counting page misses. */
  method RunBenchmark(t: seq<Request>, c: nat) returns (misses: nat, ghost run: seq<set<Key>>)
    requires KeyOrdered(t) && c != 0
    ensures HeapRun(t, c, run) && misses == Misses(t, run, |t|)
    ensures LineOrdered(t) && Safe(Pattern(t)) ==> NobodyMissesLess(t, c, misses)
  {
    hide NobodyMissesLess, Outcome, Misses, HeapStep, HeapRun, HeapOk, IndexOk, Allowed, Safe, RunTo, LineOrdered,
         KeyOrdered;
    var cache := new PageMinCache(c, t);
    misses := 0;
    run := [{}];
    RunStarts(t, c);
    var i := 0;
    while i < |t|
      invariant cache.Valid() && fresh(cache) && fresh(cache.accessOrdering)
      invariant cache.capacity == c && cache.trace == t && cache.now == i <= |t|
      invariant RunTo(t, c, run, i, cache.keyToValue.Keys, misses)
    {
      ghost var cached := cache.keyToValue.Keys;
      var flags: Status := if t[i].write then {WRITE} else {READ};
      flags := cache.Access(t[i], flags);
      MissFlag(t[i], cached, c);
      RunExtends(t, c, run, i, cached, cache.keyToValue.Keys, misses);
      run := run + [cache.keyToValue.Keys];
      if PAGEMISS in flags { misses := misses + 1; }
      i := i + 1;
    }
    RunWhole(t, c, run, cache.keyToValue.Keys, misses);
    if LineOrdered(t) { MinWins(t, c, run); }
  }

  lemma {:induction false} MissFlag(value: Request, cached: set<Key>, c: nat)
    ensures PAGEMISS in Outcome(value, cached, c) <==> value.key !in cached
  {
  }

  /** No policy with the same admission rule has fewer misses on this trace. */
  ghost predicate NobodyMissesLess(t: seq<Request>, c: nat, misses: nat) {
    forall sched :: Allowed(t, c, sched) ==> misses <= Misses(t, sched, |t|)
  }

  lemma {:induction false} MinWins(t: seq<Request>, c: nat, run: seq<set<Key>>)
    requires LineOrdered(t) && c != 0 && HeapRun(t, c, run)
    ensures Safe(Pattern(t)) ==> NobodyMissesLess(t, c, Misses(t, run, |t|))
  {
    hide Safe, HeapStep, MinStep, AllowedStep;
    forall sched | Safe(Pattern(t)) && Allowed(t, c, sched) ensures Misses(t, run, |t|) <= Misses(t, sched, |t|) {
      HeapRunIsMin(t, c, run);
      MinIsOptimal(t, c, run, sched);
    }
  }

  /** The cached sets over the first n requests, the last of them, and the misses so far. */
  ghost predicate RunTo(t: seq<Request>, c: nat, run: seq<set<Key>>, n: nat, last: set<Key>, misses: nat)
    requires n <= |t|
  {
    && |run| == n + 1 && run[0] == {} && run[n] == last && misses == Misses(t, run, n)
    && forall j :: 0 <= j < n ==> HeapStep(t, j, c, run[j], run[j + 1])
  }

  lemma {:induction false} RunStarts(t: seq<Request>, c: nat)
    ensures RunTo(t, c, [{}], 0, {}, 0)
  {
  }

  lemma {:induction false} RunExtends(t: seq<Request>, c: nat, run: seq<set<Key>>, n: nat, s: set<Key>, s': set<Key>,
                                      misses: nat)
    requires n < |t| && RunTo(t, c, run, n, s, misses) && HeapStep(t, n, c, s, s')
    ensures RunTo(t, c, run + [s'], n + 1, s', misses + if t[n].key in s then 0 else 1)
  {
    hide HeapStep;
    MissesPrefix(t, run, run + [s'], n);
  }

  lemma {:induction false} RunWhole(t: seq<Request>, c: nat, run: seq<set<Key>>, last: set<Key>, misses: nat)
    requires RunTo(t, c, run, |t|, last, misses)
    ensures HeapRun(t, c, run) && misses == Misses(t, run, |t|)
  {
    hide HeapStep;
  }

  lemma {:induction false} MissesPrefix(t: seq<Request>, a: seq<set<Key>>, b: seq<set<Key>>, n: nat)
    requires n <= |t| && n <= |a| && a <= b
    ensures Misses(t, a, n) == Misses(t, b, n)
  {
    if n > 0 { MissesPrefix(t, a, b, n - 1); }
  }
}
