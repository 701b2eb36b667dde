/** Write-back accounting of a demand cache: which pages are dirty, and where every missed or dirtied page went. */
module WriteBack {
  import opened Options
  import opened TrackedPages

  /** The cached pages with their dirty bits, and the counts of evicted clean and dirty pages. */
  datatype Ledger = Ledger(pages: map<Key, bool>, cleanOut: nat, dirtyOut: nat)

  /** One access: its page is cached, dirty if written now or while cached before; `gone` was evicted for it and
      counted; nothing else changed. */
  ghost predicate Serves(l: Ledger, l': Ledger, a: Access, gone: Option<Key>) {
    && (gone.Some? ==> gone.value in l.pages && gone.value != a.key && a.key !in l.pages)
    && l'.pages == Rest(l, gone)[a.key := a.write || (a.key in l.pages && l.pages[a.key])]
    && l'.dirtyOut == l.dirtyOut + (if gone.Some? && gone.value in l.pages && l.pages[gone.value] then 1 else 0)
    && l'.cleanOut == l.cleanOut + (if gone.Some? && gone.value in l.pages && !l.pages[gone.value] then 1 else 0)
  }

  ghost function Rest(l: Ledger, gone: Option<Key>): map<Key, bool> {
    if gone.Some? then l.pages - {gone.value} else l.pages
  }

  /** The ledgers of a run from an empty cache. */
  ghost predicate LedgerRun(ops: seq<Access>, run: seq<Ledger>) {
    && |run| == |ops| + 1 && run[0] == Ledger(map[], 0, 0)
    && forall i :: 0 <= i < |ops| ==> ServesSome(run[i], run[i + 1], ops[i])
  }

  ghost predicate ServesSome(l: Ledger, l': Ledger, a: Access) {
    exists gone :: Serves(l, l', a, gone)
  }

  ghost function Hits(ops: seq<Access>, run: seq<Ledger>): seq<bool>
    requires |run| == |ops| + 1
  {
    seq(|ops|, i requires 0 <= i < |ops| => ops[i].key in run[i].pages)
  }

  ghost function Misses(hits: seq<bool>, n: nat): nat
    requires n <= |hits|
  {
    if n == 0 then 0 else Misses(hits, n - 1) + if hits[n - 1] then 0 else 1
  }

  /** How often an access turned a page dirty. */
  ghost function Dirtied(ops: seq<Access>, hits: seq<bool>, n: nat): nat
    requires n <= |ops| && n <= |hits|
  {
    if n == 0 then 0
    else Dirtied(ops, hits, n - 1) + (if Dirties(ops, hits, n - 1) then 1 else 0)
  }

  ghost predicate Dirties(ops: seq<Access>, hits: seq<bool>, i: nat)
    requires i < |ops| && i < |hits|
  {
    ops[i].write && !(hits[i] && WrittenSinceMiss(ops, hits, i, ops[i].key))
  }

  ghost function DirtyKeys(m: map<Key, bool>): set<Key> {
    set k | k in m && m[k]
  }

  lemma {:induction false} DirtyKeysPut(m: map<Key, bool>, k: Key, d: bool)
    ensures |DirtyKeys(m[k := d])| == |DirtyKeys(m)| + (if d then 1 else 0) - (if k in m && m[k] then 1 else 0)
    ensures |m[k := d]| == |m| + if k in m then 0 else 1
  {
    var a, b := DirtyKeys(m), DirtyKeys(m[k := d]);
    assert b == if d then a + {k} else a - {k};
    assert m[k := d].Keys == m.Keys + {k};
  }

  lemma {:induction false} DirtyKeysCut(m: map<Key, bool>, v: Key)
    requires v in m
    ensures |DirtyKeys(m - {v})| == |DirtyKeys(m)| - (if m[v] then 1 else 0)
    ensures |m - {v}| == |m| - 1
  {
    assert DirtyKeys(m - {v}) == DirtyKeys(m) - {v};
    assert (m - {v}).Keys == m.Keys - {v};
  }

  lemma {:induction false} PutAgain(m: map<Key, bool>, k: Key, d: bool)
    ensures (m - {k})[k := d] == m[k := d]
  {
    assert (m - {k})[k := d].Keys == m[k := d].Keys;
  }

  /** One access balances: pages and evictions together grow by one on a miss, dirty ones by one when it dirties. */
  lemma {:induction false} ServesBalance(l: Ledger, l': Ledger, a: Access, gone: Option<Key>)
    requires Serves(l, l', a, gone)
    ensures |l'.pages| + l'.cleanOut + l'.dirtyOut
      == |l.pages| + l.cleanOut + l.dirtyOut + if a.key in l.pages then 0 else 1
    ensures |DirtyKeys(l'.pages)| + l'.dirtyOut
      == |DirtyKeys(l.pages)| + l.dirtyOut + if a.write && !(a.key in l.pages && l.pages[a.key]) then 1 else 0
  {
    hide DirtyKeys;
    if gone.Some? { DirtyKeysCut(l.pages, gone.value); }
    DirtyKeysPut(Rest(l, gone), a.key, a.write || (a.key in l.pages && l.pages[a.key]));
  }

  ghost predicate DirtyRight(ops: seq<Access>, hits: seq<bool>, n: nat, m: map<Key, bool>)
    requires n <= |ops| && n <= |hits|
  {
    forall k :: k in m ==> (m[k] <==> WrittenSinceMiss(ops, hits, n, k))
  }

  lemma {:induction false} DirtyRightStep(ops: seq<Access>, hits: seq<bool>, n: nat, l: Ledger, l': Ledger,
                                          gone: Option<Key>)
    requires n < |ops| && n < |hits| && DirtyRight(ops, hits, n, l.pages)
    requires Serves(l, l', ops[n], gone) && hits[n] == (ops[n].key in l.pages)
    ensures DirtyRight(ops, hits, n + 1, l'.pages)
  {
    hide WrittenSinceMiss;
    forall k | k in l'.pages ensures l'.pages[k] <==> WrittenSinceMiss(ops, hits, n + 1, k) {
      WrittenStep(ops, hits, n, k);
    }
  }

  /** A cached page is dirty exactly if it was written since its last miss; every miss is a cached page or an
      eviction; every page that became dirty is still cached dirty or was evicted dirty. */
  ghost predicate Conserved(ops: seq<Access>, hits: seq<bool>, n: nat, l: Ledger)
    requires n <= |ops| && n <= |hits|
  {
    && DirtyRight(ops, hits, n, l.pages)
    && |l.pages| + l.cleanOut + l.dirtyOut == Misses(hits, n)
    && |DirtyKeys(l.pages)| + l.dirtyOut == Dirtied(ops, hits, n)
  }

  lemma {:induction false} ConservedStep(ops: seq<Access>, hits: seq<bool>, n: nat, l: Ledger, l': Ledger,
                                         gone: Option<Key>)
    requires n < |ops| && n < |hits| && Conserved(ops, hits, n, l)
    requires Serves(l, l', ops[n], gone) && hits[n] == (ops[n].key in l.pages)
    ensures Conserved(ops, hits, n + 1, l')
  {
    hide DirtyKeys, Serves, WrittenSinceMiss;
    DirtyRightStep(ops, hits, n, l, l', gone);
    ServesBalance(l, l', ops[n], gone);
    assert Dirties(ops, hits, n) <==> ops[n].write && !(ops[n].key in l.pages && l.pages[ops[n].key]);
  }

  /** Every run conserves. */
  lemma {:induction false} WriteBackConservation(ops: seq<Access>, run: seq<Ledger>, n: nat)
    requires LedgerRun(ops, run) && n <= |ops|
    ensures Conserved(ops, Hits(ops, run), n, run[n])
  {
    if n == 0 {
      assert DirtyKeys(run[0].pages) == {};
    } else {
      WriteBackConservation(ops, run, n - 1);
      hide Conserved, Serves;
      assert ServesSome(run[n - 1], run[n - 1 + 1], ops[n - 1]);
      var gone :| Serves(run[n - 1], run[n], ops[n - 1], gone);
      ConservedStep(ops, Hits(ops, run), n - 1, run[n - 1], run[n], gone);
    }
  }
}
