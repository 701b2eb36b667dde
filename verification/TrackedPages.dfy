/** What the list-based caches share: a recency list of keys beside a table from key to dirty bit, and request
    histories. */
module TrackedPages {
  import opened Sets

  type Key = nat
  datatype Access = Access(key: Key, write: bool)

  /** list::remove: drops every copy of k. */
  function Without(s: seq<Key>, k: Key): seq<Key> {
    if s == [] then [] else (if s[0] == k then [] else [s[0]]) + Without(s[1..], k)
  }

  ghost predicate Distinct(s: seq<Key>) {
    forall i, j :: 0 <= i < j < |s| ==> s[i] != s[j]
  }

  ghost function Members(s: seq<Key>): set<Key> {
    set k | k in s
  }

  lemma {:induction false} WithoutMembers(s: seq<Key>, k: Key)
    ensures forall x :: x in Without(s, k) <==> x in s && x != k
  {
    if s != [] { WithoutMembers(s[1..], k); }
  }

  lemma {:induction false} WithoutDistinct(s: seq<Key>, k: Key)
    requires Distinct(s)
    ensures Distinct(Without(s, k))
    ensures |Without(s, k)| == |s| - if k in s then 1 else 0
  {
    if s != [] {
      WithoutMembers(s[1..], k);
      WithoutDistinct(s[1..], k);
      var w := Without(s[1..], k);
      forall j | 0 <= j < |w| ensures w[j] != s[0] {
        assert w[j] in w;
      }
    }
  }

  lemma {:induction false} WithoutAbsent(s: seq<Key>, k: Key)
    requires k !in s
    ensures Without(s, k) == s
  {
    if s != [] { WithoutAbsent(s[1..], k); }
  }

  lemma {:induction false} WithoutConcat(s: seq<Key>, t: seq<Key>, k: Key)
    ensures Without(s + t, k) == Without(s, k) + Without(t, k)
  {
    if s == [] {
      assert s + t == t;
    } else {
      assert (s + t)[1..] == s[1..] + t;
      WithoutConcat(s[1..], t, k);
    }
  }

  lemma {:induction false} MembersSize(s: seq<Key>)
    requires Distinct(s)
    ensures |Members(s)| == |s|
  {
    DistinctSize(s);
    assert Members(s) == set k | k in s;
  }

  /** A recency list, least recent first, and its table; the value of a key is its DIRTY bit, the only bit read. */
  datatype Tracked = Tracked(keys: seq<Key>, table: map<Key, bool>)
  {
    ghost predicate Ok() { Distinct(keys) && forall k :: k in keys <==> k in table }

    function Size(): nat { |table| }

    /** list insert at the back, map insert: an existing entry keeps its value, but the list grows all the same. */
    function PushBack(k: Key, dirty: bool): Tracked {
      Tracked(keys + [k], if k in table then table else table[k := dirty])
    }

    function Removed(k: Key): Tracked {
      Tracked(Without(keys, k), table - {k})
    }
  }

  lemma {:induction false} OkSize(t: Tracked)
    requires t.Ok()
    ensures t.Size() == |t.keys| && Members(t.keys) == t.table.Keys
  {
    MembersSize(t.keys);
    assert Members(t.keys) == t.table.Keys;
  }

  lemma {:induction false} PushOk(t: Tracked, k: Key, dirty: bool)
    requires t.Ok() && k !in t.table
    ensures t.PushBack(k, dirty).Ok() && t.PushBack(k, dirty).Size() == t.Size() + 1
  {
    assert t.table[k := dirty].Keys == t.table.Keys + {k};
  }

  lemma {:induction false} CutTable(m: map<Key, bool>, k: Key)
    ensures (m - {k}).Keys == m.Keys - {k} && |m - {k}| == |m| - if k in m then 1 else 0
    ensures k !in m ==> m - {k} == m
  {
    assert (m - {k}).Keys == m.Keys - {k};
    assert |m - {k}| == |(m - {k}).Keys| && |m| == |m.Keys|;
  }

  lemma {:induction false} RemoveOk(t: Tracked, k: Key)
    requires t.Ok()
    ensures t.Removed(k).Ok() && t.Removed(k).Size() == t.Size() - if k in t.table then 1 else 0
    ensures k !in t.table ==> t.Removed(k) == t
  {
    WithoutMembers(t.keys, k);
    WithoutDistinct(t.keys, k);
    CutTable(t.table, k);
    if k !in t.table { WithoutAbsent(t.keys, k); }
    var cut, rest := t.table - {k}, Without(t.keys, k);
    hide Distinct, Without;
    forall x ensures x in rest <==> x in cut {
      assert x in cut <==> x in t.table.Keys - {k};
    }
  }

  /** Pushing a key twice and then removing it leaves what removing it once does. */
  lemma {:induction false} PushedAgain(t: Tracked, k: Key, dirty: bool)
    ensures t.PushBack(k, dirty).Removed(k) == t.Removed(k)
  {
    WithoutConcat(t.keys, [k], k);
    assert Without([k], k) == [];
    assert t.PushBack(k, dirty).table - {k} == t.table - {k};
  }

  /** Taking the front, the least recent key. */
  lemma {:induction false} FrontOk(t: Tracked)
    requires t.Ok() && t.Size() > 0
    ensures |t.keys| > 0 && t.keys[0] in t.table
    ensures t.Removed(t.keys[0]) == Tracked(t.keys[1..], t.table - {t.keys[0]})
  {
    OkSize(t);
    var k := t.keys[0];
    WithoutAbsent(t.keys[1..], k);
    assert k in t.keys;
  }

  // ---------- histories ----------

  /** k was written at or after its last miss among the first n accesses. */
  ghost predicate WrittenSinceMiss(ops: seq<Access>, hits: seq<bool>, n: nat, k: Key)
    requires n <= |ops| && n <= |hits|
  {
    exists i :: 0 <= i < n && ops[i] == Access(k, true) && HitsAfter(ops, hits, i, n, k)
  }

  ghost predicate HitsAfter(ops: seq<Access>, hits: seq<bool>, i: nat, n: nat, k: Key)
    requires n <= |ops| && n <= |hits|
  {
    forall j :: i < j < n && ops[j].key == k ==> hits[j]
  }

  lemma {:induction false} WrittenStep(ops: seq<Access>, hits: seq<bool>, n: nat, k: Key)
    requires n < |ops| && n < |hits|
    ensures WrittenSinceMiss(ops, hits, n + 1, k)
      <==> if ops[n].key != k then WrittenSinceMiss(ops, hits, n, k)
           else ops[n].write || (hits[n] && WrittenSinceMiss(ops, hits, n, k))
  {
    if ops[n] == Access(k, true) {
      assert HitsAfter(ops, hits, n, n + 1, k);
    }
    if WrittenSinceMiss(ops, hits, n, k) && (ops[n].key != k || hits[n]) {
      var i :| 0 <= i < n && ops[i] == Access(k, true) && HitsAfter(ops, hits, i, n, k);
      assert HitsAfter(ops, hits, i, n + 1, k);
    }
    if WrittenSinceMiss(ops, hits, n + 1, k) && ops[n] != Access(k, true) {
      var i :| 0 <= i < n + 1 && ops[i] == Access(k, true) && HitsAfter(ops, hits, i, n + 1, k);
      assert HitsAfter(ops, hits, i, n, k);
    }
  }

  /** One more than the position of the last access to k among the first n; 0 if there is none. */
  ghost function LastUse(ops: seq<Access>, n: nat, k: Key): (r: nat)
    requires n <= |ops|
    ensures r <= n && (r > 0 ==> ops[r - 1].key == k) && forall j :: r <= j < n ==> ops[j].key != k
  {
    if n == 0 then 0 else if ops[n - 1].key == k then n else LastUse(ops, n - 1, k)
  }

  /** Least recently used first, every key used. */
  ghost predicate ByRecency(s: seq<Key>, ops: seq<Access>, n: nat)
    requires n <= |ops|
  {
    && (forall i :: 0 <= i < |s| ==> LastUse(ops, n, s[i]) > 0)
    && (forall i, j :: 0 <= i < j < |s| ==> LastUse(ops, n, s[i]) < LastUse(ops, n, s[j]))
  }

  /** Serving k keeps the order of a list that does not hold it, and k may then go to its back. */
  lemma {:induction false} RecencyStep(s: seq<Key>, ops: seq<Access>, n: nat)
    requires n < |ops| && ByRecency(s, ops, n) && ops[n].key !in s
    ensures ByRecency(s, ops, n + 1) && ByRecency(s + [ops[n].key], ops, n + 1)
  {
  }

  lemma {:induction false} RecencyTail(s: seq<Key>, ops: seq<Access>, n: nat)
    requires n <= |ops| && ByRecency(s, ops, n) && s != []
    ensures ByRecency(s[1..], ops, n) && LastUse(ops, n, s[0]) > 0
    ensures forall x :: x in s[1..] ==> LastUse(ops, n, s[0]) < LastUse(ops, n, x)
  {
    hide LastUse;
  }

  lemma {:induction false} RecencyCons(k: Key, s: seq<Key>, ops: seq<Access>, n: nat)
    requires n <= |ops| && ByRecency(s, ops, n) && LastUse(ops, n, k) > 0
    requires forall x :: x in s ==> LastUse(ops, n, k) < LastUse(ops, n, x)
    ensures ByRecency([k] + s, ops, n)
  {
    hide LastUse;
  }

  lemma {:induction false} RecencyWithout(s: seq<Key>, ops: seq<Access>, n: nat, k: Key)
    requires n <= |ops| && ByRecency(s, ops, n)
    ensures ByRecency(Without(s, k), ops, n)
  {
    if s != [] {
      hide ByRecency, LastUse;
      RecencyTail(s, ops, n);
      RecencyWithout(s[1..], ops, n, k);
      WithoutMembers(s[1..], k);
      if s[0] == k {
        assert Without(s, k) == Without(s[1..], k);
      } else {
        RecencyCons(s[0], Without(s[1..], k), ops, n);
      }
    }
  }
}
