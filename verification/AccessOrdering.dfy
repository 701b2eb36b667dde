/** The precomputed index from a page to the lines at which it is requested (src/sharedDS.cpp). */
module AccessIndex {
  import opened Trace

  /** The lines at which k is requested, in trace order. */
  ghost function LinesOf(t: seq<Request>, k: Key): seq<nat> {
    if t == [] then []
    else LinesOf(t[..|t| - 1], k) + if t[|t| - 1].key == k then [t[|t| - 1].line] else []
  }

  lemma {:induction false} LinesOfMeaning(t: seq<Request>, k: Key)
    requires KeyOrdered(t)
    ensures forall l :: l in LinesOf(t, k) <==> exists i :: 0 <= i < |t| && t[i].key == k && t[i].line == l
    ensures forall a, b :: 0 <= a < b < |LinesOf(t, k)| ==> LinesOf(t, k)[a] < LinesOf(t, k)[b]
  {
    if t != [] {
      var p, r := t[..|t| - 1], t[|t| - 1];
      LinesOfMeaning(p, k);
      forall l | l in LinesOf(t, k) ensures exists i :: 0 <= i < |t| && t[i].key == k && t[i].line == l {
        if l in LinesOf(p, k) {
          var i :| 0 <= i < |p| && p[i].key == k && p[i].line == l;
          assert t[i].key == k && t[i].line == l;
        } else {
          assert t[|p|].key == k && t[|p|].line == l;
        }
      }
      forall i | 0 <= i < |t| && t[i].key == k ensures t[i].line in LinesOf(t, k) {
        if i < |p| {
          assert p[i].key == k;
        }
      }
      var ls := LinesOf(p, k);
      forall a | 0 <= a < |ls| && r.key == k ensures ls[a] < r.line {
        var l := ls[a];
        assert l in ls;
        var i :| 0 <= i < |p| && p[i].key == k && p[i].line == l;
        assert t[i].line < t[|t| - 1].line;
      }
    }
  }

  /** The index holds, for each of the given keys, exactly the lines of that key. */
  ghost predicate Indexes(h: map<Key, seq<nat>>, t: seq<Request>) {
    forall k :: k in h ==> IsEntry(h[k], t, k)
  }

  ghost predicate IsEntry(lines: seq<nat>, t: seq<Request>, k: Key) {
    lines == LinesOf(t, k) && lines != []
  }

  class AccessOrdering {
    var hashTable: map<Key, seq<nat>>
    var built: bool

    constructor ()
      ensures !built && hashTable == map[]
    {
      hashTable, built := map[], false;
    }

    /** Builds the index in one pass over the trace. */
    method PageBaseBuild(t: seq<Request>)
      requires !built && hashTable == map[] && KeyOrdered(t)
      modifies this
      ensures built && Indexes(hashTable, t)
      ensures forall k :: k in hashTable <==> exists i :: 0 <= i < |t| && t[i].key == k
    {
      hide Indexes, KeyOrdered;
      NothingIndexed();
      var i := 0;
      while i < |t|
        invariant 0 <= i <= |t|
        invariant Indexes(hashTable, t[..i])
        invariant forall k :: k in hashTable <==> exists j :: 0 <= j < i && t[j].key == k
      {
        var key, lineNo := t[i].key, t[i].line;
        IndexesMore(hashTable, t, i);
        if key !in hashTable {
          hashTable := hashTable[key := [lineNo]];
        } else {
          assert hashTable[key][|hashTable[key]| - 1] < lineNo;
          hashTable := hashTable[key := hashTable[key] + [lineNo]];
        }
        i := i + 1;
      }
      assert t[..i] == t;
      built := true;
    }

    /** The least line beyond currLine at which key is requested; INF, and the entry dropped, if there is none. */
    method NextAccess(key: Key, currLine: nat, ghost t: seq<Request>) returns (r: nat)
      requires built && key in hashTable && Indexes(hashTable, t) && KeyOrdered(t)
      modifies this`hashTable
      ensures IsNextUse(t, key, currLine, r)
      ensures hashTable == if r == INF then old(hashTable) - {key} else old(hashTable)
    {
      assert IsEntry(hashTable[key], t, key);
      LinesOfMeaning(t, key);
      var tempQ := hashTable[key];
      ghost var all := tempQ;
      ghost var popped := 0;
      while tempQ[0] <= currLine
        invariant 0 <= popped < |all| && tempQ == all[popped..]
        invariant forall a :: 0 <= a < popped ==> all[a] <= currLine
        decreases |tempQ|
      {
        tempQ := tempQ[1..];
        popped := popped + 1;
        if |tempQ| == 0 {
          hashTable := hashTable - {key};
          forall i | 0 <= i < |t| && t[i].key == key ensures t[i].line <= currLine {
            assert t[i].line in all;
          }
          return INF;
        }
      }
      r := tempQ[0];
      assert r in all;
      forall i | 0 <= i < |t| && t[i].key == key && currLine < t[i].line ensures r <= t[i].line {
        assert t[i].line in all;
      }
    }
  }

  lemma {:induction false} NotIndexed(t: seq<Request>, k: Key)
    requires forall i :: 0 <= i < |t| ==> t[i].key != k
    ensures LinesOf(t, k) == []
  {
    if t != [] { NotIndexed(t[..|t| - 1], k); }
  }

  lemma {:induction false} BackBelow(t: seq<Request>, i: nat, k: Key)
    requires KeyOrdered(t) && i < |t| && t[i].key == k
    requires LinesOf(t[..i], k) != []
    ensures LinesOf(t[..i], k)[|LinesOf(t[..i], k)| - 1] < t[i].line
  {
    LinesOfMeaning(t[..i], k);
    var l := LinesOf(t[..i], k)[|LinesOf(t[..i], k)| - 1];
    assert l in LinesOf(t[..i], k);
    var j :| 0 <= j < i && t[..i][j].key == k && t[..i][j].line == l;
    assert t[j].line < t[i].line;
  }

  lemma {:induction false} NothingIndexed()
    ensures Indexes(map[], [])
  {
  }

  lemma {:induction false} LinesMore(t: seq<Request>, i: nat, k: Key)
    requires i < |t|
    ensures LinesOf(t[..i + 1], k) == LinesOf(t[..i], k) + if t[i].key == k then [t[i].line] else []
  {
    assert t[..i + 1][..i] == t[..i];
  }

  /** Entering one more line keeps the index exact. */
  lemma {:induction false} IndexesMore(h: map<Key, seq<nat>>, t: seq<Request>, i: nat)
    requires KeyOrdered(t) && i < |t| && Indexes(h, t[..i])
    requires forall k :: k in h <==> exists j :: 0 <= j < i && t[j].key == k
    ensures var key, line := t[i].key, t[i].line;
      if key in h
      then h[key] != [] && h[key][|h[key]| - 1] < line && Indexes(h[key := h[key] + [line]], t[..i + 1])
      else Indexes(h[key := [line]], t[..i + 1])
  {
    var key := t[i].key;
    if key in h {
      assert IsEntry(h[key], t[..i], key);
      BackBelow(t, i, key);
    } else {
      NotIndexed(t[..i], key);
    }
    hide LinesOf, KeyOrdered;
    forall k | k in h || k == key
      ensures LinesOf(t[..i + 1], k) == LinesOf(t[..i], k) + if t[i].key == k then [t[i].line] else []
    {
      LinesMore(t, i, k);
    }
  }
}
