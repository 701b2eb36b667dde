/** Requests as the trace reader delivers them, and the future of a key read off the trace itself. */
module Trace {

  type Key = nat

  /** The "no further reference" mark of src/global.h. */
  const INF: nat := 0xFFFF_FFFF

  datatype Request = Request(key: Key, line: nat, write: bool)

  /** One request per trace line: line numbers start at 1, increase strictly and stay below INF. */
  ghost predicate ValidTrace(t: seq<Request>) {
    && (forall i :: 0 <= i < |t| ==> 1 <= t[i].line < INF)
    && (forall i, j :: 0 <= i < j < |t| ==> t[i].line < t[j].line)
  }

  /** What the index asks of a trace: lines are not zero, and those of one key increase. Different keys may share a
      line. */
  ghost predicate KeyOrdered(t: seq<Request>) {
    && (forall i :: 0 <= i < |t| ==> 1 <= t[i].line < INF)
    && (forall i, j :: 0 <= i < j < |t| && t[i].key == t[j].key ==> t[i].line < t[j].line)
  }

  /** Requests in the order they are read: lines never decrease, and a key occurs on a line once. */
  ghost predicate LineOrdered(t: seq<Request>) {
    KeyOrdered(t) && forall i, j :: 0 <= i < j < |t| ==> t[i].line <= t[j].line
  }

  /** Plain scan: the line of the first request for k at position i or later, INF if there is none. */
  ghost function NextUse(t: seq<Request>, i: nat, k: Key): nat
    requires i <= |t|
    decreases |t| - i
  {
    if i == |t| then INF
    else if t[i].key == k then t[i].line
    else NextUse(t, i + 1, k)
  }

  /** r is the least line after `line` at which k occurs, or INF when k does not occur any more. */
  ghost predicate IsNextUse(t: seq<Request>, k: Key, line: nat, r: nat) {
    if r == INF then
      forall i :: 0 <= i < |t| && t[i].key == k ==> t[i].line <= line
    else
      && line < r
      && (exists i :: 0 <= i < |t| && t[i].key == k && t[i].line == r)
      && (forall i :: 0 <= i < |t| && t[i].key == k && line < t[i].line ==> r <= t[i].line)
  }

  /** A finite next use is the line of some request at i or later, and every earlier one is for another key. */
  lemma {:induction false} NextUseMeaning(t: seq<Request>, i: nat, k: Key)
    requires KeyOrdered(t) && i <= |t|
    ensures NextUse(t, i, k) <= INF
    ensures NextUse(t, i, k) == INF <==> forall j :: i <= j < |t| ==> t[j].key != k
    ensures NextUse(t, i, k) < INF ==>
      exists j :: i <= j < |t| && t[j].key == k && t[j].line == NextUse(t, i, k)
                  && forall m :: i <= m < j ==> t[m].key != k
    decreases |t| - i
  {
    if i < |t| && t[i].key != k {
      NextUseMeaning(t, i + 1, k);
      if NextUse(t, i, k) < INF {
        var j :| i + 1 <= j < |t| && t[j].key == k && t[j].line == NextUse(t, i + 1, k)
                 && forall m :: i + 1 <= m < j ==> t[m].key != k;
        assert t[j].line == NextUse(t, i, k) && forall m :: i <= m < j ==> t[m].key != k;
      }
    }
  }

  /** Right after position i, the declarative next use and the scan agree. */
  lemma {:induction false} NextUseIsScan(t: seq<Request>, i: nat, k: Key, r: nat)
    requires KeyOrdered(t) && i < |t| && t[i].key == k
    requires IsNextUse(t, k, t[i].line, r)
    ensures r == NextUse(t, i + 1, k)
  {
    var n := NextUse(t, i + 1, k);
    NextUseMeaning(t, i + 1, k);
    if n < INF {
      var j :| i + 1 <= j < |t| && t[j].key == k && t[j].line == n;
      assert t[i].line < t[j].line;
      assert r != INF && r <= n;
    }
    if r != INF {
      var j :| 0 <= j < |t| && t[j].key == k && t[j].line == r;
      assert i < j;
      assert n < INF;
    }
  }

  /** No use from position i on is on an earlier line than the request at i. */
  lemma {:induction false} NextUseBound(t: seq<Request>, i: nat, k: Key)
    requires LineOrdered(t) && i < |t|
    ensures t[i].line <= NextUse(t, i, k) <= INF && t[i].line <= NextUse(t, i + 1, k) <= INF
    ensures k == t[i].key ==> t[i].line < NextUse(t, i + 1, k)
  {
    NextUseMeaning(t, i, k);
    NextUseMeaning(t, i + 1, k);
  }

  /** A key requested at j or later is next used no later than that. */
  lemma {:induction false} NextUseAtMost(t: seq<Request>, i: nat, j: nat, k: Key)
    requires LineOrdered(t) && i <= j < |t| && t[j].key == k
    ensures NextUse(t, i, k) <= t[j].line
    decreases j - i
  {
    if i < j && t[i].key != k { NextUseAtMost(t, i + 1, j, k); }
  }

  /** Serving a request for another key changes nothing. */
  lemma {:induction false} NextUseStays(t: seq<Request>, i: nat, k: Key)
    requires i < |t|
    ensures NextUse(t, i, k) == if t[i].key == k then t[i].line else NextUse(t, i + 1, k)
  {
  }
}
