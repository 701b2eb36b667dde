/** The bus channel scheduler (flashsim/ssd_channel.cpp): requests are fitted into the gaps of a table of reserved
    intervals. Times are reals. */
module Channel {

  datatype Slot = Slot(lock: real, unlock: real)

  /** Two intervals do not overlap. */
  predicate Apart(a: Slot, b: Slot) { a.unlock <= b.lock || b.unlock <= a.lock }

  ghost predicate Exclusive(t: seq<Slot>) {
    forall i, j :: 0 <= i < j < |t| ==> Apart(t[i], t[j])
  }

  ghost predicate Positive(t: seq<Slot>) {
    forall i :: 0 <= i < |t| ==> 0.0 <= t[i].lock < t[i].unlock
  }

  /** One after the other in time. */
  ghost predicate InOrder(t: seq<Slot>) {
    forall i, j :: 0 <= i < j < |t| ==> t[i].unlock <= t[j].lock
  }

  // ---------- unlock ----------

  /** The erase loop: the index moves on after an erasure too, so the entry behind an erased one is skipped. */
  function Pruned(t: seq<Slot>, i: nat, start: real): seq<Slot>
    requires i <= |t|
    decreases |t| - i
  {
    if i == |t| || t[i].unlock > start then t
    else if i + 1 >= |t| then t[..i]
    else Pruned(t[..i] + t[i + 1..], i + 1, start)
  }

  /** What the loop leaves: of each expired pair at the front only the second entry; all from the first entry at an even
      position that is not expired. */
  ghost function Survivors(t: seq<Slot>, start: real): seq<Slot> {
    if t == [] || t[0].unlock > start then t
    else if |t| == 1 then []
    else [t[1]] + Survivors(t[2..], start)
  }

  lemma {:induction false} PrunedIsSurvivors(t: seq<Slot>, i: nat, start: real)
    requires i <= |t|
    ensures Pruned(t, i, start) == t[..i] + Survivors(t[i..], start)
    decreases |t| - i
  {
    if i < |t| && t[i].unlock <= start {
      var u := t[..i] + t[i + 1..];
      if i + 1 < |t| {
        PrunedIsSurvivors(u, i + 1, start);
        assert u[..i + 1] == t[..i] + [t[i + 1]];
        assert u[i + 1..] == t[i..][2..];
      }
    }
  }

  /** Entry j of the stored table is erased: its position is even, and it and all even positions before it have
      expired. */
  predicate Erased(t: seq<Slot>, j: int, start: real) {
    0 <= j < |t| && j % 2 == 0 && forall k :: 0 <= k <= j && k % 2 == 0 ==> t[k].unlock <= start
  }

  /** Some entry equal to e is left in the table. */
  ghost predicate Left(t: seq<Slot>, e: Slot, start: real) {
    exists j :: 0 <= j < |t| && t[j] == e && !Erased(t, j, start)
  }

  lemma {:induction false} ErasedShift(t: seq<Slot>, j: nat, start: real)
    requires |t| >= 2 && t[0].unlock <= start && j < |t| - 2
    ensures Erased(t, j + 2, start) <==> Erased(t[2..], j, start)
  {
    var u := t[2..];
    if Erased(t, j + 2, start) {
      forall k | 0 <= k <= j && k % 2 == 0 ensures u[k].unlock <= start {
        var m := k + 2;
        assert m % 2 == 0 && t[m].unlock <= start;
      }
    }
    if Erased(u, j, start) {
      forall k | 0 <= k <= j + 2 && k % 2 == 0 ensures t[k].unlock <= start {
        if k >= 2 {
          var m := k - 2;
          assert m % 2 == 0 && u[m].unlock <= start;
        }
      }
    }
  }

  /** Exactly the entries that are not erased survive. */
  lemma {:induction false} SurvivorsAreLeft(t: seq<Slot>, start: real, e: Slot)
    ensures e in Survivors(t, start) <==> Left(t, e, start)
  {
    if t == [] {
    } else if t[0].unlock > start {
      forall j | 0 <= j < |t| ensures !Erased(t, j, start) {
      }
    } else if |t| == 1 {
      assert Erased(t, 0, start);
    } else {
      var u := t[2..];
      SurvivorsAreLeft(u, start, e);
      assert Erased(t, 0, start) && !Erased(t, 1, start);
      if Left(u, e, start) {
        var j :| 0 <= j < |u| && u[j] == e && !Erased(u, j, start);
        ErasedShift(t, j, start);
        assert t[j + 2] == e;
      }
      if Left(t, e, start) && e != t[1] {
        var j :| 0 <= j < |t| && t[j] == e && !Erased(t, j, start);
        var m: nat := j - 2;
        ErasedShift(t, m, start);
        assert u[m] == e;
      }
    }
  }

  /** What pruning keeps, exactly: the entries that are not erased. */
  lemma {:induction false} PrunedExactly(t: seq<Slot>, start: real)
    ensures forall e :: e in Pruned(t, 0, start) <==> Left(t, e, start)
  {
    PrunedIsSurvivors(t, 0, start);
    assert t[0..] == t;
    forall e ensures e in Pruned(t, 0, start) <==> Left(t, e, start) {
      SurvivorsAreLeft(t, start, e);
    }
  }

  /** Every expired entry is erased: all of them are at even positions and no even position before one is live. */
  predicate AllErased(t: seq<Slot>, start: real) {
    forall j :: 0 <= j < |t| && t[j].unlock <= start ==> Erased(t, j, start)
  }

  /** Pruning removes all expired entries exactly if each of them is erased by position. */
  lemma {:induction false} PrunedAllExpired(t: seq<Slot>, start: real)
    ensures (forall e :: e in Pruned(t, 0, start) ==> e.unlock > start) <==> AllErased(t, start)
  {
    PrunedExactly(t, start);
    if !AllErased(t, start) {
      var j :| 0 <= j < |t| && t[j].unlock <= start && !Erased(t, j, start);
      assert Left(t, t[j], start);
    }
  }

  /** Only expired entries are erased. */
  lemma {:induction false} PrunedKeeps(t: seq<Slot>, start: real)
    ensures forall e :: e in Pruned(t, 0, start) ==> e in t
    ensures forall e :: e in t && e !in Pruned(t, 0, start) ==> e.unlock <= start
  {
    PrunedExactly(t, start);
    forall e | e in t && e !in Pruned(t, 0, start) ensures e.unlock <= start {
      var j :| 0 <= j < |t| && t[j] == e;
      assert Erased(t, j, start);
    }
  }

  lemma {:induction false} PrunedExclusive(t: seq<Slot>, i: nat, start: real)
    requires i <= |t| && Exclusive(t) && Positive(t)
    ensures Exclusive(Pruned(t, i, start)) && Positive(Pruned(t, i, start))
    decreases |t| - i
  {
    if i < |t| && t[i].unlock <= start && i + 1 < |t| {
      PrunedExclusive(t[..i] + t[i + 1..], i + 1, start);
    }
  }

  /** Insertion behind the entries that start no later. */
  function Insert(s: seq<Slot>, e: Slot): seq<Slot> {
    if s == [] then [e]
    else if e.lock < s[|s| - 1].lock then Insert(s[..|s| - 1], e) + [s[|s| - 1]]
    else s + [e]
  }

  /** The sort by lock time; entries that start together keep their order. */
  function Sorted(t: seq<Slot>): seq<Slot> {
    if t == [] then [] else Insert(Sorted(t[..|t| - 1]), t[|t| - 1])
  }

  ghost predicate ByLock(t: seq<Slot>) {
    forall i, j :: 0 <= i < j < |t| ==> t[i].lock <= t[j].lock
  }

  lemma {:induction false} InsertHolds(s: seq<Slot>, e: Slot)
    ensures multiset(Insert(s, e)) == multiset(s) + multiset{e}
  {
    if s != [] {
      var front, last := s[..|s| - 1], s[|s| - 1];
      assert s == front + [last];
      if e.lock < last.lock { InsertHolds(front, e); }
    }
  }

  lemma {:induction false} InsertByLock(s: seq<Slot>, e: Slot)
    requires ByLock(s)
    ensures ByLock(Insert(s, e))
  {
    if s != [] && e.lock < s[|s| - 1].lock {
      var front, last := s[..|s| - 1], s[|s| - 1];
      InsertByLock(front, e);
      InsertHolds(front, e);
      var r := Insert(front, e);
      forall i | 0 <= i < |r| ensures r[i].lock <= last.lock {
        assert r[i] in multiset(r);
        assert r[i] in front || r[i] == e;
      }
    }
  }

  lemma {:induction false} SortedIs(t: seq<Slot>)
    ensures multiset(Sorted(t)) == multiset(t) && ByLock(Sorted(t))
  {
    if t == [] {
      assert multiset(Sorted(t)) == multiset(t) && ByLock(Sorted(t));
    } else {
      var front, e := t[..|t| - 1], t[|t| - 1];
      SortedIs(front);
      InsertHolds(Sorted(front), e);
      InsertByLock(Sorted(front), e);
      SortedLast(t);
      hide *;
      assert multiset(front + [e]) == multiset(front) + multiset{e};
    }
  }

  lemma {:induction false} SortedLast(t: seq<Slot>)
    requires t != []
    ensures Sorted(t) == Insert(Sorted(t[..|t| - 1]), t[|t| - 1]) && t == t[..|t| - 1] + [t[|t| - 1]]
  {
    hide Insert;
  }

  lemma {:induction false} InsertExclusive(s: seq<Slot>, e: Slot)
    requires Exclusive(s) && forall i :: 0 <= i < |s| ==> Apart(s[i], e)
    ensures Exclusive(Insert(s, e))
  {
    if s != [] && e.lock < s[|s| - 1].lock {
      var front, last := s[..|s| - 1], s[|s| - 1];
      InsertExclusive(front, e);
      InsertHolds(front, e);
      var r := Insert(front, e);
      forall i | 0 <= i < |r| ensures Apart(r[i], last) {
        assert r[i] in multiset(r);
        assert r[i] in front || r[i] == e;
      }
    }
  }

  /** Sorting disjoint intervals puts them one after the other. */
  lemma {:induction false} SortedInOrder(t: seq<Slot>)
    requires Exclusive(t) && Positive(t)
    ensures InOrder(Sorted(t)) && Positive(Sorted(t)) && forall e :: e in Sorted(t) <==> e in t
  {
    hide Sorted;
    SortedIs(t);
    SortedExclusive(t);
    var s := Sorted(t);
    forall e ensures e in s <==> e in t {
      assert e in s <==> e in multiset(s);
      assert e in t <==> e in multiset(t);
    }
    forall i | 0 <= i < |s| ensures 0.0 <= s[i].lock < s[i].unlock {
      assert s[i] in t;
    }
    ByLockInOrder(s);
  }

  lemma {:induction false} ByLockInOrder(s: seq<Slot>)
    requires ByLock(s) && Exclusive(s) && Positive(s)
    ensures InOrder(s)
  {
    forall i, j | 0 <= i < j < |s| ensures s[i].unlock <= s[j].lock {
      assert Apart(s[i], s[j]);
      assert s[i].lock <= s[j].lock;
    }
  }

  lemma {:induction false} SortedExclusive(t: seq<Slot>)
    requires Exclusive(t)
    ensures Exclusive(Sorted(t))
  {
    if t != [] {
      var front := t[..|t| - 1];
      SortedExclusive(front);
      SortedIs(front);
      var s := Sorted(front);
      forall i | 0 <= i < |s| ensures Apart(s[i], t[|t| - 1]) {
        assert s[i] in multiset(s);
        assert s[i] in front;
      }
      InsertExclusive(s, t[|t| - 1]);
    }
  }

  /** The table a lock call looks at. */
  function Unlocked(t: seq<Slot>, start: real): seq<Slot> { Sorted(Pruned(t, 0, start)) }

  lemma {:induction false} UnlockedOk(t: seq<Slot>, start: real)
    requires Exclusive(t) && Positive(t)
    ensures InOrder(Unlocked(t, start)) && Positive(Unlocked(t, start))
    ensures forall e :: e in Unlocked(t, start) ==> e in t
    ensures forall e :: e in t && e !in Unlocked(t, start) ==> e.unlock <= start
  {
    PrunedExclusive(t, 0, start);
    PrunedKeeps(t, start);
    SortedInOrder(Pruned(t, 0, start));
  }

  /** The entries a call finds are those the stored table has left. */
  lemma {:induction false} UnlockedExactly(t: seq<Slot>, start: real)
    requires Exclusive(t) && Positive(t)
    ensures forall e :: e in Unlocked(t, start) <==> Left(t, e, start)
  {
    PrunedExactly(t, start);
    PrunedExclusive(t, 0, start);
    SortedInOrder(Pruned(t, 0, start));
  }

  // ---------- choosing a slot ----------

  /** The end of the first entry, from index i, that ends at or after start and is followed by a long enough gap;
      failing that the end of the last entry. */
  function FirstGap(t: seq<Slot>, i: nat, start: real, d: real): real
    requires i < |t|
    decreases |t| - i
  {
    if i + 1 == |t| then t[i].unlock
    else if t[i].unlock >= start && t[i + 1].lock - t[i].unlock >= d then t[i].unlock
    else FirstGap(t, i + 1, start, d)
  }

  /** When the transfer is scheduled in a pruned and sorted table. */
  function Scheduled(t: seq<Slot>, start: real, d: real): real {
    if t == [] then start
    else if t[0].lock > start && t[0].lock - start >= d then start
    else FirstGap(t, 0, start, d)
  }

  /** Entry j ends at or after start, and the next one leaves a gap of at least d behind it. */
  ghost predicate GapBehind(t: seq<Slot>, j: int, start: real, d: real) {
    0 <= j < |t| - 1 && t[j].unlock >= start && t[j + 1].lock - t[j].unlock >= d
  }

  /** x is the end of the first entry with such a gap behind it, or of the last entry if there is none. */
  ghost predicate EndOfFirst(t: seq<Slot>, start: real, d: real, x: real) {
    exists j :: 0 <= j < |t| && x == t[j].unlock && (j == |t| - 1 || GapBehind(t, j, start, d))
                && forall k :: 0 <= k < j ==> !GapBehind(t, k, start, d)
  }

  /** x is start, if the table is empty or begins at least d after start, and else the end of that entry: a free start
      later in the table is not looked for. */
  ghost predicate IsChosen(t: seq<Slot>, start: real, d: real, x: real) {
    if t == [] || (t[0].lock > start && t[0].lock >= start + d) then x == start else EndOfFirst(t, start, d, x)
  }

  lemma {:induction false} FirstGapEnds(t: seq<Slot>, i: nat, start: real, d: real) returns (j: nat)
    requires i < |t|
    ensures i <= j < |t| && FirstGap(t, i, start, d) == t[j].unlock && (j == |t| - 1 || GapBehind(t, j, start, d))
    ensures forall k :: i <= k < j ==> !GapBehind(t, k, start, d)
    decreases |t| - i
  {
    j := i;
    if i + 1 < |t| && !GapBehind(t, i, start, d) { j := FirstGapEnds(t, i + 1, start, d); }
  }

  /** The time scheduled, from the entries of the table. */
  lemma {:induction false} ScheduledIsChosen(t: seq<Slot>, start: real, d: real)
    ensures IsChosen(t, start, d, Scheduled(t, start, d))
    ensures t != [] ==> EndOfFirst(t, start, d, FirstGap(t, 0, start, d))
  {
    if t != [] {
      var j := FirstGapEnds(t, 0, start, d);
      assert EndOfFirst(t, start, d, FirstGap(t, 0, start, d));
    }
  }

  /** The interval of length d at x overlaps no entry. */
  ghost predicate Free(t: seq<Slot>, x: real, d: real) {
    forall i :: 0 <= i < |t| ==> Apart(t[i], Slot(x, x + d))
  }

  lemma {:induction false} FirstGapFree(t: seq<Slot>, i: nat, start: real, d: real)
    requires i < |t| && InOrder(t) && Positive(t) && d >= 0.0
    ensures Free(t, FirstGap(t, i, start, d), d) && FirstGap(t, i, start, d) > 0.0
    ensures FirstGap(t, i, start, d) >= t[i].unlock
    decreases |t| - i
  {
    if !(i + 1 == |t| || (t[i].unlock >= start && t[i + 1].lock - t[i].unlock >= d)) {
      FirstGapFree(t, i + 1, start, d);
    }
  }

  /** The slot chosen overlaps nothing in the table. */
  lemma {:induction false} ScheduledFree(t: seq<Slot>, start: real, d: real)
    requires InOrder(t) && Positive(t) && d >= 0.0 && start >= 0.0
    ensures Free(t, Scheduled(t, start, d), d) && Scheduled(t, start, d) >= 0.0
  {
    if t != [] && !(t[0].lock > start && t[0].lock - start >= d) {
      FirstGapFree(t, 0, start, d);
    }
  }

  /** In a pruned and sorted table the slot begins before the requested start exactly if there are entries and the last
      is over by then. */
  lemma {:induction false} ScheduledBeforeStart(t: seq<Slot>, start: real, d: real)
    requires InOrder(t) && Positive(t)
    ensures Scheduled(t, start, d) < start <==> t != [] && t[|t| - 1].unlock < start
  {
    if t != [] && !(t[0].lock > start && t[0].lock - start >= d) {
      GapBeforeStart(t, 0, start, d);
    }
  }

  lemma {:induction false} GapBeforeStart(t: seq<Slot>, i: nat, start: real, d: real)
    requires i < |t| && InOrder(t) && Positive(t)
    ensures FirstGap(t, i, start, d) < start <==> t[|t| - 1].unlock < start
    decreases |t| - i
  {
    if i + 1 < |t| && !(t[i].unlock >= start && t[i + 1].lock - t[i].unlock >= d) {
      GapBeforeStart(t, i + 1, start, d);
    }
  }

  /** x is the earliest slot at or after start. */
  ghost predicate Earliest(t: seq<Slot>, start: real, d: real, x: real) {
    x >= start && Free(t, x, d) && forall y: real :: start <= y < x ==> !Free(t, y, d)
  }

  /** The gap behind an entry that is over before start reaches back to start. */
  lemma {:induction false} GapFree(t: seq<Slot>, i: nat, start: real, d: real)
    requires i + 1 < |t| && InOrder(t) && Positive(t) && t[i].unlock < start && start + d <= t[i + 1].lock
    ensures Free(t, start, d)
  {
  }

  /** No slot between start and the gap chosen is free, unless start itself is and the entries before it are skipped. */
  lemma {:induction false} FirstGapEarliest(t: seq<Slot>, i: nat, start: real, d: real, y: real)
    requires i < |t| && InOrder(t) && Positive(t) && d > 0.0
    requires !Free(t, start, d) || t[0].lock > start
    requires start <= y < FirstGap(t, i, start, d) && y + d > t[i].lock
    ensures !Free(t, y, d)
    decreases |t| - i
  {
    if y < t[i].unlock {
      assert !Apart(t[i], Slot(y, y + d));
    } else if i + 1 < |t| {
      if y + d > t[i + 1].lock {
        FirstGapEarliest(t, i + 1, start, d, y);
      } else if t[i].unlock < start {
        GapFree(t, i, start, d);
      }
    }
  }

  /** The gap chosen begins where an entry ends. */
  lemma {:induction false} FirstGapIsEnd(t: seq<Slot>, i: nat, start: real, d: real)
    requires i < |t|
    ensures exists j :: i <= j < |t| && FirstGap(t, i, start, d) == t[j].unlock
    decreases |t| - i
  {
    if i + 1 < |t| && !(t[i].unlock >= start && t[i + 1].lock - t[i].unlock >= d) {
      FirstGapIsEnd(t, i + 1, start, d);
    } else {
      assert FirstGap(t, i, start, d) == t[i].unlock;
    }
  }

  /** If start is free and an entry ends exactly there, that is the gap chosen. */
  lemma {:induction false} FirstGapAtStart(t: seq<Slot>, i: nat, k: nat, start: real, d: real)
    requires i <= k < |t| && InOrder(t) && Positive(t) && d > 0.0 && Free(t, start, d) && t[k].unlock == start
    ensures FirstGap(t, i, start, d) == start
    decreases |t| - i
  {
    if i < k {
      assert t[i].unlock <= t[k].lock;
      FirstGapAtStart(t, i + 1, k, start, d);
    } else if i + 1 < |t| {
      assert Apart(t[i + 1], Slot(start, start + d));
    }
  }

  /** An entry of the pruned table ends exactly at start. */
  ghost predicate EndsAt(t: seq<Slot>, start: real) {
    exists k :: 0 <= k < |t| && t[k].unlock == start
  }

  /** In a pruned and sorted table the slot is the earliest one, except that a free start is passed over behind an entry
      over by then when no entry ends just there. */
  lemma {:induction false} ScheduledEarliest(t: seq<Slot>, start: real, d: real)
    requires InOrder(t) && Positive(t) && d > 0.0 && start >= 0.0
    ensures Earliest(t, start, d, Scheduled(t, start, d))
      <==> !Free(t, start, d) || t == [] || t[0].lock > start || EndsAt(t, start)
  {
    var x := Scheduled(t, start, d);
    ScheduledFree(t, start, d);
    ScheduledBeforeStart(t, start, d);
    if t != [] && x != start {
      FirstGapIsEnd(t, 0, start, d);
      if Free(t, start, d) && EndsAt(t, start) {
        var k :| 0 <= k < |t| && t[k].unlock == start;
        FirstGapAtStart(t, 0, k, start, d);
      } else if !Free(t, start, d) || t[0].lock > start {
        NotOver(t, start, d);
        forall y: real | start <= y < x ensures !Free(t, y, d) {
          FirstGapEarliest(t, 0, start, d, y);
        }
      }
    } else if t != [] && t[0].lock <= start {
      FirstGapIsEnd(t, 0, start, d);
    }
  }

  /** A table that blocks start, or lies beyond it, is not over by then. */
  lemma {:induction false} NotOver(t: seq<Slot>, start: real, d: real)
    requires InOrder(t) && Positive(t) && t != [] && (!Free(t, start, d) || t[0].lock > start)
    ensures t[|t| - 1].unlock >= start
  {
    if t[|t| - 1].unlock < start {
      forall i | 0 <= i < |t| ensures Apart(t[i], Slot(start, start + d)) {
      }
    }
  }

  // ---------- the same on the stored table ----------

  /** Entries are left, and all of them are over before start. */
  predicate OverBefore(t: seq<Slot>, start: real) {
    && (exists j :: 0 <= j < |t| && !Erased(t, j, start))
    && (forall j :: 0 <= j < |t| && !Erased(t, j, start) ==> t[j].unlock < start)
  }

  /** An entry that ends exactly at start is left. */
  predicate LeftEndsAt(t: seq<Slot>, start: real) {
    exists j :: 0 <= j < |t| && !Erased(t, j, start) && t[j].unlock == start
  }

  lemma {:induction false} OverBeforeUnlocked(t: seq<Slot>, start: real)
    requires Exclusive(t) && Positive(t)
    ensures var u := Unlocked(t, start);
      OverBefore(t, start) <==> u != [] && u[|u| - 1].unlock < start
  {
    var u := Unlocked(t, start);
    UnlockedOk(t, start);
    UnlockedExactly(t, start);
    hide Unlocked, Erased;
    if OverBefore(t, start) {
      var j :| 0 <= j < |t| && !Erased(t, j, start);
      assert Left(t, t[j], start);
      assert Left(t, u[|u| - 1], start);
    }
    if u != [] && u[|u| - 1].unlock < start {
      assert Left(t, u[0], start);
      forall j | 0 <= j < |t| && !Erased(t, j, start) ensures t[j].unlock < start {
        assert Left(t, t[j], start);
        var i :| 0 <= i < |u| && u[i] == t[j];
        LastEndsLast(u, i);
      }
    }
  }

  lemma {:induction false} LastEndsLast(u: seq<Slot>, i: nat)
    requires InOrder(u) && Positive(u) && i < |u|
    ensures u[i].unlock <= u[|u| - 1].unlock
  {
  }

  /** The slot begins before the requested start exactly if entries are left and all of them are over before it. */
  lemma {:induction false} BeginsBeforeStart(t: seq<Slot>, start: real, d: real)
    requires Exclusive(t) && Positive(t)
    ensures Scheduled(Unlocked(t, start), start, d) < start <==> OverBefore(t, start)
  {
    hide Unlocked, OverBefore;
    UnlockedOk(t, start);
    OverBeforeUnlocked(t, start);
    ScheduledBeforeStart(Unlocked(t, start), start, d);
  }

  /** From start on, erased entries block nothing. */
  lemma {:induction false} FreeStored(t: seq<Slot>, start: real, y: real, d: real)
    requires Exclusive(t) && Positive(t) && y >= start
    ensures Free(Unlocked(t, start), y, d) <==> Free(t, y, d)
  {
    var u := Unlocked(t, start);
    UnlockedOk(t, start);
    hide Unlocked;
    if Free(u, y, d) {
      forall j | 0 <= j < |t| ensures Apart(t[j], Slot(y, y + d)) {
        if t[j] in u { var i :| 0 <= i < |u| && u[i] == t[j]; }
      }
    }
    if Free(t, y, d) {
      forall i | 0 <= i < |u| ensures Apart(u[i], Slot(y, y + d)) {
        var j :| 0 <= j < |t| && t[j] == u[i];
      }
    }
  }

  lemma {:induction false} EarliestStored(t: seq<Slot>, start: real, d: real, x: real)
    requires Exclusive(t) && Positive(t)
    ensures Earliest(Unlocked(t, start), start, d, x) <==> Earliest(t, start, d, x)
  {
    hide Unlocked, Free;
    forall y: real | y >= start ensures Free(Unlocked(t, start), y, d) <==> Free(t, y, d) {
      FreeStored(t, start, y, d);
    }
  }

  /** When start is free: no expired entry was left exactly if the table found is empty or begins after start. */
  lemma {:induction false} NoneSkipped(t: seq<Slot>, start: real, d: real)
    requires Exclusive(t) && Positive(t) && d > 0.0 && Free(Unlocked(t, start), start, d)
    ensures var u := Unlocked(t, start);
      && (AllErased(t, start) <==> u == [] || u[0].lock > start)
      && (LeftEndsAt(t, start) <==> EndsAt(u, start))
  {
    var u := Unlocked(t, start);
    UnlockedOk(t, start);
    UnlockedExactly(t, start);
    PrunedAllExpired(t, start);
    PrunedExactly(t, start);
    hide Unlocked, Pruned, Erased, AllErased;
    if u != [] {
      assert Apart(u[0], Slot(start, start + d));
      assert Left(t, u[0], start);
      if u[0].lock > start {
        forall e | e in u ensures e.unlock > start {
          var i :| 0 <= i < |u| && u[i] == e;
        }
      }
    }
    if EndsAt(u, start) {
      var k :| 0 <= k < |u| && u[k].unlock == start;
      assert Left(t, u[k], start);
    }
    if LeftEndsAt(t, start) {
      var j :| 0 <= j < |t| && !Erased(t, j, start) && t[j].unlock == start;
      assert Left(t, t[j], start);
    }
  }

  /** Exactly when the slot is the earliest one at or after start: start is not free, or no expired entry was skipped
      by the erase loop, or one that was ends just there. */
  lemma {:induction false} EarliestFit(t: seq<Slot>, start: real, d: real)
    requires Exclusive(t) && Positive(t) && d > 0.0 && start >= 0.0
    ensures Earliest(t, start, d, Scheduled(Unlocked(t, start), start, d))
      <==> !Free(t, start, d) || AllErased(t, start) || LeftEndsAt(t, start)
  {
    var u := Unlocked(t, start);
    UnlockedOk(t, start);
    EarliestStored(t, start, d, Scheduled(u, start, d));
    FreeStored(t, start, start, d);
    hide Unlocked, Free, Earliest, AllErased, LeftEndsAt, EndsAt, Scheduled;
    ScheduledEarliest(u, start, d);
    if Free(t, start, d) { NoneSkipped(t, start, d); }
  }

  // ---------- runs ----------

  datatype Call = Call(start: real, duration: real)

  /** The table and the greatest unlock time, and every slot granted so far. */
  datatype State = State(table: seq<Slot>, readyAt: real, granted: seq<Slot>)

  function Granted(s: State, c: Call): Slot {
    var x := Scheduled(Unlocked(s.table, c.start), c.start, c.duration);
    Slot(x, x + c.duration)
  }

  function Locked(s: State, c: Call): State {
    var slot := Granted(s, c);
    State(Unlocked(s.table, c.start) + [slot], if slot.unlock > s.readyAt then slot.unlock else s.readyAt,
          s.granted + [slot])
  }

  function After(calls: seq<Call>, n: nat): State
    requires n <= |calls|
  {
    if n == 0 then State([], -1.0, []) else Locked(After(calls, n - 1), calls[n - 1])
  }

  ghost predicate ValidCalls(calls: seq<Call>) {
    forall i :: 0 <= i < |calls| ==> calls[i].start >= 0.0 && calls[i].duration >= 0.0
  }

  ghost predicate PositiveCalls(calls: seq<Call>) {
    forall i :: 0 <= i < |calls| ==> calls[i].duration > 0.0
  }

  lemma {:induction false} LockedOk(s: State, c: Call)
    requires Exclusive(s.table) && Positive(s.table) && c.start >= 0.0 && c.duration > 0.0
    ensures Exclusive(Locked(s, c).table) && Positive(Locked(s, c).table)
  {
    hide Unlocked, Scheduled;
    var t := Unlocked(s.table, c.start);
    UnlockedOk(s.table, c.start);
    ScheduledFree(t, c.start, c.duration);
    InOrderExclusive(t);
  }

  lemma {:induction false} InOrderExclusive(t: seq<Slot>)
    requires InOrder(t)
    ensures Exclusive(t)
  {
  }

  lemma {:induction false} NothingReserved()
    ensures Exclusive([]) && Positive([])
  {
  }

  /** Bus exclusion: in every run with positive durations the reserved intervals are pairwise disjoint. */
  lemma {:induction false} BusExclusion(calls: seq<Call>, n: nat)
    requires ValidCalls(calls) && PositiveCalls(calls) && n <= |calls|
    ensures Exclusive(After(calls, n).table) && Positive(After(calls, n).table)
  {
    hide Locked, Exclusive, Positive;
    if n == 0 {
      NothingReserved();
    } else {
      BusExclusion(calls, n - 1);
      LockedOk(After(calls, n - 1), calls[n - 1]);
    }
  }

  /** ready_at bounds the unlock times granted and is one of them, once there are any. */
  ghost predicate ReadyOk(s: State) {
    && (forall i :: 0 <= i < |s.granted| ==> s.granted[i].unlock <= s.readyAt)
    && (s.readyAt == -1.0 || exists i :: 0 <= i < |s.granted| && s.granted[i].unlock == s.readyAt)
  }

  lemma {:induction false} ReadyStep(s: State, c: Call)
    requires ReadyOk(s)
    ensures ReadyOk(Locked(s, c)) && |Locked(s, c).granted| == |s.granted| + 1
  {
    hide Granted, Unlocked;
    var s' := Locked(s, c);
    assert s'.granted[|s.granted|] == Granted(s, c);
    if s'.readyAt == s.readyAt && s.readyAt != -1.0 {
      var i :| 0 <= i < |s.granted| && s.granted[i].unlock == s.readyAt;
      assert s'.granted[i].unlock == s'.readyAt;
    }
  }

  /** ready_at is the greatest unlock time ever granted. */
  lemma {:induction false} ReadyIsGreatest(calls: seq<Call>, n: nat)
    requires n <= |calls|
    ensures ReadyOk(After(calls, n)) && |After(calls, n).granted| == n
  {
    hide Locked;
    if n > 0 {
      ReadyIsGreatest(calls, n - 1);
      ReadyStep(After(calls, n - 1), calls[n - 1]);
    }
  }

  // ---------- exactly which durations keep the bus exclusive ----------

  ghost predicate DurationsIn(calls: seq<Call>, allowed: iset<real>) {
    forall i :: 0 <= i < |calls| ==> calls[i].duration in allowed
  }

  /** Whatever is called with the allowed durations, the table never holds overlapping intervals. */
  ghost predicate AlwaysExclusive(allowed: iset<real>) {
    forall calls, n: nat :: ValidCalls(calls) && DurationsIn(calls, allowed) && n <= |calls| ==>
      Exclusive(After(calls, n).table)
  }

  /** Empty transfers and real ones are both allowed. */
  ghost predicate MixesEmpty(allowed: iset<real>) {
    0.0 in allowed && exists d :: d in allowed && d > 0.0
  }

  ghost predicate AllEmpty(t: seq<Slot>) {
    forall i :: 0 <= i < |t| ==> t[i].lock == t[i].unlock
  }

  lemma {:induction false} EmptyApart(t: seq<Slot>)
    requires AllEmpty(t)
    ensures Exclusive(t)
  {
  }

  lemma {:induction false} NoneEmpty()
    ensures AllEmpty([])
  {
  }

  lemma {:induction false} EmptyStays(calls: seq<Call>, n: nat)
    requires n <= |calls| && forall i :: 0 <= i < |calls| ==> calls[i].duration == 0.0
    ensures AllEmpty(After(calls, n).table)
  {
    hide After, Locked, AllEmpty;
    NoneEmpty();
    if n == 0 {
      AfterStart(calls);
    } else {
      EmptyStays(calls, n - 1);
      AfterNext(calls, n - 1);
      LockedEmpty(After(calls, n - 1), calls[n - 1]);
    }
  }

  lemma {:induction false} LockedEmpty(s: State, c: Call)
    requires AllEmpty(s.table) && c.duration == 0.0
    ensures AllEmpty(Locked(s, c).table)
  {
    hide Scheduled, Pruned, Sorted;
    PrunedKeeps(s.table, c.start);
    var u := Pruned(s.table, 0, c.start);
    SortedIs(u);
    var t := Sorted(u);
    forall i | 0 <= i < |t| ensures t[i].lock == t[i].unlock {
      assert t[i] in multiset(t);
      assert t[i] in u;
      assert t[i] in s.table;
    }
  }

  /** A real transfer, another, an empty one scheduled between them, and a third real one: it is put on top of the
      second, because the empty entry sorts behind it. */
  function Mixed(d: real): seq<Call> {
    [Call(0.0, d), Call(0.0, d), Call(0.0, 0.0), Call(0.0, d)]
  }

  lemma {:induction false} AfterNext(calls: seq<Call>, n: nat)
    requires n < |calls|
    ensures After(calls, n + 1) == Locked(After(calls, n), calls[n])
  {
  }

  lemma {:induction false} PrunedNone(t: seq<Slot>, start: real)
    requires t != [] ==> t[0].unlock > start
    ensures Pruned(t, 0, start) == t
  {
  }

  lemma {:induction false} MixedOverlaps(d: real)
    requires d > 0.0
    ensures !Exclusive(After(Mixed(d), 4).table)
  {
    hide Pruned, After, Sorted;
    var calls := Mixed(d);
    var a, b, e := Slot(0.0, d), Slot(d, d + d), Slot(d, d);
    AfterStart(calls);
    AfterNext(calls, 0);
    PrunedNone([], 0.0);
    SortedShort(a, b, e);
    assert After(calls, 1).table == [a];
    AfterNext(calls, 1);
    PrunedNone([a], 0.0);
    assert After(calls, 2).table == [a] + [b] == [a, b];
    AfterNext(calls, 2);
    PrunedNone([a, b], 0.0);
    assert After(calls, 3).table == [a, b] + [e] == [a, b, e];
    AfterNext(calls, 3);
    PrunedNone([a, b, e], 0.0);
    assert FirstGap([a, b, e], 2, 0.0, d) == d;
    assert FirstGap([a, b, e], 1, 0.0, d) == d;
    assert Scheduled([a, b, e], 0.0, d) == d;
    var t := After(calls, 4).table;
    assert t == [a, b, e] + [b];
    assert t[1] == b && t[3] == b && !Apart(t[1], t[3]);
  }

  lemma {:induction false} AfterStart(calls: seq<Call>)
    ensures After(calls, 0) == State([], -1.0, [])
  {
  }

  lemma {:induction false} SortedShort(a: Slot, b: Slot, e: Slot)
    requires a.lock <= b.lock <= e.lock
    ensures Sorted([]) == [] && Sorted([a]) == [a] && Sorted([a, b]) == [a, b] && Sorted([a, b, e]) == [a, b, e]
  {
    assert [a][..0] == [] && [a, b][..1] == [a] && [a, b, e][..2] == [a, b];
  }

  lemma {:induction false} MixingOverlaps(allowed: iset<real>)
    requires MixesEmpty(allowed)
    ensures !AlwaysExclusive(allowed)
  {
    hide After, Exclusive;
    var d :| d in allowed && d > 0.0;
    MixedOverlaps(d);
    var calls := Mixed(d);
    assert ValidCalls(calls) && DurationsIn(calls, allowed);
  }

  lemma {:induction false} UnmixedApart(allowed: iset<real>, calls: seq<Call>, n: nat)
    requires !MixesEmpty(allowed) && ValidCalls(calls) && DurationsIn(calls, allowed) && n <= |calls|
    ensures Exclusive(After(calls, n).table)
  {
    hide After, Exclusive, AllEmpty;
    if 0.0 in allowed {
      EmptyStays(calls, n);
      EmptyApart(After(calls, n).table);
    } else {
      BusExclusion(calls, n);
    }
  }

  /** The table stays exclusive in every run over the allowed durations exactly if they do not mix empty and real
      transfers. */
  lemma {:induction false} ExclusiveExactlyWhen(allowed: iset<real>)
    ensures AlwaysExclusive(allowed) <==> !MixesEmpty(allowed)
  {
    hide MixesEmpty, After, Exclusive, ValidCalls, DurationsIn;
    if MixesEmpty(allowed) {
      MixingOverlaps(allowed);
    } else {
      forall calls, n: nat | ValidCalls(calls) && DurationsIn(calls, allowed) && n <= |calls|
        ensures Exclusive(After(calls, n).table)
      {
        UnmixedApart(allowed, calls, n);
      }
    }
  }

  // ---------- every slot ever granted ----------

  ghost predicate StartsInOrder(calls: seq<Call>) {
    forall i, j :: 0 <= i < j < |calls| ==> calls[i].start <= calls[j].start
  }

  /** What was granted is still in the table, or over by time. */
  ghost predicate Accounted(s: State, time: real) {
    forall i :: 0 <= i < |s.granted| ==> s.granted[i] in s.table || s.granted[i].unlock <= time
  }

  /** What holds after every call of a run with starts in order, the last of them at `time`. */
  ghost predicate HistoryOk(s: State, time: real) {
    && Exclusive(s.table) && Positive(s.table) && Positive(s.granted) && ReadyOk(s) && Accounted(s, time)
    && (forall e :: e in s.table ==> e in s.granted) && time >= 0.0
  }

  lemma {:induction false} AccountedStep(s: State, c: Call, time: real)
    requires Exclusive(s.table) && Positive(s.table) && Accounted(s, time) && time <= c.start
    ensures Accounted(Locked(s, c), c.start)
  {
    var t := Unlocked(s.table, c.start);
    UnlockedOk(s.table, c.start);
    hide Unlocked, Scheduled, Exclusive, Positive, InOrder;
    var s' := Locked(s, c);
    forall i | 0 <= i < |s'.granted| ensures s'.granted[i] in s'.table || s'.granted[i].unlock <= c.start {
      if i < |s.granted| {
        var g := s.granted[i];
        if g in t { assert g in s'.table; }
      } else {
        assert s'.table[|t|] == Granted(s, c);
      }
    }
  }

  /** The table only holds slots that were granted, none of them empty. */
  lemma {:induction false} GrantedStep(s: State, c: Call)
    requires Exclusive(s.table) && Positive(s.table) && Positive(s.granted) && c.start >= 0.0 && c.duration > 0.0
    requires forall e :: e in s.table ==> e in s.granted
    ensures Positive(Locked(s, c).granted) && forall e :: e in Locked(s, c).table ==> e in Locked(s, c).granted
  {
    var t, slot, s' := Unlocked(s.table, c.start), Granted(s, c), Locked(s, c);
    UnlockedOk(s.table, c.start);
    hide Unlocked, Scheduled, Exclusive;
    ScheduledFree(t, c.start, c.duration);
    forall e | e in s'.table ensures e in s'.granted {
      if e == slot { assert s'.granted[|s.granted|] == slot; } else { assert e in t; }
    }
  }

  lemma {:induction false} LockedHistory(s: State, c: Call, time: real)
    requires HistoryOk(s, time) && time <= c.start && c.duration > 0.0
    ensures HistoryOk(Locked(s, c), c.start)
  {
    hide Locked, Exclusive, Positive, Accounted, ReadyOk;
    LockedOk(s, c);
    ReadyStep(s, c);
    AccountedStep(s, c, time);
    GrantedStep(s, c);
  }

  lemma {:induction false} NothingGranted(calls: seq<Call>)
    ensures HistoryOk(After(calls, 0), 0.0) && Exclusive(After(calls, 0).granted)
  {
  }

  lemma {:induction false} CallAt(calls: seq<Call>, i: nat)
    requires ValidCalls(calls) && PositiveCalls(calls) && StartsInOrder(calls) && i < |calls|
    ensures calls[i].start >= 0.0 && calls[i].duration > 0.0 && LastStart(calls, i) <= calls[i].start
  {
  }

  /** When the last of the first n calls was made. */
  function LastStart(calls: seq<Call>, n: nat): real
    requires n <= |calls|
  {
    if n == 0 then 0.0 else calls[n - 1].start
  }

  lemma {:induction false} HistoryKept(calls: seq<Call>, n: nat)
    requires ValidCalls(calls) && PositiveCalls(calls) && StartsInOrder(calls) && n <= |calls|
    ensures HistoryOk(After(calls, n), LastStart(calls, n))
  {
    hide *;
    if n == 0 {
      NothingGranted(calls);
      LastStartIs(calls, 0);
    } else {
      HistoryKept(calls, n - 1);
      AfterNext(calls, n - 1);
      CallAt(calls, n - 1);
      LastStartIs(calls, n);
      LockedHistory(After(calls, n - 1), calls[n - 1], LastStart(calls, n - 1));
    }
  }

  lemma {:induction false} LastStartIs(calls: seq<Call>, n: nat)
    requires n <= |calls|
    ensures LastStart(calls, n) == if n == 0 then 0.0 else calls[n - 1].start
  {
  }

  /** The unlock times left are over before start, and the latest of them is not the latest ever granted. */
  predicate BehindHistory(s: State, start: real) {
    && OverBefore(s.table, start)
    && forall j :: 0 <= j < |s.table| && !Erased(s.table, j, start) ==> s.table[j].unlock != s.readyAt
  }

  /** Some slot granted before begins after the entries left, and before the new transfer would end. */
  ghost predicate RunsInto(s: State, c: Call) {
    && OverBefore(s.table, c.start)
    && exists i :: 0 <= i < |s.granted| && Granted(s, c).lock <= s.granted[i].lock < Granted(s, c).unlock
  }

  /** Over a table of expired entries the transfer is put at the end of the last one. */
  lemma {:induction false} SlotBehind(s: State, c: Call)
    requires Exclusive(s.table) && Positive(s.table) && OverBefore(s.table, c.start)
    ensures var x := Granted(s, c).lock;
      && (exists j :: 0 <= j < |s.table| && !Erased(s.table, j, c.start) && s.table[j].unlock == x)
      && (forall j :: 0 <= j < |s.table| && !Erased(s.table, j, c.start) ==> s.table[j].unlock <= x)
  {
    var u := Unlocked(s.table, c.start);
    UnlockedOk(s.table, c.start);
    UnlockedExactly(s.table, c.start);
    OverBeforeUnlocked(s.table, c.start);
    hide Unlocked, Erased, OverBefore;
    GapIsBehind(u, 0, c.start, c.duration);
    assert Left(s.table, u[|u| - 1], c.start);
    forall j | 0 <= j < |s.table| && !Erased(s.table, j, c.start) ensures s.table[j].unlock <= u[|u| - 1].unlock {
      assert Left(s.table, s.table[j], c.start);
      var i :| 0 <= i < |u| && u[i] == s.table[j];
      LastEndsLast(u, i);
    }
    FirstAtMostLast(u);
  }

  lemma {:induction false} FirstAtMostLast(u: seq<Slot>)
    requires InOrder(u) && Positive(u) && u != []
    ensures u[0].lock < u[|u| - 1].unlock
  {
  }

  lemma {:induction false} GapIsBehind(u: seq<Slot>, i: nat, start: real, d: real)
    requires i < |u| && InOrder(u) && Positive(u) && u[|u| - 1].unlock < start
    ensures FirstGap(u, i, start, d) == u[|u| - 1].unlock
    decreases |u| - i
  {
    LastEndsLast(u, i);
    if i + 1 < |u| { GapIsBehind(u, i + 1, start, d); }
  }

  lemma {:induction false} BehindApart(s: State, c: Call, time: real)
    requires HistoryOk(s, time) && Exclusive(s.granted) && c.duration > 0.0 && OverBefore(s.table, c.start)
    ensures forall i :: 0 <= i < |s.granted| ==>
      (Apart(s.granted[i], Granted(s, c)) <==>
       !(Granted(s, c).lock <= s.granted[i].lock < Granted(s, c).unlock))
  {
    var slot := Granted(s, c);
    SlotBehind(s, c);
    hide Granted, Erased, OverBefore, ReadyOk, Accounted, HistoryOk;
    var j :| 0 <= j < |s.table| && !Erased(s.table, j, c.start) && s.table[j].unlock == slot.lock;
    TableGranted(s, time, j);
    var k :| 0 <= k < |s.granted| && s.granted[k] == s.table[j];
    forall i | 0 <= i < |s.granted|
      ensures Apart(s.granted[i], slot) <==> !(slot.lock <= s.granted[i].lock < slot.unlock)
    {
      SlotLength(s, c);
      PairApart(s.granted, i, k);
    }
  }

  /** The new slot keeps the history exclusive exactly if it does not run into an earlier slot. */
  lemma {:induction false} HistoryStep(s: State, c: Call, time: real)
    requires HistoryOk(s, time) && Exclusive(s.granted) && time <= c.start && c.duration > 0.0
    ensures Exclusive(Locked(s, c).granted) <==> !RunsInto(s, c)
  {
    BeginsBeforeStart(s.table, c.start, c.duration);
    ExclusivePlus(s.granted, Granted(s, c));
    SlotLock(s, c);
    hide Granted, OverBefore, HistoryOk, Exclusive, Apart;
    if OverBefore(s.table, c.start) {
      BehindApart(s, c, time);
    } else {
      SlotApart(s, c, time);
    }
  }

  lemma {:induction false} SlotLock(s: State, c: Call)
    ensures Granted(s, c).lock == Scheduled(Unlocked(s.table, c.start), c.start, c.duration)
  {
  }

  lemma {:induction false} SlotLength(s: State, c: Call)
    ensures Granted(s, c).unlock == Granted(s, c).lock + c.duration
  {
  }

  lemma {:induction false} TableGranted(s: State, time: real, j: nat)
    requires HistoryOk(s, time) && j < |s.table|
    ensures s.table[j] in s.granted && Positive(s.granted)
  {
  }

  lemma {:induction false} PairApart(g: seq<Slot>, i: nat, k: nat)
    requires Exclusive(g) && i < |g| && k < |g|
    ensures i == k || Apart(g[i], g[k])
  {
  }

  lemma {:induction false} ExclusivePlus(g: seq<Slot>, e: Slot)
    requires Exclusive(g)
    ensures Exclusive(g + [e]) <==> forall i :: 0 <= i < |g| ==> Apart(g[i], e)
  {
    var h := g + [e];
    if Exclusive(h) {
      forall i | 0 <= i < |g| ensures Apart(g[i], e) {
        assert Apart(h[i], h[|g|]);
      }
    }
  }

  /** A slot at or after its start is apart from all granted before. */
  lemma {:induction false} SlotApart(s: State, c: Call, time: real)
    requires HistoryOk(s, time) && time <= c.start && c.duration > 0.0 && Granted(s, c).lock >= c.start
    ensures forall i :: 0 <= i < |s.granted| ==> Apart(s.granted[i], Granted(s, c))
  {
    var t, slot := Unlocked(s.table, c.start), Granted(s, c);
    hide Unlocked, Scheduled, ReadyOk;
    UnlockedOk(s.table, c.start);
    ScheduledFree(t, c.start, c.duration);
    forall i | 0 <= i < |s.granted| ensures Apart(s.granted[i], slot) {
      var g := s.granted[i];
      if g in t { var j :| 0 <= j < |t| && t[j] == g; }
    }
  }

  /** Before a call: every duration keeps the history exclusive exactly if some entry left ends at or after start, or
      none is left, or the latest left is the latest ever granted. */
  lemma {:induction false} EveryDurationSafe(s: State, start: real, time: real)
    requires HistoryOk(s, time) && Exclusive(s.granted) && time <= start
    ensures (forall d: real :: d > 0.0 ==> Exclusive(Locked(s, Call(start, d)).granted)) <==> !BehindHistory(s, start)
  {
    hide HistoryOk, Exclusive, Locked, Granted, Erased;
    forall d: real | d > 0.0 && !BehindHistory(s, start) ensures Exclusive(Locked(s, Call(start, d)).granted) {
      HistoryStep(s, Call(start, d), time);
      if OverBefore(s.table, start) { AheadOfHistory(s, Call(start, d), time); }
    }
    if BehindHistory(s, start) {
      var d := DurationInto(s, start, time);
      HistoryStep(s, Call(start, d), time);
      assert !Exclusive(Locked(s, Call(start, d)).granted);
    }
  }

  lemma {:induction false} AheadOfHistory(s: State, c: Call, time: real)
    requires HistoryOk(s, time) && c.duration > 0.0 && OverBefore(s.table, c.start) && !BehindHistory(s, c.start)
    ensures !RunsInto(s, c)
  {
    hide Granted, Erased;
    SlotBehind(s, c);
  }

  /** Over a table of expired entries the place of a transfer does not depend on its length. */
  lemma {:induction false} SlotAnyLength(s: State, start: real, d: real, e: real)
    requires Exclusive(s.table) && Positive(s.table) && OverBefore(s.table, start)
    ensures Granted(s, Call(start, d)).lock == Granted(s, Call(start, e)).lock
  {
    SlotBehind(s, Call(start, d));
    SlotBehind(s, Call(start, e));
    hide Granted, Erased, OverBefore, Exclusive, Positive;
  }

  /** A transfer long enough to reach the latest slot granted. */
  lemma {:induction false} DurationInto(s: State, start: real, time: real) returns (d: real)
    requires HistoryOk(s, time) && Exclusive(s.granted) && BehindHistory(s, start)
    ensures d > 0.0 && RunsInto(s, Call(start, d))
  {
    var x := Granted(s, Call(start, 1.0)).lock;
    SlotBehind(s, Call(start, 1.0));
    hide Granted, Erased;
    var j :| 0 <= j < |s.table| && !Erased(s.table, j, start) && s.table[j].unlock == x;
    TableGranted(s, time, j);
    var k :| 0 <= k < |s.granted| && s.granted[k] == s.table[j];
    var i :| 0 <= i < |s.granted| && s.granted[i].unlock == s.readyAt;
    PairApart(s.granted, i, k);
    d := s.readyAt - x;
    SlotAnyLength(s, start, 1.0, d);
    SlotLength(s, Call(start, d));
    hide BehindHistory, HistoryOk, OverBefore, Exclusive;
  }

  /** In any run with starts in order, all slots ever granted are pairwise disjoint, whatever was erased from the table
      in between, exactly if no call ran into an earlier slot behind a table of expired entries. */
  lemma {:induction false} HistoryExclusion(calls: seq<Call>, n: nat)
    requires ValidCalls(calls) && PositiveCalls(calls) && StartsInOrder(calls) && n <= |calls|
    ensures Exclusive(After(calls, n).granted) <==> forall i :: 0 <= i < n ==> !RunsInto(After(calls, i), calls[i])
  {
    hide *;
    if n == 0 {
      NothingGranted(calls);
    } else {
      HistoryExclusion(calls, n - 1);
      HistoryKept(calls, n - 1);
      AfterNext(calls, n - 1);
      CallAt(calls, n - 1);
      GrantedGrows(After(calls, n - 1), calls[n - 1]);
      if Exclusive(After(calls, n - 1).granted) {
        HistoryStep(After(calls, n - 1), calls[n - 1], LastStart(calls, n - 1));
      }
    }
  }

  lemma {:induction false} GrantedGrows(s: State, c: Call)
    ensures Exclusive(Locked(s, c).granted) ==> Exclusive(s.granted)
  {
    hide Granted;
    var g := Locked(s, c).granted;
    if Exclusive(g) {
      forall i, j | 0 <= i < j < |s.granted| ensures Apart(s.granted[i], s.granted[j]) {
        assert Apart(g[i], g[j]);
      }
    }
  }

  /** What a caller can check before each call: with no call made behind the history, it stays exclusive; and behind
      it some duration breaks it. */
  lemma {:induction false} HistorySafeExactlyWhen(calls: seq<Call>, start: real)
    requires ValidCalls(calls) && PositiveCalls(calls) && StartsInOrder(calls) && LastStart(calls, |calls|) <= start
    requires forall i :: 0 <= i < |calls| ==> !BehindHistory(After(calls, i), calls[i].start)
    ensures Exclusive(After(calls, |calls|).granted)
    ensures (forall d: real :: d > 0.0 ==> Exclusive(Locked(After(calls, |calls|), Call(start, d)).granted))
      <==> !BehindHistory(After(calls, |calls|), start)
  {
    hide *;
    NeverBehind(calls, |calls|);
    HistoryKept(calls, |calls|);
    EveryDurationSafe(After(calls, |calls|), start, LastStart(calls, |calls|));
  }

  lemma {:induction false} NeverBehind(calls: seq<Call>, n: nat)
    requires ValidCalls(calls) && PositiveCalls(calls) && StartsInOrder(calls) && n <= |calls|
    requires forall i :: 0 <= i < n ==> !BehindHistory(After(calls, i), calls[i].start)
    ensures Exclusive(After(calls, n).granted)
  {
    hide *;
    if n == 0 {
      NothingGranted(calls);
    } else {
      NeverBehind(calls, n - 1);
      HistoryKept(calls, n - 1);
      AfterNext(calls, n - 1);
      CallAt(calls, n - 1);
      var s, c := After(calls, n - 1), calls[n - 1];
      EveryDurationSafe(s, c.start, LastStart(calls, n - 1));
      assert Call(c.start, c.duration) == c;
    }
  }

  /** Earliest fit at every call of every run. */
  lemma {:induction false} EarliestInRun(calls: seq<Call>, n: nat)
    requires ValidCalls(calls) && PositiveCalls(calls) && n < |calls|
    ensures var s, c := After(calls, n), calls[n];
      Earliest(s.table, c.start, c.duration, Granted(s, c).lock)
      <==> !Free(s.table, c.start, c.duration) || AllErased(s.table, c.start) || LeftEndsAt(s.table, c.start)
  {
    BusExclusion(calls, n);
    hide After, Earliest, AllErased, LeftEndsAt, Free, Exclusive, Positive, Unlocked, Scheduled;
    EarliestFit(After(calls, n).table, calls[n].start, calls[n].duration);
  }

  /** The condition is needed: three transfers in a row, and a fourth long after. Its unlock erases the first and the
      third and skips the second, so it is scheduled at the end of the second, over the third. */
  function Late(): seq<Call> {
    [Call(0.0, 1.0), Call(0.0, 1.0), Call(0.0, 1.0), Call(10.0, 1.0)]
  }

  lemma {:induction false} LateOverlaps()
    ensures ValidCalls(Late()) && PositiveCalls(Late()) && StartsInOrder(Late())
    ensures !Exclusive(After(Late(), 4).granted) && Granted(After(Late(), 3), Late()[3]).lock < Late()[3].start
    ensures !Earliest(After(Late(), 3).table, 10.0, 1.0, Granted(After(Late(), 3), Late()[3]).lock)
  {
    hide Pruned, After, Sorted;
    var calls := Late();
    var a, b, e := Slot(0.0, 1.0), Slot(1.0, 2.0), Slot(2.0, 3.0);
    ThreeInARow(a, b, e);
    AfterNext(calls, 3);
    SkipsOne(a, b, e);
    SortedShort(b, b, b);
    var s := After(calls, 4);
    assert s.granted == [a, b, e] + [e];
    assert s.granted[2] == e && s.granted[3] == e && !Apart(e, e);
  }

  lemma {:induction false} ThreeInARow(a: Slot, b: Slot, e: Slot)
    requires a == Slot(0.0, 1.0) && b == Slot(1.0, 2.0) && e == Slot(2.0, 3.0)
    ensures After(Late(), 3).table == [a, b, e] && After(Late(), 3).granted == [a, b, e]
  {
    hide Pruned, After, Sorted;
    var calls := Late();
    AfterStart(calls);
    SortedShort(a, b, e);
    PrunedNone([], 0.0);
    AfterNext(calls, 0);
    assert After(calls, 1).table == [a] && After(calls, 1).granted == [a];
    PrunedNone([a], 0.0);
    AfterNext(calls, 1);
    assert After(calls, 2).table == [a] + [b] == [a, b] && After(calls, 2).granted == [a] + [b];
    PrunedNone([a, b], 0.0);
    AfterNext(calls, 2);
    assert FirstGap([a, b], 1, 0.0, 1.0) == 2.0;
    assert FirstGap([a, b], 0, 0.0, 1.0) == 2.0;
    assert After(calls, 3).table == [a, b] + [e] && After(calls, 3).granted == [a, b] + [e];
  }

  lemma {:induction false} SkipsOne(a: Slot, b: Slot, e: Slot)
    requires a.unlock <= 10.0 && b.unlock <= 10.0 && e.unlock <= 10.0
    ensures Pruned([a, b, e], 0, 10.0) == [b]
  {
    assert [a, b, e][..0] + [a, b, e][1..] == [b, e];
    assert Pruned([b, e], 1, 10.0) == [b, e][..1] == [b];
  }

  class Channel {
    var timings: seq<Slot>
    var readyAt: real
    ghost var granted: seq<Slot>

    ghost function View(): State
      reads this
    {
      State(timings, readyAt, granted)
    }

    constructor ()
      ensures View() == State([], -1.0, [])
    {
      timings, readyAt, granted := [], -1.0, [];
    }

    /** Erases expired entries, skipping the one behind each, and sorts what is left. */
    method Unlock(start: real)
      modifies this`timings
      ensures timings == Unlocked(old(timings), start)
    {
      var it := 0;
      while it < |timings|
        invariant it <= |timings| && Pruned(timings, it, start) == Pruned(old(timings), 0, start)
        decreases |timings| - it
      {
        if timings[it].unlock <= start {
          timings := timings[..it] + timings[it + 1..];
        } else {
          break;
        }
        if it == |timings| { break; }
        it := it + 1;
      }
      assert timings == Pruned(old(timings), 0, start);
      timings := Sorted(timings);
    }

    /** Reserves the bus; the results are the waiting time and the total time added to the event. While all
        durations are positive, the reservation overlaps no other in the table. */
    method Lock(start: real, duration: real) returns (wait: real, taken: real)
      requires start >= 0.0 && duration >= 0.0
      modifies this
      ensures View() == Locked(old(View()), Call(start, duration))
      ensures duration > 0.0 && old(Exclusive(timings) && Positive(timings)) ==> Exclusive(timings) && Positive(timings)
      ensures wait == Granted(old(View()), Call(start, duration)).lock - start && taken == wait + duration
      ensures timings == Unlocked(old(timings), start) + [Slot(start + wait, start + taken)]
      ensures IsChosen(Unlocked(old(timings), start), start, duration, start + wait)
    {
      hide Exclusive, Positive, Apart, IsChosen;
      if duration > 0.0 && Exclusive(timings) && Positive(timings) { LockedOk(View(), Call(start, duration)); }
      hide Unlocked;
      Unlock(start);
      var sched := Choose(start, duration);
      timings := timings + [Slot(sched, sched + duration)];
      granted := granted + [Slot(sched, sched + duration)];
      if sched + duration > readyAt {
        readyAt := sched + duration;
      }
      wait := sched - start;
      taken := sched - start + duration;
    }

    /** The time chosen: before the first entry, in a gap between two, or after the last. */
    method Choose(start: real, duration: real) returns (sched: real)
      requires start >= 0.0
      ensures sched == Scheduled(timings, start, duration) && IsChosen(timings, start, duration, sched)
    {
      ScheduledIsChosen(timings, start, duration);
      var free := -1.0;
      sched := free;
      if |timings| == 0 {
        sched := start;
      } else {
        if timings[0].lock > start && timings[0].lock - start >= duration {
          sched := start;
        }
        if sched == free {
          sched := Between(start, duration);
        }
      }
    }

    /** The scan for a gap between two entries, else the end of the last. */
    method Between(start: real, duration: real) returns (sched: real)
      requires |timings| > 0
      ensures sched == FirstGap(timings, 0, start, duration) && EndOfFirst(timings, start, duration, sched)
    {
      ScheduledIsChosen(timings, start, duration);
      hide EndOfFirst;
      var it := 0;
      while it + 1 < |timings|
        invariant it < |timings|
        invariant FirstGap(timings, it, start, duration) == FirstGap(timings, 0, start, duration)
      {
        if timings[it].unlock >= start && timings[it + 1].lock - timings[it].unlock >= duration {
          return timings[it].unlock;
        }
        it := it + 1;
      }
      sched := timings[|timings| - 1].unlock;
    }
  }
}
