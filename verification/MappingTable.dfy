/** The cached mapping table of flashsim/dftl_parent.cpp on values: which entries of the map are marked as cached, with
    their timestamps. */
module MappingTable {
  import opened Options
  import opened Flash
  import opened DftlModel
  import opened Workload

  ghost function Cached(trans: seq<MPage>): set<nat> {
    set v: nat | v < |trans| && trans[v].cached
  }

  /** Entries know their index; timestamps of cached entries are real event times. */
  ghost predicate EntriesOk(trans: seq<MPage>) {
    forall v :: 0 <= v < |trans| ==>
      trans[v].vpn == v && (trans[v].cached ==> trans[v].createTs >= 0.0 && trans[v].modifiedTs >= 0.0)
  }

  /** t' has the same mapping as t. */
  ghost predicate SameMap(t: seq<MPage>, t': seq<MPage>) {
    |t'| == |t| && forall v :: 0 <= v < |t| ==> t'[v].ppn == t[v].ppn
  }

  /** How far the count of cached entries exceeds the counter. */
  ghost function Gap(trans: seq<MPage>, cmt: int): int { |Cached(trans)| - cmt }

  /** Writing an entry taken from an earlier version t0 of the map back into t, with another page. */
  lemma {:induction false} SetPpnEntry(t0: seq<MPage>, t: seq<MPage>, v: nat, ppn: Option<Address>)
    requires EntriesOk(t0) && EntriesOk(t) && |t0| == |t| && v < |t|
    ensures var t' := t[v := t0[v].(ppn := ppn)];
      && EntriesOk(t')
      && Cached(t') == (if t0[v].cached then Cached(t) + {v} else Cached(t) - {v})
      && |Cached(t')| == |Cached(t)| + (if t0[v].cached then 1 else 0) - (if t[v].cached then 1 else 0)
      && (v in Cached(t) <==> t[v].cached) && (v in Cached(t0) <==> t0[v].cached)
  {
    SetEntry(t, v, t0[v].(ppn := ppn));
  }

  lemma {:induction false} MappedAlike(t: seq<MPage>)
    ensures SameMap(t, t)
  {
  }

  lemma {:induction false} SamePpns(t: seq<MPage>, t': seq<MPage>)
    requires SameMap(t, t')
    ensures Ppns(t') == Ppns(t) && |t'| == |t|
  {
  }

  lemma {:induction false} SetEntry(t: seq<MPage>, v: nat, e: MPage)
    requires v < |t|
    ensures Cached(t[v := e]) == if e.cached then Cached(t) + {v} else Cached(t) - {v}
    ensures |Cached(t[v := e])| == |Cached(t)| + (if e.cached then 1 else 0) - (if t[v].cached then 1 else 0)
  {
    var c, c' := Cached(t), Cached(t[v := e]);
    assert c' == if e.cached then c + {v} else c - {v};
  }

  lemma {:induction false} EntryAt(t: seq<MPage>, v: nat)
    requires EntriesOk(t) && v < |t|
    ensures t[v].vpn == v && (t[v].cached ==> t[v].createTs >= 0.0)
  {
  }

  lemma {:induction false} CachedIs(t: seq<MPage>, v: nat)
    requires v < |t|
    ensures v in Cached(t) <==> t[v].cached
  {
  }

  lemma {:induction false} EnterEntry(t: seq<MPage>, v: nat, e: MPage)
    requires EntriesOk(t) && v < |t| && e.vpn == v && e.cached && e.createTs >= 0.0 && e.modifiedTs >= 0.0
    ensures EntriesOk(t[v := e]) && |Cached(t[v := e])| == |Cached(t)| + (if t[v].cached then 0 else 1)
    ensures Cached(t[v := e]) == Cached(t) + {v}
  {
    SetEntry(t, v, e);
  }

  /** The translation page at `base` written back: its cached entries count as unmodified. */
  ghost function Marked(t: seq<MPage>, base: int, per: nat): (r: seq<MPage>)
    ensures |r| == |t|
  {
    seq(|t|, v requires 0 <= v < |t| =>
      if base <= v < base + per && t[v].cached then t[v].(createTs := t[v].modifiedTs) else t[v])
  }

  /** reset_MPage on an entry no longer cached. */
  function Reset(e: MPage): MPage { e.(cached := false, createTs := -2.0, modifiedTs := -2.0) }

  /** Entry v dropped from the table, after writing back its translation page if it was modified. */
  ghost function Dropped(t: seq<MPage>, v: nat, per: nat): seq<MPage>
    requires v < |t| && per > 0
  {
    (if t[v].createTs != t[v].modifiedTs then Marked(t, v - v % per, per) else t)[v := Reset(t[v])]
  }

  lemma {:induction false} MarkedNone(t: seq<MPage>, base: nat)
    ensures Marked(t, base, 0) == t
  {
  }

  lemma {:induction false} MarkedMore(t: seq<MPage>, base: nat, i: nat)
    requires base + i < |t|
    ensures var m, cur := Marked(t, base, i), t[base + i];
      && m[base + i] == cur
      && Marked(t, base, i + 1) == if cur.cached then m[base + i := cur.(createTs := cur.modifiedTs)] else m
  {
  }

  lemma {:induction false} MarkedKeeps(t: seq<MPage>, base: nat, per: nat)
    requires EntriesOk(t)
    ensures var m := Marked(t, base, per); EntriesOk(m) && SameMap(t, m) && Cached(m) == Cached(t)
  {
  }

  /** The two entries lie in the same translation page. */
  ghost predicate SameGroup(u: nat, w: nat, per: nat)
    requires per > 0
  {
    u / per == w / per
  }

  /** An entry of u's translation page was dropped that had been modified since it was cached or written back. */
  ghost predicate WrittenBack(t: seq<MPage>, t': seq<MPage>, u: nat, per: nat)
    requires per > 0 && |t'| == |t|
  {
    exists w :: 0 <= w < |t| && t[w].cached && !t'[w].cached && t[w].createTs != t[w].modifiedTs && SameGroup(u, w, per)
  }

  /** From t to t' entries were dropped from the table, oldest modification first. What stays keeps its modification
      time and counts as unmodified exactly if its translation page was written back; nothing else changes. */
  ghost predicate Evicted(t: seq<MPage>, t': seq<MPage>, per: nat)
    requires per > 0
  {
    && |t'| == |t|
    && (forall u :: 0 <= u < |t| && !t[u].cached ==> t'[u] == t[u])
    && (forall u :: 0 <= u < |t| && t[u].cached && !t'[u].cached ==>
          t'[u] == t[u].(cached := false, createTs := -2.0, modifiedTs := -2.0))
    && (forall u :: 0 <= u < |t| && t'[u].cached ==>
          t[u].cached
          && t'[u] == t[u].(createTs := if WrittenBack(t, t', u, per) then t[u].modifiedTs else t[u].createTs))
    && (forall w, u :: 0 <= w < |t| && 0 <= u < |t| && t[w].cached && !t'[w].cached && t'[u].cached ==>
          t[w].modifiedTs <= t[u].modifiedTs)
  }

  lemma {:induction false} EvictedNone(t: seq<MPage>, per: nat)
    requires per > 0
    ensures Evicted(t, t, per)
  {
  }

  lemma {:induction false} GroupOf(u: nat, v: nat, per: nat)
    requires per > 0
    ensures SameGroup(u, v, per) <==> v - v % per <= u < v - v % per + per
  {
    DivMod(v, per);
    QuotientIs(u, v / per, per);
  }

  lemma {:induction false} QuotientIs(u: nat, q: nat, per: nat)
    requires per > 0
    ensures u / per == q <==> q * per <= u < q * per + per
  {
    DivMod(u, per);
    var r: nat := u / per;
    if r < q {
      MulMono(r + 1, q, per);
      OneMore(r, per);
    } else if q < r {
      MulMono(q + 1, r, per);
      OneMore(q, per);
    }
  }

  lemma {:induction false} OneMore(q: nat, per: nat)
    ensures (q + 1) * per == q * per + per
  {
  }

  /** What dropping entry v does to entry u. */
  lemma {:induction false} DroppedAt(t: seq<MPage>, v: nat, per: nat, u: nat)
    requires per > 0 && v < |t| && u < |t| && t[v].cached
    ensures var d := Dropped(t, v, per);
      && |d| == |t|
      && d[u] == if u == v then Reset(t[v])
                 else if t[u].cached && t[v].createTs != t[v].modifiedTs && SameGroup(u, v, per)
                 then t[u].(createTs := t[u].modifiedTs) else t[u]
  {
    GroupOf(u, v, per);
    hide SameGroup;
  }

  /** t2 is t1 with entry v dropped, entry by entry. */
  ghost predicate DropsOne(t1: seq<MPage>, t2: seq<MPage>, v: nat, per: nat)
    requires per > 0 && v < |t1|
  {
    && |t2| == |t1|
    && forall u :: 0 <= u < |t1| ==>
      t2[u] == if u == v then Reset(t1[v])
               else if t1[u].cached && t1[v].createTs != t1[v].modifiedTs && SameGroup(u, v, per)
               then t1[u].(createTs := t1[u].modifiedTs) else t1[u]
  }

  lemma {:induction false} DroppedIs(t: seq<MPage>, v: nat, per: nat)
    requires per > 0 && v < |t| && t[v].cached
    ensures DropsOne(t, Dropped(t, v, per), v, per)
  {
    hide Dropped, Reset, SameGroup;
    DroppedAt(t, v, per, v);
    forall u | 0 <= u < |t|
      ensures Dropped(t, v, per)[u]
        == if u == v then Reset(t[v])
           else if t[u].cached && t[v].createTs != t[v].modifiedTs && SameGroup(u, v, per)
           then t[u].(createTs := t[u].modifiedTs) else t[u]
    {
      DroppedAt(t, v, per, u);
    }
  }

  lemma {:induction false} GroupTrans(u: nat, v: nat, w: nat, per: nat)
    requires per > 0
    ensures SameGroup(u, v, per) && SameGroup(v, w, per) ==> SameGroup(u, w, per)
  {
  }

  lemma {:induction false} WrittenMore(t: seq<MPage>, t1: seq<MPage>, t2: seq<MPage>, v: nat, per: nat, u: nat)
    requires per > 0 && Evicted(t, t1, per) && v < |t| && t1[v].cached && DropsOne(t1, t2, v, per) && u < |t|
    ensures WrittenBack(t, t2, u, per)
      <==> WrittenBack(t, t1, u, per) || (t1[v].createTs != t1[v].modifiedTs && SameGroup(u, v, per))
  {
    hide SameGroup;
    if WrittenBack(t, t2, u, per) {
      var w :| 0 <= w < |t| && t[w].cached && !t2[w].cached && t[w].createTs != t[w].modifiedTs && SameGroup(u, w, per);
      if w == v && WrittenBack(t, t1, v, per) {
        var x :| 0 <= x < |t| && t[x].cached && !t1[x].cached && t[x].createTs != t[x].modifiedTs
                 && SameGroup(v, x, per);
        GroupTrans(u, v, x, per);
      }
    }
    if WrittenBack(t, t1, u, per) {
      var w :| 0 <= w < |t| && t[w].cached && !t1[w].cached && t[w].createTs != t[w].modifiedTs && SameGroup(u, w, per);
      assert !t2[w].cached;
    }
    if t1[v].createTs != t1[v].modifiedTs && SameGroup(u, v, per) {
      assert t[v].cached && !t2[v].cached && t[v].createTs != t[v].modifiedTs;
    }
  }

  lemma {:induction false} EvictedStep(t: seq<MPage>, t1: seq<MPage>, v: nat, per: nat)
    requires per > 0 && Evicted(t, t1, per) && IsOldest(t1, v)
    ensures Evicted(t, Dropped(t1, v, per), per)
  {
    var t2 := Dropped(t1, v, per);
    DroppedIs(t1, v, per);
    forall u | 0 <= u < |t|
      ensures WrittenBack(t, t2, u, per)
        <==> WrittenBack(t, t1, u, per) || (t1[v].createTs != t1[v].modifiedTs && SameGroup(u, v, per))
    {
      WrittenMore(t, t1, t2, v, per, u);
    }
    hide Dropped, SameGroup, WrittenBack;
  }
  /** The entry the source finds at the front of its modified-time order: cached, none modified earlier. */
  predicate IsOldest(t: seq<MPage>, v: nat) {
    v < |t| && t[v].cached && forall u :: 0 <= u < |t| && t[u].cached ==> t[v].modifiedTs <= t[u].modifiedTs
  }

  lemma {:induction false} OldestExists(t: seq<MPage>, c: set<nat>) returns (v: nat)
    requires c != {} && c <= Cached(t)
    ensures v in c && forall u :: u in c ==> t[v].modifiedTs <= t[u].modifiedTs
    decreases c
  {
    v :| v in c;
    if c != {v} {
      var u := OldestExists(t, c - {v});
      if t[u].modifiedTs < t[v].modifiedTs { v := u; }
    }
  }

  /** A translation page's entries lie inside the map when the map is a whole number of translation pages. */
  lemma {:induction false} GroupInRange(v: nat, n: nat, per: nat)
    requires per > 0 && v < n && n % per == 0
    ensures 0 <= v - v % per && v - v % per + per <= n
  {
    DivMod(v, per);
    DivMod(n, per);
    NextMultiple(v / per, n / per, per, v % per);
  }

  lemma {:induction false} DivMod(a: nat, m: nat)
    requires m > 0
    ensures a == (a / m) * m + a % m && 0 <= a % m < m && a / m >= 0
  {
  }

  /** Below a multiple of per there is room for the rest of one's own group. */
  lemma {:induction false} NextMultiple(q: nat, k: nat, per: nat, r: nat)
    requires r < per && q * per + r < k * per
    ensures 0 <= q * per && q * per + per <= k * per
  {
    if k <= q {
      MulMono(k, q, per);
    } else {
      MulMono(q + 1, k, per);
      assert (q + 1) * per == q * per + per;
    }
    MulMono(0, q, per);
  }

  lemma {:induction false} MulMono(a: nat, b: nat, per: nat)
    requires a <= b
    ensures a * per <= b * per
  {
    MulNat(b - a, per);
    assert (b - a) * per == b * per - a * per;
  }

  lemma {:induction false} MulNat(a: nat, b: nat)
    ensures a * b >= 0
  {
  }

  // ---------- what requests do to the table ----------

  /** Resolving entry v: on a write hit its time is set first; then entries are dropped; a missing entry is cached. */
  ghost predicate Resolved(t: seq<MPage>, t': seq<MPage>, v: nat, isWrite: bool, now: real, per: nat)
    requires per > 0 && v < |t|
  {
    && |t'| == |t|
    && if t[v].cached then Evicted(if isWrite then t[v := t[v].(modifiedTs := now)] else t, t', per)
       else
         && Evicted(t, t'[v := t[v]], per)
         && t'[v] == t[v].(modifiedTs := if isWrite then now + 1.0 else now, createTs := now, cached := true)
  }

  /** The page of an entry was moved by a cleaning: the entry is cached and stamped. */
  ghost predicate EntryMoved(e: MPage, e': MPage, now: real) {
    && e'.ppn.Some?
    && e' == e.(ppn := e'.ppn, modifiedTs := now, createTs := if e.cached then e.createTs else now, cached := true)
  }

  /** Some entries were moved by cleanings, all others are as they were. */
  ghost predicate TableMoved(t: seq<MPage>, t': seq<MPage>, now: real) {
    |t'| == |t| && forall u :: 0 <= u < |t| ==> t'[u] == t[u] || EntryMoved(t[u], t'[u], now)
  }

  lemma {:induction false} TableMovedTrans(t: seq<MPage>, t1: seq<MPage>, t2: seq<MPage>, now: real)
    ensures TableMoved(t, t, now)
    ensures TableMoved(t, t1, now) && TableMoved(t1, t2, now) ==> TableMoved(t, t2, now)
  {
  }

  lemma {:induction false} MoveOne(t: seq<MPage>, t1: seq<MPage>, v: nat, e: MPage, now: real)
    requires TableMoved(t, t1, now) && v < |t| && EntryMoved(t1[v], e, now)
    ensures TableMoved(t, t1[v := e], now)
  {
  }

  /** A trim of a mapped page: its entry is unmapped and otherwise restored; if it was cached and modified, its
      translation page was written back before. */
  ghost predicate Trimmed(t: seq<MPage>, t': seq<MPage>, v: nat, per: nat)
    requires per > 0 && v < |t|
  {
    && |t'| == |t|
    && if t[v].ppn.None? then t' == t
       else
         && t'[v] == t[v].(ppn := None)
         && forall u :: 0 <= u < |t| && u != v ==>
           t'[u] == if t[u].cached && t[v].cached && t[v].createTs != t[v].modifiedTs && SameGroup(u, v, per)
                    then t[u].(createTs := t[u].modifiedTs) else t[u]
  }

  /** A write: the entry is resolved, cleanings may move pages, and the page is mapped anew. */
  ghost predicate Rewritten(t: seq<MPage>, t': seq<MPage>, v: nat, now: real, per: nat)
    requires per > 0 && v < |t|
  {
    && |t'| == |t| && t'[v].ppn.Some?
    && exists t1: seq<MPage>, t2: seq<MPage> ::
      Resolved(t, t1, v, true, now, per) && TableMoved(t1, t2, now)
      && v < |t2| && t' == t2[v := t2[v].(ppn := t'[v].ppn)]
  }

  lemma {:induction false} RewrittenBy(t: seq<MPage>, t1: seq<MPage>, t2: seq<MPage>, t': seq<MPage>, v: nat, now: real,
                                       per: nat)
    requires per > 0 && v < |t| && Resolved(t, t1, v, true, now, per) && TableMoved(t1, t2, now) && v < |t2|
    requires v < |t'| && t' == t2[v := t2[v].(ppn := t'[v].ppn)] && t'[v].ppn.Some?
    ensures Rewritten(t, t', v, now, per)
  {
    assert |t1| == |t|;
    hide Evicted, EntryMoved;
  }

  /** Dropping the entry and putting the unmapped copy back is a trim. */
  lemma {:induction false} TrimmedBy(t: seq<MPage>, v: nat, per: nat)
    requires per > 0 && v < |t|
    ensures var e := t[v].(ppn := None); t[v].ppn.Some? ==>
      && (t[v].cached ==> |Dropped(t, v, per)| == |t| && Trimmed(t, Dropped(t, v, per)[v := e], v, per))
      && (!t[v].cached ==> Trimmed(t, t[v := e], v, per))
  {
    if t[v].cached { DroppedIs(t, v, per); }
    hide Dropped, SameGroup, Reset;
  }

  /** An entry that was not cached is left alone. */
  lemma {:induction false} EvictedOther(t: seq<MPage>, t': seq<MPage>, per: nat, v: nat)
    requires per > 0 && Evicted(t, t', per) && v < |t| && !t[v].cached
    ensures |t'| == |t| && t'[v] == t[v]
  {
  }

  /** What one request at time now does to the table. */
  ghost predicate TableStep(op: Op, now: real, per: nat, t: seq<MPage>, t': seq<MPage>) {
    && per > 0 && op.la < |t| && |t'| == |t|
    && match op
       case ReadOp(la) => Resolved(t, t', la, false, now, per)
       case WriteOp(la, _) => Rewritten(t, t', la, now, per)
       case TrimOp(la) => Trimmed(t, t', la, per)
  }

  /** The entry is cached afterwards and was not, or has another modification time than before. */
  ghost predicate Stamped(t: seq<MPage>, t': seq<MPage>, v: nat)
    requires v < |t| && v < |t'|
  {
    t'[v].cached && (!t[v].cached || t'[v].modifiedTs != t[v].modifiedTs)
  }

  /** Only these requests stamp entry v, and with these times: a read of it that finds it missing; a write of it, one
      later if it was missing, unless a cleaning moved its page too; and any other write, if a cleaning moved the page.
      A read that finds it cached stamps nothing, nor does a trim. */
  ghost predicate StampOf(op: Op, now: real, t: seq<MPage>, t': seq<MPage>, v: nat)
    requires v < |t| && v < |t'|
  {
    match op
    case ReadOp(la) => v == la && !t[v].cached && t'[v].modifiedTs == now
    case WriteOp(la, _) =>
      && t'[v].ppn.Some?
      && (t'[v].modifiedTs == now || (v == la && !t[v].cached && t'[v].modifiedTs == now + 1.0))
    case TrimOp(_) => false
  }

  lemma {:induction false} EvictedStamps(t: seq<MPage>, t': seq<MPage>, per: nat, v: nat)
    requires per > 0 && Evicted(t, t', per) && v < |t|
    ensures |t'| == |t| && (t'[v].cached ==> t[v].cached && t'[v].modifiedTs == t[v].modifiedTs)
  {
    hide WrittenBack;
  }

  lemma {:induction false} ResolvedStamps(t: seq<MPage>, t': seq<MPage>, la: nat, isWrite: bool, now: real, per: nat,
                                          v: nat)
    requires per > 0 && la < |t| && v < |t| && Resolved(t, t', la, isWrite, now, per)
    ensures |t'| == |t|
    ensures v != la && t'[v].cached ==> t[v].cached && t'[v].modifiedTs == t[v].modifiedTs
    ensures v == la && t[v].cached && t'[v].cached ==> t'[v].modifiedTs == if isWrite then now else t[v].modifiedTs
    ensures v == la && !t[v].cached ==> t'[v].cached && t'[v].modifiedTs == if isWrite then now + 1.0 else now
  {
    if t[la].cached {
      EvictedStamps(if isWrite then t[la := t[la].(modifiedTs := now)] else t, t', per, v);
    } else {
      EvictedStamps(t, t'[la := t[la]], per, v);
    }
    hide Evicted;
  }

  lemma {:induction false} WhoStamps(op: Op, now: real, per: nat, t: seq<MPage>, t': seq<MPage>, v: nat)
    requires TableStep(op, now, per, t, t') && v < |t| && Stamped(t, t', v)
    ensures StampOf(op, now, t, t', v)
  {
    match op
    case ReadOp(la) => ResolvedStamps(t, t', la, false, now, per, v);
    case WriteOp(la, _) => WriteStamps(t, t', la, now, per, v);
    case TrimOp(la) =>
  }

  lemma {:induction false} WriteStamps(t: seq<MPage>, t': seq<MPage>, la: nat, now: real, per: nat, v: nat)
    requires per > 0 && la < |t| && v < |t| && Rewritten(t, t', la, now, per) && Stamped(t, t', v)
    ensures t'[v].ppn.Some? && (t'[v].modifiedTs == now || (v == la && !t[v].cached && t'[v].modifiedTs == now + 1.0))
  {
    hide Resolved;
    var t1: seq<MPage>, t2: seq<MPage> :| Resolved(t, t1, la, true, now, per) && TableMoved(t1, t2, now)
      && la < |t2| && t' == t2[la := t2[la].(ppn := t'[la].ppn)];
    ResolvedStamps(t, t1, la, true, now, per, v);
  }

  /** A write leaves an entry that was missing cached. */
  lemma {:induction false} WriteCaches(op: Op, now: real, per: nat, t: seq<MPage>, t': seq<MPage>)
    requires TableStep(op, now, per, t, t') && op.WriteOp? && !t[op.la].cached
    ensures t'[op.la].cached
  {
    hide Resolved;
    var t1: seq<MPage>, t2: seq<MPage> :| Resolved(t, t1, op.la, true, now, per) && TableMoved(t1, t2, now)
      && op.la < |t2| && t' == t2[op.la := t2[op.la].(ppn := t'[op.la].ppn)];
    ResolvedStamps(t, t1, op.la, true, now, per, op.la);
  }

  lemma {:induction false} TrimKeepsMarks(op: Op, now: real, per: nat, t: seq<MPage>, t': seq<MPage>)
    requires TableStep(op, now, per, t, t') && op.TrimOp?
    ensures Cached(t') == Cached(t)
  {
    hide SameGroup;
    assert forall u :: 0 <= u < |t| ==> t'[u].cached == t[u].cached;
  }

  /** Of two entries cached before, neither of them the one requested, the one that is gone was stamped no later than
      the one that stayed without a new stamp (nor one of this very time). */
  lemma {:induction false} DropsOldest(op: Op, now: real, per: nat, t: seq<MPage>, t': seq<MPage>, w: nat, u: nat)
    requires TableStep(op, now, per, t, t') && w < |t| && u < |t| && w != op.la && u != op.la
    requires t[w].cached && !t'[w].cached && t[u].cached && t'[u].cached && !Stamped(t, t', u)
    requires op.WriteOp? ==> t[u].modifiedTs != now
    ensures t[w].modifiedTs <= t[u].modifiedTs
  {
    match op
    case ReadOp(la) => ResolvedDrops(t, t', la, false, now, per, w, u);
    case WriteOp(la, _) =>
      hide Resolved;
      var t1: seq<MPage>, t2: seq<MPage> :| Resolved(t, t1, la, true, now, per) && TableMoved(t1, t2, now)
        && la < |t2| && t' == t2[la := t2[la].(ppn := t'[la].ppn)];
      ResolvedStamps(t, t1, la, true, now, per, u);
      ResolvedStamps(t, t1, la, true, now, per, w);
      ResolvedDrops(t, t1, la, true, now, per, w, u);
    case TrimOp(la) =>
      TrimKeepsMarks(op, now, per, t, t');
      CachedIs(t, w);
      CachedIs(t', w);
  }

  lemma {:induction false} ResolvedDrops(t: seq<MPage>, t': seq<MPage>, la: nat, isWrite: bool, now: real, per: nat,
                                         w: nat, u: nat)
    requires per > 0 && la < |t| && Resolved(t, t', la, isWrite, now, per)
    requires w < |t| && u < |t| && w != la && u != la && t[w].cached && !t'[w].cached && t'[u].cached
    ensures t[w].modifiedTs <= t[u].modifiedTs
  {
    var s := if t[la].cached && isWrite then t[la := t[la].(modifiedTs := now)] else t;
    var s' := if t[la].cached then t' else t'[la := t[la]];
    assert Evicted(s, s', per);
    assert s[w] == t[w] && s[u] == t[u] && s'[w] == t'[w] && s'[u] == t'[u];
    hide WrittenBack;
  }
}
