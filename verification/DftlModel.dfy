/** The page-mapped translation layer on values: map, reverse map, device and free blocks. */
module DftlModel {
  import opened Flash
  import opened Sets
  import opened Options
  import opened BlockPools

  /** One entry of trans_map; ppn None is the source's -1. */
  datatype MPage = MPage(vpn: nat, ppn: Option<Address>, createTs: real, modifiedTs: real, cached: bool)

  ghost function Ppns(trans: seq<MPage>): seq<Option<Address>> {
    seq(|trans|, v requires 0 <= v < |trans| => trans[v].ppn)
  }

  ghost predicate InDevice(dev: seq<BlockView>, a: Address) {
    a.block < |dev| && a.page < |dev[a.block].pages|
  }

  ghost predicate ValidAt(dev: seq<BlockView>, a: Address) {
    InDevice(dev, a) && dev[a.block].pages[a.page] == VALID
  }

  /** `home` inverts `map` exactly on the VALID pages: every mapped logical page is at a VALID physical page
      that knows it, and every VALID physical page belongs to the logical page it names. */
  ghost predicate Bijection(dev: seq<BlockView>, table: seq<Option<Address>>, home: map<Address, nat>) {
    && (forall v :: 0 <= v < |table| && table[v].Some? ==>
          ValidAt(dev, table[v].value) && table[v].value in home && home[table[v].value] == v)
    && (forall a :: ValidAt(dev, a) ==> a in home && home[a] < |table| && table[home[a]] == Some(a))
  }

  ghost predicate DevOk(dev: seq<BlockView>, size: nat) {
    forall b :: 0 <= b < |dev| ==> BlockOk(dev[b], size) && InOrder(dev[b])
  }

  /** Free and fresh blocks are erased; the block being filled is neither; all other blocks are full. */
  ghost predicate PoolsOk(dev: seq<BlockView>, pools: Pools, cur: Option<Address>) {
    && pools.next <= pools.max == |dev| && pools.logActive == 0
    && (forall b :: pools.next <= b < |dev| ==> Clean(dev[b]))
    && (forall i :: 0 <= i < |pools.free| ==> pools.free[i] < pools.next && Clean(dev[pools.free[i]]))
    && (forall i, j :: 0 <= i < j < |pools.free| ==> pools.free[i] != pools.free[j])
    && (cur.Some? ==> cur.value.block < pools.next && cur.value.block !in pools.free)
    && (forall b :: 0 <= b < pools.next && b !in pools.free && (cur.None? || cur.value.block != b) ==>
          dev[b].pagesValid == |dev[b].pages|)
    && pools.dataActive >= pools.next
  }

  /** Every page handed out in the current block has been programmed. */
  ghost predicate CurrentOk(dev: seq<BlockView>, cur: Option<Address>) {
    cur.Some? ==> cur.value.block < |dev| && dev[cur.value.block].pagesValid == cur.value.page + 1
  }

  ghost predicate FlashOk(dev: seq<BlockView>, size: nat, pools: Pools, cur: Option<Address>) {
    size > 0 && DevOk(dev, size) && PoolsOk(dev, pools, cur) && CurrentOk(dev, cur)
  }

  /** The logical array: what each mapped page holds. */
  ghost function Contents(dev: seq<BlockView>, table: seq<Option<Address>>): seq<Option<Data>> {
    seq(|table|, v requires 0 <= v < |table| => DataAt(dev, table[v]))
  }

  // ---------- the next page to write ----------

  ghost predicate AtBlockEnd(cur: Option<Address>, size: nat) {
    cur.None? || cur.value.page == size - 1
  }

  ghost function NextPage(pools: Pools, cur: Option<Address>, size: nat): Address
    requires AtBlockEnd(cur, size) ==> pools.Head().Some?
  {
    if AtBlockEnd(cur, size) then Address(pools.Head().value, 0) else Address(cur.value.block, cur.value.page + 1)
  }

  ghost function NextPools(pools: Pools, cur: Option<Address>, size: nat): Pools
    requires AtBlockEnd(cur, size) ==> pools.Head().Some?
  {
    if AtBlockEnd(cur, size) then pools.Taken(DATA) else pools
  }

  /** The page handed out is EMPTY, the next in order of its block, and nobody's. */
  lemma {:induction false} NextPageEmpty(dev: seq<BlockView>, size: nat, pools: Pools, cur: Option<Address>)
    requires FlashOk(dev, size, pools, cur) && (AtBlockEnd(cur, size) ==> pools.Head().Some?)
    ensures var a := NextPage(pools, cur, size);
      && a.block < |dev| && a.page < size && BlockOk(dev[a.block], size) && InOrder(dev[a.block])
      && dev[a.block].pagesValid == a.page && dev[a.block].pages[a.page] == EMPTY
      && PoolsOk(dev, NextPools(pools, cur, size), Some(a))
      && (AtBlockEnd(cur, size) ==> Clean(dev[a.block]))
  {
    if AtBlockEnd(cur, size) {
      var n := pools.Head().value;
      assert BlockOk(dev[n], size);
    } else {
      assert BlockOk(dev[cur.value.block], size) && InOrder(dev[cur.value.block]);
    }
  }

  // ---------- programming a page, and invalidating the copy it replaces ----------

  ghost function Moved(dev: seq<BlockView>, a: Address, d: Data, gone: Option<Address>): seq<BlockView>
    requires InDevice(dev, a) && a.page < |dev[a.block].data|
    requires gone.Some? ==> InDevice(dev, gone.value)
  {
    var dev1 := dev[a.block := Programmed(dev[a.block], a.page, d)];
    if gone.None? then dev1
    else dev1[gone.value.block := Invalidated(dev1[gone.value.block], gone.value.page)]
  }

  lemma {:induction false} MovedFlash(dev: seq<BlockView>, size: nat, pools: Pools, a: Address, d: Data,
                                      gone: Option<Address>)
    requires size > 0 && DevOk(dev, size) && PoolsOk(dev, pools, Some(a))
    requires InDevice(dev, a) && a.page < size && dev[a.block].pagesValid == a.page && |dev[a.block].data| == size
    requires gone.Some? ==> ValidAt(dev, gone.value)
    ensures FlashOk(Moved(dev, a, d, gone), size, pools, Some(a))
  {
    hide PoolsOk, DevOk, CurrentOk, Moved;
    ProgramFlash(dev, size, pools, a, d);
    var dev1 := dev[a.block := Programmed(dev[a.block], a.page, d)];
    MovedIs(dev, a, d, gone);
    if gone.Some? {
      ProgramKeepsValid(dev, a, d, gone.value);
      hide ValidAt, InDevice, Invalidated, Programmed;
      InvalidatedFlash(dev1, size, pools, Some(a), gone.value);
    }
  }

  /** Programming the page handed out. */
  lemma {:induction false} ProgramFlash(dev: seq<BlockView>, size: nat, pools: Pools, a: Address, d: Data)
    requires size > 0 && DevOk(dev, size) && PoolsOk(dev, pools, Some(a))
    requires InDevice(dev, a) && a.page < size && dev[a.block].pagesValid == a.page && |dev[a.block].data| == size
    ensures FlashOk(dev[a.block := Programmed(dev[a.block], a.page, d)], size, pools, Some(a))
  {
    assert BlockOk(dev[a.block], size) && InOrder(dev[a.block]);
    ProgrammedOk(dev[a.block], size, a.page, d);
    hide BlockOk;
  }

  lemma {:induction false} ProgramKeepsValid(dev: seq<BlockView>, a: Address, d: Data, b: Address)
    requires InDevice(dev, a) && a.page < |dev[a.block].data| && ValidAt(dev, b)
    ensures ValidAt(dev[a.block := Programmed(dev[a.block], a.page, d)], b)
  {
  }

  /** The VALID pages after a move: the new one instead of the old one. */
  lemma {:induction false} MovedValid(dev: seq<BlockView>, size: nat, a: Address, d: Data, gone: Option<Address>)
    requires DevOk(dev, size) && InDevice(dev, a) && a.page < size && |dev[a.block].data| == size
    requires gone.Some? ==> InDevice(dev, gone.value) && gone.value != a
    ensures forall x: Address :: ValidAt(Moved(dev, a, d, gone), x) <==> x == a || (ValidAt(dev, x) && gone != Some(x))
  {
    var dev' := Moved(dev, a, d, gone);
    forall b | 0 <= b < |dev| ensures |dev'[b].pages| == |dev[b].pages| == size {
      assert BlockOk(dev[b], size);
    }
    hide DevOk, BlockOk;
  }

  lemma {:induction false} MovedData(dev: seq<BlockView>, size: nat, a: Address, d: Data, gone: Option<Address>,
                                     x: Address)
    requires DevOk(dev, size) && InDevice(dev, a) && a.page < |dev[a.block].data|
    requires gone.Some? ==> InDevice(dev, gone.value)
    ensures DataAt(Moved(dev, a, d, gone), Some(x)) == if x == a then Some(d) else DataAt(dev, Some(x))
  {
    hide DevOk;
  }

  /** Storing d at a for logical page v, in place of v's old page: only v's contents change. */
  lemma {:induction false} MovedBijection(dev: seq<BlockView>, size: nat, table: seq<Option<Address>>,
                                          home: map<Address, nat>, v: nat, a: Address, d: Data)
    requires DevOk(dev, size) && Bijection(dev, table, home) && v < |table|
    requires InDevice(dev, a) && a.page < size && dev[a.block].pages[a.page] == EMPTY && |dev[a.block].data| == size
    ensures table[v].Some? ==> ValidAt(dev, table[v].value) && table[v].value != a
    ensures var dev' := Moved(dev, a, d, table[v]);
      && Bijection(dev', table[v := Some(a)], home[a := v])
      && Contents(dev', table[v := Some(a)]) == Contents(dev, table)[v := Some(d)]
  {
    var dev' := Moved(dev, a, d, table[v]);
    MovedValid(dev, size, a, d, table[v]);
    assert !ValidAt(dev, a);
    hide DevOk, BlockOk, Moved;
    MovedContents(dev, size, table, home, v, a, d);
    hide ValidAt, InDevice;
  }

  lemma {:induction false} MovedContents(dev: seq<BlockView>, size: nat, table: seq<Option<Address>>,
                                         home: map<Address, nat>, v: nat, a: Address, d: Data)
    requires DevOk(dev, size) && Bijection(dev, table, home) && v < |table|
    requires InDevice(dev, a) && a.page < size && !ValidAt(dev, a) && |dev[a.block].data| == size
    ensures Contents(Moved(dev, a, d, table[v]), table[v := Some(a)]) == Contents(dev, table)[v := Some(d)]
  {
    var dev' := Moved(dev, a, d, table[v]);
    var c, c' := Contents(dev, table), Contents(dev', table[v := Some(a)]);
    forall u | 0 <= u < |table| ensures c'[u] == c[v := Some(d)][u] {
      MovedData(dev, size, a, d, table[v], if u == v || table[u].None? then a else table[u].value);
      hide Moved, DevOk, DataAt;
      assert u != v && table[u].Some? ==> table[u].value != a;
      NoneHasNone(dev);
      NoneHasNone(dev');
    }
  }

  lemma {:induction false} NoneHasNone(dev: seq<BlockView>)
    ensures DataAt(dev, None) == None
  {
  }

  /** Dropping v's page. */
  lemma {:induction false} TrimBijection(dev: seq<BlockView>, size: nat, table: seq<Option<Address>>,
                                         home: map<Address, nat>, v: nat)
    requires DevOk(dev, size) && Bijection(dev, table, home) && v < |table| && table[v].Some?
    ensures var a := table[v].value;
      && ValidAt(dev, a)
      && var dev' := dev[a.block := Invalidated(dev[a.block], a.page)];
         && Bijection(dev', table[v := None], home)
         && Contents(dev', table[v := None]) == Contents(dev, table)[v := None]
  {
    var a := table[v].value;
    var dev' := dev[a.block := Invalidated(dev[a.block], a.page)];
    forall x: Address ensures ValidAt(dev', x) <==> ValidAt(dev, x) && x != a {
    }
    var c, c' := Contents(dev, table), Contents(dev', table[v := None]);
    forall u | 0 <= u < |table| ensures c'[u] == c[v := None][u] {
    }
  }

  lemma {:induction false} InvalidatedFlash(dev: seq<BlockView>, size: nat, pools: Pools, cur: Option<Address>,
                                            a: Address)
    requires FlashOk(dev, size, pools, cur) && ValidAt(dev, a)
    ensures FlashOk(dev[a.block := Invalidated(dev[a.block], a.page)], size, pools, cur)
  {
    assert BlockOk(dev[a.block], size) && InOrder(dev[a.block]);
    InvalidatedOk(dev[a.block], size, a.page);
  }

  // ---------- erasing a cleaned block ----------

  /** Erasing a block without VALID pages changes no contents and adds it to the free list. */
  lemma {:induction false} ErasedFlash(dev: seq<BlockView>, size: nat, pools: Pools, cur: Option<Address>, b: nat)
    requires FlashOk(dev, size, pools, cur) && b < pools.next && dev[b].pagesValid > 0 && dev[b].erasesRemaining >= 1
    requires cur.Some? ==> cur.value.block != b
    ensures FlashOk(dev[b := Erased(dev[b])], size, pools.(free := pools.free + [b]), cur)
  {
    assert BlockOk(dev[b], size) && InOrder(dev[b]);
    ErasedOk(dev[b], size);
  }

  lemma {:induction false} ErasedBijection(dev: seq<BlockView>, size: nat, table: seq<Option<Address>>,
                                           home: map<Address, nat>, b: nat)
    requires DevOk(dev, size) && Bijection(dev, table, home) && b < |dev| && dev[b].erasesRemaining >= 1
    requires forall p :: 0 <= p < |dev[b].pages| ==> dev[b].pages[p] != VALID
    ensures var dev' := dev[b := Erased(dev[b])];
      Bijection(dev', table, home) && Contents(dev', table) == Contents(dev, table)
  {
    var dev' := dev[b := Erased(dev[b])];
    forall x: Address ensures ValidAt(dev', x) <==> ValidAt(dev, x) {
    }
    var c, c' := Contents(dev, table), Contents(dev', table);
    forall u | 0 <= u < |table| ensures c'[u] == c[u] {
    }
  }

  // ---------- cleaning a block: moves are entered in the map only at the end ----------

  /** The map with the pending moves applied. */
  ghost function Effective(trans: seq<MPage>, pending: map<nat, Address>): seq<Option<Address>> {
    seq(|trans|, v requires 0 <= v < |trans| => if v in pending then Some(pending[v]) else trans[v].ppn)
  }

  /** With the moves applied the map is inverted by `home`; the stored reverse map is right for all other pages. */
  ghost predicate Overlay(dev: seq<BlockView>, trans: seq<MPage>, rev: map<Address, nat>,
                          home: map<Address, nat>, pending: map<nat, Address>)
  {
    && Bijection(dev, Effective(trans, pending), home)
    && (forall v :: v in pending ==> v < |trans|)
    && (forall v :: 0 <= v < |trans| && v !in pending && trans[v].ppn.Some? ==>
          trans[v].ppn.value in rev && rev[trans[v].ppn.value] == v)
  }

  /** Progress of the copy loop over block b: pages below i hold nothing valid, no move leads back into b. */
  ghost predicate Cleaning(dev: seq<BlockView>, size: nat, pools: Pools, cur: Option<Address>,
                           pending: map<nat, Address>, b: nat, i: nat)
  {
    && b < pools.next && b < |dev| && dev[b].pagesValid == size && b !in pools.free
    && (cur.Some? ==> cur.value.block != b)
    && (forall v :: v in pending ==> pending[v].block != b)
    && (forall p :: 0 <= p < i && p < |dev[b].pages| ==> dev[b].pages[p] != VALID)
  }

  lemma {:induction false} OverlayStarts(dev: seq<BlockView>, trans: seq<MPage>, rev: map<Address, nat>)
    requires Bijection(dev, Ppns(trans), rev)
    ensures Overlay(dev, trans, rev, rev, map[]) && Effective(trans, map[]) == Ppns(trans)
  {
    assert Effective(trans, map[]) == Ppns(trans);
    assert forall v :: 0 <= v < |trans| ==> Ppns(trans)[v] == trans[v].ppn;
  }

  lemma {:induction false} OverlayEnds(dev: seq<BlockView>, trans: seq<MPage>, rev: map<Address, nat>,
                                       home: map<Address, nat>)
    requires Overlay(dev, trans, rev, home, map[])
    ensures Bijection(dev, Ppns(trans), rev) && Effective(trans, map[]) == Ppns(trans)
  {
    assert Effective(trans, map[]) == Ppns(trans);
    assert forall v :: 0 <= v < |trans| ==> Ppns(trans)[v] == trans[v].ppn;
    forall a | ValidAt(dev, a) ensures a in rev && rev[a] < |trans| && Ppns(trans)[rev[a]] == Some(a) {
      assert Ppns(trans)[home[a]] == Some(a);
    }
  }

  /** The owner of a VALID page of the block being cleaned is found in the stored reverse map. */
  lemma {:induction false} OwnerKnown(dev: seq<BlockView>, size: nat, pools: Pools, cur: Option<Address>,
                                      trans: seq<MPage>, rev: map<Address, nat>, home: map<Address, nat>,
                                      pending: map<nat, Address>, b: nat, i: nat)
    requires Overlay(dev, trans, rev, home, pending) && Cleaning(dev, size, pools, cur, pending, b, i)
    requires ValidAt(dev, Address(b, i))
    ensures Address(b, i) in rev && rev[Address(b, i)] == home[Address(b, i)] < |trans|
    ensures var v := rev[Address(b, i)]; v !in pending && Effective(trans, pending)[v] == Some(Address(b, i))
  {
    var a := Address(b, i);
    var v := home[a];
    assert Effective(trans, pending)[v] == Some(a);
  }

  /** One page moved: the overlay gains the move, contents stay. */
  lemma {:induction false} MoveOverlay(dev: seq<BlockView>, size: nat, trans: seq<MPage>, rev: map<Address, nat>,
                                       home: map<Address, nat>, pending: map<nat, Address>, v: nat, from: Address,
                                       a: Address)
    requires DevOk(dev, size) && Overlay(dev, trans, rev, home, pending)
    requires v < |trans| && v !in pending && trans[v].ppn == Some(from) && ValidAt(dev, from)
    requires InDevice(dev, a) && a.page < size && dev[a.block].pages[a.page] == EMPTY && |dev[a.block].data| == size
    requires |dev[from.block].data| == size
    ensures var dev' := Moved(dev, a, dev[from.block].data[from.page], Some(from));
      && Overlay(dev', trans, rev, home[a := v], pending[v := a])
      && Contents(dev', Effective(trans, pending[v := a])) == Contents(dev, Effective(trans, pending))
  {
    var eff := Effective(trans, pending);
    assert BlockOk(dev[from.block], size);
    var d := dev[from.block].data[from.page];
    assert eff[v] == Some(from);
    MovedBijection(dev, size, eff, home, v, a, d);
    assert Effective(trans, pending[v := a]) == eff[v := Some(a)];
    assert Contents(dev, eff)[v] == Some(d);
    assert Contents(dev, eff)[v := Some(d)] == Contents(dev, eff);
  }

  /** Entering one pending move in the map and the reverse map. */
  lemma {:induction false} EnterMove(dev: seq<BlockView>, trans: seq<MPage>, rev: map<Address, nat>,
                                     home: map<Address, nat>,
                                     pending: map<nat, Address>, v: nat, entry: MPage)
    requires Overlay(dev, trans, rev, home, pending) && v in pending
    requires entry.ppn == Some(pending[v])
    ensures v < |trans|
    ensures Overlay(dev, trans[v := entry], rev[pending[v] := v], home, pending - {v})
    ensures Effective(trans[v := entry], pending - {v}) == Effective(trans, pending)
  {
    var eff := Effective(trans, pending);
    assert Effective(trans[v := entry], pending - {v}) == eff;
    assert eff[v] == Some(pending[v]);
    forall u | 0 <= u < |trans| && u !in pending && trans[u].ppn.Some?
      ensures u != v && trans[u].ppn.value != pending[v]
    {
      assert eff[u] == trans[u].ppn;
    }
  }

  /** Nothing valid is left in b, and b can go to the free list once erased. */
  ghost predicate Cleaned(dev: seq<BlockView>, pools: Pools, cur: Option<Address>, b: nat) {
    && b < |dev| && b < pools.next && b !in pools.free && dev[b].pagesValid > 0
    && (cur.Some? ==> cur.value.block != b)
    && (forall p :: 0 <= p < |dev[b].pages| ==> dev[b].pages[p] != VALID)
  }

  lemma {:induction false} VictimIsFull(dev: seq<BlockView>, size: nat, pools: Pools, cur: Option<Address>, b: nat)
    requires FlashOk(dev, size, pools, cur) && b < |dev| && dev[b].pagesValid == size
    requires cur.Some? ==> cur.value.block != b
    ensures Cleaning(dev, size, pools, cur, map[], b, 0) && pools.next > 0
  {
  }

  /** cleanup_block's own assertion: a full block has no EMPTY page. */
  lemma {:induction false} NotEmpty(dev: seq<BlockView>, size: nat, pools: Pools, cur: Option<Address>,
                                    pending: map<nat, Address>, b: nat, i: nat)
    requires FlashOk(dev, size, pools, cur) && Cleaning(dev, size, pools, cur, pending, b, i) && i < size
    ensures |dev[b].pages| == size == |dev[b].data| && dev[b].pages[i] != EMPTY
  {
    assert BlockOk(dev[b], size) && InOrder(dev[b]);
  }

  lemma {:induction false} CleanSkip(dev: seq<BlockView>, size: nat, pools: Pools, cur: Option<Address>,
                                     pending: map<nat, Address>, b: nat, i: nat)
    requires Cleaning(dev, size, pools, cur, pending, b, i)
    requires i < |dev[b].pages| && dev[b].pages[i] != VALID
    ensures Cleaning(dev, size, pools, cur, pending, b, i + 1)
  {
  }

  /** One iteration of the copy loop on a VALID page. */
  lemma {:induction false} CleanStep(dev: seq<BlockView>, size: nat, pools: Pools, cur: Option<Address>,
                                     trans: seq<MPage>, rev: map<Address, nat>, home: map<Address, nat>,
                                     pending: map<nat, Address>, b: nat, i: nat)
    requires FlashOk(dev, size, pools, cur) && Overlay(dev, trans, rev, home, pending)
    requires Cleaning(dev, size, pools, cur, pending, b, i) && i < size && ValidAt(dev, Address(b, i))
    requires AtBlockEnd(cur, size) ==> pools.Head().Some?
    requires Address(b, i) in rev
    ensures var a, v := NextPage(pools, cur, size), rev[Address(b, i)];
      && a.block < |dev| && a.page < size && |dev[a.block].pages| == size == |dev[a.block].data| && a.block != b
      && dev[a.block].pages[a.page] == EMPTY && |dev[b].data| == size
      && var dev' := Moved(dev, a, dev[b].data[i], Some(Address(b, i)));
         && FlashOk(dev', size, NextPools(pools, cur, size), Some(a))
         && Overlay(dev', trans, rev, home[a := v], pending[v := a])
         && Cleaning(dev', size, NextPools(pools, cur, size), Some(a), pending[v := a], b, i + 1)
         && Contents(dev', Effective(trans, pending[v := a])) == Contents(dev, Effective(trans, pending))
         && dev'[b].erasesRemaining == dev[b].erasesRemaining
  {
    hide Overlay, Contents, Effective, DevOk;
    var a, v := NextPage(pools, cur, size), rev[Address(b, i)];
    NextPageEmpty(dev, size, pools, cur);
    OwnerKnown(dev, size, pools, cur, trans, rev, home, pending, b, i);
    OwnerEntry(trans, pending, v, Address(b, i));
    SizeOf(dev, size, b);
    NotNext(dev, size, pools, cur, b);
    MoveOverlay(dev, size, trans, rev, home, pending, v, Address(b, i), a);
    MovedFlash(dev, size, NextPools(pools, cur, size), a, dev[b].data[i], Some(Address(b, i)));
  }

  lemma {:induction false} OwnerEntry(trans: seq<MPage>, pending: map<nat, Address>, v: nat, a: Address)
    requires v < |trans| && v !in pending && Effective(trans, pending)[v] == Some(a)
    ensures trans[v].ppn == Some(a)
  {
  }

  lemma {:induction false} SizeOf(dev: seq<BlockView>, size: nat, b: nat)
    requires DevOk(dev, size) && b < |dev|
    ensures |dev[b].pages| == size == |dev[b].data|
  {
  }

  lemma {:induction false} NotNext(dev: seq<BlockView>, size: nat, pools: Pools, cur: Option<Address>, b: nat)
    requires FlashOk(dev, size, pools, cur) && (AtBlockEnd(cur, size) ==> pools.Head().Some?)
    requires b < |dev| && dev[b].pagesValid == size && (cur.Some? ==> cur.value.block != b)
    requires b !in pools.free && b < pools.next
    ensures NextPage(pools, cur, size).block != b && b !in NextPools(pools, cur, size).free
    ensures b < NextPools(pools, cur, size).next
  {
  }

  lemma {:induction false} CleaningEnds(dev: seq<BlockView>, size: nat, pools: Pools, cur: Option<Address>,
                                        pending: map<nat, Address>, b: nat)
    requires FlashOk(dev, size, pools, cur) && Cleaning(dev, size, pools, cur, pending, b, size)
    ensures Cleaned(dev, pools, cur, b)
  {
    assert BlockOk(dev[b], size);
  }

  lemma {:induction false} NotAtEnd(cur: Option<Address>, size: nat, i: nat)
    requires i < size
    ensures cur.Some? && cur.value.page < i ==> !AtBlockEnd(cur, size)
  {
  }

  lemma {:induction false} OverlayKeys(dev: seq<BlockView>, trans: seq<MPage>, rev: map<Address, nat>,
                                       home: map<Address, nat>, pending: map<nat, Address>, v: nat)
    requires Overlay(dev, trans, rev, home, pending) && v in pending
    ensures v < |trans|
  {
  }

  lemma {:induction false} DevOfFlash(dev: seq<BlockView>, size: nat, pools: Pools, cur: Option<Address>)
    requires FlashOk(dev, size, pools, cur)
    ensures size > 0 && DevOk(dev, size) && pools.logActive == 0
  {
  }

  /** A page was handed out and awaits its program: it is EMPTY and next in order, all else is consistent. */
  ghost predicate Allotted(dev: seq<BlockView>, size: nat, pools: Pools, a: Address) {
    && size > 0 && DevOk(dev, size) && PoolsOk(dev, pools, Some(a))
    && a.block < |dev| && a.page < size && |dev[a.block].pages| == size == |dev[a.block].data|
    && dev[a.block].pagesValid == a.page && dev[a.block].pages[a.page] == EMPTY
  }

  lemma {:induction false} AllottedParts(dev: seq<BlockView>, size: nat, pools: Pools, a: Address)
    requires Allotted(dev, size, pools, a)
    ensures size > 0 && DevOk(dev, size) && PoolsOk(dev, pools, Some(a)) && InDevice(dev, a)
    ensures a.page < size && |dev[a.block].data| == size
    ensures dev[a.block].pagesValid == a.page && dev[a.block].pages[a.page] == EMPTY
  {
  }

  lemma {:induction false} AllottedFrom(dev: seq<BlockView>, size: nat, pools: Pools, cur: Option<Address>)
    requires FlashOk(dev, size, pools, cur) && (AtBlockEnd(cur, size) ==> pools.Head().Some?)
    ensures Allotted(dev, size, NextPools(pools, cur, size), NextPage(pools, cur, size))
  {
    NextPageEmpty(dev, size, pools, cur);
  }

  lemma {:induction false} SetPpn(trans: seq<MPage>, v: nat, ppn: Option<Address>)
    requires v < |trans|
    ensures |Ppns(trans)| == |trans| && Ppns(trans)[v] == trans[v].ppn
    ensures forall e: MPage :: e.ppn == ppn ==> Ppns(trans[v := e]) == Ppns(trans)[v := ppn]
  {
  }

  lemma {:induction false} Unmapped(dev: seq<BlockView>, trans: seq<MPage>, v: nat)
    requires v < |trans| && trans[v].ppn.None?
    ensures |Contents(dev, Ppns(trans))| == |trans|
    ensures Contents(dev, Ppns(trans))[v := None] == Contents(dev, Ppns(trans))
  {
  }

  lemma {:induction false} MappedIsValid(dev: seq<BlockView>, size: nat, trans: seq<MPage>, rev: map<Address, nat>,
                                         v: nat,
                                         pools: Pools, cur: Option<Address>)
    requires FlashOk(dev, size, pools, cur) && Bijection(dev, Ppns(trans), rev) && v < |trans|
    ensures trans[v].ppn.Some? ==>
      && ValidAt(dev, trans[v].ppn.value) && trans[v].ppn.value.page < size
      && Contents(dev, Ppns(trans))[v] == Some(dev[trans[v].ppn.value.block].data[trans[v].ppn.value.page])
    ensures trans[v].ppn.None? ==> Contents(dev, Ppns(trans))[v] == None
  {
    assert Ppns(trans)[v] == trans[v].ppn;
    if trans[v].ppn.Some? { assert BlockOk(dev[trans[v].ppn.value.block], size); }
  }

  /** There are never more blocks available than blocks. */
  lemma {:induction false} AvailableBound(dev: seq<BlockView>, size: nat, pools: Pools, cur: Option<Address>)
    requires FlashOk(dev, size, pools, cur)
    ensures pools.Available() <= |dev|
  {
    DistinctSize(pools.free);
    SubsetSize((set b | b in pools.free), Below(pools.next));
  }

  lemma {:induction false} MovedIs(dev: seq<BlockView>, a: Address, d: Data, gone: Option<Address>)
    requires InDevice(dev, a) && a.page < |dev[a.block].data|
    requires gone.Some? ==> InDevice(dev, gone.value)
    ensures var dev1 := dev[a.block := Programmed(dev[a.block], a.page, d)];
      Moved(dev, a, d, gone)
      == if gone.None? then dev1
         else dev1[gone.value.block := Invalidated(dev1[gone.value.block], gone.value.page)]
  {
  }

  // ---------- free pages: why collecting garbage makes room ----------

  /** Pages that can be handed out before an erase: the rest of the current block and all available blocks. */
  ghost function FreePages(pools: Pools, cur: Option<Address>, size: nat): int {
    pools.Available() * size + if cur.None? then 0 else size - 1 - cur.value.page
  }

  lemma {:induction false} OneLess(n: int, size: nat)
    ensures (n - 1) * size == n * size - size && (n + 1) * size == n * size + size
  {
  }

  /** Handing out a page uses one up. */
  lemma {:induction false} NextFree(pools: Pools, cur: Option<Address>, size: nat)
    requires size > 0 && (AtBlockEnd(cur, size) ==> pools.Head().Some?)
    ensures FreePages(NextPools(pools, cur, size), Some(NextPage(pools, cur, size)), size)
      == FreePages(pools, cur, size) - 1
  {
    OneLess(pools.Available(), size);
  }

  /** Two blocks' worth of free pages leave two blocks available, whatever is left in the current one. */
  lemma {:induction false} FreeToPool(pools: Pools, a: Address, size: nat)
    requires a.page < size && FreePages(pools, Some(a), size) >= 2 * size
    ensures pools.Available() >= 2
  {
    if pools.Available() <= 1 { TimesMonotone(pools.Available(), 1, size); }
  }

  lemma {:induction false} TimesMonotone(m: int, n: int, size: nat)
    requires m <= n
    ensures m * size <= n * size
  {
    var d := n - m;
    assert d * size >= 0;
    assert d * size == n * size - m * size;
  }

  lemma {:induction false} PoolToFree(pools: Pools, cur: Option<Address>, size: nat, n: nat)
    requires pools.Available() >= n && (cur.Some? ==> cur.value.page < size)
    ensures FreePages(pools, cur, size) >= n * size
  {
    TimesMonotone(n, pools.Available(), size);
  }

  /** dev' lost at most k erases in any block. */
  ghost predicate Worn(dev: seq<BlockView>, dev': seq<BlockView>, k: int) {
    |dev'| == |dev| && forall b :: 0 <= b < |dev| ==> dev'[b].erasesRemaining >= dev[b].erasesRemaining - k
  }

  ghost predicate AnyBelow(dev: seq<BlockView>, k: int) {
    exists b :: 0 <= b < |dev| && dev[b].erasesRemaining < k
  }

  lemma {:induction false} WornTrans(a: seq<BlockView>, b: seq<BlockView>, c: seq<BlockView>, k: int, l: int)
    requires Worn(a, b, k) && Worn(b, c, l)
    ensures Worn(a, c, k + l)
  {
  }

  lemma {:induction false} WornBelow(dev: seq<BlockView>, dev': seq<BlockView>, k: int, l: int)
    requires Worn(dev, dev', k) && AnyBelow(dev', l)
    ensures AnyBelow(dev, l + k)
  {
    var b :| 0 <= b < |dev'| && dev'[b].erasesRemaining < l;
    assert dev[b].erasesRemaining < l + k;
  }

  lemma {:induction false} MovedWear(dev: seq<BlockView>, a: Address, d: Data, gone: Option<Address>)
    requires InDevice(dev, a) && a.page < |dev[a.block].data| && (gone.Some? ==> InDevice(dev, gone.value))
    ensures Worn(dev, Moved(dev, a, d, gone), 0)
    ensures forall x: Address :: InDevice(dev, x) && x != a && dev[x.block].pages[x.page] == INVALID ==>
      InDevice(Moved(dev, a, d, gone), x) && Moved(dev, a, d, gone)[x.block].pages[x.page] == INVALID
  {
  }

  lemma {:induction false} InvalidatedWear(dev: seq<BlockView>, a: Address)
    requires InDevice(dev, a)
    ensures Worn(dev, dev[a.block := Invalidated(dev[a.block], a.page)], 0)
  {
  }

  /** Pages were programmed anywhere and invalidated in block b only; nothing was erased. */
  ghost predicate MovedOut(dev: seq<BlockView>, dev': seq<BlockView>, b: nat) {
    && |dev'| == |dev|
    && forall c :: 0 <= c < |dev| ==>
      dev'[c].erasesRemaining == dev[c].erasesRemaining && (c != b ==> dev'[c].pagesInvalid == dev[c].pagesInvalid)
  }

  lemma {:induction false} MovedOutTrans(x: seq<BlockView>, y: seq<BlockView>, z: seq<BlockView>, b: nat)
    ensures MovedOut(x, x, b)
    ensures MovedOut(x, y, b) && MovedOut(y, z, b) ==> MovedOut(x, z, b)
  {
  }

  lemma {:induction false} MovedIsOut(dev: seq<BlockView>, a: Address, d: Data, b: nat, i: nat)
    requires InDevice(dev, a) && a.page < |dev[a.block].data| && InDevice(dev, Address(b, i))
    ensures MovedOut(dev, Moved(dev, a, d, Some(Address(b, i))), b)
  {
  }

  /** No block was erased twice, and one that was erased has no invalid page. */
  ghost predicate WornOnce(dev: seq<BlockView>, dev': seq<BlockView>) {
    && |dev'| == |dev|
    && forall c :: 0 <= c < |dev| ==>
      && dev'[c].erasesRemaining >= dev[c].erasesRemaining - 1
      && (dev'[c].erasesRemaining < dev[c].erasesRemaining ==> dev'[c].pagesInvalid == 0)
  }

  lemma {:induction false} WornOnceStarts(dev: seq<BlockView>)
    ensures WornOnce(dev, dev)
  {
  }

  /** A victim has an invalid page, so it was not erased before, and may be erased. */
  lemma {:induction false} WornOnceMore(dev: seq<BlockView>, was: seq<BlockView>, mid: seq<BlockView>, b: nat)
    requires WornOnce(dev, was) && MovedOut(was, mid, b) && b < |was| && was[b].pagesInvalid > 0
    ensures |mid| == |was| && mid[b].erasesRemaining >= dev[b].erasesRemaining
    ensures mid[b].erasesRemaining >= 1 ==> WornOnce(dev, mid[b := Erased(mid[b])])
    ensures mid[b].erasesRemaining < 1 ==> AnyBelow(dev, 1) && AnyBelow(mid, 1)
  {
  }

  lemma {:induction false} WornOnceIsWorn(dev: seq<BlockView>, dev': seq<BlockView>)
    requires WornOnce(dev, dev')
    ensures Worn(dev, dev', 1)
  {
  }

  // ---------- a victim exists while few pages are mapped ----------

  ghost function MappedPages(table: seq<Option<Address>>): set<nat> {
    set v: nat | v < |table| && table[v].Some?
  }

  /** A block other than the current one has an INVALID page. */
  ghost predicate HasVictim(dev: seq<BlockView>, cur: Option<Address>) {
    exists w :: 0 <= w < |dev| && dev[w].pagesInvalid > 0 && (cur.None? || cur.value.block != w)
  }

  /** Full blocks other than the current one. */
  ghost function FullBlocks(pools: Pools, cur: nat): set<nat> {
    Below(pools.next) - (set b | b in pools.free) - {cur}
  }

  lemma {:induction false} FullBlocksSize(dev: seq<BlockView>, size: nat, pools: Pools, cur: Address)
    requires FlashOk(dev, size, pools, Some(cur))
    ensures |FullBlocks(pools, cur.block)| == pools.max - pools.Available() - 1
  {
    DistinctSize(pools.free);
    var free := set b | b in pools.free;
    assert free <= Below(pools.next);
    assert |Below(pools.next) - free| == pools.next - |pools.free|;
    assert cur.block in Below(pools.next) - free;
  }

  ghost function PagesOfBlock(b: nat, n: nat): set<Address> {
    set p: nat | p in Below(n) :: Address(b, p)
  }

  lemma {:induction false} PagesOfBlockSize(b: nat, n: nat)
    ensures |PagesOfBlock(b, n)| == n
  {
    var m := map p: nat | p in Below(n) :: Address(b, p);
    assert m.Keys == Below(n);
    InjectiveSize(m);
    assert |m.Keys| == |m|;
    forall x ensures x in PagesOfBlock(b, n) <==> x in m.Values {
      if x in PagesOfBlock(b, n) {
        var p: nat :| p in Below(n) && x == Address(b, p);
        assert m[p] == x;
      }
    }
    assert PagesOfBlock(b, n) == m.Values;
  }

  ghost function PagesOfAll(blocks: set<nat>, size: nat): set<Address> {
    set b, p: nat | b in blocks && p in Below(size) :: Address(b, p)
  }

  lemma {:induction false} PagesOfOneMore(blocks: set<nat>, size: nat, b: nat)
    requires b in blocks
    ensures PagesOfAll(blocks, size) == PagesOfAll(blocks - {b}, size) + PagesOfBlock(b, size)
    ensures PagesOfAll(blocks - {b}, size) !! PagesOfBlock(b, size)
  {
    hide Below;
  }

  lemma {:induction false} PagesOfNone(size: nat)
    ensures PagesOfAll({}, size) == {}
  {
  }

  lemma {:induction false} PagesOfAllSize(blocks: set<nat>, size: nat)
    ensures |PagesOfAll(blocks, size)| == |blocks| * size
    decreases blocks
  {
    hide PagesOfAll, PagesOfBlock;
    PagesOfNone(size);
    if blocks != {} {
      var b :| b in blocks;
      PagesOfAllSize(blocks - {b}, size);
      PagesOfBlockSize(b, size);
      PagesOfOneMore(blocks, size, b);
      OneLess(|blocks|, size);
    }
  }

  /** A block in use that is not current and has no INVALID page is VALID throughout. */
  lemma {:induction false} FullIsValid(dev: seq<BlockView>, size: nat, pools: Pools, cur: Address, b: nat, p: nat)
    requires FlashOk(dev, size, pools, Some(cur)) && b in FullBlocks(pools, cur.block) && p < size
    requires !HasVictim(dev, Some(cur))
    ensures ValidAt(dev, Address(b, p))
  {
    assert b < |dev| && BlockOk(dev[b], size) && InOrder(dev[b]);
    assert dev[b].pagesInvalid == 0;
    NoneInvalid(dev[b].pages, p);
  }

  lemma {:induction false} NoneInvalid(pages: seq<PageState>, p: nat)
    requires CountInvalid(pages) == 0 && p < |pages|
    ensures pages[p] != INVALID
  {
    if p < |pages| - 1 { NoneInvalid(pages[..|pages| - 1], p); }
  }

  lemma {:induction false} SomeInvalid(pages: seq<PageState>) returns (q: nat)
    requires CountInvalid(pages) > 0
    ensures q < |pages| && pages[q] == INVALID
  {
    if pages[|pages| - 1] == INVALID { q := |pages| - 1; } else { q := SomeInvalid(pages[..|pages| - 1]); }
  }

  /** Each VALID page is some mapped page's. */
  lemma {:induction false} ValidAtMostMapped(dev: seq<BlockView>, table: seq<Option<Address>>, home: map<Address, nat>,
                                             pages: set<Address>)
    requires Bijection(dev, table, home) && forall a :: a in pages ==> ValidAt(dev, a)
    ensures |pages| <= |MappedPages(table)|
  {
    var m := map a | a in pages && a in home :: home[a];
    assert m.Keys == pages;
    forall a, b | a in m && b in m && a != b ensures m[a] != m[b] {
      assert table[home[a]] == Some(a) && table[home[b]] == Some(b);
    }
    InjectiveSize(m);
    forall v | v in m.Values ensures v in MappedPages(table) {
      var a :| a in m && m[a] == v;
      assert table[home[a]] == Some(a);
    }
    SubsetSize(m.Values, MappedPages(table));
  }

  /** With fewer pages mapped than the full blocks other than the current one hold, one of them has an INVALID page. */
  lemma {:induction false} VictimExists(dev: seq<BlockView>, size: nat, pools: Pools, cur: Address,
                                        table: seq<Option<Address>>, home: map<Address, nat>)
    requires FlashOk(dev, size, pools, Some(cur)) && Bijection(dev, table, home)
    requires |MappedPages(table)| < (pools.max - pools.Available() - 1) * size
    ensures HasVictim(dev, Some(cur))
  {
    if !HasVictim(dev, Some(cur)) {
      var full := FullBlocks(pools, cur.block);
      FullBlocksSize(dev, size, pools, cur);
      PagesOfAllSize(full, size);
      var pages := PagesOfAll(full, size);
      forall a | a in pages ensures ValidAt(dev, a) {
        FullIsValid(dev, size, pools, cur, a.block, a.page);
      }
      hide FlashOk, Bijection, FullBlocks, PagesOfAll, MappedPages, HasVictim;
      ValidAtMostMapped(dev, table, home, pages);
    }
  }

  /** The share of blocks in use, as insert_events counts it, is above 0.90 when two blocks are left of more than 20. */
  lemma {:induction false} DueWhenLow(dev: seq<BlockView>, size: nat, pools: Pools, cur: Option<Address>)
    requires FlashOk(dev, size, pools, cur) && pools.Available() <= 2 && pools.max > 20
    ensures 10 * (pools.dataActive - |pools.free|) > 9 * pools.max
  {
  }

  /** At a block end with only two blocks available, cleaning is due and has a victim. */
  ghost predicate MustClean(dev: seq<BlockView>, size: nat, pools: Pools, cur: Option<Address>) {
    cur.Some? && AtBlockEnd(cur, size) && HasVictim(dev, cur) && 10 * (pools.dataActive - |pools.free|) > 9 * pools.max
  }

  lemma {:induction false} LowMustClean(dev: seq<BlockView>, size: nat, pools: Pools, cur: Option<Address>,
                                        table: seq<Option<Address>>, home: map<Address, nat>)
    requires FlashOk(dev, size, pools, cur) && Bijection(dev, table, home) && cur.Some? && AtBlockEnd(cur, size)
    requires pools.Available() == 2 && pools.max > 20 && |MappedPages(table)| < (pools.max - 3) * size
    ensures MustClean(dev, size, pools, cur)
  {
    DueWhenLow(dev, size, pools, cur);
    VictimExists(dev, size, pools, cur.value, table, home);
  }

  /** Blocks available before and after a page is handed out at a block end: two stay if there were three, or if
      cleaning gained a page. */
  lemma {:induction false} StaysReady(pools: Pools, cur: Option<Address>, pools': Pools, a: Address, size: nat,
                                      gained: bool)
    requires pools.Available() >= (if gained then 2 else 3) && (cur.Some? ==> cur.value.page < size) && a.page < size
    requires FreePages(pools', Some(a), size) >= FreePages(pools, cur, size) - 1 + if gained then 1 else 0
    ensures pools'.Available() >= 2
  {
    PoolToFree(pools, cur, size, if gained then 2 else 3);
    FreeToPool(pools', a, size);
  }

  // ---------- a whole collection ----------

  /** No block but `except` has more invalid pages than block `it`. */
  ghost predicate MostInvalid(dev: seq<BlockView>, it: nat, except: int) {
    it < |dev| && forall b :: 0 <= b < |dev| && b != except ==> dev[b].pagesInvalid <= dev[it].pagesInvalid
  }

  lemma {:induction false} MostOfAll(dev: seq<BlockView>, it: nat, except: int)
    requires MostInvalid(dev, it, -1)
    ensures MostInvalid(dev, it, except)
  {
  }

  /** One turn of garbage collection, as it finds the device: the block being written, and the block to clean. */
  datatype Turn = Turn(dev: seq<BlockView>, current: int, victim: nat)

  /** The victim has invalid pages, and no block but the one being written has more. */
  ghost predicate IsWorst(t: Turn) {
    && t.victim < |t.dev| && t.victim != t.current && t.dev[t.victim].pagesInvalid > 0
    && forall b :: 0 <= b < |t.dev| && b != t.current ==> t.dev[b].pagesInvalid <= t.dev[t.victim].pagesInvalid
  }

  /** Block b was erased and is clean; no other block was erased and no page outside b was invalidated. */
  ghost predicate Reclaimed(dev: seq<BlockView>, dev': seq<BlockView>, b: nat) {
    && |dev'| == |dev| && b < |dev| && Clean(dev'[b]) && dev'[b].pagesInvalid == 0
    && dev'[b].erasesRemaining == dev[b].erasesRemaining - 1
    && forall c :: 0 <= c < |dev| && c != b ==>
         dev'[c].erasesRemaining == dev[c].erasesRemaining && dev'[c].pagesInvalid == dev[c].pagesInvalid
  }

  /** Turn k leads to the next one, the last to dev'. */
  ghost predicate LeadsOn(turns: seq<Turn>, dev': seq<BlockView>, k: nat)
    requires k < |turns|
  {
    && IsWorst(turns[k])
    && Reclaimed(turns[k].dev, if k == |turns| - 1 then dev' else turns[k + 1].dev, turns[k].victim)
  }

  /** The turns lead from dev to dev'. */
  ghost predicate Collection(turns: seq<Turn>, dev: seq<BlockView>, dev': seq<BlockView>) {
    && (if turns == [] then dev' == dev else turns[0].dev == dev)
    && forall k :: 0 <= k < |turns| ==> LeadsOn(turns, dev', k)
  }

  /** The invalid pages of the victims. */
  ghost function Gain(turns: seq<Turn>): int {
    if turns == [] then 0
    else
      var t := turns[|turns| - 1];
      Gain(turns[..|turns| - 1]) + if t.victim < |t.dev| then t.dev[t.victim].pagesInvalid else 0
  }

  lemma {:induction false} GainAtLeast(turns: seq<Turn>, dev: seq<BlockView>, dev': seq<BlockView>)
    requires Collection(turns, dev, dev')
    ensures Gain(turns) >= |turns|
  {
    if turns != [] {
      var front, last := turns[..|turns| - 1], turns[|turns| - 1];
      assert turns == front + [last];
      assert LeadsOn(turns, dev', |turns| - 1);
      forall k | 0 <= k < |front| ensures LeadsOn(front, last.dev, k) {
        assert LeadsOn(turns, dev', k);
        LeadsOnWith(front, last, dev', k);
      }
      hide Reclaimed, LeadsOn;
      GainAtLeast(front, dev, last.dev);
    }
  }

  /** A turn before the last leads on to the same, whatever comes after. */
  lemma {:induction false} LeadsOnWith(turns: seq<Turn>, t: Turn, dev': seq<BlockView>, k: nat)
    requires k < |turns|
    ensures LeadsOn(turns + [t], dev', k) <==> LeadsOn(turns, t.dev, k)
  {
    hide Reclaimed, IsWorst;
  }

  lemma {:induction false} GainStep(turns: seq<Turn>, t: Turn)
    ensures Gain(turns + [t]) == Gain(turns) + if t.victim < |t.dev| then t.dev[t.victim].pagesInvalid else 0
  {
    assert (turns + [t])[..|turns|] == turns;
  }

  lemma {:induction false} LastLeadsOn(turns: seq<Turn>, t: Turn, dev': seq<BlockView>)
    requires IsWorst(t) && Reclaimed(t.dev, dev', t.victim)
    ensures LeadsOn(turns + [t], dev', |turns|)
  {
    hide Reclaimed, IsWorst;
    assert (turns + [t])[|turns|] == t;
  }

  lemma {:induction false} CollectionStep(turns: seq<Turn>, dev: seq<BlockView>, t: Turn, dev': seq<BlockView>)
    requires Collection(turns, dev, t.dev) && IsWorst(t) && Reclaimed(t.dev, dev', t.victim)
    ensures Collection(turns + [t], dev, dev')
    ensures Gain(turns + [t]) == Gain(turns) + if t.victim < |t.dev| then t.dev[t.victim].pagesInvalid else 0
  {
    hide LeadsOn, Reclaimed, IsWorst, Gain;
    GainStep(turns, t);
    LastLeadsOn(turns, t, dev');
    forall k | 0 <= k < |turns + [t]| ensures LeadsOn(turns + [t], dev', k) {
      if k < |turns| {
        assert LeadsOn(turns, t.dev, k);
        LeadsOnWith(turns, t, dev', k);
      }
    }
    assert (turns + [t])[0] == if turns == [] then t else turns[0];
  }

  lemma {:induction false} NoTurns(dev: seq<BlockView>)
    ensures Collection([], dev, dev) && Gain([]) == 0
  {
  }

  lemma {:induction false} NoTurnSame(dev: seq<BlockView>, dev': seq<BlockView>)
    requires Collection([], dev, dev')
    ensures dev' == dev
  {
  }

  lemma {:induction false} WorstTurn(t: Turn)
    requires MostInvalid(t.dev, t.victim, t.current) && t.victim != t.current && t.dev[t.victim].pagesInvalid > 0
    ensures IsWorst(t)
  {
  }

  lemma {:induction false} ReclaimedBy(dev: seq<BlockView>, mid: seq<BlockView>, b: nat)
    requires MovedOut(dev, mid, b) && b < |dev| && mid[b].erasesRemaining >= 1
    ensures Reclaimed(dev, mid[b := Erased(mid[b])], b)
  {
  }

  /** A collection of n turns that led from dev to dev' is over. It takes five, or fewer when no block but the one being
      written has an invalid page left; one is wasted, or all, when the block being written had the most at the start:
      it is passed over if it is full, and otherwise nothing is collected. */
  ghost predicate Ends(dev: seq<BlockView>, cur: Option<Address>, size: nat, dev': seq<BlockView>,
                       cur': Option<Address>, n: nat)
  {
    && n <= 5
    && (n < 5 ==>
          || !HasVictim(dev', cur')
          || (&& cur.Some? && MostInvalid(dev, cur.value.block, -1)
              && n == if dev[cur.value.block].pagesValid == size then 4 else 0))
  }

  /** Every block with an INVALID page is full or the current one. */
  lemma {:induction false} OthersAreFull(dev: seq<BlockView>, size: nat, pools: Pools, cur: Option<Address>, b: nat)
    requires FlashOk(dev, size, pools, cur) && b < |dev| && dev[b].pagesInvalid > 0
    requires cur.Some? ==> cur.value.block != b
    ensures dev[b].pagesValid == size
  {
    assert BlockOk(dev[b], size);
    var q := SomeInvalid(dev[b].pages);
    assert !Clean(dev[b]);
  }

  lemma {:induction false} NoneIsClean(dev: seq<BlockView>, size: nat, pools: Pools, b: nat)
    requires FlashOk(dev, size, pools, None) && pools.next == 0 && b < |dev|
    ensures dev[b].pagesInvalid == 0
  {
    assert BlockOk(dev[b], size) && Clean(dev[b]);
    CountNone(dev[b].pages);
  }

  /** Before the first write there is nothing to collect. */
  lemma {:induction false} NotBeforeFirst(dev: seq<BlockView>, size: nat, pools: Pools, cur: Option<Address>, b: nat)
    requires FlashOk(dev, size, pools, cur) && (cur.None? ==> pools.next == 0) && b < |dev| && dev[b].pagesInvalid > 0
    ensures cur.Some?
  {
    if cur.None? { NoneIsClean(dev, size, pools, b); }
  }

  lemma {:induction false} ExceptNone(dev: seq<BlockView>, size: nat, pools: Pools, cur: Option<Address>, it: nat,
                                      current: int)
    requires FlashOk(dev, size, pools, cur) && (if cur.None? then pools.next == 0 else current == cur.value.block)
    requires MostInvalid(dev, it, current)
    ensures MostInvalid(dev, it, if cur.Some? then cur.value.block else -1)
  {
    if cur.None? {
      forall b | 0 <= b < |dev| ensures dev[b].pagesInvalid == 0 { NoneIsClean(dev, size, pools, b); }
    }
  }

  /** No turn is left, or the candidate has no invalid page or is not full. */
  lemma {:induction false} EndsHere(dev: seq<BlockView>, cur: Option<Address>, size: nat, dev': seq<BlockView>,
                                    pools': Pools, cur': Option<Address>, it: nat, n: nat, passed: bool)
    requires FlashOk(dev', size, pools', cur') && (cur'.None? ==> pools'.next == 0)
    requires n <= if passed then 4 else 5
    requires passed ==>
      cur.Some? && MostInvalid(dev, cur.value.block, -1) && dev[cur.value.block].pagesValid == size
    requires it < |dev'| && MostInvalid(dev', it, if cur'.Some? then cur'.value.block else -1)
    requires cur'.Some? && cur'.value.block == it ==>
      n == 0 && !passed && dev' == dev && cur' == cur && MostInvalid(dev, it, -1)
    requires n == (if passed then 4 else 5) || dev'[it].pagesInvalid == 0 || dev'[it].pagesValid != size
    ensures Ends(dev, cur, size, dev', cur', n)
  {
    if n < 5 && !(passed && n == 4) && HasVictim(dev', cur') {
      var w :| 0 <= w < |dev'| && dev'[w].pagesInvalid > 0 && (cur'.None? || cur'.value.block != w);
      assert dev'[w].pagesInvalid <= dev'[it].pagesInvalid;
      if cur'.None? {
        NoneIsClean(dev', size, pools', w);
      } else if cur'.value.block != it {
        OthersAreFull(dev', size, pools', cur', it);
      }
    }
  }

  /** Where cleaning must happen there is a first turn, and it gains a page. */
  lemma {:induction false} MustGain(dev: seq<BlockView>, size: nat, pools: Pools, cur: Option<Address>,
                                    turns: seq<Turn>, dev': seq<BlockView>, cur': Option<Address>)
    requires FlashOk(dev, size, pools, cur) && MustClean(dev, size, pools, cur)
    requires Collection(turns, dev, dev') && Ends(dev, cur, size, dev', cur', |turns|)
    requires turns == [] ==> cur' == cur
    ensures Gain(turns) >= 1
  {
    GainAtLeast(turns, dev, dev');
  }
}
