/** The DFTL translation layer (flashsim/dftl_parent.cpp, dftl_ftl.cpp): a page map with a cached mapping table. */
module Dftl {
  import opened Flash
  import opened Sets
  import opened Options
  import opened BlockPools
  import opened DftlModel
  import opened MappingTable
  import opened Workload

  /** PoolLow: a new block is needed and fewer than two are available. */
  datatype Outcome = Done | WornOut | PoolLow

  lemma {:induction false} PageInRange(dev: seq<BlockView>, size: nat, pools: Pools, cur: Option<Address>)
    requires FlashOk(dev, size, pools, cur)
    ensures size > 0 && (cur.Some? ==> cur.value.page < size) && pools.max == |dev|
  {
    if cur.Some? { assert BlockOk(dev[cur.value.block], size) && InOrder(dev[cur.value.block]); }
  }

  lemma {:induction false} LogNone(dev: seq<BlockView>, size: nat, pools: Pools, cur: Option<Address>)
    requires FlashOk(dev, size, pools, cur)
    ensures pools.logActive == 0
  {
  }

  lemma {:induction false} WornLess(dev: seq<BlockView>, k: nat)
    ensures Worn(dev, dev, k)
  {
  }

  lemma {:induction false} BelowMore(dev: seq<BlockView>, k: int, l: int)
    requires AnyBelow(dev, k) && k <= l
    ensures AnyBelow(dev, l)
  {
  }

  lemma {:induction false} MustMeans(dev: seq<BlockView>, size: nat, pools: Pools, cur: Option<Address>)
    ensures MustClean(dev, size, pools, cur) ==> cur.Some? && 10 * (pools.dataActive - |pools.free|) > 9 * pools.max
  {
  }

  lemma {:induction false} MoveWear(dev: seq<BlockView>, size: nat, pools: Pools, cur: Option<Address>, b: nat, i: nat)
    requires FlashOk(dev, size, pools, cur) && (AtBlockEnd(cur, size) ==> pools.Head().Some?)
    requires ValidAt(dev, Address(b, i)) && i < size && NextPage(pools, cur, size).block != b
    ensures var a := NextPage(pools, cur, size);
      && a.block < |dev| && a.page < size && |dev[a.block].pages| == size == |dev[a.block].data|
      && |dev[b].data| == size
      && var dev' := Moved(dev, a, dev[b].data[i], Some(Address(b, i)));
         && MovedOut(dev, dev', b) && |dev[b].pages| == size && dev'[b].pages == dev[b].pages[i := INVALID]
  {
    NextPageEmpty(dev, size, pools, cur);
    SizeOf(dev, size, b);
    var a := NextPage(pools, cur, size);
    MovedIsOut(dev, a, dev[b].data[i], b, i);
  }

  /** The counter of invalid pages, over the pages of the block. */
  lemma {:induction false} InvalidCount(dev: seq<BlockView>, size: nat, pools: Pools, cur: Option<Address>, b: nat)
    requires FlashOk(dev, size, pools, cur) && b < |dev|
    ensures |dev[b].pages| == size && CountInvalid(dev[b].pages[..0]) == 0
    ensures dev[b].pagesInvalid == CountInvalid(dev[b].pages[..size])
  {
    assert BlockOk(dev[b], size) && dev[b].pages[..size] == dev[b].pages;
  }

  ghost function NewMap(n: nat): seq<MPage> { seq(n, v requires 0 <= v => MPage(v, None, -1.0, -1.0, false)) }

  /** On a new device everything is fresh and nothing is mapped. */
  lemma {:induction false} NewIsOk(dev: seq<BlockView>, size: nat, pools: Pools, n: nat)
    requires size > 0 && pools == Pools(|dev|, 0, [], 0, 0)
    requires forall b :: 0 <= b < |dev| ==> Clean(dev[b]) && BlockOk(dev[b], size)
    ensures FlashOk(dev, size, pools, None)
    ensures Bijection(dev, Ppns(NewMap(n)), map[]) && EntriesOk(NewMap(n)) && Cached(NewMap(n)) == {}
    ensures forall v :: 0 <= v < n ==> Contents(dev, Ppns(NewMap(n)))[v] == None
  {
  }

  class Dftl {
    const ssd: Ssd
    const bm: BlockManager
    const addressPerPage: nat
    const totalCMTentries: nat
    var transMap: seq<MPage>
    var reverseTransMap: map<Address, nat>
    var cmt: int
    var currentDataPage: Option<Address>

    /** What every step on the cached mapping table needs and keeps. */
    ghost predicate TableOk()
      reads this
    {
      && EntriesOk(transMap) && addressPerPage > 0 && |transMap| % addressPerPage == 0
      && totalCMTentries >= 1 && Gap(transMap, cmt) >= 0
    }

    ghost predicate Wired()
      reads this, ssd, ssd.Repr
    {
      ssd.Valid() && this !in ssd.Repr && bm !in ssd.Repr && |ssd.blocks| == bm.maxBlocks
    }

    /** Device, pools and map agree; all pages handed out so far are programmed. */
    ghost predicate Valid()
      reads this, bm, ssd, ssd.Repr
    {
      && Wired() && TableOk()
      && FlashOk(ssd.View(), ssd.blockSize, bm.View(), currentDataPage)
      && Bijection(ssd.View(), Ppns(transMap), reverseTransMap)
      && Writing()
    }

    /** The block being filled is the one handed out last; before the first write all blocks are fresh. */
    ghost predicate Writing()
      reads this, bm
    {
      if currentDataPage.Some? then bm.currentWritingBlock == currentDataPage.value.block else bm.next == 0
    }

    /** Enough blocks that get_page_block does not start cleaning from within an allocation. */
    ghost predicate PoolReady()
      reads this, bm
    {
      bm.View().Available() >= 2
    }

    /** The next block is handed out without cleaning first: get_page_block does not start it. */
    ghost predicate Servable()
      reads this, bm
    {
      bm.next < bm.maxBlocks || |bm.freeList| >= 2
    }

    /** Pages that can be written before an erase. */
    ghost function Free(): int
      reads this, bm, ssd
    {
      FreePages(bm.View(), currentDataPage, ssd.blockSize)
    }

    /** So few pages are mapped that cleaning always finds something to reclaim, on a device that is not tiny. */
    ghost predicate Spacious()
      reads this, bm, ssd
    {
      bm.maxBlocks > 20 && |MappedPages(Ppns(transMap))| < (bm.maxBlocks - 3) * ssd.blockSize
    }

    /** The device as a logical array. */
    ghost function Array(): (r: seq<Option<Data>>)
      requires Wired()
      reads this, ssd, ssd.Repr
      ensures |r| == |transMap|
    {
      Contents(ssd.View(), Ppns(transMap))
    }

    constructor (numBlocks: nat, size: nat, erases: nat, perPage: nat, cmtLimit: nat)
      requires size > 0 && perPage > 0 && (numBlocks * size) % perPage == 0 && cmtLimit >= 1
      ensures Valid() && fresh(ssd) && fresh(ssd.Repr) && fresh(bm)
      ensures |transMap| == numBlocks * size && ssd.blockSize == size && |ssd.blocks| == numBlocks
      ensures Gap(transMap, cmt) == 0 && cmt == 0 && totalCMTentries == cmtLimit && addressPerPage == perPage
      ensures forall v :: 0 <= v < |transMap| ==> !transMap[v].cached
      ensures forall v :: 0 <= v < |transMap| ==> Array()[v] == None
      ensures bm.maxBlocks == numBlocks && bm.View().Available() == numBlocks && !AnyBelow(ssd.View(), erases)
    {
      ssd := new Ssd(numBlocks, size, erases);
      bm := new BlockManager(numBlocks);
      addressPerPage, totalCMTentries := perPage, cmtLimit;
      MulNat(numBlocks, size);
      transMap := seq(numBlocks * size, v requires 0 <= v => MPage(v, None, -1.0, -1.0, false));
      reverseTransMap, cmt, currentDataPage := map[], 0, None;
      new;
      hide Ssd.Valid, Ssd.View, FlashOk, Bijection, Contents, EntriesOk, Cached, Ppns, Clean, BlockOk;
      NewIsOk(ssd.View(), size, bm.View(), numBlocks * size);
    }

    /** resolve_mapping: brings the entry of dlpn into the table. The mapping itself never changes. */
    method ResolveMapping(dlpn: nat, isWrite: bool, now: real)
      requires TableOk() && dlpn < |transMap| && now >= 0.0
      modifies this`transMap, this`cmt
      ensures TableOk() && SameMap(old(transMap), transMap)
      ensures Gap(transMap, cmt) == Gap(old(transMap), old(cmt))
      ensures cmt == (if old(cmt) < totalCMTentries then old(cmt) else totalCMTentries - 1)
                     + if old(transMap)[dlpn].cached then 0 else 1
      ensures Resolved(old(transMap), transMap, dlpn, isWrite, now, addressPerPage)
    {
      hide Evicted;
      ghost var t := transMap;
      if transMap[dlpn].cached {
        if isWrite {
          SetEntry(transMap, dlpn, transMap[dlpn].(modifiedTs := now));
          transMap := transMap[dlpn := transMap[dlpn].(modifiedTs := now)];
        }
        EvictPageFromCache();
      } else {
        EvictPageFromCache();
        var current := transMap[dlpn].(
          modifiedTs := if isWrite then now + 1.0 else now, createTs := now, cached := true);
        EnterEntry(transMap, dlpn, current);
        EvictedOther(t, transMap, addressPerPage, dlpn);
        assert transMap[dlpn := current][dlpn := t[dlpn]] == transMap;
        transMap := transMap[dlpn := current];
        cmt := cmt + 1;
      }
    }

    /** The batch update of one translation page when one of its dirty entries is written back. */
    method MarkWritten(vpnBase: nat)
      requires TableOk() && vpnBase + addressPerPage <= |transMap|
      modifies this`transMap
      ensures TableOk() && SameMap(old(transMap), transMap) && Cached(transMap) == Cached(old(transMap))
      ensures transMap == Marked(old(transMap), vpnBase, addressPerPage)
    {
      ghost var t := transMap;
      var i := 0;
      MarkedNone(t, vpnBase);
      while i < addressPerPage
        invariant i <= addressPerPage && transMap == Marked(t, vpnBase, i)
      {
        var cur := transMap[vpnBase + i];
        if cur.cached {
          transMap := transMap[vpnBase + i := cur.(createTs := cur.modifiedTs)];
        }
        MarkedMore(t, vpnBase, i);
        i := i + 1;
      }
      MarkedKeeps(t, vpnBase, addressPerPage);
    }

    /** Drops entries, oldest modification first, until the table is below its limit. */
    method EvictPageFromCache()
      requires TableOk()
      modifies this`transMap, this`cmt
      ensures TableOk() && SameMap(old(transMap), transMap)
      ensures Gap(transMap, cmt) == Gap(old(transMap), old(cmt))
      ensures Cached(transMap) <= Cached(old(transMap)) && Evicted(old(transMap), transMap, addressPerPage)
      ensures cmt == if old(cmt) < totalCMTentries then old(cmt) else totalCMTentries - 1
      ensures old(cmt) < totalCMTentries ==> transMap == old(transMap)
    {
      hide Evicted;
      EvictedNone(transMap, addressPerPage);
      while cmt >= totalCMTentries
        invariant TableOk() && SameMap(old(transMap), transMap)
        invariant Gap(transMap, cmt) == Gap(old(transMap), old(cmt))
        invariant Cached(transMap) <= Cached(old(transMap)) && Evicted(old(transMap), transMap, addressPerPage)
        invariant if old(cmt) < totalCMTentries then transMap == old(transMap) && cmt == old(cmt)
                  else totalCMTentries - 1 <= cmt
        decreases cmt
      {
        ghost var c := Cached(transMap);
        assert |c| >= 1;
        ghost var w := OldestExists(transMap, c);
        assert IsOldest(transMap, w);
        var victim :| 0 <= victim < |transMap| && IsOldest(transMap, victim);
        assert IsOldest(transMap, victim);
        EvictedStep(old(transMap), transMap, victim, addressPerPage);
        EvictEntry(victim);
      }
    }

    /** Writes back the entry's translation page if it was modified, and drops the entry from the table. */
    method EvictEntry(v: nat)
      requires TableOk() && v < |transMap| && transMap[v].cached
      modifies this`transMap, this`cmt
      ensures TableOk() && SameMap(old(transMap), transMap)
      ensures cmt == old(cmt) - 1 && Gap(transMap, cmt) == Gap(old(transMap), old(cmt))
      ensures Cached(transMap) == Cached(old(transMap)) - {v}
      ensures transMap == Dropped(old(transMap), v, addressPerPage)
    {
      var evictPage := transMap[v];
      if evictPage.createTs != evictPage.modifiedTs {
        GroupInRange(evictPage.vpn, |transMap|, addressPerPage);
        var vpnBase := evictPage.vpn - evictPage.vpn % addressPerPage;
        MarkWritten(vpnBase);
      }
      cmt := cmt - 1;
      evictPage := Reset(evictPage);
      SetEntry(transMap, v, evictPage);
      transMap := transMap[evictPage.vpn := evictPage];
    }

    /** get_free_data_page without garbage collection. */
    method NextDataPage() returns (a: Address)
      requires Wired() && FlashOk(ssd.View(), ssd.blockSize, bm.View(), currentDataPage) && Writing()
      requires AtBlockEnd(currentDataPage, ssd.blockSize) ==> Servable()
      modifies this`currentDataPage, bm
      ensures AtBlockEnd(old(currentDataPage), ssd.blockSize) ==> old(bm.View()).Head().Some?
      ensures a == NextPage(old(bm.View()), old(currentDataPage), ssd.blockSize)
      ensures bm.View() == NextPools(old(bm.View()), old(currentDataPage), ssd.blockSize)
      ensures currentDataPage == Some(a) && Writing() && Free() == old(Free()) - 1
    {
      if AtBlockEnd(currentDataPage, ssd.blockSize) { assert bm.View().Head().Some?; }
      NextFree(bm.View(), currentDataPage, ssd.blockSize);
      if currentDataPage.None? || currentDataPage.value.page == ssd.blockSize - 1 {
        var b := bm.GetFreeBlock(DATA);
        currentDataPage := Some(Address(b.value, 0));
      } else {
        currentDataPage := Some(Address(currentDataPage.value.block, currentDataPage.value.page + 1));
      }
      a := currentDataPage.value;
    }

    /** A write event: programs a page and invalidates the one it replaces. */
    method Program(a: Address, payload: Data, gone: Option<Address>)
      requires ssd.Valid() && InDevice(ssd.View(), a) && a.page < |ssd.View()[a.block].data|
      requires ssd.View()[a.block].pages[a.page] == EMPTY
      requires gone.Some? ==> ValidAt(ssd.View(), gone.value)
      modifies ssd.Repr
      ensures ssd.Valid() && ssd.View() == Moved(old(ssd.View()), a, payload, gone)
    {
      hide Ssd.Valid, Ssd.View;
      MovedIs(ssd.View(), a, payload, gone);
      ssd.Write(a, payload);
      if gone.Some? {
        ssd.Replace(gone.value);
      }
    }

    /** Copies one VALID page of the block being cleaned to the next data page and invalidates the original. */
    method MovePage(block: nat, i: nat, ghost home: map<Address, nat>, ghost pending: map<nat, Address>)
        returns (v: nat, a: Address)
      requires Wired() && Writing() && FlashOk(ssd.View(), ssd.blockSize, bm.View(), currentDataPage)
      requires Overlay(ssd.View(), transMap, reverseTransMap, home, pending)
      requires Cleaning(ssd.View(), ssd.blockSize, bm.View(), currentDataPage, pending, block, i) && i < ssd.blockSize
      requires ValidAt(ssd.View(), Address(block, i))
      requires AtBlockEnd(currentDataPage, ssd.blockSize) ==> Servable()
      modifies this`currentDataPage, bm, ssd.Repr
      ensures Wired() && Writing() && currentDataPage == Some(a)
      ensures FlashOk(ssd.View(), ssd.blockSize, bm.View(), currentDataPage)
      ensures Overlay(ssd.View(), transMap, reverseTransMap, home[a := v], pending[v := a])
      ensures Cleaning(ssd.View(), ssd.blockSize, bm.View(), currentDataPage, pending[v := a], block, i + 1)
      ensures Contents(ssd.View(), Effective(transMap, pending[v := a]))
        == old(Contents(ssd.View(), Effective(transMap, pending)))
      ensures block < |ssd.blocks| && MovedOut(old(ssd.View()), ssd.View(), block) && Free() == old(Free()) - 1
      ensures ssd.View()[block].pages == old(ssd.View())[block].pages[i := INVALID]
      ensures if AtBlockEnd(old(currentDataPage), ssd.blockSize)
              then bm.View().Available() == old(bm.View().Available()) - 1 && a.page == 0
              else bm.View() == old(bm.View()) && a.page == old(currentDataPage).value.page + 1
    {
      hide Ssd.Valid, Ssd.View, FlashOk, Overlay, Cleaning, Contents, Effective, MovedOut, FreePages;
      ghost var dev, size, pools, cur := ssd.View(), ssd.blockSize, bm.View(), currentDataPage;
      OwnerKnown(dev, size, pools, cur, transMap, reverseTransMap, home, pending, block, i);
      var from := Address(block, i);
      var payload := ssd.GetData(from);
      CleanStep(dev, size, pools, cur, transMap, reverseTransMap, home, pending, block, i);
      MoveWear(dev, size, pools, cur, block, i);
      a := NextDataPage();
      Program(a, payload, Some(from));
      v := reverseTransMap[from];
    }

    /** The copy loop of cleanup_block: every VALID page is moved elsewhere and noted for the batch update. */
    method MoveAll(block: nat) returns (invalidated: map<nat, Address>, ghost home: map<Address, nat>)
      requires Valid() && Servable() && block < |ssd.blocks|
      requires ssd.View()[block].pagesValid == ssd.blockSize && block != bm.currentWritingBlock
      modifies this`currentDataPage, bm, ssd.Repr
      ensures Wired() && Writing() && FlashOk(ssd.View(), ssd.blockSize, bm.View(), currentDataPage)
      ensures Overlay(ssd.View(), transMap, reverseTransMap, home, invalidated)
      ensures Contents(ssd.View(), Effective(transMap, invalidated)) == old(Array())
      ensures Cleaning(ssd.View(), ssd.blockSize, bm.View(), currentDataPage, invalidated, block, ssd.blockSize)
      ensures bm.View().Available() >= old(bm.View().Available()) - 1
      ensures MovedOut(old(ssd.View()), ssd.View(), block)
      ensures Free() == old(Free()) - ssd.blockSize + old(ssd.View())[block].pagesInvalid
    {
      hide Ssd.Valid, Ssd.View, CountInvalid, FlashOk, Bijection, Overlay, Cleaning, Contents, Effective, EntriesOk,
           AtBlockEnd, MovedOut, FreePages, Gap;
      ghost var size, dev, free := ssd.blockSize, ssd.View(), Free();
      InvalidCount(dev, size, bm.View(), currentDataPage, block);
      MovedOutTrans(dev, dev, dev, block);
      VictimIsFull(dev, size, bm.View(), currentDataPage, block);
      OverlayStarts(dev, transMap, reverseTransMap);
      invalidated, home := map[], reverseTransMap;
      var i := 0;
      while i < ssd.blockSize
        invariant i <= ssd.blockSize && Wired() && Writing() && currentDataPage.Some?
        invariant FlashOk(ssd.View(), size, bm.View(), currentDataPage)
        invariant Overlay(ssd.View(), transMap, reverseTransMap, home, invalidated)
        invariant Cleaning(ssd.View(), size, bm.View(), currentDataPage, invalidated, block, i)
        invariant Contents(ssd.View(), Effective(transMap, invalidated)) == old(Array())
        invariant bm.View() == old(bm.View())
          || (bm.View().Available() == old(bm.View().Available()) - 1 && currentDataPage.value.page < i)
        invariant MovedOut(dev, ssd.View(), block)
        invariant forall q :: i <= q < size ==> ssd.View()[block].pages[q] == dev[block].pages[q]
        invariant Free() == free - i + CountInvalid(dev[block].pages[..i])
      {
        NotEmpty(ssd.View(), size, bm.View(), currentDataPage, invalidated, block, i);
        CountNext(dev[block].pages, i);
        NotAtEnd(currentDataPage, size, i);
        ghost var was := ssd.View();
        if ssd.GetState(Address(block, i)) == VALID {
          var v, a := MovePage(block, i, home, invalidated);
          MovedOutTrans(dev, was, ssd.View(), block);
          invalidated := invalidated[v := a];
          home := home[a := v];
        } else {
          CleanSkip(ssd.View(), size, bm.View(), currentDataPage, invalidated, block, i);
        }
        i := i + 1;
      }
    }

    /** Moves the VALID pages of a full block elsewhere; the map is updated in one batch at the end. */
    method CleanupBlock(block: nat, now: real)
      requires Valid() && Servable() && now >= 0.0 && block < |ssd.blocks|
      requires ssd.View()[block].pagesValid == ssd.blockSize && block != bm.currentWritingBlock
      modifies this, bm, ssd.Repr
      ensures Valid() && Array() == old(Array()) && |transMap| == old(|transMap|)
      ensures Gap(transMap, cmt) == old(Gap(transMap, cmt)) && TableMoved(old(transMap), transMap, now)
      ensures bm.View().Available() >= old(bm.View().Available()) - 1
      ensures Cleaned(ssd.View(), bm.View(), currentDataPage, block)
      ensures MovedOut(old(ssd.View()), ssd.View(), block) && |ssd.View()| == |ssd.blocks|
      ensures Free() == old(Free()) - ssd.blockSize + old(ssd.View())[block].pagesInvalid
    {
      hide Ssd.Valid, Ssd.View, FlashOk, Bijection, Overlay, Cleaning, Contents, Effective, Gap, EntriesOk, Cleaned,
           MovedOut, FreePages, Cached, TableMoved;
      var invalidated, home := MoveAll(block);
      CleaningEnds(ssd.View(), ssd.blockSize, bm.View(), currentDataPage, invalidated, block);
      EnterMoves(invalidated, home, now);
    }

    /** The batch update of cleanup_block, in any order of the marked entries. */
    method EnterMoves(invalidated: map<nat, Address>, ghost home: map<Address, nat>, now: real)
      requires Wired() && TableOk() && now >= 0.0
      requires Overlay(ssd.View(), transMap, reverseTransMap, home, invalidated)
      modifies this`transMap, this`reverseTransMap, this`cmt
      ensures Wired() && TableOk() && |transMap| == |old(transMap)|
      ensures Bijection(ssd.View(), Ppns(transMap), reverseTransMap)
      ensures Array() == old(Contents(ssd.View(), Effective(transMap, invalidated)))
      ensures Gap(transMap, cmt) == old(Gap(transMap, cmt)) && TableMoved(old(transMap), transMap, now)
    {
      hide Ssd.Valid, Ssd.View, Bijection, Overlay, Contents, Effective, EntriesOk, Cached, TableMoved;
      TableMovedTrans(transMap, transMap, transMap, now);
      var rest := invalidated;
      ghost var bytes := Contents(ssd.View(), Effective(transMap, invalidated));
      while rest.Keys != {}
        invariant Wired() && TableOk() && |transMap| == |old(transMap)|
        invariant Overlay(ssd.View(), transMap, reverseTransMap, home, rest)
        invariant Contents(ssd.View(), Effective(transMap, rest)) == bytes
        invariant Gap(transMap, cmt) == old(Gap(transMap, cmt)) && TableMoved(old(transMap), transMap, now)
        decreases |rest|
      {
        var realVpn :| realVpn in rest;
        OverlayKeys(ssd.View(), transMap, reverseTransMap, home, rest, realVpn);
        EntryAt(transMap, realVpn);
        var current := transMap[realVpn].(ppn := Some(rest[realVpn]), modifiedTs := now);
        if !current.cached {
          current := current.(createTs := now, cached := true);
          cmt := cmt + 1;
        }
        EnterMove(ssd.View(), transMap, reverseTransMap, home, rest, realVpn, current);
        EnterEntry(transMap, realVpn, current);
        MoveOne(old(transMap), transMap, realVpn, current, now);
        reverseTransMap := reverseTransMap[rest[realVpn] := realVpn];
        transMap := transMap[realVpn := current];
        rest := rest - {realVpn};
      }
      assert rest == map[];
      OverlayEnds(ssd.View(), transMap, reverseTransMap, home);
    }

    /** The end of the cost order: a block with the most invalid pages, leaving out one block number. */
    method LastByCost(except: int) returns (it: nat)
      requires ssd.Valid() && |ssd.blocks| >= 2
      ensures it < |ssd.blocks| && it != except
      ensures forall b :: 0 <= b < |ssd.blocks| && b != except ==> ssd.GetNumInvalid(b) <= ssd.GetNumInvalid(it)
      ensures MostInvalid(ssd.View(), it, except)
    {
      it := if except == 0 then 1 else 0;
      var b := 0;
      while b < |ssd.blocks|
        invariant it < |ssd.blocks| && it != except && b <= |ssd.blocks|
        invariant forall c :: 0 <= c < b && c != except ==> ssd.GetNumInvalid(c) <= ssd.GetNumInvalid(it)
      {
        var later := *;  // among equals, any may come last
        if b != except && (ssd.GetNumInvalid(b) > ssd.GetNumInvalid(it)
                           || (ssd.GetNumInvalid(b) == ssd.GetNumInvalid(it) && later)) {
          it := b;
        }
        b := b + 1;
      }
      hide Ssd.Valid, Ssd.View;
      forall b | 0 <= b < |ssd.blocks| && b != except
        ensures ssd.View()[b].pagesInvalid <= ssd.View()[it].pagesInvalid
      {
        assert ssd.GetNumInvalid(b) <= ssd.GetNumInvalid(it);
      }
    }

    /** Erases a block that was cleaned and returns it to the free list. */
    method EraseCleaned(b: nat) returns (st: Outcome)
      requires Valid() && Cleaned(ssd.View(), bm.View(), currentDataPage, b)
      modifies bm, ssd.Repr
      ensures Wired()
      ensures st == Done ==>
        && Valid() && Array() == old(Array()) && bm.View().Available() == old(bm.View().Available()) + 1
        && Free() == old(Free()) + ssd.blockSize && old(ssd.View())[b].erasesRemaining >= 1
        && ssd.View() == old(ssd.View())[b := Erased(old(ssd.View())[b])]
      ensures st == Done <==> old(ssd.View())[b].erasesRemaining >= 1
      ensures st != PoolLow && (st == WornOut ==> ssd.View() == old(ssd.View()))
    {
      hide Ssd.Valid, Ssd.View, FlashOk, Bijection, Contents, Gap, EntriesOk;
      ghost var dev, size := ssd.View(), ssd.blockSize;
      var r := ssd.Erase(b);
      if r == FAILURE { return WornOut; }
      DevOfFlash(dev, size, bm.View(), currentDataPage);
      ErasedFlash(dev, size, bm.View(), currentDataPage, b);
      ErasedBijection(dev, size, Ppns(transMap), reverseTransMap, b);
      OneLess(bm.View().Available(), size);
      bm.PushFree(b);
      st := Done;
    }

    /** One victim of garbage collection: its VALID pages move, and it returns to the free list. A victim has an invalid
        page, so it was not erased before in the same collection. */
    method Collect(block: nat, now: real, ghost dev: seq<BlockView>) returns (st: Outcome)
      requires Valid() && PoolReady() && now >= 0.0 && block < |ssd.blocks|
      requires ssd.View()[block].pagesValid == ssd.blockSize && block != bm.currentWritingBlock
      requires WornOnce(dev, ssd.View()) && ssd.View()[block].pagesInvalid > 0
      modifies this, bm, ssd.Repr
      ensures Wired()
      ensures st == Done ==>
        && Valid() && PoolReady() && Array() == old(Array()) && |transMap| == old(|transMap|)
        && Gap(transMap, cmt) == old(Gap(transMap, cmt)) && TableMoved(old(transMap), transMap, now)
        && WornOnce(dev, ssd.View()) && Reclaimed(old(ssd.View()), ssd.View(), block)
        && Free() == old(Free()) + old(ssd.View())[block].pagesInvalid
      ensures st != PoolLow && (st == WornOut ==> AnyBelow(dev, 1) && AnyBelow(ssd.View(), 1))
    {
      hide Ssd.Valid, Ssd.View, FlashOk, Bijection, Contents, Gap, EntriesOk, Cleaned, AtBlockEnd, WornOnce, AnyBelow,
           FreePages, MovedOut, Reclaimed, Cached, TableMoved;
      ghost var was := ssd.View();
      CleanupBlock(block, now);
      ghost var mid := ssd.View();
      WornOnceMore(dev, was, mid, block);
      st := EraseCleaned(block);
      if st == Done { ReclaimedBy(was, mid, block); }
    }

    /** A victim is passed over while it is the block being written. */
    method CollectUnlessCurrent(it: nat, now: real, ghost dev: seq<BlockView>, ghost bytes: seq<Option<Data>>,
                                ghost n: nat, ghost gap: int)
        returns (st: Outcome, ghost did: bool)
      requires Keeps(bytes, n, gap) && now >= 0.0 && it < |ssd.blocks|
      requires ssd.View()[it].pagesValid == ssd.blockSize && ssd.View()[it].pagesInvalid > 0
      requires WornOnce(dev, ssd.View())
      modifies this, bm, ssd.Repr
      ensures Wired()
      ensures st == Done ==>
        && Keeps(bytes, n, gap) && WornOnce(dev, ssd.View()) && TableMoved(old(transMap), transMap, now)
        && (did <==> it != old(bm.currentWritingBlock))
        && (did ==> Reclaimed(old(ssd.View()), ssd.View(), it)
                    && Free() == old(Free()) + old(ssd.View())[it].pagesInvalid)
        && (!did ==> ssd.View() == old(ssd.View()) && bm.View() == old(bm.View()) && transMap == old(transMap)
                     && cmt == old(cmt) && currentDataPage == old(currentDataPage))
      ensures st != PoolLow && (st == WornOut ==> AnyBelow(dev, 1) && AnyBelow(ssd.View(), 1))
    {
      hide Ssd.Valid, Ssd.View, FlashOk, Bijection, Contents, Gap, EntriesOk, AtBlockEnd, WornOnce, AnyBelow,
           FreePages, Reclaimed, Cached, TableMoved;
      TableMovedTrans(transMap, transMap, transMap, now);
      st, did := Done, bm.currentWritingBlock != it;
      if bm.currentWritingBlock != it {
        st := Collect(it, now, dev);
      }
    }

    /** The array, the size of the map and the counter's gap are these, and the pool can serve. */
    ghost predicate Keeps(bytes: seq<Option<Data>>, n: nat, gap: int): (r: bool)
      reads this, bm, ssd, ssd.Repr
      ensures r ==>
        Wired() && Writing() && PoolReady() && FlashOk(ssd.View(), ssd.blockSize, bm.View(), currentDataPage)
    {
      Valid() && PoolReady() && Array() == bytes && |transMap| == n && Gap(transMap, cmt) == gap
    }

    /** Garbage must be collected: it is due, and a full block other than the current one has an invalid page. */
    ghost predicate MustCollect()
      requires Wired()
      reads this, bm, ssd, ssd.Repr
    {
      MustClean(ssd.View(), ssd.blockSize, bm.View(), currentDataPage)
    }

    /** The next candidate: a block with the most invalid pages, other than the one being written. */
    method NextVictim() returns (it: nat)
      requires ssd.Valid() && |ssd.blocks| >= 2
      ensures it < |ssd.blocks| && it != bm.currentWritingBlock
      ensures MostInvalid(ssd.View(), it, bm.currentWritingBlock)
    {
      hide Ssd.Valid, Ssd.View, MostInvalid;
      it := LastByCost(-1);
      if bm.currentWritingBlock == it {
        it := LastByCost(it);
      } else {
        MostOfAll(ssd.View(), it, bm.currentWritingBlock);
      }
    }

    /** The loop of garbage collection: up to five of the blocks with the most invalid pages are cleaned and erased. */
    method CollectWorst(now: real, ghost bytes: seq<Option<Data>>, ghost n: nat, ghost gap: int)
        returns (st: Outcome, ghost turns: seq<Turn>)
      requires Keeps(bytes, n, gap) && now >= 0.0
      modifies this, bm, ssd.Repr
      ensures Wired()
      ensures st == Done ==>
        && Keeps(bytes, n, gap) && WornOnce(old(ssd.View()), ssd.View()) && TableMoved(old(transMap), transMap, now)
        && Collection(turns, old(ssd.View()), ssd.View()) && Free() == old(Free()) + Gain(turns)
        && Ends(old(ssd.View()), old(currentDataPage), ssd.blockSize, ssd.View(), currentDataPage, |turns|)
        && (turns == [] ==> bm.View() == old(bm.View()) && transMap == old(transMap) && cmt == old(cmt)
                            && currentDataPage == old(currentDataPage))
      ensures st != PoolLow && (st == WornOut ==> AnyBelow(old(ssd.View()), 1) && AnyBelow(ssd.View(), 1))
    {
      hide Ssd.Valid, Ssd.View, FlashOk, AtBlockEnd, WornOnce, AnyBelow, FreePages, MostInvalid, Dftl.Keeps, Cached,
           TableMoved, Reclaimed, IsWorst, Collection, Gain, Ends;
      ghost var dev, size, pools, cur := ssd.View(), ssd.blockSize, bm.View(), currentDataPage;
      ghost var free, t := Free(), transMap;
      TableMovedTrans(t, t, t, now);
      st, turns := Done, [];
      WornOnceStarts(dev);
      NoTurns(dev);
      AvailableBound(dev, size, pools, cur);
      var numToErase := 5;
      var it: nat := LastByCost(-1);
      MostOfAll(dev, it, bm.currentWritingBlock);
      ghost var passed := false;
      while numToErase != 0 && ssd.GetNumInvalid(it) > 0 && ssd.GetNumValid(it) == ssd.blockSize
        invariant 0 <= numToErase <= 5 && it < |ssd.blocks| && st == Done
        invariant Keeps(bytes, n, gap) && WornOnce(dev, ssd.View()) && TableMoved(t, transMap, now)
        invariant Collection(turns, dev, ssd.View()) && Free() == free + Gain(turns)
        invariant |turns| + numToErase == if passed then 4 else 5
        invariant MostInvalid(ssd.View(), it, bm.currentWritingBlock)
        invariant it == bm.currentWritingBlock ==> turns == [] && !passed && MostInvalid(dev, it, -1)
        invariant passed ==>
          cur.Some? && MostInvalid(dev, cur.value.block, -1) && cur.value.block < |dev|
          && dev[cur.value.block].pagesValid == size
        invariant turns == [] ==>
          ssd.View() == dev && bm.View() == pools && currentDataPage == cur && transMap == t && cmt == old(cmt)
        decreases numToErase
      {
        ghost var did;
        ghost var t1, turn := transMap, Turn(ssd.View(), bm.currentWritingBlock, it);
        NotBeforeFirst(ssd.View(), size, bm.View(), currentDataPage, it);
        st, did := CollectUnlessCurrent(it, now, dev, bytes, n, gap);
        if st != Done { return; }
        TableMovedTrans(t, t1, transMap, now);
        if did {
          WorstTurn(turn);
          CollectionStep(turns, dev, turn, ssd.View());
          turns := turns + [turn];
        } else {
          passed := true;
        }
        it := NextVictim();
        numToErase := numToErase - 1;
      }
      ExceptNone(ssd.View(), size, bm.View(), currentDataPage, it, bm.currentWritingBlock);
      EndsHere(dev, cur, size, ssd.View(), bm.View(), currentDataPage, it, |turns|, passed);
    }

    /** Garbage collection: when due, up to five blocks are cleaned, erased and put on the free list. */
    method InsertEvents(now: real) returns (st: Outcome, ghost turns: seq<Turn>)
      requires Valid() && PoolReady() && now >= 0.0
      modifies this, bm, ssd.Repr
      ensures Wired()
      ensures st == Done ==>
        && Valid() && PoolReady() && Array() == old(Array()) && |transMap| == old(|transMap|)
        && Gap(transMap, cmt) == old(Gap(transMap, cmt)) && TableMoved(old(transMap), transMap, now)
        && WornOnce(old(ssd.View()), ssd.View())
        && Collection(turns, old(ssd.View()), ssd.View()) && Free() == old(Free()) + Gain(turns)
        && (turns == [] ==> bm.View() == old(bm.View()) && transMap == old(transMap) && cmt == old(cmt)
                            && currentDataPage == old(currentDataPage))
        && (old(10 * (bm.dataActive - |bm.freeList|) < 9 * bm.maxBlocks) ==> turns == [])
        && (old(10 * (bm.dataActive - |bm.freeList|) > 9 * bm.maxBlocks) ==>
              Ends(old(ssd.View()), old(currentDataPage), ssd.blockSize, ssd.View(), currentDataPage, |turns|))
        && (old(MustCollect()) ==> Gain(turns) >= 1)
      ensures st != PoolLow && (st == WornOut ==> AnyBelow(old(ssd.View()), 1) && AnyBelow(ssd.View(), 1))
    {
      hide Ssd.Valid, Ssd.View, FlashOk, Bijection, Contents, Gap, EntriesOk, AtBlockEnd, WornOnce, AnyBelow,
           FreePages, MustClean, Cached, TableMoved, Collection, Gain, Ends;
      ghost var dev, pools, cur := ssd.View(), bm.View(), currentDataPage;
      TableMovedTrans(transMap, transMap, transMap, now);
      st, turns := Done, [];
      WornOnceStarts(dev);
      NoTurns(dev);
      MustMeans(dev, ssd.blockSize, pools, cur);
      LogNone(dev, ssd.blockSize, pools, cur);
      var used := bm.logActive + bm.dataActive - |bm.freeList|;
      // the ratio of used blocks against 0.90; at 0.90 itself it is left to rounding
      var due: bool :| (10 * used > 9 * bm.maxBlocks ==> due) && (10 * used < 9 * bm.maxBlocks ==> !due);
      if due {
        ghost var must := MustCollect();
        st, turns := CollectWorst(now, Array(), |transMap|, Gap(transMap, cmt));
        if st == Done && must { MustGain(dev, ssd.blockSize, pools, cur, turns, ssd.View(), currentDataPage); }
      }
    }

    /** The page handed out is EMPTY and next in order of its block. */
    method TakePage() returns (a: Address)
      requires Valid() && (AtBlockEnd(currentDataPage, ssd.blockSize) ==> Servable())
      modifies this`currentDataPage, bm
      ensures Wired() && Writing() && currentDataPage == Some(a) && Free() == old(Free()) - 1
      ensures Allotted(ssd.View(), ssd.blockSize, bm.View(), a) && a.page < ssd.blockSize
      ensures !AtBlockEnd(old(currentDataPage), ssd.blockSize) ==> bm.View() == old(bm.View())
      ensures if AtBlockEnd(old(currentDataPage), ssd.blockSize)
              then old(bm.View()).Queue() != [] && a == Address(old(bm.View()).Queue()[0], 0)
              else a == Address(old(currentDataPage).value.block, old(currentDataPage).value.page + 1)
    {
      hide Ssd.Valid, Ssd.View, FlashOk, Bijection, Contents, Gap, EntriesOk, Allotted, FreePages, Ppns, Pools.Queue;
      ghost var dev, pools, cur := ssd.View(), bm.View(), currentDataPage;
      if AtBlockEnd(cur, ssd.blockSize) { assert pools.Head().Some?; }
      TakenQueue(pools, DATA);
      NextPageEmpty(dev, ssd.blockSize, pools, cur);
      AllottedFrom(dev, ssd.blockSize, pools, cur);
      a := NextDataPage();
    }

    /** get_free_data_page: at the end of a block garbage may be collected before a new one is taken. */
    method GetFreeDataPage(now: real) returns (st: Outcome, a: Address, ghost turns: seq<Turn>)
      requires Valid() && now >= 0.0
      requires AtBlockEnd(currentDataPage, ssd.blockSize) ==> PoolReady()
      modifies this, bm, ssd.Repr
      ensures Wired()
      ensures st == Done ==>
        && TableOk() && Writing() && currentDataPage == Some(a) && |transMap| == old(|transMap|)
        && Allotted(ssd.View(), ssd.blockSize, bm.View(), a)
        && Bijection(ssd.View(), Ppns(transMap), reverseTransMap)
        && Array() == old(Array()) && Gap(transMap, cmt) == old(Gap(transMap, cmt))
        && TableMoved(old(transMap), transMap, now)
        && WornOnce(old(ssd.View()), ssd.View()) && (old(PoolReady() && Spacious()) ==> PoolReady())
      ensures st == Done ==>
        && Collection(turns, old(ssd.View()), ssd.View()) && Free() == old(Free()) + Gain(turns) - 1
        && (turns == [] ==> transMap == old(transMap) && cmt == old(cmt))
        && (!AtBlockEnd(old(currentDataPage), ssd.blockSize) ==> turns == [])
        && (old(10 * (bm.dataActive - |bm.freeList|) < 9 * bm.maxBlocks) ==> turns == [])
        && (AtBlockEnd(old(currentDataPage), ssd.blockSize)
            && old(10 * (bm.dataActive - |bm.freeList|) > 9 * bm.maxBlocks) ==>
              exists c :: Ends(old(ssd.View()), old(currentDataPage), ssd.blockSize, ssd.View(), c, |turns|))
      ensures st == Done && turns == [] ==>
        a == if AtBlockEnd(old(currentDataPage), ssd.blockSize) then Address(old(bm.View()).Queue()[0], 0)
             else Address(old(currentDataPage).value.block, old(currentDataPage).value.page + 1)
      ensures st != PoolLow && (st == WornOut ==> AnyBelow(old(ssd.View()), 1) && AnyBelow(ssd.View(), 1))
    {
      hide Ssd.Valid, Ssd.View, FlashOk, Bijection, Contents, Gap, EntriesOk, Allotted, WornOnce, AnyBelow, FreePages,
           MustClean, MappedPages, Ppns, Cached, TableMoved, Collection, Gain, Ends, Pools.Queue;
      TableMovedTrans(transMap, transMap, transMap, now);
      st, turns := Done, [];
      NoTurns(ssd.View());
      ghost var dev0, pools0, cur0 := ssd.View(), bm.View(), currentDataPage;
      ghost var low := MustCollect();
      WornOnceStarts(dev0);
      PageInRange(dev0, ssd.blockSize, pools0, cur0);
      if currentDataPage.None? || currentDataPage.value.page == ssd.blockSize - 1 {
        if cur0.Some? && Spacious() && pools0.Available() == 2 {
          LowMustClean(dev0, ssd.blockSize, pools0, cur0, Ppns(transMap), reverseTransMap);
        }
        st, turns := InsertEvents(now);
        if st != Done {
          a := Address(0, 0);
          return;
        }
        GainAtLeast(turns, dev0, ssd.View());
      }
      a := TakePage();
      if AtBlockEnd(cur0, ssd.blockSize) && (low || pools0.Available() >= 3) {
        StaysReady(pools0, cur0, bm.View(), a, ssd.blockSize, low);
      }
    }

    method Read(dlpn: nat, now: real) returns (address: Address, noop: bool, buffer: Data)
      requires Valid() && dlpn < |transMap| && now >= 0.0
      modifies this`transMap, this`cmt
      ensures Valid() && Array() == old(Array())
      ensures Gap(transMap, cmt) == old(Gap(transMap, cmt)) && cmt <= totalCMTentries
      ensures Resolved(old(transMap), transMap, dlpn, false, now, addressPerPage)
      ensures if Array()[dlpn].Some? then !noop && Array()[dlpn] == Some(buffer) && ValidAt(ssd.View(), address)
              else noop && address == Address(0, 0)
    {
      hide Ssd.Valid, Ssd.View, FlashOk, Bijection, Gap, EntriesOk, Cached, Resolved;
      ghost var t := transMap;
      ResolveMapping(dlpn, false, now);
      SamePpns(t, transMap);
      MappedIsValid(ssd.View(), ssd.blockSize, transMap, reverseTransMap, dlpn, bm.View(), currentDataPage);
      var current := transMap[dlpn];
      if current.ppn.None? {
        address, noop := Address(0, 0), true;
      } else {
        address, noop := current.ppn.value, false;
      }
      buffer := if noop then [] else ssd.GetData(address);
    }

    method Write(dlpn: nat, payload: Data, now: real) returns (st: Outcome)
      requires Valid() && dlpn < |transMap| && now >= 0.0
      requires AtBlockEnd(currentDataPage, ssd.blockSize) ==> PoolReady()
      modifies this, bm, ssd.Repr
      ensures Wired()
      ensures st == Done ==>
        && Valid() && |transMap| == old(|transMap|) && Array() == old(Array())[dlpn := Some(payload)]
        && Gap(transMap, cmt) == old(Gap(transMap, cmt)) && Worn(old(ssd.View()), ssd.View(), 1)
        && Rewritten(old(transMap), transMap, dlpn, now, addressPerPage)
        && (old(PoolReady() && Spacious()) ==> PoolReady())
        && (!AtBlockEnd(old(currentDataPage), ssd.blockSize) ==> Worn(old(ssd.View()), ssd.View(), 0))
        && (old(10 * (bm.dataActive - |bm.freeList|) < 9 * bm.maxBlocks) ==> Worn(old(ssd.View()), ssd.View(), 0))
      ensures st != PoolLow && (st == WornOut ==> AnyBelow(old(ssd.View()), 1) && AnyBelow(ssd.View(), 1))
    {
      hide Ssd.Valid, Ssd.View, FlashOk, Bijection, Contents, Gap, EntriesOk, Allotted, AtBlockEnd, AnyBelow, Worn,
           WornOnce, Ppns, MappedPages, Cached, TableMoved, Resolved, Collection, Gain, Ends;
      ghost var t, dev := transMap, ssd.View();
      ResolveMapping(dlpn, true, now);
      SamePpns(t, transMap);
      ghost var t1 := transMap;
      var freePage: Address;
      ghost var turns;
      st, freePage, turns := GetFreeDataPage(now);
      if st != Done { return; }
      ghost var dev1, t2 := ssd.View(), transMap;
      StorePage(dlpn, freePage, payload);
      RewrittenBy(t, t1, t2, transMap, dlpn, now, addressPerPage);
      WornOnceIsWorn(dev, dev1);
      WornTrans(dev, dev1, ssd.View(), 1, 0);
      if turns == [] { NoTurnSame(dev, dev1); }
    }

    /** Maps dlpn to the page handed out, programs it and invalidates the page it replaces. */
    method StorePage(dlpn: nat, freePage: Address, payload: Data)
      requires Wired() && TableOk() && Writing() && currentDataPage == Some(freePage) && dlpn < |transMap|
      requires Allotted(ssd.View(), ssd.blockSize, bm.View(), freePage)
      requires Bijection(ssd.View(), Ppns(transMap), reverseTransMap)
      modifies this`transMap, this`reverseTransMap, ssd.Repr
      ensures Valid() && |transMap| == old(|transMap|) && Array() == old(Array())[dlpn := Some(payload)]
      ensures Gap(transMap, cmt) == old(Gap(transMap, cmt)) && Worn(old(ssd.View()), ssd.View(), 0)
      ensures Cached(transMap) == Cached(old(transMap))
      ensures transMap == old(transMap)[dlpn := old(transMap)[dlpn].(ppn := Some(freePage))]
    {
      hide Ssd.Valid, Ssd.View, FlashOk, Bijection, Contents, Allotted, Moved, EntriesOk, Cached, Ppns, DevOk,
           PoolsOk, BlockOk, Worn;
      ghost var dev, size, pools := ssd.View(), ssd.blockSize, bm.View();
      ghost var table, rev := Ppns(transMap), reverseTransMap;
      var current := transMap[dlpn];
      var replace := current.ppn;
      AllottedParts(dev, size, pools, freePage);
      SetPpn(transMap, dlpn, Some(freePage));
      SetPpnEntry(transMap, transMap, dlpn, Some(freePage));
      MovedBijection(dev, size, table, rev, dlpn, freePage, payload);
      MovedFlash(dev, size, pools, freePage, payload, replace);
      MovedWear(dev, freePage, payload, replace);
      Program(freePage, payload, replace);
      reverseTransMap := reverseTransMap[freePage := dlpn];
      transMap := transMap[dlpn := current.(ppn := Some(freePage))];
    }

    /** trim: invalidates the page and unmaps it. The entry is written back from a copy made before it was dropped
        from the table, so a cached entry stays marked as cached while the counter went down. */
    method Trim(dlpn: nat)
      requires Valid() && dlpn < |transMap|
      modifies this`transMap, this`cmt, ssd.Repr
      ensures Valid() && |transMap| == old(|transMap|) && Array() == old(Array())[dlpn := None]
      ensures Worn(old(ssd.View()), ssd.View(), 0)
      ensures Cached(transMap) == Cached(old(transMap))
      ensures Trimmed(old(transMap), transMap, dlpn, addressPerPage)
      ensures Gap(transMap, cmt) == old(Gap(transMap, cmt))
        + (if old(transMap)[dlpn].ppn.Some? && old(transMap)[dlpn].cached then 1 else 0)
    {
      hide Ssd.Valid, Ssd.View, FlashOk, Bijection, Contents, Invalidated, EntriesOk, Cached, Ppns, DevOk, BlockOk,
           Gap, Worn;
      WornLess(ssd.View(), 0);
      ghost var dev, size, table := ssd.View(), ssd.blockSize, Ppns(transMap);
      var current := transMap[dlpn];
      MappedIsValid(dev, size, transMap, reverseTransMap, dlpn, bm.View(), currentDataPage);
      SetPpn(transMap, dlpn, None);
      if current.ppn.Some? {
        var address := current.ppn.value;
        DevOfFlash(dev, size, bm.View(), currentDataPage);
        TrimBijection(dev, size, table, reverseTransMap, dlpn);
        InvalidatedFlash(dev, size, bm.View(), currentDataPage, address);
        InvalidatedWear(dev, address);
        ssd.Replace(address);
        UnmapEntry(dlpn);
      } else {
        Unmapped(dev, transMap, dlpn);
      }
    }

    /** The map's side of a trim. */
    method UnmapEntry(dlpn: nat)
      requires TableOk() && dlpn < |transMap|
      modifies this`transMap, this`cmt
      ensures TableOk() && |transMap| == |old(transMap)| && Ppns(transMap) == Ppns(old(transMap))[dlpn := None]
      ensures Cached(transMap) == Cached(old(transMap))
      ensures old(transMap)[dlpn].ppn.Some? ==> Trimmed(old(transMap), transMap, dlpn, addressPerPage)
      ensures Gap(transMap, cmt) == old(Gap(transMap, cmt)) + (if old(transMap)[dlpn].cached then 1 else 0)
    {
      hide EntriesOk, Cached, Ppns, Dropped, SameGroup, Trimmed, SameMap;
      TrimmedBy(transMap, dlpn, addressPerPage);
      MappedAlike(transMap);
      var current := transMap[dlpn];
      if transMap[dlpn].cached {
        EvictEntry(dlpn);
      }
      SamePpns(old(transMap), transMap);
      SetPpn(transMap, dlpn, None);
      SetPpnEntry(old(transMap), transMap, dlpn, None);
      transMap := transMap[dlpn := current.(ppn := None)];
    }
  }
  // ---------- whole runs ----------

  /** How one request changes the array. */
  ghost function Applied(op: Op, bytes: seq<Option<Data>>): (r: seq<Option<Data>>)
    requires op.la < |bytes|
    ensures |r| == |bytes|
  {
    match op
    case ReadOp(_) => bytes
    case WriteOp(la, d) => bytes[la := Some(d)]
    case TrimOp(la) => bytes[la := None]
  }

  ghost predicate Tracks(bytes: seq<Option<Data>>, ops: seq<Op>, n: nat)
    requires n <= |ops|
  {
    forall la :: 0 <= la < |bytes| ==> bytes[la] == LastWritten(ops, n, la)
  }

  lemma {:induction false} TracksStep(bytes: seq<Option<Data>>, ops: seq<Op>, n: nat, outs: seq<Data>, out: Data)
    requires n < |ops| && ops[n].la < |bytes| && Tracks(bytes, ops, n) && ReadsRight(ops, n, outs)
    requires ops[n].ReadOp? && bytes[ops[n].la].Some? ==> bytes[ops[n].la] == Some(out)
    ensures Tracks(Applied(ops[n], bytes), ops, n + 1) && ReadsRight(ops, n + 1, outs + [out])
  {
    assert bytes[ops[n].la] == LastWritten(ops, n, ops[n].la);
    ReadsStep(ops, n, outs, out);
  }

  lemma {:induction false} TracksNothing(bytes: seq<Option<Data>>, ops: seq<Op>)
    requires forall la :: 0 <= la < |bytes| ==> bytes[la] == None
    ensures Tracks(bytes, ops, 0) && ReadsRight(ops, 0, [])
  {
  }

  lemma {:induction false} EndOfBlock(cur: Option<Address>, size: nat, needsBlock: bool)
    requires needsBlock <==> cur.None? || cur.value.page == size - 1
    ensures needsBlock <==> AtBlockEnd(cur, size)
  {
  }

  /** The request trims a page that is mapped and whose entry is marked as cached. */
  ghost predicate Drifts(op: Op, page: Option<Data>, trans: seq<MPage>) {
    op.TrimOp? && page.Some? && op.la in Cached(trans)
  }

  /** Dispatch of one request. A write that needs a block when fewer than two are left is not attempted; on a spacious
      device that never comes about. */
  method EventArrive(ftl: Dftl, op: Op, now: real) returns (st: Outcome, out: Data)
    requires ftl.Valid() && op.la < |ftl.transMap| && now >= 0.0
    modifies ftl, ftl.bm, ftl.ssd.Repr
    ensures ftl.Wired()
    ensures st == Done ==>
      && ftl.Valid() && TableStep(op, now, ftl.addressPerPage, old(ftl.transMap), ftl.transMap)
      && ftl.Array() == Applied(op, old(ftl.Array()))
      && (op.ReadOp? && old(ftl.Array())[op.la].Some? ==> old(ftl.Array())[op.la] == Some(out))
      && Gap(ftl.transMap, ftl.cmt)
         == old(Gap(ftl.transMap, ftl.cmt))
            + (if Drifts(op, old(ftl.Array())[op.la], old(ftl.transMap)) then 1 else 0)
      && Worn(old(ftl.ssd.View()), ftl.ssd.View(), if op.WriteOp? then 1 else 0)
      && (old(ftl.PoolReady() && ftl.Spacious()) ==> ftl.PoolReady())
    ensures st == WornOut ==> op.WriteOp? && AnyBelow(old(ftl.ssd.View()), 1) && AnyBelow(ftl.ssd.View(), 1)
    ensures st == PoolLow ==> op.WriteOp? && !old(ftl.PoolReady())
  {
    hide Ssd.Valid, Ssd.View, FlashOk, Bijection, Gap, EntriesOk, AtBlockEnd, AnyBelow, Worn, Contents, Ppns,
         MappedPages, Cached, Resolved, Rewritten, Trimmed;
    st, out := Done, [];
    ghost var bytes, dev, t := ftl.Array(), ftl.ssd.View(), ftl.transMap;
    WornLess(dev, 0);
    match op {
      case ReadOp(la) =>
        var address, noop;
        address, noop, out := ftl.Read(la, now);
        assert ftl.Array() == bytes;
      case WriteOp(la, d) =>
        var needsBlock := ftl.currentDataPage.None? || ftl.currentDataPage.value.page == ftl.ssd.blockSize - 1;
        EndOfBlock(ftl.currentDataPage, ftl.ssd.blockSize, needsBlock);
        if needsBlock && ftl.bm.maxBlocks - ftl.bm.next + |ftl.bm.freeList| < 2 {
          st := PoolLow;
          assert !ftl.PoolReady();
        } else {
          st := ftl.Write(la, d, now);
          assert st == Done ==> ftl.Array() == bytes[la := Some(d)];
        }
      case TrimOp(la) =>
        MappedIsValid(dev, ftl.ssd.blockSize, t, ftl.reverseTransMap, la, ftl.bm.View(), ftl.currentDataPage);
        CachedIs(t, la);
        ftl.Trim(la);
        assert ftl.Array() == bytes[la := None];
    }
  }

  /** The table each of the first n requests found, and the one left behind. */
  ghost predicate Tables(ops: seq<Op>, times: seq<real>, per: nat, tables: seq<seq<MPage>>, n: nat)
    requires n <= |ops| == |times|
  {
    |tables| == n + 1 && forall i :: 0 <= i < n ==> TableStep(ops[i], times[i], per, tables[i], tables[i + 1])
  }

  lemma {:induction false} TableAt(ops: seq<Op>, times: seq<real>, per: nat, tables: seq<seq<MPage>>, n: nat, i: nat)
    requires n <= |ops| == |times| && Tables(ops, times, per, tables, n) && i < n
    ensures TableStep(ops[i], times[i], per, tables[i], tables[i + 1]) && |tables[i + 1]| == |tables[i]|
  {
    hide Resolved, Rewritten, Trimmed;
  }

  lemma {:induction false} TablesCut(ops: seq<Op>, times: seq<real>, per: nat, tables: seq<seq<MPage>>, n: nat)
    requires 0 < n <= |ops| == |times| && Tables(ops, times, per, tables, n)
    ensures Tables(ops, times, per, tables[..n], n - 1) && tables[..n][n - 1] == tables[n - 1]
  {
    hide TableStep;
  }

  /** Of the first n requests the i-th stamped entry v last, as such requests do, and v was cached ever since. */
  ghost predicate StampedLast(ops: seq<Op>, times: seq<real>, tables: seq<seq<MPage>>, n: nat, v: nat, i: nat)
    requires |ops| == |times| && n < |tables| && n <= |ops|
    requires forall j :: 0 <= j <= n ==> v < |tables[j]|
  {
    && i < n && Stamped(tables[i], tables[i + 1], v) && StampOf(ops[i], times[i], tables[i], tables[i + 1], v)
    && tables[n][v].modifiedTs == tables[i + 1][v].modifiedTs
    && forall j :: i < j < n ==> tables[j][v].cached && !Stamped(tables[j], tables[j + 1], v)
  }

  lemma {:induction false} SameLengths(ops: seq<Op>, times: seq<real>, per: nat, tables: seq<seq<MPage>>, n: nat,
                                       j: nat)
    requires n <= |ops| == |times| && Tables(ops, times, per, tables, n) && j <= n
    ensures |tables[j]| == |tables[0]|
  {
    if j > 0 {
      SameLengths(ops, times, per, tables, n, j - 1);
      TableAt(ops, times, per, tables, n, j - 1);
    }
  }

  /** In every run on a table that begins empty: the modification time of a cached entry is that of the last request
      that stamped it. */
  lemma {:induction false} StampHistory(ops: seq<Op>, times: seq<real>, per: nat, tables: seq<seq<MPage>>, n: nat,
                                        v: nat)
      returns (i: nat)
    requires n <= |ops| == |times| && Tables(ops, times, per, tables, n)
    requires v < |tables[0]| && !tables[0][v].cached
    requires |tables[n]| == |tables[0]| && tables[n][v].cached
    ensures forall j :: 0 <= j <= n ==> v < |tables[j]|
    ensures StampedLast(ops, times, tables, n, v, i)
  {
    hide TableStep, StampOf, Tables;
    assert |tables| == n + 1 by { TablesSize(ops, times, per, tables, n); }
    forall j | 0 <= j <= n ensures v < |tables[j]| {
      SameLengths(ops, times, per, tables, n, j);
    }
    TableAt(ops, times, per, tables, n, n - 1);
    if Stamped(tables[n - 1], tables[n], v) {
      WhoStamps(ops[n - 1], times[n - 1], per, tables[n - 1], tables[n - 1 + 1], v);
      i := n - 1;
    } else {
      TablesCut(ops, times, per, tables, n);
      SameLengths(ops, times, per, tables, n, n - 1);
      i := StampHistory(ops, times, per, tables[..n], n - 1, v);
      assert forall j :: 0 <= j < n ==> tables[..n][j] == tables[j];
    }
  }

  lemma {:induction false} TablesSize(ops: seq<Op>, times: seq<real>, per: nat, tables: seq<seq<MPage>>, n: nat)
    requires n <= |ops| == |times| && Tables(ops, times, per, tables, n)
    ensures |tables| == n + 1
  {
  }

  /** Request i trims a page written before, and not trimmed since, whose entry is marked as cached. */
  ghost predicate DriftsAt(ops: seq<Op>, tables: seq<seq<MPage>>, i: nat)
    requires i < |ops| && i < |tables|
  {
    Drifts(ops[i], LastWritten(ops, i, ops[i].la), tables[i])
  }

  /** How many of the first n requests are such trims. */
  ghost function DriftCount(ops: seq<Op>, tables: seq<seq<MPage>>, n: nat): nat
    requires n <= |ops| && n <= |tables|
  {
    if n == 0 then 0 else DriftCount(ops, tables, n - 1) + if DriftsAt(ops, tables, n - 1) then 1 else 0
  }

  lemma {:induction false} TablesStep(ops: seq<Op>, times: seq<real>, per: nat, tables: seq<seq<MPage>>, n: nat,
                                      t: seq<MPage>)
    requires n < |ops| == |times| && Tables(ops, times, per, tables, n)
    requires TableStep(ops[n], times[n], per, tables[n], t)
    ensures Tables(ops, times, per, tables + [t], n + 1)
    ensures DriftCount(ops, tables + [t], n + 1)
      == DriftCount(ops, tables, n) + if DriftsAt(ops, tables, n) then 1 else 0
  {
    hide TableStep, Drifts;
    SameCount(ops, tables, tables + [t], n);
    assert (tables + [t])[n] == tables[n];
  }

  lemma {:induction false} SameCount(ops: seq<Op>, a: seq<seq<MPage>>, b: seq<seq<MPage>>, n: nat)
    requires n <= |ops| && n <= |a| && a <= b
    ensures DriftCount(ops, a, n) == DriftCount(ops, b, n)
  {
    hide Drifts;
    if n > 0 { SameCount(ops, a, b, n - 1); }
  }

  /** The counter has kept its distance exactly if no request was such a trim. */
  lemma {:induction false} DriftNone(ops: seq<Op>, tables: seq<seq<MPage>>, n: nat)
    requires n <= |ops| && n <= |tables|
    ensures DriftCount(ops, tables, n) == 0 <==> forall i :: 0 <= i < n ==> !DriftsAt(ops, tables, i)
  {
    hide DriftsAt;
    if n > 0 { DriftNone(ops, tables, n - 1); }
  }

  lemma {:induction false} DriftsMeans(bytes: seq<Option<Data>>, ops: seq<Op>, tables: seq<seq<MPage>>, n: nat)
    requires n < |ops| && n < |tables| && ops[n].la < |bytes| && Tracks(bytes, ops, n)
    ensures Drifts(ops[n], bytes[ops[n].la], tables[n]) <==> DriftsAt(ops, tables, n)
  {
  }

  /** Number of writes among the first n requests. */
  ghost function WriteCount(ops: seq<Op>, n: nat): nat
    requires n <= |ops|
  {
    if n == 0 then 0 else WriteCount(ops, n - 1) + if ops[n - 1].WriteOp? then 1 else 0
  }

  lemma {:induction false} WriteCountMore(ops: seq<Op>, m: nat, n: nat)
    requires m <= n <= |ops|
    ensures WriteCount(ops, m) <= WriteCount(ops, n)
  {
    if m < n { WriteCountMore(ops, m, n - 1); }
  }

  ghost predicate Requests(ops: seq<Op>, times: seq<real>, size: nat) {
    |times| == |ops| && forall i :: 0 <= i < |ops| ==> ops[i].la < size && times[i] >= 0.0
  }

  lemma {:induction false} TimesFor(ops: seq<Op>, times: seq<real>, size: nat)
    requires Requests(ops, times, size)
    ensures |times| == |ops|
  {
  }

  lemma {:induction false} RequestOk(ops: seq<Op>, times: seq<real>, size: nat, i: nat)
    requires Requests(ops, times, size) && i < |ops|
    ensures i < |times| && ops[i].la < size && times[i] >= 0.0
  {
  }

  /** Logical pages written by the run. */
  ghost function Written(ops: seq<Op>): set<nat> {
    set i | 0 <= i < |ops| && ops[i].WriteOp? :: ops[i].la
  }

  lemma {:induction false} WrittenIf(ops: seq<Op>, n: nat, la: nat)
    requires n <= |ops|
    ensures LastWritten(ops, n, la).Some? ==> la in Written(ops)
  {
    if n > 0 { WrittenIf(ops, n - 1, la); }
  }

  /** The run writes so few logical pages that cleaning always finds something to reclaim. */
  ghost predicate RoomyRun(ops: seq<Op>, maxBlocks: nat, size: nat) {
    maxBlocks > 20 && |Written(ops)| < (maxBlocks - 3) * size
  }

  lemma {:induction false} FewMapped(dev: seq<BlockView>, size: nat, pools: Pools, cur: Option<Address>,
                                     trans: seq<MPage>,
                                     rev: map<Address, nat>, ops: seq<Op>, n: nat)
    requires FlashOk(dev, size, pools, cur) && Bijection(dev, Ppns(trans), rev)
    requires n <= |ops| && Tracks(Contents(dev, Ppns(trans)), ops, n)
    ensures |MappedPages(Ppns(trans))| <= |Written(ops)|
  {
    forall v | v in MappedPages(Ppns(trans)) ensures v in Written(ops) {
      MappedIsValid(dev, size, trans, rev, v, pools, cur);
      WrittenIf(ops, n, v);
    }
    SubsetSize(MappedPages(Ppns(trans)), Written(ops));
  }

  /** A block worn out at a write had fewer erases left than the run has writes. */
  lemma {:induction false} WearLeft(dev: seq<BlockView>, dev': seq<BlockView>, ops: seq<Op>, i: nat)
    requires i < |ops| && ops[i].WriteOp? && Worn(dev, dev', WriteCount(ops, i)) && AnyBelow(dev', 1)
    ensures AnyBelow(dev, WriteCount(ops, |ops|))
  {
    WornBelow(dev, dev', WriteCount(ops, i), 1);
    WriteCountMore(ops, i + 1, |ops|);
    BelowMore(dev, 1 + WriteCount(ops, i), WriteCount(ops, |ops|));
  }

  /** Any run over an empty array, whatever the collector decides: as long as requests are served, every read of a
      written page returns the bytes last written to it; the number of entries marked as cached runs ahead of the
      counter by one for each trim of a page that is mapped and marked, and by no more. A run that leaves three blocks'
      worth of pages unwritten is served to the end, if each block has an erase left for every write. */
  method Replay(ftl: Dftl, ops: seq<Op>, times: seq<real>)
      returns (st: Outcome, results: seq<Data>, ghost served: nat, ghost tables: seq<seq<MPage>>)
    requires ftl.Valid() && forall v :: 0 <= v < |ftl.transMap| ==> ftl.Array()[v] == None
    requires Requests(ops, times, |ftl.transMap|)
    modifies ftl, ftl.bm, ftl.ssd.Repr
    ensures served <= |ops| && ReadsRight(ops, served, results)
    ensures |times| == |ops| && Tables(ops, times, ftl.addressPerPage, tables, served)
    ensures tables[0] == old(ftl.transMap)
    ensures st == Done <==> served == |ops|
    ensures st == Done ==>
      && ftl.Valid() && Tracks(ftl.Array(), ops, |ops|) && tables[|ops|] == ftl.transMap
      && Gap(ftl.transMap, ftl.cmt) == old(Gap(ftl.transMap, ftl.cmt)) + DriftCount(ops, tables, |ops|)
      && (Gap(ftl.transMap, ftl.cmt) == old(Gap(ftl.transMap, ftl.cmt))
          <==> forall i :: 0 <= i < |ops| ==> !DriftsAt(ops, tables, i))
    ensures (old(ftl.PoolReady()) && RoomyRun(ops, ftl.bm.maxBlocks, ftl.ssd.blockSize)
             && !AnyBelow(old(ftl.ssd.View()), WriteCount(ops, |ops|))) ==> st == Done
  {
    hide Ssd.Valid, Ssd.View, FlashOk, Bijection, Gap, EntriesOk, AtBlockEnd, AnyBelow, Worn, LastWritten, Tracks,
         ReadsRight, Applied, Contents, Ppns, Requests, MappedPages, Written, TableStep, DriftsAt, Drifts, WriteCount;
    ghost var gap, size, dev := Gap(ftl.transMap, ftl.cmt), |ftl.transMap|, ftl.ssd.View();
    ghost var roomy := ftl.PoolReady() && RoomyRun(ops, ftl.bm.maxBlocks, ftl.ssd.blockSize);
    WornLess(dev, 0);
    NoWrites(ops);
    TimesFor(ops, times, size);
    TracksNothing(ftl.Array(), ops);
    results, st, tables := [], Done, [ftl.transMap];
    var i := 0;
    while i < |ops|
      invariant i <= |ops| && ftl.Valid() && st == Done && |ftl.transMap| == size
      invariant Tracks(ftl.Array(), ops, i) && ReadsRight(ops, i, results)
      invariant Tables(ops, times, ftl.addressPerPage, tables, i)
      invariant tables[i] == ftl.transMap && tables[0] == old(ftl.transMap)
      invariant Gap(ftl.transMap, ftl.cmt) == gap + DriftCount(ops, tables, i)
      invariant Worn(dev, ftl.ssd.View(), WriteCount(ops, i)) && (roomy ==> ftl.PoolReady())
    {
      ghost var was := ftl.ssd.View();
      FewMapped(was, ftl.ssd.blockSize, ftl.bm.View(), ftl.currentDataPage, ftl.transMap, ftl.reverseTransMap, ops, i);
      RequestOk(ops, times, size, i);
      ghost var bytes := ftl.Array();
      var out;
      st, out := EventArrive(ftl, ops[i], times[i]);
      if st != Done {
        served := i;
        if st == WornOut { WearLeft(dev, was, ops, i); }
        return;
      }
      OneWrite(ops, i);
      WornTrans(dev, was, ftl.ssd.View(), WriteCount(ops, i), if ops[i].WriteOp? then 1 else 0);
      DriftsMeans(bytes, ops, tables, i);
      TableSize(ops[i], times[i], ftl.addressPerPage, tables[i], ftl.transMap);
      TablesStep(ops, times, ftl.addressPerPage, tables, i, ftl.transMap);
      TracksStep(bytes, ops, i, results, out);
      results, tables := results + [out], tables + [ftl.transMap];
      i := i + 1;
    }
    served := |ops|;
    DriftNone(ops, tables, |ops|);
  }

  lemma {:induction false} NoWrites(ops: seq<Op>)
    ensures WriteCount(ops, 0) == 0
  {
  }

  lemma {:induction false} OneWrite(ops: seq<Op>, i: nat)
    requires i < |ops|
    ensures WriteCount(ops, i + 1) == WriteCount(ops, i) + if ops[i].WriteOp? then 1 else 0
  {
  }

  lemma {:induction false} TableSize(op: Op, now: real, per: nat, t: seq<MPage>, t': seq<MPage>)
    requires TableStep(op, now, per, t, t')
    ensures |t'| == |t|
  {
  }

  /** Any run on a new device: reads are right as far as it goes, and it goes to the end if more than 20 blocks leave
      room for three beyond the logical pages written and each block has an erase for every write. The entries marked
      as cached are then as many as the counter tells and the trims of mapped and marked pages together. */
  method ReplayNew(numBlocks: nat, size: nat, erases: nat, perPage: nat, cmtLimit: nat, ops: seq<Op>, times: seq<real>)
      returns (st: Outcome, results: seq<Data>, counter: int, ghost served: nat, ghost tables: seq<seq<MPage>>)
    requires size > 0 && perPage > 0 && (numBlocks * size) % perPage == 0 && cmtLimit >= 1
    requires Requests(ops, times, numBlocks * size)
    ensures served <= |ops| && ReadsRight(ops, served, results)
    ensures |times| == |ops| && Tables(ops, times, perPage, tables, served)
    ensures |tables[0]| == numBlocks * size && forall v :: 0 <= v < |tables[0]| ==> !tables[0][v].cached
    ensures st == Done <==> served == |ops|
    ensures st == Done ==> |Cached(tables[|ops|])| == counter + DriftCount(ops, tables, |ops|)
    ensures RoomyRun(ops, numBlocks, size) && WriteCount(ops, |ops|) <= erases ==> st == Done
  {
    hide ReadsRight, AnyBelow, Requests, Written, Cached, TableStep, WriteCount, DriftCount;
    var ftl := new Dftl(numBlocks, size, erases, perPage, cmtLimit);
    ghost var dev := ftl.ssd.View();
    TimesFor(ops, times, numBlocks * size);
    if WriteCount(ops, |ops|) <= erases && AnyBelow(dev, WriteCount(ops, |ops|)) {
      BelowMore(dev, WriteCount(ops, |ops|), erases);
    }
    st, results, served, tables := Replay(ftl, ops, times);
    counter := ftl.cmt;
  }

  /** On a new device one write and one trim of the same page: an entry is marked that the counter does not count. */
  method DriftRun(numBlocks: nat, size: nat, erases: nat, perPage: nat, cmtLimit: nat, d: Data, now: real)
      returns (st: Outcome, counter: int, ghost trans: seq<MPage>)
    requires size > 0 && perPage > 0 && (numBlocks * size) % perPage == 0 && cmtLimit >= 1
    requires numBlocks >= 2 && erases >= 1 && now >= 0.0
    ensures st == Done && |Cached(trans)| == counter + 1
  {
    hide Ssd.Valid, Ssd.View, FlashOk, Bijection, EntriesOk, AtBlockEnd, AnyBelow, Worn, Contents, Ppns, MappedPages,
         Cached, TableStep;
    var ftl := new Dftl(numBlocks, size, erases, perPage, cmtLimit);
    if AnyBelow(ftl.ssd.View(), 1) { BelowMore(ftl.ssd.View(), 1, erases); }
    assert Cached(ftl.transMap) == {};
    OnePage(numBlocks, size);
    var out;
    ghost var t := ftl.transMap;
    st, out := EventArrive(ftl, WriteOp(0, d), now);
    WriteCaches(WriteOp(0, d), now, perPage, t, ftl.transMap);
    CachedIs(ftl.transMap, 0);
    st, out := EventArrive(ftl, TrimOp(0), now);
    counter, trans := ftl.cmt, ftl.transMap;
  }

  lemma {:induction false} OnePage(m: nat, n: nat)
    requires m > 0 && n > 0
    ensures m * n > 0
  {
  }
}
