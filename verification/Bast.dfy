/** The BAST translation layer (flashsim/bast_ftl.cpp): one page-mapped log block per written logical block. */
module Bast {
  import opened Flash
  import opened Options
  import opened BlockPools
  import opened BastModel
  import opened BastSteps
  import opened Workload

  /** How an operation ends: served, or stopped by a failing assert on an empty pool or a worn-out block. */
  datatype Outcome = Done | OutOfBlocks | WornOut

  ghost predicate SomeWornOut(s: State) {
    exists b :: 0 <= b < |s.dev| && s.dev[b].erasesRemaining < 1
  }

  /** b is a block that cannot be erased any more. */
  ghost predicate IsWorn(s: State, b: int) {
    0 <= b < |s.dev| && s.dev[b].erasesRemaining < 1
  }

  ghost predicate AllBlocksUsed(s: State) {
    Used(s) == s.pools.max
  }

  lemma {:induction false} UsedBound(s: State, size: nat)
    requires Inv(s, size)
    ensures Used(s) <= s.pools.max
  {
  }

  lemma {:induction false} NoHeadMeansAllUsed(s: State, size: nat)
    requires Inv(s, size) && s.pools.Head().None?
    ensures AllBlocksUsed(s)
  {
  }

  lemma {:induction false} SameRefl(s: State)
    ensures SameContents(s, s) && WearAtMostOne(s, s)
  {
  }

  lemma {:induction false} AllocSame(s: State, size: nat, lba: nat)
    requires Inv(s, size) && CanTake(s) && lba < |s.dl| && lba !in s.log
    ensures SameContents(s, AfterAlloc(s, size, lba))
    ensures Touched(AfterAlloc(s, size, lba)) <= Touched(s) + {lba}
  {
    hide Inv;
    AllocInv(s, size, lba);
  }

  lemma {:induction false} SameTrans(a: State, b: State, c: State)
    requires SameContents(a, b) && WearAtMostOne(a, b) && SameContents(b, c) && c.dev == b.dev
    ensures SameContents(a, c) && WearAtMostOne(a, c)
  {
  }

  /** addressShift is log2(BLOCK_SIZE): the shift and the remainder split a logical address. */
  function LogicalPage(la: nat, size: nat): Page
    requires size > 0
  {
    DivNonNegative(la, size);
    Page(la / size, la % size)
  }

  lemma {:induction false} DivNonNegative(la: nat, size: nat)
    requires size > 0
    ensures 0 <= la / size
  {
    assert la == (la / size) * size + la % size;
    assert (la / size + 1) * size > 0;
  }

  lemma {:induction false} LogicalPageInRange(la: nat, n: nat, size: nat)
    requires size > 0 && la < n * size
    ensures var p := LogicalPage(la, size); p.lba < n && p.off < size && p.lba * size + p.off == la
  {
    assert la == (la / size) * size + la % size;
    assert (n - la / size) * size > 0;
  }

  lemma {:induction false} RoomLeft(s: State, size: nat, l: nat)
    requires Inv(s, size) && l in s.log && s.log[l].block < |s.dev| && s.dev[s.log[l].block].pagesValid < size
    ensures HasRoom(s, size, l)
  {
    hide Inv;
    BlocksOf(s, size, l);
  }

  lemma {:induction false} SameIsEqual(s: State, s': State)
    requires SameContents(s, s')
    ensures Contents(s') == Contents(s)
  {
  }

  lemma {:induction false} WrittenContents(s0: State, s: State, size: nat, p: Page, d: Data)
    requires Inv(s, size) && HasRoom(s, size, p.lba) && p.off < size
    requires SameContents(s0, s) && WearAtMostOne(s0, s)
    ensures Contents(AfterLogWrite(s, size, p, d)) == Contents(s0)[p := d]
    ensures WearAtMostOne(s0, AfterLogWrite(s, size, p, d))
    ensures Touched(AfterLogWrite(s, size, p, d)) == Touched(s)
  {
    hide Inv, Holds;
    forall q: Page ensures Holds(AfterLogWrite(s, size, p, d), q) == if q == p then Some(d) else Holds(s0, q) {
      LogWriteHolds(s, size, p, d, q);
    }
  }

  /** The log half of a trim: only p can be lost, only its log block can be erased. */
  ghost predicate LogTrimmed(s: State, s': State, p: Page) {
    && (forall q: Page :: Holds(s', q) == if q == p && InLog(s, p) then None else Holds(s, q))
    && !InLog(s', p) && s'.dl == s.dl && Touched(s') <= Touched(s) && WearAtMostOne(s, s')
    && (forall b :: 0 <= b < |s.dev| && s'.dev[b].erasesRemaining != s.dev[b].erasesRemaining ==>
          p.lba in s.log && b == s.log[p.lba].block)
  }

  /** The data half, for a page no longer in the log: p is gone, only its data block can be erased. */
  ghost predicate DataTrimmed(s: State, s': State, p: Page) {
    && (forall q: Page :: Holds(s', q) == if q == p then None else Holds(s, q))
    && Touched(s') <= Touched(s) && WearAtMostOne(s, s')
    && (forall b :: 0 <= b < |s.dev| && s'.dev[b].erasesRemaining != s.dev[b].erasesRemaining ==>
          p.lba < |s.dl| && b == s.dl[p.lba])
  }

  lemma {:induction false} InactiveLogTrim(s: State, size: nat, p: Page)
    requires Inv(s, size) && InLog(s, p)
    ensures var t, b := AfterLogTrim(s, p), s.log[p.lba].block;
      && LogTrimmed(s, t, p) && Inv(t, size)
      && p.lba in t.log && t.log[p.lba].block == b < |t.dev| == |t.owner|
      && t.dev[b].erasesRemaining == s.dev[b].erasesRemaining
      && (t.dev[b].state == INACTIVE && t.dev[b].erasesRemaining >= 1 ==>
            LogTrimmed(s, AfterReleaseLog(t, p.lba), p) && Inv(AfterReleaseLog(t, p.lba), size))
  {
    hide Inv, Holds;
    BlocksOf(s, size, p.lba);
    LogTrimInv(s, size, p);
    var t, b := AfterLogTrim(s, p), s.log[p.lba].block;
    assert t.log.Keys == s.log.Keys;
    if t.dev[b].state == INACTIVE && t.dev[b].erasesRemaining >= 1 {
      InactiveIsDead(t, size, p.lba);
      ReleaseLogInv(t, size, p.lba);
    }
  }

  lemma {:induction false} InactiveDataTrim(s: State, size: nat, p: Page)
    requires Inv(s, size) && HasDataBlock(s, p) && !InLog(s, p)
    ensures var t, b := AfterDataTrim(s, p), s.dl[p.lba];
      && DataTrimmed(s, t, p) && Inv(t, size)
      && t.dl[p.lba] == b && |t.dev| == |s.dev| == |t.owner|
      && t.dev[b].erasesRemaining == s.dev[b].erasesRemaining
      && (t.dev[b].state == INACTIVE && t.dev[b].erasesRemaining >= 1 ==>
            DataTrimmed(s, AfterReleaseData(t, p.lba), p) && Inv(AfterReleaseData(t, p.lba), size))
  {
    hide Inv, Holds;
    BlocksOf(s, size, p.lba);
    DataTrimInv(s, size, p);
    var t, b := AfterDataTrim(s, p), s.dl[p.lba];
    if t.dev[b].state == INACTIVE && t.dev[b].erasesRemaining >= 1 {
      InactiveIsDead(t, size, p.lba);
      ReleaseDataInv(t, size, p.lba);
    }
  }

  lemma {:induction false} NoLogTrim(s: State, p: Page)
    requires !InLog(s, p)
    ensures LogTrimmed(s, s, p)
  {
  }

  lemma {:induction false} NoDataTrim(s: State, p: Page)
    requires !InLog(s, p) && !HasDataBlock(s, p)
    ensures DataTrimmed(s, s, p)
  {
  }

  lemma {:induction false} TrimLogKeeps(s0: State, s1: State, p: Page)
    requires LogTrimmed(s0, s1, p)
    ensures !InLog(s1, p) && s1.dl == s0.dl && |s1.dev| == |s0.dev|
    ensures var b := if p.lba < |s0.dl| then s0.dl[p.lba] else -1;
      0 <= b < |s0.dev| && (p.lba in s0.log ==> s0.log[p.lba].block != b) ==>
        s1.dev[b].erasesRemaining == s0.dev[b].erasesRemaining
  {
  }

  lemma {:induction false} TrimmedContents(s0: State, s1: State, s2: State, p: Page)
    requires LogTrimmed(s0, s1, p) && DataTrimmed(s1, s2, p)
    requires p.lba in s0.log && p.lba < |s0.dl| ==> s0.log[p.lba].block != s0.dl[p.lba]
    ensures Contents(s2) == Contents(s0) - {p}
    ensures WearAtMostOne(s0, s2) && Touched(s2) <= Touched(s0)
  {
    hide Holds, Touched;
    assert forall q: Page :: Holds(s2, q) == if q == p then None else Holds(s1, q);
    assert forall q: Page :: q != p ==> Holds(s1, q) == Holds(s0, q);
  }

  /** The trim of p empties the log block it is in, and that block is worn out. */
  ghost predicate WornLog(s: State, p: Page) {
    && p.lba in s.log && p.off < |s.log[p.lba].pages| && s.log[p.lba].pages[p.off] != -1
    && IsWorn(s, s.log[p.lba].block) && Emptied(s.dev[s.log[p.lba].block], s.log[p.lba].pages[p.off])
  }

  /** The same of the data block. */
  ghost predicate WornData(s: State, p: Page) {
    p.lba < |s.dl| && IsWorn(s, s.dl[p.lba]) && Emptied(s.dev[s.dl[p.lba]], p.off)
  }

  /** Trimming in the log block leaves the data block as it is. */
  lemma {:induction false} WornDataKept(s: State, s1: State, p: Page)
    requires TrimmedLog(s, s1, p) && p.lba < |s.dl| && |s1.dev| == |s.dev|
    ensures WornData(s1, p) <==> WornData(s, p)
  {
    hide Emptied, ErasedOnce, PageDropped;
  }

  /** The page of the data block at p's offset was not programmed since that block was erased. */
  ghost predicate EmptyDataPage(s: State, p: Page) {
    p.lba < |s.dl| && 0 <= s.dl[p.lba] < |s.dev| && p.off < |s.dev[s.dl[p.lba]].pages|
    && s.dev[s.dl[p.lba]].pages[p.off] == EMPTY
  }

  class Bast {
    const ssd: Ssd
    const bm: BlockManager
    const logLimit: nat  // BAST_LOG_PAGE_LIMIT
    var logMap: map<nat, LogPageBlock>
    var dataList: seq<int>
    ghost var owner: seq<Owner>

    ghost predicate Wired()
      reads this, ssd, ssd.Repr
    {
      && ssd.Valid() && this !in ssd.Repr && bm !in ssd.Repr
      && logLimit >= 1 && |ssd.blocks| == bm.maxBlocks == |dataList|
    }

    ghost function View(): State
      requires Wired()
      reads this, bm, ssd, ssd.Repr
    {
      State(ssd.View(), logMap, dataList, bm.View(), owner)
    }

    ghost predicate Valid()
      reads this, bm, ssd, ssd.Repr
    {
      Wired() && Inv(View(), ssd.blockSize) && |logMap| <= logLimit
    }

    constructor (numBlocks: nat, size: nat, erases: nat, limit: nat)
      requires size > 0 && limit >= 1
      ensures Valid() && fresh(ssd) && fresh(ssd.Repr) && fresh(bm)
      ensures ssd.blockSize == size && |ssd.blocks| == numBlocks && logLimit == limit
      ensures Touched(View()) == {} && forall q: Page :: Holds(View(), q) == None
      ensures forall b :: 0 <= b < numBlocks ==> View().dev[b].erasesRemaining == erases
    {
      ssd := new Ssd(numBlocks, size, erases);
      bm := new BlockManager(numBlocks);
      logLimit, logMap := limit, map[];
      dataList, owner := seq(numBlocks, _ => -1), seq(numBlocks, _ => Fresh);
      new;
      assert Mapped(dataList) == {};
    }

    /** The scan of is_sequential. */
    method PagesInOrder(pages: seq<int>) returns (isSequential: bool)
      ensures isSequential <==> Sequential(pages)
    {
      isSequential := true;
      var i := 0;
      while i < |pages|
        invariant i <= |pages|
        invariant forall o :: 0 <= o < i ==> pages[o] == o
      {
        if pages[i] != i {
          return false;
        }
        i := i + 1;
      }
    }

    /** is_sequential: switches a log block whose pages are all in order, without copying. */
    method IsSequential(lba: nat) returns (sequential: bool, st: Outcome)
      requires Valid() && lba in logMap
      modifies this, bm, ssd.Repr
      ensures Wired()
      ensures !sequential ==> st == Done && View() == old(View())
      ensures sequential && st == Done ==>
        && Valid() && SameContents(old(View()), View()) && WearAtMostOne(old(View()), View())
        && Used(View()) <= Used(old(View())) && Touched(View()) <= Touched(old(View()))
        && logMap == old(logMap) - {lba}
      ensures st != Done ==> st == WornOut && SomeWornOut(old(View()))
      ensures sequential <==> forall o :: 0 <= o < |old(logMap)[lba].pages| ==> old(logMap)[lba].pages[o] == o
      ensures sequential && st == Done ==> Switched(old(View()), View(), lba)
      ensures lba < |dataList| && (st == WornOut <==> sequential && IsWorn(old(View()), old(dataList)[lba]))
    {
      hide Ssd.Valid, Ssd.View, Inv, Holds, Used, Touched, SameContents, WearAtMostOne, SomeWornOut, IsWorn, Switched;
      BlocksOf(View(), ssd.blockSize, lba);
      sequential := PagesInOrder(logMap[lba].pages);
      st := Done;
      if sequential {
        st := SwitchMerge(lba);
      }
    }

    /** Makes a log block whose pages are in order the data block, and erases the old one. */
    method SwitchMerge(lba: nat) returns (st: Outcome)
      requires Valid() && lba in logMap && lba < |dataList| && Sequential(logMap[lba].pages)
      modifies this, bm, ssd.Repr
      ensures Wired()
      ensures st == Done ==>
        && Valid() && SameContents(old(View()), View()) && WearAtMostOne(old(View()), View())
        && Used(View()) <= Used(old(View())) && Touched(View()) <= Touched(old(View()))
        && logMap == old(logMap) - {lba}
      ensures st != Done ==> st == WornOut && SomeWornOut(old(View()))
      ensures st == Done ==> Switched(old(View()), View(), lba)
      ensures st == WornOut <==> IsWorn(old(View()), old(dataList)[lba])
    {
      hide Ssd.Valid, Ssd.View, Inv, Holds, Sequential, Used, Touched, SameContents, WearAtMostOne, Pools.Queue,
           PageMapOk, Exclusive, BlockOk, Erased, Switched;
      ghost var s, size := View(), ssd.blockSize;
      BlocksOf(s, size, lba);
      var logBlock := logMap[lba];
      bm.PromoteToData();
      if dataList[lba] != -1 {
        var r := bm.EraseAndInvalidate(ssd, dataList[lba], DATA);
        if r == FAILURE { return WornOut; }
      }
      SwitchInv(s, size, lba);
      SwitchSteps(s, size, lba);
      hide CanSwitch;
      ghost var t := AfterSwitch(s, lba);
      assert ssd.View() == t.dev && bm.View() == t.pools;
      owner, dataList, logMap := t.owner, dataList[lba := logBlock.block], logMap - {lba};
      assert View() == t;
      st := Done;
    }

    /** random_merge: copies the live pages of lba into a new data block and frees the old blocks. */
    method RandomMerge(lba: nat) returns (st: Outcome)
      requires Valid() && lba in logMap
      modifies this, bm, ssd.Repr
      ensures Wired()
      ensures st == Done ==>
        && Valid() && SameContents(old(View()), View()) && WearAtMostOne(old(View()), View())
        && Used(View()) <= Used(old(View())) && Touched(View()) <= Touched(old(View()))
        && logMap == old(logMap) - {lba}
      ensures st == OutOfBlocks ==> View() == old(View())
      ensures st == OutOfBlocks ==> AllBlocksUsed(old(View()))
      ensures st == WornOut ==> SomeWornOut(old(View()))
      ensures st == Done ==> MergedByCopy(old(View()), View(), ssd.blockSize, lba)
      ensures lba < |dataList| && (st == OutOfBlocks <==> old(View()).pools.Queue() == [])
      ensures st == WornOut <==>
        && old(View()).pools.Queue() != []
        && (IsWorn(old(View()), old(logMap)[lba].block) || IsWorn(old(View()), old(dataList)[lba]))
    {
      hide Ssd.Valid, Ssd.View, Inv, IsWorn, Pools.Queue, Copied, AllBlocksUsed, SameContents, WearAtMostOne, Used,
           Touched, MergedByCopy;
      ghost var s, size := View(), ssd.blockSize;
      BlocksOf(s, size, lba);
      var logBlock := logMap[lba];
      LogCountBound(s, size);
      TakenQueue(s.pools, DATA);
      var head := bm.GetFreeBlock(DATA);
      if head.None? {
        NoHeadMeansAllUsed(s, size);
        return OutOfBlocks;
      }
      var newDataBlock := head.value;
      HeadInRange(s, size);
      CopyStarts(s, size, lba);
      CopyLoop(s, lba, newDataBlock);
      st := ReplaceByCopy(s, lba, newDataBlock);
    }

    /** The end of random_merge: erases the log block and any data block, and maps the copy. */
    method ReplaceByCopy(ghost s: State, lba: nat, newDataBlock: nat) returns (st: Outcome)
      requires Wired() && Inv(s, ssd.blockSize) && CanTake(s) && s.pools.Head().value == newDataBlock
      requires lba in logMap && lba < |dataList|
      requires View() == s.(dev := ssd.View(), pools := s.pools.Taken(DATA))
      requires Copied(s, ssd.View(), ssd.blockSize, lba, newDataBlock, ssd.blockSize)
      modifies this, bm, ssd.Repr
      ensures Wired() && st != OutOfBlocks
      ensures st == Done ==>
        && Inv(View(), ssd.blockSize) && SameContents(s, View()) && WearAtMostOne(s, View())
        && Used(View()) <= Used(s) && Touched(View()) <= Touched(s)
        && logMap == s.log - {lba}
      ensures st == WornOut ==> SomeWornOut(s)
      ensures st == Done ==> MergedByCopy(s, View(), ssd.blockSize, lba)
      ensures st == WornOut <==> IsWorn(s, s.log[lba].block) || IsWorn(s, s.dl[lba])
    {
      hide Ssd.Valid, Ssd.View, Inv, Copied, AllBlocksUsed, CanTake, SameContents, WearAtMostOne, Used, Touched,
           Erased, Pools.Queue, PageMapOk, Exclusive, BlockOk, MergedByCopy;
      ghost var dev, size := ssd.View(), ssd.blockSize;
      var logBlock := logMap[lba];
      BlocksOf(s, size, lba);
      CopyKeepsWear(s, dev, size, lba, newDataBlock);
      var r := bm.EraseAndInvalidate(ssd, logBlock.block, LOG);
      if r == FAILURE { return WornOut; }
      if dataList[lba] != -1 {
        r := bm.EraseAndInvalidate(ssd, dataList[lba], DATA);
        if r == FAILURE { return WornOut; }
      }
      MergeInv(s, dev, size, lba);
      MergeSteps(s, dev, size, lba);
      ghost var t := AfterMerge(s, dev, lba);
      assert ssd.View() == t.dev && bm.View() == t.pools;
      owner, dataList, logMap := t.owner, dataList[lba := newDataBlock], logMap - {lba};
      assert View() == t;
      st := Done;
    }

    /** The copy loop of random_merge: one read and one write event per live page. */
    method CopyLoop(ghost s: State, lba: nat, newDataBlock: nat)
      requires Wired() && Inv(s, ssd.blockSize) && lba in s.log && lba < |s.dl|
      requires logMap == s.log && dataList == s.dl
      requires Copied(s, ssd.View(), ssd.blockSize, lba, newDataBlock, 0)
      modifies ssd.Repr
      ensures Wired() && Copied(s, ssd.View(), ssd.blockSize, lba, newDataBlock, ssd.blockSize)
    {
      hide Ssd.Valid, Ssd.View, Inv, Holds, Copied;
      ghost var size := ssd.blockSize;
      var logBlock := logMap[lba];
      BlocksOf(s, size, lba);
      var i := 0;
      while i < ssd.blockSize
        invariant i <= ssd.blockSize && Wired()
        invariant Copied(s, ssd.View(), ssd.blockSize, lba, newDataBlock, i)
      {
        ghost var dev := ssd.View();
        CopySourceState(s, dev, size, lba, newDataBlock, i);
        var readAddress: Option<Address> :=
          if logBlock.pages[i] != -1 then Some(Address(logBlock.block, logBlock.pages[i]))
          else if dataList[lba] != -1 then Some(Address(dataList[lba], i))
          else None;
        assert readAddress == CopySource(s, Page(lba, i));
        if readAddress.Some? && ssd.GetState(readAddress.value) == VALID {
          CopyStep(s, dev, size, lba, newDataBlock, i);
          CopyTarget(s, dev, size, lba, newDataBlock, i);
          var payload := ssd.GetData(readAddress.value);
          ssd.Write(Address(newDataBlock, i), payload);
          ssd.Replace(readAddress.value);
        } else {
          CopySkip(s, dev, size, lba, newDataBlock, i);
        }
        i := i + 1;
      }
    }

    /** allocate_new_logblock: makes room among the log blocks, then gives lba an empty one. */
    method AllocateNewLogblock(lba: nat) returns (st: Outcome)
      requires Valid() && lba !in logMap && lba < |dataList|
      modifies this, bm, ssd.Repr
      ensures Wired()
      ensures st != WornOut ==>
        && Valid() && SameContents(old(View()), View()) && WearAtMostOne(old(View()), View())
      ensures st == Done ==>
        EmptyLog(View(), ssd.blockSize, lba) && Touched(View()) <= Touched(old(View())) + {lba}
      ensures st == OutOfBlocks ==> AllBlocksUsed(old(View()))
      ensures st == WornOut ==> SomeWornOut(old(View()))
      ensures |old(logMap)| < logLimit ==> st != WornOut && View().dev == old(View()).dev
      ensures st == Done ==> Allocated(old(View()), View(), ssd.blockSize, logLimit, lba)
    {
      hide Ssd.Valid, Ssd.View, Inv, SameContents, WearAtMostOne, SomeWornOut, EmptyLog, Used, Touched, RoomMade,
           LogAllocated, Allocated;
      SameRefl(View());
      UsedBound(View(), ssd.blockSize);
      if |logMap| >= logLimit {
        st := MergeVictim();
        if st != Done { return; }
      }
      ghost var mid := View();
      if |old(logMap)| < logLimit { NoRoomMade(mid, ssd.blockSize, logLimit); }
      UsedBound(mid, ssd.blockSize);
      st := AllocateFresh(mid, lba);
      SameTrans(old(View()), mid, View());
      if st == Done { AllocatedBy(old(View()), mid, View(), ssd.blockSize, logLimit, lba); }
    }

    /** The victim is any log block: the source draws it at random. */
    method MergeVictim() returns (st: Outcome)
      requires Valid() && |logMap| >= logLimit
      modifies this, bm, ssd.Repr
      ensures Wired()
      ensures st != WornOut ==>
        && Valid() && SameContents(old(View()), View()) && WearAtMostOne(old(View()), View())
      ensures st == Done ==>
        && Used(View()) <= Used(old(View())) && Touched(View()) <= Touched(old(View()))
        && |logMap| < logLimit && logMap.Keys <= old(logMap.Keys)
      ensures st == OutOfBlocks ==> AllBlocksUsed(old(View()))
      ensures st == WornOut ==> SomeWornOut(old(View()))
      ensures st == Done ==> RoomMade(old(View()), View(), ssd.blockSize, logLimit)
    {
      hide Ssd.Valid, Ssd.View, Inv, SameContents, WearAtMostOne, SomeWornOut, Used, Touched, Switched, MergedByCopy,
           RoomMade;
      SameRefl(View());
      assert logMap.Keys != {};
      var exLogicalBlock :| exLogicalBlock in logMap;
      var sequential;
      sequential, st := IsSequential(exLogicalBlock);
      if st == Done && !sequential {
        st := RandomMerge(exLogicalBlock);
      }
      if st == Done { VictimMerged(old(View()), View(), ssd.blockSize, logLimit, exLogicalBlock); }
    }

    method AllocateFresh(ghost s: State, lba: nat) returns (st: Outcome)
      requires Valid() && s == View() && lba !in logMap && lba < |dataList| && |logMap| < logLimit
      modifies this, bm
      ensures Valid() && SameContents(s, View()) && View().dev == s.dev
      ensures if st == Done then EmptyLog(View(), ssd.blockSize, lba) && Touched(View()) <= Touched(s) + {lba}
              else st == OutOfBlocks && AllBlocksUsed(s)
      ensures st == Done ==> LogAllocated(s, View(), ssd.blockSize, lba)
      ensures st == OutOfBlocks <==> s.pools.Queue() == []
    {
      hide Ssd.Valid, Ssd.View, Inv, SameContents, EmptyLog, Used, Touched, LogAllocated;
      ghost var size := ssd.blockSize;
      SameRefl(s);
      LogCountBound(s, size);
      TakenQueue(s.pools, LOG);
      var head := bm.GetFreeBlock(LOG);
      if head.None? {
        NoHeadMeansAllUsed(s, size);
        return OutOfBlocks;
      }
      HeadInRange(s, size);
      AllocInv(s, size, lba);
      AllocEmpty(s, size, lba);
      AllocSteps(s, size, lba);
      AllocSame(s, size, lba);
      ghost var t := AfterAlloc(s, size, lba);
      assert ssd.View() == t.dev && bm.View() == t.pools;
      owner, logMap := t.owner, logMap[lba := LogPageBlock(head.value, seq(ssd.blockSize, _ => -1))];
      assert View() == t;
      st := Done;
    }

    /** read: where the event is sent, and the bytes found there. */
    method Read(la: nat) returns (address: Address, buffer: Data)
      requires Valid() && la < |dataList| * ssd.blockSize
      ensures address.block < |ssd.blocks| && address.page < ssd.blockSize
      ensures var p := LogicalPage(la, ssd.blockSize);
        if Where(View(), p).Some? then
          Where(View(), p) == Some(address) && Holds(View(), p) == Some(buffer) && ssd.GetState(address) == VALID
        else if EmptyDataPage(View(), p) then address == Address(View().dl[p.lba], p.off)
        else address == Address(0, 0)
      ensures buffer == ssd.GetData(address)
    {
      hide Ssd.Valid, Ssd.View, Inv;
      ghost var s, size := View(), ssd.blockSize;
      LogicalPageInRange(la, |dataList|, size);
      var page := LogicalPage(la, ssd.blockSize);
      var lookupBlock, offset := page.lba, page.off;
      BlocksOf(s, size, lookupBlock);
      if lookupBlock in logMap && logMap[lookupBlock].pages[offset] != -1 {
        address := Address(logMap[lookupBlock].block, logMap[lookupBlock].pages[offset]);
      } else if dataList[lookupBlock] == -1 {
        address := Address(0, 0);
      } else {
        address := Address(dataList[lookupBlock], offset);
      }
      if ssd.GetState(address) == INVALID {
        address := Address(0, 0);
      }
      buffer := ssd.GetData(address);
    }

    /** write: the page goes to the log block of its logical block, merging first if that is full. */
    method Write(la: nat, payload: Data) returns (st: Outcome)
      requires Valid() && la < |dataList| * ssd.blockSize
      modifies this, bm, ssd.Repr
      ensures Wired()
      ensures st == Done ==>
        && Valid() && WearAtMostOne(old(View()), View())
        && Touched(View()) <= Touched(old(View())) + {LogicalPage(la, ssd.blockSize).lba}
        && Contents(View()) == Contents(old(View()))[LogicalPage(la, ssd.blockSize) := payload]
      ensures st == OutOfBlocks ==>
        && Valid() && Contents(View()) == Contents(old(View()))
        && AllBlocksUsed(old(View()))
      ensures st == WornOut ==> SomeWornOut(old(View()))
      ensures st == Done ==>
        WriteSteps(old(View()), View(), ssd.blockSize, logLimit, LogicalPage(la, ssd.blockSize), payload)
    {
      hide Ssd.Valid, Ssd.View, Inv, Used, Touched, Contents, SameContents, WearAtMostOne, SomeWornOut, EmptyLog,
           HasRoom, Allocated, Remade, Prepared, Appended, WriteSteps;
      ghost var s0, size := View(), ssd.blockSize;
      LogicalPageInRange(la, |dataList|, size);
      var lba := LogicalPage(la, ssd.blockSize).lba;
      SameRefl(s0);
      st := Done;
      if lba !in logMap {
        st := AllocateNewLogblock(lba);
        if st == Done {
          EmptyLogHasRoom(View(), size, lba);
          PreparedBy(s0, View(), size, logLimit, lba);
        }
      } else {
        BlocksOf(View(), size, lba);
        if ssd.GetNumValid(logMap[lba].block) >= ssd.blockSize {
          st := MergeOwnLog(lba);
          if st == Done {
            EmptyLogHasRoom(View(), size, lba);
            PreparedBy(s0, View(), size, logLimit, lba);
          }
        } else {
          RoomLeft(View(), size, lba);
          PreparedBy(s0, View(), size, logLimit, lba);
        }
      }
      if st != Done {
        if st == OutOfBlocks { SameIsEqual(s0, View()); }
        return;
      }
      ghost var s := View();
      LogPage(s, LogicalPage(la, ssd.blockSize), payload);
      WrittenContents(s0, s, size, LogicalPage(la, size), payload);
      WriteStepsBy(s0, s, View(), size, logLimit, LogicalPage(la, size), payload);
    }

    /** The full-log branch of write: switch or random merge, then an empty log block. */
    method MergeOwnLog(lba: nat) returns (st: Outcome)
      requires Valid() && lba in logMap && lba < |dataList|
      modifies this, bm, ssd.Repr
      ensures Wired()
      ensures st != WornOut ==>
        && Valid() && SameContents(old(View()), View()) && WearAtMostOne(old(View()), View())
      ensures st == Done ==>
        EmptyLog(View(), ssd.blockSize, lba) && Touched(View()) <= Touched(old(View())) + {lba}
      ensures st == OutOfBlocks ==> AllBlocksUsed(old(View()))
      ensures st == WornOut ==> SomeWornOut(old(View()))
      ensures st == Done ==> Remade(old(View()), View(), ssd.blockSize, lba)
    {
      hide Ssd.Valid, Ssd.View, Inv, SameContents, WearAtMostOne, SomeWornOut, EmptyLog, Used, Touched, Switched,
           MergedByCopy, Allocated, Remade;
      SameRefl(View());
      UsedBound(View(), ssd.blockSize);
      var sequential;
      sequential, st := IsSequential(lba);
      if st == Done && !sequential {
        st := RandomMerge(lba);
      }
      if st == Done {
        ghost var mid := View();
        UsedBound(mid, ssd.blockSize);
        st := AllocateNewLogblock(lba);
        if st != WornOut { SameTrans(old(View()), mid, View()); }
        if st == Done { RemadeBy(old(View()), mid, View(), ssd.blockSize, logLimit, lba); }
      }
    }

    /** The common end of write: map the next log page, program it, invalidate the superseded copy. */
    method LogPage(ghost s: State, p: Page, payload: Data)
      requires Valid() && s == View() && p.off < ssd.blockSize && HasRoom(s, ssd.blockSize, p.lba)
      modifies this, ssd.Repr
      ensures Valid() && View() == AfterLogWrite(s, ssd.blockSize, p, payload)
      ensures Appended(s, View(), p, payload)
    {
      hide Ssd.Valid, Ssd.View, Inv, PageMapOk, Exclusive, BlockOk, Appended;
      ghost var size := ssd.blockSize;
      var lba, offset := p.lba, p.off;
      BlocksOf(s, size, lba);
      BlocksSizes(s, size, lba);
      NextLogPage(s, size, lba);
      LogWriteInv(s, size, p, payload);
      LogWriteSteps(s, size, p, payload);
      var logBlock := logMap[lba];
      var numValid := ssd.GetNumValid(logBlock.block);
      var replace: Option<Address> := None;
      if logBlock.pages[offset] != -1 {
        replace := Some(Address(logBlock.block, logBlock.pages[offset]));
      }
      if dataList[lba] != -1 && ssd.GetState(Address(dataList[lba], offset)) != EMPTY {
        replace := Some(Address(dataList[lba], offset));
      }
      assert replace == Superseded(s, p);
      ssd.Write(Address(logBlock.block, numValid), payload);
      if replace.Some? {
        ssd.Replace(replace.value);
      }
      ghost var t := AfterLogWrite(s, size, p, payload);
      assert ssd.View() == t.dev;
      logMap := logMap[lba := logBlock.(pages := logBlock.pages[offset := numValid])];
      assert View() == t;
    }

    /** trim: drops the log copy and the data copy; a block left without usable pages is erased at once. */
    method Trim(la: nat) returns (st: Outcome)
      requires Valid() && la < |dataList| * ssd.blockSize
      modifies this, bm, ssd.Repr
      ensures Wired() && st != OutOfBlocks
      ensures st == Done ==>
        && Valid() && WearAtMostOne(old(View()), View()) && Touched(View()) <= Touched(old(View()))
        && Contents(View()) == Contents(old(View())) - {LogicalPage(la, ssd.blockSize)}
      ensures st == WornOut ==> SomeWornOut(old(View()))
      ensures st == Done ==> TrimSteps(old(View()), View(), LogicalPage(la, ssd.blockSize))
      ensures st == WornOut <==>
        WornLog(old(View()), LogicalPage(la, ssd.blockSize)) || WornData(old(View()), LogicalPage(la, ssd.blockSize))
    {
      hide Ssd.Valid, Ssd.View, Inv, WornLog, WornData, Touched, Contents, WearAtMostOne, LogTrimmed, DataTrimmed,
           TrimmedLog, TrimmedData, TrimSteps;
      ghost var s0, size := View(), ssd.blockSize;
      LogicalPageInRange(la, |dataList|, size);
      var p := LogicalPage(la, ssd.blockSize);
      BlocksOf(s0, size, p.lba);
      st := TrimLog(p);
      if st != Done { return; }
      ghost var s1 := View();
      TrimLogKeeps(s0, s1, p);
      WornDataKept(s0, s1, p);
      st := TrimData(p);
      if st != Done { return; }
      TrimmedContents(s0, s1, View(), p);
      TrimStepsBy(s0, s1, View(), p);
    }

    /** The log half of trim. */
    method TrimLog(p: Page) returns (st: Outcome)
      requires Valid() && p.lba < |dataList| && p.off < ssd.blockSize
      modifies this, bm, ssd.Repr
      ensures Wired() && st != OutOfBlocks
      ensures st == Done ==> Valid() && LogTrimmed(old(View()), View(), p)
      ensures st == WornOut ==> SomeWornOut(old(View()))
      ensures st == Done ==> TrimmedLog(old(View()), View(), p)
      ensures st == WornOut <==> WornLog(old(View()), p)
    {
      hide Ssd.Valid, Ssd.View, Inv, LogTrimmed, PageMapOk, Exclusive, BlockOk, TrimmedLog, Emptied;
      ghost var s, size := View(), ssd.blockSize;
      BlocksOf(s, size, p.lba);
      BlocksSizes(s, size, p.lba);
      st := Done;
      if p.lba in logMap && logMap[p.lba].pages[p.off] != -1 {
        var logBlock := logMap[p.lba];
        LogTrimInv(s, size, p);
        InactiveLogTrim(s, size, p);
        LogTrimSteps(s, size, p);
        hide Holds, InLog, Touched, Erased, Invalidated;
        ghost var t := AfterLogTrim(s, p);
        ssd.Replace(Address(logBlock.block, logBlock.pages[p.off]));
        logMap := logMap[p.lba := logBlock.(pages := logBlock.pages[p.off := -1])];
        assert View() == t;
        if ssd.GetBlockState(logBlock.block) == INACTIVE {
          st := DisposeLogBlock(p.lba);
          if st == Done { LogDropSteps(s, size, p); }
        }
      } else {
        NoLogTrim(s, p);
        NoLogSteps(s, p);
      }
    }

    /** Drops a log block from the map and erases it. */
    method DisposeLogBlock(lba: nat) returns (st: Outcome)
      requires Wired() && lba in logMap && logMap[lba].block < |ssd.blocks| == |owner|
      modifies this, bm, ssd.Repr
      ensures Wired() && st != OutOfBlocks && logMap == old(logMap) - {lba}
      ensures st == WornOut <==> old(ssd.View())[old(logMap)[lba].block].erasesRemaining < 1
      ensures st == Done ==> View() == AfterReleaseLog(old(View()), lba)
    {
      hide Ssd.Valid, Ssd.View, Erased;
      var block := logMap[lba].block;
      logMap := logMap - {lba};
      var r := bm.EraseAndInvalidate(ssd, block, LOG);
      if r == FAILURE { return WornOut; }
      owner := owner[block := Free];
      st := Done;
    }

    /** Unmaps a data block and erases it. */
    method DisposeDataBlock(lba: nat) returns (st: Outcome)
      requires Wired() && lba < |dataList| && 0 <= dataList[lba] < |ssd.blocks| == |owner|
      modifies this, bm, ssd.Repr
      ensures Wired() && st != OutOfBlocks && logMap == old(logMap) && dataList == old(dataList)[lba := -1]
      ensures st == WornOut <==> old(ssd.View())[old(dataList)[lba]].erasesRemaining < 1
      ensures st == Done ==> View() == AfterReleaseData(old(View()), lba)
    {
      hide Ssd.Valid, Ssd.View, Erased;
      var block := dataList[lba];
      dataList := dataList[lba := -1];
      var r := bm.EraseAndInvalidate(ssd, block, DATA);
      if r == FAILURE { return WornOut; }
      owner := owner[block := Free];
      st := Done;
    }

    /** The data half of trim. */
    method TrimData(p: Page) returns (st: Outcome)
      requires Valid() && p.lba < |dataList| && p.off < ssd.blockSize && !InLog(View(), p)
      modifies this, bm, ssd.Repr
      ensures Wired() && st != OutOfBlocks
      ensures st == Done ==> Valid() && DataTrimmed(old(View()), View(), p)
      ensures st == WornOut ==>
        0 <= old(dataList[p.lba]) < |ssd.blocks| && old(View()).dev[old(dataList[p.lba])].erasesRemaining < 1
      ensures st == Done ==> TrimmedData(old(View()), View(), p)
      ensures st == WornOut <==> WornData(old(View()), p)
    {
      hide Ssd.Valid, Ssd.View, Inv, DataTrimmed, PageMapOk, Exclusive, BlockOk, TrimmedData, Emptied;
      ghost var s, size := View(), ssd.blockSize;
      BlocksOf(s, size, p.lba);
      BlocksSizes(s, size, p.lba);
      st := Done;
      if dataList[p.lba] != -1 {
        var dataBlock := dataList[p.lba];
        DataTrimInv(s, size, p);
        InactiveDataTrim(s, size, p);
        DataTrimSteps(s, size, p);
        hide Holds, InLog, Touched, Erased;
        ghost var t := AfterDataTrim(s, p);
        ssd.Replace(Address(dataBlock, p.off));
        assert View() == t;
        if ssd.GetBlockState(dataBlock) == INACTIVE {
          st := DisposeDataBlock(p.lba);
          if st == Done { DataDropSteps(s, size, p); }
        }
      } else {
        NoDataTrim(s, p);
        NoDataSteps(s, p);
      }
    }
  }

  // ---------- whole runs ----------

  /** One operation on the logical array. */
  ghost predicate Effect(op: Op, size: nat, s: State, s': State)
    requires size > 0
  {
    match op
    case WriteOp(la, d) => Contents(s') == Contents(s)[LogicalPage(la, size) := d]
    case TrimOp(la) => Contents(s') == Contents(s) - {LogicalPage(la, size)}
    case ReadOp(_) => s' == s
  }

  /** The same operation on the device: the pages programmed and invalidated, the blocks taken and erased. */
  ghost predicate Physical(op: Op, size: nat, limit: nat, s: State, s': State)
    requires size > 0
  {
    match op
    case WriteOp(la, d) => WriteSteps(s, s', size, limit, LogicalPage(la, size), d)
    case TrimOp(la) => TrimSteps(s, s', LogicalPage(la, size))
    case ReadOp(_) => s' == s
  }

  /** A read of a live page delivers its bytes. */
  ghost predicate Delivers(op: Op, size: nat, s: State, bytes: Data)
    requires size > 0
  {
    op.ReadOp? && Holds(s, LogicalPage(op.la, size)).Some? ==> Holds(s, LogicalPage(op.la, size)) == Some(bytes)
  }

  /** Logical blocks addressed by the run. */
  ghost function Addressed(ops: seq<Op>, size: nat): set<nat>
    requires size > 0
  {
    set i | 0 <= i < |ops| :: LogicalPage(ops[i].la, size).lba
  }

  /** The device holds, at every logical address, what the first n operations left there. */
  ghost predicate Tracks(s: State, ops: seq<Op>, size: nat, n: nat)
    requires n <= |ops| && size > 0
  {
    forall la: nat :: Holds(s, LogicalPage(la, size)) == LastWritten(ops, n, la)
  }

  ghost predicate EnoughErases(s: State, k: int) {
    forall b :: 0 <= b < |s.dev| ==> s.dev[b].erasesRemaining >= k
  }

  lemma {:induction false} LogicalPageInjective(a: nat, b: nat, size: nat)
    requires size > 0
    ensures LogicalPage(a, size) == LogicalPage(b, size) ==> a == b
  {
    assert a == (a / size) * size + a % size;
    assert b == (b / size) * size + b % size;
  }

  lemma {:induction false} TracksStep(s: State, s': State, ops: seq<Op>, size: nat, n: nat)
    requires n < |ops| && size > 0 && Tracks(s, ops, size, n)
    requires Effect(ops[n], size, s, s')
    ensures Tracks(s', ops, size, n + 1)
  {
    hide Holds, LogicalPage;
    var c, c' := Contents(s), Contents(s');
    forall la: nat ensures Holds(s', LogicalPage(la, size)) == LastWritten(ops, n + 1, la) {
      var p := LogicalPage(la, size);
      LogicalPageInjective(la, ops[n].la, size);
      assert Holds(s, p) == LastWritten(ops, n, la);
      assert p in c <==> Holds(s, p).Some?;
      assert p in c' <==> Holds(s', p).Some?;
    }
  }

  /** With few enough logical blocks in use, some block is always free. */
  lemma {:induction false} NeverFull(s: State, size: nat, limit: nat, within: set<nat>)
    requires Inv(s, size) && |s.log| <= limit && Touched(s) <= within && |within| + limit < s.pools.max
    ensures !AllBlocksUsed(s)
  {
    MappedBound(s.dl, within);
  }

  lemma {:induction false} MappedBound(dl: seq<int>, within: set<nat>)
    requires Mapped(dl) <= within
    ensures |Mapped(dl)| <= |within|
  {
    assert within == Mapped(dl) + (within - Mapped(dl));
  }

  lemma {:induction false} LiveHolds(s: State, size: nat, p: Page)
    requires Inv(s, size)
    ensures Holds(s, p).Some? <==> Where(s, p).Some?
  {
    if Where(s, p).Some? { LiveIsValid(s, size, p); }
  }

  lemma {:induction false} NotWorn(s: State, k: int)
    requires EnoughErases(s, k) && k >= 1
    ensures !SomeWornOut(s)
  {
  }

  lemma {:induction false} RunStarts(s: State, ops: seq<Op>, size: nat, k: nat)
    requires size > 0 && forall p :: Holds(s, p) == None
    requires forall b :: 0 <= b < |s.dev| ==> s.dev[b].erasesRemaining == k
    ensures Tracks(s, ops, size, 0) && ReadsRight(ops, 0, []) && EnoughErases(s, k)
  {
  }

  lemma {:induction false} TracksRead(s: State, s': State, ops: seq<Op>, size: nat, n: nat, outs: seq<Data>,
                                      bytes: Data)
    requires n < |ops| && size > 0 && Tracks(s, ops, size, n) && Delivers(ops[n], size, s, bytes)
    requires ReadsRight(ops, n, outs) && Effect(ops[n], size, s, s')
    ensures ReadsRight(ops, n + 1, outs + [bytes]) && Tracks(s', ops, size, n + 1)
  {
    assert Holds(s, LogicalPage(ops[n].la, size)) == LastWritten(ops, n, ops[n].la);
    ReadsStep(ops, n, outs, bytes);
    TracksStep(s, s', ops, size, n);
  }

  lemma {:induction false} WearNext(s: State, s': State, k: int)
    requires EnoughErases(s, k) && WearAtMostOne(s, s')
    ensures EnoughErases(s', k - 1)
  {
  }

  lemma {:induction false} AddressedHas(ops: seq<Op>, size: nat, i: nat)
    requires i < |ops| && size > 0
    ensures LogicalPage(ops[i].la, size).lba in Addressed(ops, size)
  {
  }

  /** Dispatch of one request, as in the controller's event_arrive. */
  method EventArrive(ftl: Bast, op: Op) returns (st: Outcome, bytes: Data)
    requires ftl.Valid() && op.la < |ftl.dataList| * ftl.ssd.blockSize
    modifies ftl, ftl.bm, ftl.ssd.Repr
    ensures ftl.Wired()
    ensures st == Done ==>
      && ftl.Valid() && Effect(op, ftl.ssd.blockSize, old(ftl.View()), ftl.View())
      && Physical(op, ftl.ssd.blockSize, ftl.logLimit, old(ftl.View()), ftl.View())
      && Delivers(op, ftl.ssd.blockSize, old(ftl.View()), bytes)
      && Touched(ftl.View()) <= Touched(old(ftl.View())) + {LogicalPage(op.la, ftl.ssd.blockSize).lba}
      && WearAtMostOne(old(ftl.View()), ftl.View())
    ensures st == OutOfBlocks ==> AllBlocksUsed(old(ftl.View()))
    ensures st == WornOut ==> SomeWornOut(old(ftl.View()))
  {
    hide Inv, Contents, Touched, Holds, WearAtMostOne, AllBlocksUsed, SomeWornOut, LogicalPage, WriteSteps, TrimSteps;
    bytes := [];
    match op {
      case ReadOp(la) =>
        SameRefl(ftl.View());
        var address;
        address, bytes := ftl.Read(la);
        LiveHolds(ftl.View(), ftl.ssd.blockSize, LogicalPage(la, ftl.ssd.blockSize));
        st := Done;
      case WriteOp(la, d) =>
        st := ftl.Write(la, d);
      case TrimOp(la) =>
        st := ftl.Trim(la);
    }
  }

  /** Any run on a new device. Every read of a written page returns the bytes last written to it; and a device
      with room for the logical blocks addressed, its log blocks and one more, and with wear left, serves it all. */
  method Replay(numBlocks: nat, size: nat, erases: nat, limit: nat, ops: seq<Op>)
      returns (st: Outcome, results: seq<Data>, ghost served: nat)
    requires size > 0 && limit >= 1
    requires forall i :: 0 <= i < |ops| ==> ops[i].la < numBlocks * size
    ensures served <= |ops| && ReadsRight(ops, served, results)
    ensures st == Done <==> served == |ops|
    ensures |Addressed(ops, size)| + limit < numBlocks && |ops| <= erases ==> st == Done
  {
    hide LastWritten, Effect, Physical, Delivers, Inv, Touched, Holds, WearAtMostOne, Addressed, Tracks, ReadsRight,
         EnoughErases, AllBlocksUsed, SomeWornOut, LogicalPage;
    var ftl := new Bast(numBlocks, size, erases, limit);
    results, st := [], Done;
    var i := 0;
    ghost var within := Addressed(ops, size);
    RunStarts(ftl.View(), ops, size, erases);
    hide Contents;
    while i < |ops|
      invariant i <= |ops| && ftl.Valid() && st == Done
      invariant fresh(ftl) && fresh(ftl.ssd) && fresh(ftl.ssd.Repr) && fresh(ftl.bm)
      invariant ftl.ssd.blockSize == size && |ftl.ssd.blocks| == numBlocks && ftl.logLimit == limit
      invariant Tracks(ftl.View(), ops, size, i) && ReadsRight(ops, i, results)
      invariant Touched(ftl.View()) <= within && EnoughErases(ftl.View(), erases - i)
      decreases |ops| - i
    {
      ghost var s := ftl.View();
      AddressedHas(ops, size, i);
      var bytes;
      st, bytes := EventArrive(ftl, ops[i]);
      if st != Done {
        served := i;
        if |within| + limit < numBlocks { NeverFull(s, size, limit, within); }
        if |ops| <= erases { NotWorn(s, erases - i); }
        return;
      }
      TracksRead(s, ftl.View(), ops, size, i, results, bytes);
      WearNext(s, ftl.View(), erases - i);
      results := results + [bytes];
      i := i + 1;
    }
    served := |ops|;
  }
}
