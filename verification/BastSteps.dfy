/** What the steps of log-block mapping do to the device: which pages are programmed, which blocks are erased, which
    block is taken. Stated page by page, apart from the functions that compute the next state. */
module BastSteps {
  import opened Flash
  import opened Options
  import opened BlockPools
  import opened BastModel

  /** v is b after one erase. */
  ghost predicate ErasedOnce(b: BlockView, v: BlockView) {
    Clean(v) && |v.pages| == |b.pages| && v.data == b.data && v.erasesRemaining == b.erasesRemaining - 1
  }

  /** v is b with page k INVALID. */
  ghost predicate PageDropped(b: BlockView, v: BlockView, k: int) {
    && 0 <= k < |b.pages| && v.pages == b.pages[k := INVALID]
    && v.data == b.data && v.pagesValid == b.pagesValid && v.erasesRemaining == b.erasesRemaining
  }

  /** v is b with d programmed at the first page not programmed yet, and page k, if it is one, INVALID after that. */
  ghost predicate PageAppended(b: BlockView, v: BlockView, d: Data, k: int) {
    var n := b.pagesValid;
    && n < |b.pages| == |b.data| && k < |b.pages| && k != n && b.pages[n] == EMPTY
    && v.pages == (if k < 0 then b.pages[n := VALID] else b.pages[n := VALID][k := INVALID])
    && v.data == b.data[n := d] && v.pagesValid == n + 1 && v.erasesRemaining == b.erasesRemaining
  }

  /** The data block of l, if it has one, as a list. */
  ghost function DataBlock(s: State, l: nat): seq<nat>
    requires l < |s.dl| && s.dl[l] >= -1
  {
    if s.dl[l] == -1 then [] else [s.dl[l]]
  }

  ghost predicate Mappable(s: State, s': State, l: nat) {
    && l < |s.dl| && s.dl[l] >= -1 && |s'.dev| == |s.dev|
    && (l in s.log ==> s.log[l].block < |s.dev| && s.log[l].block != s.dl[l])
  }

  /** A switch merge: the log block of l is its data block, the old data block is erased, and that is all. No page is
      programmed and no block is taken. */
  ghost predicate Switched(s: State, s': State, l: nat) {
    && Mappable(s, s', l) && l in s.log
    && s'.dl == s.dl[l := s.log[l].block] && s'.log == s.log - {l}
    && s'.pools.Queue() == s.pools.Queue() + DataBlock(s, l)
    && forall b :: 0 <= b < |s.dev| ==>
         if b == s.dl[l] then ErasedOnce(s.dev[b], s'.dev[b]) else s'.dev[b] == s.dev[b]
  }

  /** A full merge: the next block takes the live pages of l, and the log block and the old data block are erased. */
  ghost predicate MergedByCopy(s: State, s': State, size: nat, l: nat) {
    && Mappable(s, s', l) && l in s.log && s.pools.Queue() != []
    && var n, b0 := s.pools.Queue()[0], s.log[l].block;
    && s'.dl == s.dl[l := n] && s'.log == s.log - {l} && n < |s.dev| && n != b0 && n != s.dl[l]
    && s'.pools.Queue() == s.pools.Queue()[1..] + [b0] + DataBlock(s, l)
    && CopiedTo(s, s'.dev[n], s.dev[n].erasesRemaining, size, l, size)
    && forall b :: 0 <= b < |s.dev| && b != n ==>
         if b == b0 || b == s.dl[l] then ErasedOnce(s.dev[b], s'.dev[b]) else s'.dev[b] == s.dev[b]
  }

  /** A merge is a switch if every page of the log block is at its own offset, and else a copy of the live pages. */
  ghost predicate Merged(s: State, s': State, size: nat, l: nat) {
    && l in s.log
    && if forall o :: 0 <= o < |s.log[l].pages| ==> s.log[l].pages[o] == o
       then Switched(s, s', l) else MergedByCopy(s, s', size, l)
  }

  /** Only a full log map is merged into, at some logical block. */
  ghost predicate RoomMade(s: State, s': State, size: nat, limit: nat) {
    if |s.log| < limit then s' == s else exists v :: v in s.log && Merged(s, s', size, v)
  }

  /** The next block becomes the empty log block of l. */
  ghost predicate LogAllocated(s: State, s': State, size: nat, l: nat) {
    && s.pools.Queue() != [] && s'.pools.Queue() == s.pools.Queue()[1..]
    && s'.dev == s.dev && s'.dl == s.dl
    && s'.log == s.log[l := LogPageBlock(s.pools.Queue()[0], seq(size, _ => -1))]
  }

  ghost predicate Allocated(s: State, s': State, size: nat, limit: nat, l: nat) {
    exists mid :: RoomMade(s, mid, size, limit) && LogAllocated(mid, s', size, l)
  }

  /** The page goes to the next page of the log block. Its copy in the data block becomes INVALID, unless that page is
      EMPTY: then its older copy in the log block does. */
  ghost predicate Appended(s: State, s': State, p: Page, d: Data) {
    && Mappable(s, s', p.lba) && p.lba in s.log && p.off < |s.log[p.lba].pages|
    && var b, n, was := s.log[p.lba].block, s.dl[p.lba], s.log[p.lba].pages[p.off];
    && s'.log == s.log[p.lba := s.log[p.lba].(pages := s.log[p.lba].pages[p.off := s.dev[b].pagesValid])]
    && s'.dl == s.dl && s'.pools == s.pools
    && (n != -1 ==> n < |s.dev| && p.off < |s.dev[n].pages|)
    && (if n != -1 && s.dev[n].pages[p.off] != EMPTY
        then PageDropped(s.dev[n], s'.dev[n], p.off) && PageAppended(s.dev[b], s'.dev[b], d, -1)
        else (n != -1 ==> s'.dev[n] == s.dev[n]) && PageAppended(s.dev[b], s'.dev[b], d, was))
    && forall x :: 0 <= x < |s.dev| && x != b && x != n ==> s'.dev[x] == s.dev[x]
  }

  /** A full log block is merged, and its logical block gets an empty one. */
  ghost predicate Remade(s: State, s': State, size: nat, l: nat) {
    exists mid :: Merged(s, mid, size, l) && LogAllocated(mid, s', size, l)
  }

  /** What a write does first: a log block for a logical block without one, a merge where it is full, nothing else. */
  ghost predicate Prepared(s: State, s': State, size: nat, limit: nat, l: nat) {
    if l !in s.log then Allocated(s, s', size, limit, l)
    else && s.log[l].block < |s.dev|
         && if s.dev[s.log[l].block].pagesValid < size then s' == s
            else Remade(s, s', size, l)
  }

  ghost predicate WriteSteps(s: State, s': State, size: nat, limit: nat, p: Page, d: Data) {
    exists mid :: Prepared(s, mid, size, limit, p.lba) && Appended(mid, s', p, d)
  }

  /** No page of b other than k can still be used. */
  ghost predicate Emptied(b: BlockView, k: int) {
    forall q :: 0 <= q < |b.pages| && q != k ==> b.pages[q] == INVALID
  }

  /** The log half of a trim: the log block is erased if p was the last page in it, else that page becomes INVALID. */
  ghost predicate TrimmedLog(s: State, s': State, p: Page) {
    if p.lba in s.log && p.off < |s.log[p.lba].pages| && s.log[p.lba].pages[p.off] != -1 then
      && Mappable(s, s', p.lba) && s'.dl == s.dl
      && var b, k := s.log[p.lba].block, s.log[p.lba].pages[p.off];
      && (if Emptied(s.dev[b], k)
          then ErasedOnce(s.dev[b], s'.dev[b]) && s'.log == s.log - {p.lba}
               && s'.pools.Queue() == s.pools.Queue() + [b]
          else PageDropped(s.dev[b], s'.dev[b], k) && s'.pools == s.pools
               && s'.log == s.log[p.lba := s.log[p.lba].(pages := s.log[p.lba].pages[p.off := -1])])
      && forall x :: 0 <= x < |s.dev| && x != b ==> s'.dev[x] == s.dev[x]
    else s' == s
  }

  /** The data half: the same of the data block, whatever the state of the page was. */
  ghost predicate TrimmedData(s: State, s': State, p: Page) {
    if p.lba < |s.dl| && s.dl[p.lba] != -1 then
      && Mappable(s, s', p.lba) && s'.log == s.log
      && var b := s.dl[p.lba];
      && b < |s.dev|
      && (if Emptied(s.dev[b], p.off)
          then ErasedOnce(s.dev[b], s'.dev[b]) && s'.dl == s.dl[p.lba := -1]
               && s'.pools.Queue() == s.pools.Queue() + [b]
          else PageDropped(s.dev[b], s'.dev[b], p.off) && s'.pools == s.pools && s'.dl == s.dl)
      && forall x :: 0 <= x < |s.dev| && x != b ==> s'.dev[x] == s.dev[x]
    else s' == s
  }

  ghost predicate TrimSteps(s: State, s': State, p: Page) {
    exists mid :: TrimmedLog(s, mid, p) && TrimmedData(mid, s', p)
  }

  // ---------- the state functions do that ----------

  lemma {:induction false} ErasedIsOnce(b: BlockView)
    requires b.erasesRemaining >= 1
    ensures ErasedOnce(b, Erased(b))
  {
  }

  /** The switch merge copies nothing. */
  lemma {:induction false} SwitchSteps(s: State, size: nat, l: nat)
    requires Inv(s, size) && CanSwitch(s, l)
    ensures Switched(s, AfterSwitch(s, l), l)
  {
    hide Inv, BlockOk, PageMapOk, Exclusive, ErasedOnce;
    BlocksOf(s, size, l);
    PoolsRange(s, size);
    if s.dl[l] != -1 { ErasedIsOnce(s.dev[s.dl[l]]); }
    hide Erased;
    assert s.pools.free + [] == s.pools.free;
  }

  lemma {:induction false} PoolsRange(s: State, size: nat)
    requires Inv(s, size)
    ensures s.pools.next <= s.pools.max && |s.dev| == s.pools.max
  {
  }

  /** The full merge takes the next block and erases the two old ones. */
  lemma {:induction false} MergeSteps(s: State, dev: seq<BlockView>, size: nat, l: nat)
    requires Inv(s, size) && CanTake(s) && Erasable(s, dev, l)
    requires Copied(s, dev, size, l, s.pools.Head().value, size)
    ensures MergedByCopy(s, AfterMerge(s, dev, l), size, l)
  {
    hide Inv, BlockOk, PageMapOk, Exclusive, ErasedOnce, Erased, CopiedTo, Holds, InLog;
    BlocksOf(s, size, l);
    MergeDevice(s, dev, size, l);
    MergeQueue(s, dev, l);
    hide AfterMerge, Copied;
  }

  lemma {:induction false} MergeQueue(s: State, dev: seq<BlockView>, l: nat)
    requires CanTake(s) && Erasable(s, dev, l)
    ensures s.pools.Queue() != [] && s.pools.Head() == Some(s.pools.Queue()[0])
    ensures var t := AfterMerge(s, dev, l);
      && t.dl == s.dl[l := s.pools.Queue()[0]] && t.log == s.log - {l}
      && t.pools.Queue() == s.pools.Queue()[1..] + [s.log[l].block] + DataBlock(s, l)
  {
    hide Erased;
    var p, b := s.pools.Taken(DATA), s.log[l].block;
    TakenQueue(s.pools, DATA);
    ReleasedQueue(p, b, LOG);
    if s.dl[l] != -1 { ReleasedQueue(p.Released(b, LOG), s.dl[l], DATA); }
  }

  lemma {:induction false} MergeDevice(s: State, dev: seq<BlockView>, size: nat, l: nat)
    requires CanTake(s) && Erasable(s, dev, l)
    requires Copied(s, dev, size, l, s.pools.Head().value, size)
    ensures var n, b0, t := s.pools.Head().value, s.log[l].block, AfterMerge(s, dev, l).dev;
      && n < |s.dev| == |t| && n != b0 && n != s.dl[l]
      && CopiedTo(s, t[n], s.dev[n].erasesRemaining, size, l, size)
      && forall b :: 0 <= b < |s.dev| && b != n ==>
           if b == b0 || b == s.dl[l] then ErasedOnce(s.dev[b], t[b]) else t[b] == s.dev[b]
  {
    hide BlockOk, ErasedOnce, Erased, CopiedTo, Holds, InLog;
    var b0, d := s.log[l].block, s.dl[l];
    ErasedBytes(s.dev[b0], dev[b0]);
    if d != -1 { ErasedBytes(s.dev[d], dev[d]); }
  }

  lemma {:induction false} ErasedBytes(b: BlockView, v: BlockView)
    requires SameBytes(b, v) && v.erasesRemaining >= 1
    ensures ErasedOnce(b, Erased(v))
  {
  }

  lemma {:induction false} AllocSteps(s: State, size: nat, l: nat)
    requires Inv(s, size) && CanTake(s)
    ensures LogAllocated(s, AfterAlloc(s, size, l), size, l)
  {
    PoolsRange(s, size);
    TakenQueue(s.pools, LOG);
  }

  /** A log write programs one page and invalidates the copy it supersedes. */
  lemma {:induction false} LogWriteSteps(s: State, size: nat, p: Page, d: Data)
    requires Inv(s, size) && HasRoom(s, size, p.lba) && p.off < size
    ensures Appended(s, AfterLogWrite(s, size, p, d), p, d)
  {
    hide Inv, BlockOk, Exclusive;
    LogWriteBlocks(s, size, p, d);
    BlocksOf(s, size, p.lba);
    BlocksSizes(s, size, p.lba);
    NextLogPage(s, size, p.lba);
    hide AfterLogWrite;
  }

  /** A trim that leaves a page in the log block. */
  lemma {:induction false} LogTrimSteps(s: State, size: nat, p: Page)
    requires Inv(s, size) && InLog(s, p)
    ensures var t, b := AfterLogTrim(s, p), s.log[p.lba].block;
      && b < |s.dev| && |t.dev| == |s.dev| && t.log.Keys == s.log.Keys && t.log[p.lba].block == b
      && (t.dev[b].state == INACTIVE <==> Emptied(s.dev[b], s.log[p.lba].pages[p.off]))
      && (t.dev[b].state != INACTIVE ==> TrimmedLog(s, t, p))
  {
    hide Inv, Exclusive;
    BlocksOf(s, size, p.lba);
    BlocksSizes(s, size, p.lba);
    DropSteps(s.dev[s.log[p.lba].block], size, s.log[p.lba].pages[p.off]);
    hide Invalidated, BlockOk, PageDropped, Emptied;
  }

  /** A page dropped from a block: the block is INACTIVE then exactly if no other page is left. */
  lemma {:induction false} DropSteps(b: BlockView, size: nat, k: nat)
    requires BlockOk(b, size) && k < size
    ensures PageDropped(b, Invalidated(b, k), k)
    ensures Invalidated(b, k).state == INACTIVE <==> Emptied(b, k)
  {
    var v := Invalidated(b, k);
    InvalidatedOk(b, size, k);
    CountBound(v.pages);
    assert v.pages == b.pages[k := INVALID];
    hide CountInvalid;
    assert v.state == INACTIVE <==> forall q :: 0 <= q < size ==> v.pages[q] == INVALID;
    assert Emptied(b, k) ==> forall q :: 0 <= q < size ==> v.pages[q] == INVALID;
    assert (forall q :: 0 <= q < size ==> v.pages[q] == INVALID) ==> Emptied(b, k) by {
      if forall q :: 0 <= q < size ==> v.pages[q] == INVALID {
        forall q | 0 <= q < size && q != k ensures b.pages[q] == INVALID { assert v.pages[q] == INVALID; }
      }
    }
  }

  /** A trim of the last page of the log block. */
  lemma {:induction false} LogDropSteps(s: State, size: nat, p: Page)
    requires Inv(s, size) && InLog(s, p)
    requires var t, b := AfterLogTrim(s, p), s.log[p.lba].block;
      b < |t.dev| == |t.owner| && t.dev[b].state == INACTIVE && t.dev[b].erasesRemaining >= 1
    ensures TrimmedLog(s, AfterReleaseLog(AfterLogTrim(s, p), p.lba), p)
  {
    hide Inv, Emptied, Exclusive, PoolsOk, Clean, ErasedOnce, PageDropped, Erased, Pools.Queue;
    var b := s.log[p.lba].block;
    LogTrimSteps(s, size, p);
    BlocksOf(s, size, p.lba);
    BlocksSizes(s, size, p.lba);
    DroppedBytes(s.dev[b], size, s.log[p.lba].pages[p.off]);
    LogDropFields(s, p);
    hide Invalidated, BlockOk, PageMapOk, AfterLogTrim, AfterReleaseLog;
  }

  lemma {:induction false} LogDropFields(s: State, p: Page)
    requires InLog(s, p)
    requires var t, b := AfterLogTrim(s, p), s.log[p.lba].block;
      b < |t.dev| == |t.owner| && t.dev[b].erasesRemaining >= 1 && s.log[p.lba].pages[p.off] < |s.dev[b].pages|
    ensures var t, b := AfterLogTrim(s, p), s.log[p.lba].block;
      var u := AfterReleaseLog(t, p.lba);
      && |t.dev| == |s.dev| == |u.dev| && t.dev[b] == Invalidated(s.dev[b], s.log[p.lba].pages[p.off])
      && u.dev[b] == Erased(t.dev[b]) && (forall x :: 0 <= x < |s.dev| && x != b ==> u.dev[x] == s.dev[x])
      && u.dl == s.dl && u.log == s.log - {p.lba} && u.pools.Queue() == s.pools.Queue() + [b]
  {
    hide Invalidated, Erased;
    var t, b := AfterLogTrim(s, p), s.log[p.lba].block;
    ReleasedQueue(s.pools, b, LOG);
    assert t.log - {p.lba} == s.log - {p.lba};
  }

  lemma {:induction false} DroppedBytes(b: BlockView, size: nat, k: nat)
    requires BlockOk(b, size) && k < size && b.erasesRemaining >= 1
    ensures Invalidated(b, k).erasesRemaining >= 1
    ensures ErasedOnce(b, Erased(Invalidated(b, k)))
  {
  }

  lemma {:induction false} DataTrimSteps(s: State, size: nat, p: Page)
    requires Inv(s, size) && HasDataBlock(s, p)
    ensures var t, b := AfterDataTrim(s, p), s.dl[p.lba];
      && |t.dev| == |s.dev|
      && (t.dev[b].state == INACTIVE <==> Emptied(s.dev[b], p.off))
      && (t.dev[b].state != INACTIVE ==> TrimmedData(s, t, p))
  {
    hide Inv, Exclusive;
    BlocksOf(s, size, p.lba);
    DropSteps(s.dev[s.dl[p.lba]], size, p.off);
    hide Invalidated, BlockOk, PageDropped, Emptied;
  }

  lemma {:induction false} DataDropSteps(s: State, size: nat, p: Page)
    requires Inv(s, size) && HasDataBlock(s, p)
    requires var t, b := AfterDataTrim(s, p), s.dl[p.lba];
      b < |t.dev| == |t.owner| && t.dev[b].state == INACTIVE && t.dev[b].erasesRemaining >= 1
    ensures TrimmedData(s, AfterReleaseData(AfterDataTrim(s, p), p.lba), p)
  {
    hide Inv, Emptied, Exclusive, PoolsOk, Clean;
    var t, b := AfterDataTrim(s, p), s.dl[p.lba];
    DataTrimSteps(s, size, p);
    BlocksOf(s, size, p.lba);
    ReleasedQueue(s.pools, b, DATA);
    DroppedBytes(s.dev[b], size, p.off);
    hide Invalidated, Erased, BlockOk, PageMapOk, ErasedOnce;
  }

  // ---------- the steps of one operation, put together ----------

  lemma {:induction false} NoRoomMade(s: State, size: nat, limit: nat)
    requires |s.log| < limit
    ensures RoomMade(s, s, size, limit)
  {
  }

  lemma {:induction false} VictimMerged(s: State, s': State, size: nat, limit: nat, v: nat)
    requires v in s.log && |s.log| >= limit
    requires if forall o :: 0 <= o < |s.log[v].pages| ==> s.log[v].pages[o] == o
             then Switched(s, s', v) else MergedByCopy(s, s', size, v)
    ensures RoomMade(s, s', size, limit)
  {
    hide Switched, MergedByCopy;
    assert Merged(s, s', size, v);
  }

  lemma {:induction false} AllocatedBy(s: State, mid: State, s': State, size: nat, limit: nat, l: nat)
    requires RoomMade(s, mid, size, limit) && LogAllocated(mid, s', size, l)
    ensures Allocated(s, s', size, limit, l)
  {
    hide RoomMade, LogAllocated;
  }

  /** A merge frees a place among the log blocks, so the allocation after it merges nothing. */
  lemma {:induction false} RemadeBy(s: State, mid: State, s': State, size: nat, limit: nat, l: nat)
    requires l in s.log && |s.log| <= limit && mid.log == s.log - {l} && Allocated(mid, s', size, limit, l)
    requires if forall o :: 0 <= o < |s.log[l].pages| ==> s.log[l].pages[o] == o
             then Switched(s, mid, l) else MergedByCopy(s, mid, size, l)
    ensures Remade(s, s', size, l)
  {
    hide Switched, MergedByCopy, LogAllocated;
    assert mid.log.Keys == s.log.Keys - {l};
    assert |mid.log| == |mid.log.Keys| < |s.log.Keys| == |s.log|;
    var m :| RoomMade(mid, m, size, limit) && LogAllocated(m, s', size, l);
    assert Merged(s, mid, size, l);
  }

  lemma {:induction false} PreparedBy(s: State, s': State, size: nat, limit: nat, l: nat)
    requires l !in s.log ==> Allocated(s, s', size, limit, l)
    requires l in s.log ==> s.log[l].block < |s.dev|
    requires l in s.log && s.dev[s.log[l].block].pagesValid >= size ==> Remade(s, s', size, l)
    requires l in s.log && s.dev[s.log[l].block].pagesValid < size ==> s' == s
    ensures Prepared(s, s', size, limit, l)
  {
    hide Allocated, Remade;
  }

  lemma {:induction false} WriteStepsBy(s: State, mid: State, s': State, size: nat, limit: nat, p: Page, d: Data)
    requires Prepared(s, mid, size, limit, p.lba) && Appended(mid, s', p, d)
    ensures WriteSteps(s, s', size, limit, p, d)
  {
    hide Prepared, Appended;
  }

  lemma {:induction false} NoLogSteps(s: State, p: Page)
    requires !(p.lba in s.log && p.off < |s.log[p.lba].pages| && s.log[p.lba].pages[p.off] != -1)
    ensures TrimmedLog(s, s, p)
  {
  }

  lemma {:induction false} NoDataSteps(s: State, p: Page)
    requires !(p.lba < |s.dl| && s.dl[p.lba] != -1)
    ensures TrimmedData(s, s, p)
  {
  }

  lemma {:induction false} TrimStepsBy(s: State, mid: State, s': State, p: Page)
    requires TrimmedLog(s, mid, p) && TrimmedData(mid, s', p)
    ensures TrimSteps(s, s', p)
  {
    hide TrimmedLog, TrimmedData;
  }
}
