/** Block pools of the translation layers (flashsim/ssd_bm.cpp): fresh blocks, the free list, and two counters. */
module BlockPools {
  import opened Flash
  import opened Options

  datatype BlockType = LOG | DATA

  /** The pools as a value; `next` is simpleCurrentFree in units of blocks. */
  datatype Pools = Pools(max: nat, next: nat, free: seq<nat>, dataActive: int, logActive: int)
  {
    /** Blocks that can still be handed out. */
    function Available(): int { max - next + |free| }

    /** The block handed out next: the next fresh one, else the head of the free list. */
    function Head(): Option<nat> {
      if next < max then Some(next) else if free != [] then Some(free[0]) else None
    }

    /** The blocks in the order in which they are handed out: the fresh ones, then the freed ones. */
    ghost function Queue(): seq<nat> {
      (if next <= max then seq(max - next, i requires 0 <= i => next + i) else []) + free
    }

    function Taken(t: BlockType): Pools
      requires Head().Some?
    {
      var p := if next < max then this.(next := next + 1) else this.(free := free[1..]);
      if t == DATA then p.(dataActive := dataActive + 1) else p.(logActive := logActive + 1)
    }

    function Released(b: nat, t: BlockType): Pools {
      var p := this.(free := free + [b]);
      if t == DATA then p.(dataActive := dataActive - 1) else p.(logActive := logActive - 1)
    }

    function Promoted(): Pools { this.(dataActive := dataActive + 1, logActive := logActive - 1) }
  }

  /** Blocks leave at the front and enter at the back. */
  lemma {:induction false} TakenQueue(p: Pools, t: BlockType)
    ensures p.Head() == if p.Queue() == [] then None else Some(p.Queue()[0])
    ensures p.Head().Some? ==> p.Taken(t).Queue() == p.Queue()[1..]
  {
    if p.Head().Some? { assert p.Taken(t).Queue() == p.Queue()[1..]; }
  }

  lemma {:induction false} ReleasedQueue(p: Pools, b: nat, t: BlockType)
    ensures p.Released(b, t).Queue() == p.Queue() + [b]
  {
    assert p.Queue() + [b] == p.Released(b, t).Queue();
  }

  class BlockManager {
    const maxBlocks: nat
    var next: nat
    var freeList: seq<nat>
    var dataActive: int
    var logActive: int
    var outOfBlocks: bool
    var currentWritingBlock: int

    ghost function View(): Pools
      reads this
    {
      Pools(maxBlocks, next, freeList, dataActive, logActive)
    }

    constructor (numBlocks: nat)
      ensures View() == Pools(numBlocks, 0, [], 0, 0) && !outOfBlocks && currentWritingBlock == -2
    {
      maxBlocks, next, freeList, dataActive, logActive := numBlocks, 0, [], 0, 0;
      outOfBlocks, currentWritingBlock := false, -2;
    }

    /** The source first calls insert_events here, when fresh blocks are gone and the free list is nearly empty. */
    predicate WantsCleaning()
      reads this
    {
      next >= maxBlocks && |freeList| <= 1 && !outOfBlocks
    }

    /** get_page_block, for a caller for whom insert_events has nothing to erase; None is its failing assert. */
    method GetPageBlock() returns (b: Option<nat>)
      modifies this
      ensures b == old(View()).Head()
      ensures b == var q := old(View()).Queue(); if q == [] then None else Some(q[0])
      ensures b.Some? ==> View().Queue() == old(View()).Queue()[1..]
      ensures outOfBlocks == if old(next) < maxBlocks then old(outOfBlocks) else b.None?
      ensures b.None? ==> View() == old(View())
      ensures b.Some? ==>
        && View() == old(View()).Taken(DATA).(dataActive := old(dataActive))
        && currentWritingBlock == b.value
    {
      TakenQueue(View(), DATA);
      if next < maxBlocks {
        b := Some(next);
        currentWritingBlock := next;
        next := next + 1;
      } else {
        if WantsCleaning() {
          outOfBlocks := true;
        }
        if |freeList| == 0 {
          return None;
        }
        b := Some(freeList[0]);
        currentWritingBlock := freeList[0];
        freeList := freeList[1..];
        outOfBlocks := false;
      }
    }

    /** Hands out a block of the given type. The source throws bad_alloc, after taking the block, when more log blocks
        are in use than there are blocks. */
    method GetFreeBlock(t: BlockType) returns (b: Option<nat>)
      modifies this
      ensures b == if t == LOG && old(logActive) > maxBlocks then None else old(View()).Head()
      ensures View() == if old(View()).Head().None? then old(View())
                        else if t == LOG && old(logActive) > maxBlocks
                        then old(View()).Taken(DATA).(dataActive := old(dataActive))
                        else old(View()).Taken(t)
      ensures View().Queue() == var q := old(View()).Queue(); if q == [] then [] else q[1..]
      ensures b.Some? ==>
        && (t == DATA ==> dataActive == old(dataActive) + 1 && logActive == old(logActive))
        && (t == LOG ==> dataActive == old(dataActive) && logActive == old(logActive) + 1)
      ensures b.Some? ==> currentWritingBlock == b.value
    {
      b := GetPageBlock();
      if b.None? { return; }
      if t == DATA {
        dataActive := dataActive + 1;
      } else {
        if logActive > maxBlocks {
          return None;
        }
        logActive := logActive + 1;
      }
    }

    method PushFree(b: nat)
      modifies this`freeList
      ensures freeList == old(freeList) + [b]
    {
      freeList := freeList + [b];
    }

    method PromoteToData()
      modifies this
      ensures View() == old(View()).Promoted() && View().Queue() == old(View()).Queue()
      ensures dataActive == old(dataActive) + 1 && logActive == old(logActive) - 1
    {
      dataActive := dataActive + 1;
      logActive := logActive - 1;
    }

    /** Erases a block and returns it to the free list; a worn-out block stops everything. */
    method EraseAndInvalidate(ssd: Ssd, b: nat, t: BlockType) returns (r: Result)
      requires ssd.Valid() && b < |ssd.blocks| && this !in ssd.Repr
      modifies this, ssd.Repr
      ensures ssd.Valid()
      ensures r == FAILURE <==> old(ssd.View())[b].erasesRemaining < 1
      ensures r == SUCCESS ==>
        && View() == old(View()).Released(b, t) && View().Queue() == old(View()).Queue() + [b]
        && (t == DATA ==> dataActive == old(dataActive) - 1 && logActive == old(logActive))
        && (t == LOG ==> dataActive == old(dataActive) && logActive == old(logActive) - 1)
        && ssd.View() == old(ssd.View())[b := Erased(old(ssd.View())[b])]
    {
      ReleasedQueue(View(), b, t);
      r := ssd.Erase(b);
      if r == FAILURE { return; }
      freeList := freeList + [b];
      if t == DATA {
        dataActive := dataActive - 1;
      } else {
        logActive := logActive - 1;
      }
    }
  }
}
