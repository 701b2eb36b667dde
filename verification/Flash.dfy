/** Pages, blocks and the device that holds them (flashsim/ssd_page.cpp, ssd_block.cpp, ssd_plane.cpp). */
module Flash {
  import opened Options

  type Data = seq<bv8>

  datatype PageState = EMPTY | VALID | INVALID
  datatype BlockState = FREE | ACTIVE | INACTIVE
  datatype Result = SUCCESS | FAILURE

  /** A physical page: the block it is in and its offset there. */
  datatype Address = Address(block: nat, page: nat)

  /** The value of a block: page states, the bytes last stored in each page, and the counters. */
  datatype BlockView = BlockView(
    pages: seq<PageState>, data: seq<Data>,
    pagesValid: nat,       // programs since the last erase, not the number of VALID pages
    pagesInvalid: nat,
    state: BlockState,
    erasesRemaining: nat)

  ghost function CountInvalid(pages: seq<PageState>): nat {
    if pages == [] then 0
    else CountInvalid(pages[..|pages| - 1]) + if pages[|pages| - 1] == INVALID then 1 else 0
  }

  lemma {:induction false} CountBound(pages: seq<PageState>)
    ensures CountInvalid(pages) <= |pages|
    ensures CountInvalid(pages) == |pages| <==> forall p :: 0 <= p < |pages| ==> pages[p] == INVALID
  {
    if pages != [] {
      CountBound(pages[..|pages| - 1]);
    }
  }

  lemma {:induction false} CountUpdate(pages: seq<PageState>, p: nat, st: PageState)
    requires p < |pages|
    ensures CountInvalid(pages[p := st])
            == CountInvalid(pages) - (if pages[p] == INVALID then 1 else 0) + (if st == INVALID then 1 else 0)
  {
    if p < |pages| - 1 {
      CountUpdate(pages[..|pages| - 1], p, st);
      assert pages[p := st][..|pages| - 1] == pages[..|pages| - 1][p := st];
    } else {
      assert pages[p := st][..|pages| - 1] == pages[..|pages| - 1];
    }
  }

  lemma {:induction false} CountNext(pages: seq<PageState>, i: nat)
    requires i < |pages|
    ensures CountInvalid(pages[..i + 1]) == CountInvalid(pages[..i]) + if pages[i] == INVALID then 1 else 0
  {
    assert pages[..i + 1][..i] == pages[..i];
  }

  lemma {:induction false} CountNone(pages: seq<PageState>)
    requires forall p :: 0 <= p < |pages| ==> pages[p] != INVALID
    ensures CountInvalid(pages) == 0
  {
    if pages != [] { CountNone(pages[..|pages| - 1]); }
  }

  /** What every block keeps: the invalid counter is exact, INACTIVE means that no page is usable, and FREE that none
      was programmed or invalidated since the last erase. */
  ghost predicate BlockOk(b: BlockView, size: nat) {
    && size > 0 && |b.pages| == size == |b.data|
    && b.pagesInvalid == CountInvalid(b.pages)
    && (b.state == INACTIVE <==> b.pagesInvalid == size)
    && (b.state == FREE <==> b.pagesValid == 0 && b.pagesInvalid == 0)
  }

  /** Nothing programmed or invalidated since the last erase. */
  ghost predicate Clean(b: BlockView) {
    && b.pagesValid == 0
    && forall p :: 0 <= p < |b.pages| ==> b.pages[p] == EMPTY
  }

  /** Pages are programmed in order within the block. */
  ghost predicate InOrder(b: BlockView) {
    b.pagesValid <= |b.pages| && forall p :: 0 <= p < |b.pages| ==> (b.pages[p] == EMPTY <==> b.pagesValid <= p)
  }

  /** The bytes at a physical page, if there is one. */
  ghost function DataAt(dev: seq<BlockView>, a: Option<Address>): Option<Data> {
    if a.Some? && a.value.block < |dev| && a.value.page < |dev[a.value.block].data|
    then Some(dev[a.value.block].data[a.value.page]) else None
  }

  /** Page p of b is programmed with d. */
  ghost function Programmed(b: BlockView, p: nat, d: Data): BlockView
    requires p < |b.pages| && p < |b.data|
  {
    b.(pages := b.pages[p := VALID], data := b.data[p := d], pagesValid := b.pagesValid + 1, state := ACTIVE)
  }

  ghost function Invalidated(b: BlockView, p: nat): BlockView
    requires p < |b.pages|
  {
    if b.pages[p] == INVALID then b
    else
      b.(pages := b.pages[p := INVALID], pagesInvalid := b.pagesInvalid + 1,
         state := if b.pagesInvalid + 1 >= |b.pages| then INACTIVE else ACTIVE)
  }

  ghost function Erased(b: BlockView): BlockView
    requires b.erasesRemaining >= 1
  {
    b.(pages := seq(|b.pages|, _ => EMPTY), pagesValid := 0, pagesInvalid := 0, state := FREE,
       erasesRemaining := b.erasesRemaining - 1)
  }

  lemma {:induction false} ProgrammedOk(b: BlockView, size: nat, p: nat, d: Data)
    requires BlockOk(b, size) && p < size && b.pages[p] == EMPTY
    ensures BlockOk(Programmed(b, p, d), size)
  {
    CountUpdate(b.pages, p, VALID);
    CountBound(b.pages[p := VALID]);
    assert b.pages[p := VALID][p] == VALID;
  }

  lemma {:induction false} InvalidatedOk(b: BlockView, size: nat, p: nat)
    requires BlockOk(b, size) && p < size
    ensures BlockOk(Invalidated(b, p), size)
    ensures Invalidated(b, p).state == INACTIVE ==> forall q :: 0 <= q < size ==> Invalidated(b, p).pages[q] == INVALID
  {
    CountUpdate(b.pages, p, INVALID);
    CountBound(Invalidated(b, p).pages);
  }

  lemma {:induction false} ErasedOk(b: BlockView, size: nat)
    requires BlockOk(b, size) && b.erasesRemaining >= 1
    ensures BlockOk(Erased(b), size) && Clean(Erased(b))
  {
    CountNone(Erased(b).pages);
  }

  class Block {
    const size: nat
    const pages: array<PageState>
    const pageData: array<Data>    // this block's part of page_data
    var pagesValid: nat
    var pagesInvalid: nat
    var state: BlockState
    var erasesRemaining: nat

    ghost predicate Valid()
      reads this, pages, pageData
    {
      pages.Length == size == pageData.Length && size > 0
    }

    ghost function View(): BlockView
      reads this, pages, pageData
    {
      BlockView(pages[..], pageData[..], pagesValid, pagesInvalid, state, erasesRemaining)
    }

    constructor (blockSize: nat, erases: nat)
      requires blockSize > 0
      ensures Valid() && size == blockSize && fresh(pages) && fresh(pageData)
      ensures Clean(View()) && BlockOk(View(), size) && erasesRemaining == erases
    {
      size := blockSize;
      pages := new PageState[blockSize](_ => EMPTY);
      pageData := new Data[blockSize](_ => []);
      pagesValid, pagesInvalid, state, erasesRemaining := 0, 0, FREE, erases;
      new;
      CountNone(pages[..]);
    }

    /** Programs a page; the hardware may only program a page that is EMPTY. */
    method Write(page: nat, payload: Data)
      requires Valid() && page < size && pages[page] == EMPTY
      modifies this, pages, pageData
      ensures Valid() && View() == Programmed(old(View()), page, payload)
      ensures pages[..] == old(pages[..])[page := VALID] && pageData[..] == old(pageData[..])[page := payload]
      ensures pagesValid == old(pagesValid) + 1 && state == ACTIVE
    {
      pageData[page] := payload;
      pages[page] := VALID;
      pagesValid := pagesValid + 1;
      state := ACTIVE;
    }

    method InvalidatePage(page: nat)
      requires Valid() && page < size
      modifies this, pages
      ensures Valid() && View() == Invalidated(old(View()), page)
      ensures pages[..] == old(pages[..])[page := INVALID] && pagesValid == old(pagesValid)
      ensures pagesInvalid == old(pagesInvalid) + if old(pages[page]) == INVALID then 0 else 1
      ensures old(pages[page]) != INVALID ==> state == if pagesInvalid >= size then INACTIVE else ACTIVE
      ensures old(pages[page]) == INVALID ==> state == old(state)
    {
      if pages[page] == INVALID {
        return;
      }
      pages[page] := INVALID;
      pagesInvalid := pagesInvalid + 1;
      if pagesInvalid >= size {
        state := INACTIVE;
      } else if pagesValid > 0 || pagesInvalid > 0 {
        state := ACTIVE;
      } else {
        assert false;  // the source's FREE case: pagesInvalid was just incremented
      }
    }

    /** Erases all pages, unless the block is worn out. */
    method Erase() returns (r: Result)
      requires Valid()
      modifies this, pages
      ensures Valid()
      ensures r == FAILURE <==> old(erasesRemaining) < 1
      ensures View() == if r == FAILURE then old(View()) else Erased(old(View()))
      ensures r == SUCCESS ==>
        && Clean(View()) && pagesInvalid == 0 && state == FREE && erasesRemaining == old(erasesRemaining) - 1
    {
      if erasesRemaining < 1 {
        return FAILURE;
      }
      var i := 0;
      while i < size
        invariant i <= size && Valid()
        invariant forall p :: 0 <= p < i ==> pages[p] == EMPTY
        modifies pages
      {
        pages[i] := EMPTY;
        i := i + 1;
      }
      erasesRemaining := erasesRemaining - 1;
      pagesValid, pagesInvalid, state := 0, 0, FREE;
      assert pages[..] == seq(size, _ => EMPTY);
      return SUCCESS;
    }
  }

  /** The device seen through its linear order of blocks; buses, packages, dies and planes only route to them. */
  class Ssd {
    const blockSize: nat
    const blocks: seq<Block>
    ghost const Repr: set<object>

    ghost predicate Valid()
      reads this, Repr
    {
      && this in Repr && blockSize > 0
      && (forall b :: 0 <= b < |blocks| ==>
            blocks[b] in Repr && blocks[b].pages in Repr && blocks[b].pageData in Repr)
      && (forall b :: 0 <= b < |blocks| ==> blocks[b].Valid() && blocks[b].size == blockSize)
      && (forall a, b :: 0 <= a < b < |blocks| ==>
            blocks[a] != blocks[b] && blocks[a].pages != blocks[b].pages && blocks[a].pageData != blocks[b].pageData)
    }

    ghost function View(): (v: seq<BlockView>)
      requires Valid()
      reads this, Repr
      ensures |v| == |blocks|
      ensures forall b :: 0 <= b < |blocks| ==> |v[b].pages| == blockSize == |v[b].data|
    {
      seq(|blocks|, b requires Valid() && 0 <= b < |blocks| reads this, Repr => blocks[b].View())
    }

    constructor (numBlocks: nat, size: nat, erases: nat)
      requires size > 0
      ensures Valid() && fresh(Repr) && blockSize == size && |blocks| == numBlocks
      ensures forall b :: 0 <= b < numBlocks ==>
        Clean(View()[b]) && BlockOk(View()[b], size) && View()[b].erasesRemaining == erases
    {
      hide Clean, BlockOk, CountInvalid;
      var bs: seq<Block> := [];
      ghost var objs: set<object> := {};
      while |bs| < numBlocks
        invariant |bs| <= numBlocks && fresh(objs)
        invariant forall b :: 0 <= b < |bs| ==> bs[b] in objs && bs[b].pages in objs && bs[b].pageData in objs
        invariant forall b :: 0 <= b < |bs| ==> bs[b].Valid() && bs[b].size == size
        invariant forall a, b :: 0 <= a < b < |bs| ==>
          bs[a] != bs[b] && bs[a].pages != bs[b].pages && bs[a].pageData != bs[b].pageData
        invariant forall b :: 0 <= b < |bs| ==>
          Clean(bs[b].View()) && BlockOk(bs[b].View(), size) && bs[b].erasesRemaining == erases
      {
        var block := new Block(size, erases);
        bs := bs + [block];
        objs := objs + {block, block.pages, block.pageData};
      }
      blockSize, blocks := size, bs;
      Repr := objs + {this};
    }

    function GetState(a: Address): (st: PageState)
      requires Valid() && a.block < |blocks| && a.page < blockSize
      reads this, Repr
      ensures st == View()[a.block].pages[a.page]
    {
      blocks[a.block].pages[a.page]
    }

    function GetData(a: Address): (d: Data)
      requires Valid() && a.block < |blocks| && a.page < blockSize
      reads this, Repr
      ensures d == View()[a.block].data[a.page]
    {
      blocks[a.block].pageData[a.page]
    }

    function GetBlockState(b: nat): (st: BlockState)
      requires Valid() && b < |blocks|
      reads this, Repr
      ensures st == View()[b].state
    {
      blocks[b].state
    }

    function GetNumValid(b: nat): (n: nat)
      requires Valid() && b < |blocks|
      reads this, Repr
      ensures n == View()[b].pagesValid
    {
      blocks[b].pagesValid
    }

    function GetNumInvalid(b: nat): (n: nat)
      requires Valid() && b < |blocks|
      reads this, Repr
      ensures n == View()[b].pagesInvalid
    {
      blocks[b].pagesInvalid
    }

    method Write(a: Address, payload: Data)
      requires Valid() && a.block < |blocks| && a.page < blockSize && GetState(a) == EMPTY
      modifies Repr
      ensures Valid()
      ensures View() == old(View())[a.block := Programmed(old(View())[a.block], a.page, payload)]
    {
      blocks[a.block].Write(a.page, payload);
    }

    method Replace(a: Address)
      requires Valid() && a.block < |blocks| && a.page < blockSize
      modifies Repr
      ensures Valid()
      ensures View() == old(View())[a.block := Invalidated(old(View())[a.block], a.page)]
    {
      blocks[a.block].InvalidatePage(a.page);
    }

    method Erase(b: nat) returns (r: Result)
      requires Valid() && b < |blocks|
      modifies Repr
      ensures Valid()
      ensures r == FAILURE <==> old(View())[b].erasesRemaining < 1
      ensures View() == if r == FAILURE then old(View()) else old(View())[b := Erased(old(View())[b])]
    {
      r := blocks[b].Erase();
    }
  }
}
