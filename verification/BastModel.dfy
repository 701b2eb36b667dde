/** Log-block mapping as a state machine on values: its invariant, its logical contents, and its steps. */
module BastModel {
  import opened Flash
  import opened Sets
  import opened Options
  import opened BlockPools

  /** A log block with its page map: offset -> page of the log block holding it, or -1. */
  datatype LogPageBlock = LogPageBlock(block: nat, pages: seq<int>)

  /** The one pool or mapping entry a physical block belongs to. */
  datatype Owner = Fresh | Free | Log(lba: nat) | DataOf(lba: nat)

  datatype State = State(
    dev: seq<BlockView>,
    log: map<nat, LogPageBlock>,  // log_map
    dl: seq<int>,                 // data_list: data block of each logical block, or -1
    pools: Pools,
    owner: seq<Owner>)

  /** A logical page: logical block and offset. */
  datatype Page = Page(lba: nat, off: nat)

  /** The page map of a log block: it points at VALID pages, no two offsets at the same one. */
  ghost predicate PageMapOk(b: BlockView, pages: seq<int>, size: nat) {
    && |b.pages| == |b.data| == |pages| == size && InOrder(b)
    && (forall o :: 0 <= o < size && pages[o] != -1 ==> 0 <= pages[o] < size && b.pages[pages[o]] == VALID)
    && (forall o, q :: 0 <= o < q < size && pages[o] != -1 ==> pages[o] != pages[q])
  }

  ghost predicate LogOk(s: State, size: nat, l: nat)
    requires l in s.log
  {
    var lb := s.log[l];
    && l < |s.dl| && lb.block < |s.dev| && lb.block < |s.owner| && s.owner[lb.block] == Log(l)
    && PageMapOk(s.dev[lb.block], lb.pages, size)
  }

  ghost predicate DataOk(s: State, l: nat)
    requires l < |s.dl|
  {
    s.dl[l] == -1 || (0 <= s.dl[l] < |s.dev| && s.dl[l] < |s.owner| && s.owner[s.dl[l]] == DataOf(l))
  }

  /** A page that the log block maps is not VALID in the data block. */
  ghost predicate Exclusive(s: State, size: nat, l: nat)
    requires l in s.log
  {
    var pages := s.log[l].pages;
    l < |s.dl| && 0 <= s.dl[l] < |s.dev| && |s.dev[s.dl[l]].pages| == |pages| == size ==>
      forall o :: 0 <= o < size && pages[o] != -1 ==> s.dev[s.dl[l]].pages[o] != VALID
  }

  ghost predicate PoolsOk(s: State) {
    var p := s.pools;
    && p.next <= p.max == |s.owner| == |s.dev|
    && (forall b :: 0 <= b < |s.owner| ==> (s.owner[b] == Fresh <==> p.next <= b))
    && (forall i :: 0 <= i < |p.free| ==> p.free[i] < |s.owner| && s.owner[p.free[i]] == Free)
    && (forall i, j :: 0 <= i < j < |p.free| ==> p.free[i] != p.free[j])
  }

  ghost function Mapped(dl: seq<int>): set<nat> {
    set l: nat | l < |dl| && dl[l] != -1
  }

  /** The counters are exact, and every block handed out so far is in exactly one pool. */
  ghost predicate Accounted(s: State) {
    var p := s.pools;
    && p.logActive == |s.log|
    && p.dataActive == |Mapped(s.dl)|
    && p.dataActive + p.logActive + |p.free| == p.next
  }

  ghost predicate DevOk(s: State, size: nat) {
    forall b :: 0 <= b < |s.dev| ==> BlockOk(s.dev[b], size)
  }

  ghost predicate FreeClean(s: State)
    requires |s.owner| == |s.dev|
  {
    forall b :: 0 <= b < |s.owner| && (s.owner[b] == Fresh || s.owner[b] == Free) ==> Clean(s.dev[b])
  }

  ghost predicate Maps(s: State, size: nat) {
    && (forall l :: 0 <= l < |s.dl| ==> DataOk(s, l))
    && (forall l :: l in s.log ==> LogOk(s, size, l) && Exclusive(s, size, l))
  }

  ghost predicate Inv(s: State, size: nat) {
    && size > 0 && DevOk(s, size) && PoolsOk(s) && FreeClean(s) && Accounted(s) && Maps(s, size)
  }

  // ---------- every block in exactly one pool ----------

  /** Block b is in the pool or mapping entry o. */
  ghost predicate IsIn(s: State, b: nat, o: Owner) {
    match o
    case Fresh => s.pools.next <= b
    case Free => b in s.pools.free
    case Log(l) => l in s.log && s.log[l].block == b
    case DataOf(l) => l < |s.dl| && s.dl[l] == b
  }

  ghost function FreeBlocks(s: State): set<nat> { set b | b in s.pools.free }

  ghost function LogBlocks(s: State): map<nat, nat> { map l | l in s.log :: s.log[l].block }

  ghost function DataBlocks(s: State): map<nat, nat> {
    map l: nat | l in Mapped(s.dl) && l < |s.dl| && s.dl[l] >= 0 :: s.dl[l]
  }

  /** An entry that lists a block is the block's owner. */
  lemma {:induction false} ListedIsOwner(s: State, size: nat, b: nat, o: Owner)
    requires Inv(s, size) && b < s.pools.max && IsIn(s, b, o)
    ensures s.owner[b] == o
  {
    match o {
      case Fresh =>
      case Free =>
      case Log(l) => assert LogOk(s, size, l);
      case DataOf(l) => assert DataOk(s, l);
    }
  }

  lemma {:induction false} ListedInRange(s: State, size: nat)
    requires Inv(s, size)
    ensures forall b :: b in FreeBlocks(s) ==> 0 <= b < s.pools.next
    ensures forall l :: l in LogBlocks(s) ==> 0 <= LogBlocks(s)[l] < s.pools.next
    ensures forall l :: l in DataBlocks(s) ==> 0 <= DataBlocks(s)[l] < s.pools.next
  {
    forall l | l in s.log ensures s.log[l].block < s.pools.next {
      assert LogOk(s, size, l);
    }
    forall l: nat | l < |s.dl| && s.dl[l] != -1 ensures 0 <= s.dl[l] < s.pools.next {
      assert DataOk(s, l);
    }
  }

  lemma {:induction false} FreeSize(s: State, size: nat)
    requires Inv(s, size)
    ensures |FreeBlocks(s)| == |s.pools.free|
  {
    hide Maps, DevOk, Accounted, FreeClean;
    DistinctSize(s.pools.free);
    assert FreeBlocks(s) == set b | b in s.pools.free;
  }

  lemma {:induction false} EntriesDistinct(s: State, size: nat, k: nat, l: nat)
    requires Inv(s, size) && k != l
    ensures k in s.log && l in s.log ==> s.log[k].block != s.log[l].block
    ensures k < |s.dl| && l < |s.dl| && s.dl[k] != -1 ==> s.dl[k] != s.dl[l]
  {
    hide Inv, PageMapOk, Exclusive, BlockOk;
    BlocksOf(s, size, k);
    BlocksOf(s, size, l);
  }

  lemma {:induction false} LogSize(s: State, size: nat)
    requires Inv(s, size)
    ensures |LogBlocks(s).Values| == |s.log|
  {
    hide Inv;
    forall k, l | k in s.log && l in s.log && k != l ensures s.log[k].block != s.log[l].block {
      EntriesDistinct(s, size, k, l);
    }
    InjectiveSize(LogBlocks(s));
    assert LogBlocks(s).Keys == s.log.Keys;
  }

  lemma {:induction false} DataSize(s: State, size: nat)
    requires Inv(s, size)
    ensures |DataBlocks(s).Values| == |Mapped(s.dl)|
  {
    forall l: nat | l < |s.dl| && s.dl[l] != -1 ensures s.dl[l] >= 0 {
      assert DataOk(s, l);
    }
    hide Inv;
    forall k, l | k in DataBlocks(s) && l in DataBlocks(s) && k != l ensures s.dl[k] != s.dl[l] {
      EntriesDistinct(s, size, k, l);
    }
    InjectiveSize(DataBlocks(s));
    assert DataBlocks(s).Keys == Mapped(s.dl);
  }

  /** The three kinds of listed blocks are disjoint, so counting them leaves no block out. */
  lemma {:induction false} AllListed(s: State, size: nat)
    requires Inv(s, size)
    ensures forall b: nat :: b < s.pools.next ==>
      b in FreeBlocks(s) || b in LogBlocks(s).Values || b in DataBlocks(s).Values
  {
    hide Inv, FreeBlocks, LogBlocks, DataBlocks, Mapped;
    ListedInRange(s, size);
    FreeSize(s, size);
    LogSize(s, size);
    DataSize(s, size);
    ListedApart(s, size);
    InvCount(s, size);
    ValuesBelow(LogBlocks(s), s.pools.next);
    ValuesBelow(DataBlocks(s), s.pools.next);
    ThreeFill(FreeBlocks(s), LogBlocks(s).Values, DataBlocks(s).Values, s.pools.next);
  }

  lemma {:induction false} ValuesBelow(m: map<nat, nat>, n: nat)
    requires forall k :: k in m ==> m[k] < n
    ensures forall v :: v in m.Values ==> v < n
  {
  }

  lemma {:induction false} ThreeFill(f: set<nat>, g: set<nat>, d: set<nat>, n: nat)
    requires f !! g && f !! d && g !! d && |f| + |g| + |d| == n
    requires forall b :: b in f || b in g || b in d ==> b < n
    ensures forall b: nat :: b < n ==> b in f || b in g || b in d
  {
    var fg := f + g;
    assert |fg| == |f| + |g|;
    assert fg !! d;
    assert |fg + d| == |fg| + |d|;
    SubsetEqual(fg + d, Below(n));
  }

  lemma {:induction false} InvCount(s: State, size: nat)
    requires Inv(s, size)
    ensures |Mapped(s.dl)| + |s.log| + |s.pools.free| == s.pools.next
  {
  }

  lemma {:induction false} ListedApart(s: State, size: nat)
    requires Inv(s, size)
    ensures FreeBlocks(s) !! LogBlocks(s).Values && FreeBlocks(s) !! DataBlocks(s).Values
    ensures LogBlocks(s).Values !! DataBlocks(s).Values
  {
    ListedInRange(s, size);
    forall b: nat | b < s.pools.next
      ensures b in FreeBlocks(s) ==> s.owner[b] == Free
      ensures b in LogBlocks(s).Values ==> s.owner[b].Log?
      ensures b in DataBlocks(s).Values ==> s.owner[b].DataOf?
    {
      ListedOwner(s, size, b);
    }
    hide Inv, FreeBlocks, LogBlocks, DataBlocks;
  }

  lemma {:induction false} ListedOwner(s: State, size: nat, b: nat)
    requires Inv(s, size) && b < s.pools.next
    ensures b < |s.owner|
    ensures b in FreeBlocks(s) ==> s.owner[b] == Free
    ensures b in LogBlocks(s).Values ==> s.owner[b].Log?
    ensures b in DataBlocks(s).Values ==> s.owner[b].DataOf?
  {
    if b in FreeBlocks(s) { ListedIsOwner(s, size, b, Free); }
    if b in LogBlocks(s).Values {
      var l :| l in LogBlocks(s) && LogBlocks(s)[l] == b;
      ListedIsOwner(s, size, b, Log(l));
    }
    if b in DataBlocks(s).Values {
      var l :| l in DataBlocks(s) && DataBlocks(s)[l] == b;
      ListedIsOwner(s, size, b, DataOf(l));
    }
  }

  /** Every block of the device is in exactly one place: the fresh blocks, the free list, or one entry of one map. */
  lemma {:induction false} ExactlyOnePool(s: State, size: nat, b: nat, o: Owner)
    requires Inv(s, size) && b < s.pools.max
    ensures IsIn(s, b, o) <==> o == s.owner[b]
  {
    if IsIn(s, b, o) { ListedIsOwner(s, size, b, o); }
    if o == s.owner[b] && b < s.pools.next {
      AllListed(s, size);
      if b in FreeBlocks(s) {
        ListedIsOwner(s, size, b, Free);
      } else if b in LogBlocks(s).Values {
        var l :| l in LogBlocks(s) && LogBlocks(s)[l] == b;
        ListedIsOwner(s, size, b, Log(l));
      } else {
        var l :| l in DataBlocks(s) && DataBlocks(s)[l] == b;
        ListedIsOwner(s, size, b, DataOf(l));
      }
    }
  }

  // ---------- logical contents ----------

  ghost predicate InLog(s: State, p: Page) {
    p.lba in s.log && p.off < |s.log[p.lba].pages| && s.log[p.lba].pages[p.off] >= 0
  }

  ghost predicate HasDataBlock(s: State, p: Page) {
    p.lba < |s.dl| && 0 <= s.dl[p.lba] < |s.dev| && p.off < |s.dev[s.dl[p.lba]].pages|
  }

  /** Where the mapping finds a logical page: in the log block first, else VALID in the data block. */
  ghost function Where(s: State, p: Page): Option<Address> {
    if InLog(s, p) then Some(Address(s.log[p.lba].block, s.log[p.lba].pages[p.off]))
    else if HasDataBlock(s, p) && s.dev[s.dl[p.lba]].pages[p.off] == VALID then Some(Address(s.dl[p.lba], p.off))
    else None
  }

  /** The bytes a live page holds; None for a page never written or trimmed since. */
  ghost function Holds(s: State, p: Page): Option<Data> {
    DataAt(s.dev, Where(s, p))
  }

  /** The device as a logical array. */
  ghost function Contents(s: State): imap<Page, Data> {
    imap p | Holds(s, p).Some? :: Holds(s, p).value
  }

  /** A live page is found at a VALID physical page. */
  lemma {:induction false} LiveIsValid(s: State, size: nat, p: Page)
    requires Inv(s, size) && Where(s, p).Some?
    ensures p.off < size && p.lba < |s.dl| && Holds(s, p).Some?
    ensures var a := Where(s, p).value;
      a.block < |s.dev| && a.page < size && |s.dev[a.block].pages| == size && s.dev[a.block].pages[a.page] == VALID
  {
    if InLog(s, p) {
      assert LogOk(s, size, p.lba);
    } else {
      assert DataOk(s, p.lba) && BlockOk(s.dev[s.dl[p.lba]], size);
    }
  }

  // ---------- what a step on one logical block leaves alone ----------

  /** Distinct mapping entries use distinct blocks, and those blocks are well formed. */
  lemma {:induction false} BlocksOf(s: State, size: nat, l: nat)
    requires Inv(s, size)
    ensures l in s.log ==>
      && l < |s.dl| && s.log[l].block < |s.dev| == |s.owner| && s.owner[s.log[l].block] == Log(l)
      && PageMapOk(s.dev[s.log[l].block], s.log[l].pages, size) && s.dl[l] != s.log[l].block
      && BlockOk(s.dev[s.log[l].block], size) && Exclusive(s, size, l)
    ensures l < |s.dl| && s.dl[l] != -1 ==>
      && 0 <= s.dl[l] < |s.dev| == |s.owner| && s.owner[s.dl[l]] == DataOf(l)
      && BlockOk(s.dev[s.dl[l]], size)
  {
    if l in s.log { assert LogOk(s, size, l); }
    if l < |s.dl| { assert DataOk(s, l); }
  }

  /** s' agrees with s on everything that belongs to logical block m. */
  ghost predicate SameFor(s: State, s': State, m: nat) {
    && |s'.dev| == |s.dev| && |s'.owner| == |s.owner| && |s'.dl| == |s.dl|
    && (m in s'.log <==> m in s.log)
    && (m in s.log ==> s'.log[m] == s.log[m])
    && (m < |s.dl| ==> s'.dl[m] == s.dl[m])
    && (forall b :: 0 <= b < |s.dev| && b < |s.owner| && (s.owner[b] == Log(m) || s.owner[b] == DataOf(m)) ==>
          s'.dev[b] == s.dev[b] && s'.owner[b] == s.owner[b])
  }

  lemma {:induction false} SameForMaps(s: State, s': State, size: nat, m: nat)
    requires Inv(s, size) && SameFor(s, s', m)
    ensures m < |s'.dl| ==> DataOk(s', m)
    ensures m in s'.log ==> LogOk(s', size, m) && Exclusive(s', size, m)
    ensures forall q: Page :: q.lba == m ==> Holds(s', q) == Holds(s, q)
  {
    hide Inv;
    BlocksOf(s, size, m);
  }

  lemma {:induction false} MapsStep(s: State, s': State, size: nat, l: nat)
    requires Inv(s, size) && |s'.dl| == |s.dl|
    requires forall m: nat :: m != l ==> SameFor(s, s', m)
    requires l < |s'.dl| ==> DataOk(s', l)
    requires l in s'.log ==> LogOk(s', size, l) && Exclusive(s', size, l)
    ensures Maps(s', size)
  {
    hide Inv, SameFor, LogOk, Exclusive, DataOk;
    forall m | m in s'.log ensures LogOk(s', size, m) && Exclusive(s', size, m) {
      if m != l { SameForMaps(s, s', size, m); }
    }
    forall m | 0 <= m < |s'.dl| ensures DataOk(s', m) {
      if m != l { SameForMaps(s, s', size, m); }
    }
  }

  /** Pools and accounting only depend on the owners and on the blocks nobody uses. */
  lemma {:induction false} PoolsFrame(s: State, s': State)
    requires PoolsOk(s) && FreeClean(s) && Accounted(s)
    requires s'.pools == s.pools && s'.owner == s.owner && s'.dl == s.dl && s'.log.Keys == s.log.Keys
    requires |s'.dev| == |s.dev|
    requires forall b :: 0 <= b < |s.dev| && (s.owner[b] == Fresh || s.owner[b] == Free) ==> s'.dev[b] == s.dev[b]
    ensures PoolsOk(s') && FreeClean(s') && Accounted(s')
  {
    assert |s'.log| == |s'.log.Keys| == |s.log|;
  }

  /** Blocks mapped as log or data blocks. */
  ghost function Used(s: State): int { s.pools.dataActive + s.pools.logActive }

  /** Logical blocks with a log or data block. */
  ghost function Touched(s: State): set<nat> { Mapped(s.dl) + s.log.Keys }

  ghost predicate SameContents(s: State, s': State) {
    forall q: Page :: Holds(s', q) == Holds(s, q)
  }

  /** Every block lost at most one erase. */
  ghost predicate WearAtMostOne(s: State, s': State) {
    |s'.dev| == |s.dev| && forall b :: 0 <= b < |s.dev| ==> s'.dev[b].erasesRemaining >= s.dev[b].erasesRemaining - 1
  }

  // ---------- writing into a log block that still has room ----------

  /** The superseded copy that the write event invalidates: the data page unless EMPTY, else the old log page. */
  ghost function Superseded(s: State, p: Page): Option<Address> {
    if HasDataBlock(s, p) && s.dev[s.dl[p.lba]].pages[p.off] != EMPTY then Some(Address(s.dl[p.lba], p.off))
    else if InLog(s, p) then Some(Address(s.log[p.lba].block, s.log[p.lba].pages[p.off]))
    else None
  }

  ghost function InvalidatedAt(dev: seq<BlockView>, a: Option<Address>): seq<BlockView> {
    if a.Some? && a.value.block < |dev| && a.value.page < |dev[a.value.block].pages|
    then dev[a.value.block := Invalidated(dev[a.value.block], a.value.page)] else dev
  }

  /** Logical block l has a log block with an unwritten page. */
  ghost predicate HasRoom(s: State, size: nat, l: nat) {
    && l in s.log && s.log[l].block < |s.dev| && |s.log[l].pages| == size
    && s.dev[s.log[l].block].pagesValid < size
    && |s.dev[s.log[l].block].pages| == size == |s.dev[s.log[l].block].data|
  }

  ghost function AfterProgram(s: State, size: nat, l: nat, d: Data): seq<BlockView>
    requires HasRoom(s, size, l)
  {
    var b := s.log[l].block;
    s.dev[b := Programmed(s.dev[b], s.dev[b].pagesValid, d)]
  }

  ghost function AfterLogWrite(s: State, size: nat, p: Page, d: Data): State
    requires HasRoom(s, size, p.lba) && p.off < size
  {
    var lb := s.log[p.lba];
    s.(dev := InvalidatedAt(AfterProgram(s, size, p.lba, d), Superseded(s, p)),
       log := s.log[p.lba := lb.(pages := lb.pages[p.off := s.dev[lb.block].pagesValid])])
  }

  lemma {:induction false} PageMapWrite(b: BlockView, pages: seq<int>, size: nat, o: nat, d: Data)
    requires PageMapOk(b, pages, size) && o < size && b.pagesValid < size
    ensures var b' := Programmed(b, b.pagesValid, d);
      && PageMapOk(b', pages[o := b.pagesValid], size)
      && (pages[o] != -1 ==> PageMapOk(Invalidated(b', pages[o]), pages[o := b.pagesValid], size))
  {
  }

  /** The log block of a page about to be written, with the page programmed. */
  ghost function LogProgrammed(s: State, p: Page, d: Data): BlockView
    requires p.lba in s.log && s.log[p.lba].block < |s.dev|
    requires s.dev[s.log[p.lba].block].pagesValid < |s.dev[s.log[p.lba].block].pages|
    requires s.dev[s.log[p.lba].block].pagesValid < |s.dev[s.log[p.lba].block].data|
  {
    var b := s.dev[s.log[p.lba].block];
    Programmed(b, b.pagesValid, d)
  }

  /** The data block has a copy that the write supersedes. */
  ghost predicate InData(s: State, p: Page) {
    HasDataBlock(s, p) && s.dev[s.dl[p.lba]].pages[p.off] != EMPTY
  }

  /** The state after a log write, block by block. */
  lemma {:induction false} LogWriteBlocks(s: State, size: nat, p: Page, d: Data)
    requires Inv(s, size) && HasRoom(s, size, p.lba) && p.off < size
    ensures p.lba < |s.dl|
    ensures var s', b, n := AfterLogWrite(s, size, p, d), s.log[p.lba].block, s.dl[p.lba];
      && |s'.dev| == |s.dev| && b != n && b < |s.dev| && (n != -1 ==> 0 <= n < |s.dev| && p.off < |s.dev[n].pages|)
      && s' == s.(dev := s'.dev,
                  log := s.log[p.lba := s.log[p.lba].(pages := s.log[p.lba].pages[p.off := s.dev[b].pagesValid])])
      && (forall x :: 0 <= x < |s.dev| && x != b && x != n ==> s'.dev[x] == s.dev[x])
      && (n != -1 ==> s'.dev[n] == if InData(s, p) then Invalidated(s.dev[n], p.off) else s.dev[n])
      && s'.dev[b] == if !InData(s, p) && InLog(s, p) && s.log[p.lba].pages[p.off] < size
                      then Invalidated(LogProgrammed(s, p, d), s.log[p.lba].pages[p.off]) else LogProgrammed(s, p, d)
  {
    hide Inv, PageMapOk, Exclusive, BlockOk;
    BlocksOf(s, size, p.lba);
    BlocksSizes(s, size, p.lba);
  }

  lemma {:induction false} BlocksSizes(s: State, size: nat, l: nat)
    requires Inv(s, size)
    ensures l in s.log && s.log[l].block < |s.dev| ==>
      |s.log[l].pages| == size && |s.dev[s.log[l].block].pages| == size == |s.dev[s.log[l].block].data|
    ensures l < |s.dl| && 0 <= s.dl[l] < |s.dev| ==> |s.dev[s.dl[l]].pages| == size == |s.dev[s.dl[l]].data|
    ensures l in s.log ==> forall o :: 0 <= o < |s.log[l].pages| ==>
      s.log[l].pages[o] == -1 || 0 <= s.log[l].pages[o] < size
  {
    hide Inv;
    BlocksOf(s, size, l);
  }

  /** The page a log write programs is EMPTY. */
  lemma {:induction false} NextLogPage(s: State, size: nat, l: nat)
    requires Inv(s, size) && HasRoom(s, size, l)
    ensures s.dev[s.log[l].block].pages[s.dev[s.log[l].block].pagesValid] == EMPTY
  {
    hide Inv, Exclusive, BlockOk;
    BlocksOf(s, size, l);
  }

  lemma {:induction false} LogWriteDev(s: State, size: nat, p: Page, d: Data)
    requires Inv(s, size) && HasRoom(s, size, p.lba) && p.off < size
    ensures DevOk(AfterLogWrite(s, size, p, d), size)
  {
    LogWriteBlocks(s, size, p, d);
    BlocksSizes(s, size, p.lba);
    BlocksOf(s, size, p.lba);
    var b, n := s.log[p.lba].block, s.dl[p.lba];
    ProgrammedOk(s.dev[b], size, s.dev[b].pagesValid, d);
    if !InData(s, p) && InLog(s, p) { InvalidatedOk(LogProgrammed(s, p, d), size, s.log[p.lba].pages[p.off]); }
    if InData(s, p) { InvalidatedOk(s.dev[n], size, p.off); }
    var s' := AfterLogWrite(s, size, p, d);
    hide AfterLogWrite, InData, Maps, PoolsOk, FreeClean, Accounted, PageMapOk, Exclusive, BlockOk;
    forall x | 0 <= x < |s'.dev| ensures BlockOk(s'.dev[x], size) {
      if x != b && x != n { assert s'.dev[x] == s.dev[x]; }
    }
  }

  lemma {:induction false} LogWriteSelf(s: State, size: nat, p: Page, d: Data)
    requires Inv(s, size) && HasRoom(s, size, p.lba) && p.off < size
    ensures var s' := AfterLogWrite(s, size, p, d);
      LogOk(s', size, p.lba) && Exclusive(s', size, p.lba) && DataOk(s', p.lba)
  {
    hide Inv, BlockOk;
    LogWriteBlocks(s, size, p, d);
    BlocksOf(s, size, p.lba);
    BlocksSizes(s, size, p.lba);
    var lb := s.log[p.lba];
    PageMapWrite(s.dev[lb.block], lb.pages, size, p.off, d);
    var s' := AfterLogWrite(s, size, p, d);
    hide AfterLogWrite, PageMapOk;
    assert LogOk(s', size, p.lba);
    hide LogOk;
    ExclusiveWrite(s, s', size, p, s.dev[lb.block].pagesValid);
  }

  /** The page written is in the log now, and its data copy, if any, is INVALID. */
  lemma {:induction false} ExclusiveWrite(s: State, s': State, size: nat, p: Page, v: int)
    requires p.lba in s.log && p.lba in s'.log && Exclusive(s, size, p.lba) && p.off < size == |s.log[p.lba].pages|
    requires s'.dl == s.dl && |s'.dev| == |s.dev| && p.lba < |s.dl|
    requires s'.log[p.lba].pages == s.log[p.lba].pages[p.off := v]
    requires var n := s.dl[p.lba];
      n != -1 ==> 0 <= n < |s.dev| && |s.dev[n].pages| == size
                  && s'.dev[n] == if InData(s, p) then Invalidated(s.dev[n], p.off) else s.dev[n]
    ensures Exclusive(s', size, p.lba)
  {
  }

  lemma {:induction false} LogWriteSameFor(s: State, size: nat, p: Page, d: Data, m: nat)
    requires Inv(s, size) && HasRoom(s, size, p.lba) && p.off < size && m != p.lba
    ensures SameFor(s, AfterLogWrite(s, size, p, d), m)
  {
    hide Inv, PageMapOk, Exclusive, BlockOk, InData;
    LogWriteBlocks(s, size, p, d);
    hide AfterLogWrite, LogProgrammed, Invalidated, HasRoom;
    BlocksOf(s, size, p.lba);
    BlocksOf(s, size, m);
  }

  lemma {:induction false} LogWriteInv(s: State, size: nat, p: Page, d: Data)
    requires Inv(s, size) && HasRoom(s, size, p.lba) && p.off < size
    ensures Inv(AfterLogWrite(s, size, p, d), size)
  {
    hide Maps, DevOk, PoolsOk, FreeClean, Accounted, SameFor, LogOk, Exclusive, DataOk;
    var s' := AfterLogWrite(s, size, p, d);
    LogWriteDev(s, size, p, d);
    LogWriteSelf(s, size, p, d);
    forall m: nat | m != p.lba ensures SameFor(s, s', m) { LogWriteSameFor(s, size, p, d, m); }
    BlocksOf(s, size, p.lba);
    MapsStep(s, s', size, p.lba);
    PoolsFrame(s, s');
  }

  /** A write makes its page hold the new bytes and changes no other page. */
  lemma {:induction false} LogWriteHolds(s: State, size: nat, p: Page, d: Data, q: Page)
    requires Inv(s, size) && HasRoom(s, size, p.lba) && p.off < size
    ensures Holds(AfterLogWrite(s, size, p, d), q) == if q == p then Some(d) else Holds(s, q)
  {
    hide Inv;
    if q.lba != p.lba {
      hide Holds, SameFor, AfterLogWrite;
      LogWriteSameFor(s, size, p, d, q.lba);
      SameForMaps(s, AfterLogWrite(s, size, p, d), size, q.lba);
    } else if q == p || InLog(s, q) {
      LogWriteInLog(s, size, p, d, q);
    } else {
      LogWriteInData(s, size, p, d, q);
    }
  }

  /** Pages the log block holds stay where they are; the page written is the last one programmed. */
  lemma {:induction false} LogWriteInLog(s: State, size: nat, p: Page, d: Data, q: Page)
    requires Inv(s, size) && HasRoom(s, size, p.lba) && p.off < size && q.lba == p.lba && (q == p || InLog(s, q))
    ensures Holds(AfterLogWrite(s, size, p, d), q) == if q == p then Some(d) else Holds(s, q)
  {
    hide Inv;
    LogWriteBlocks(s, size, p, d);
    BlocksOf(s, size, p.lba);
    BlocksSizes(s, size, p.lba);
    hide AfterLogWrite, BlockOk, Exclusive, InData;
  }

  /** Pages of the data block other than the one written are not touched. */
  lemma {:induction false} LogWriteInData(s: State, size: nat, p: Page, d: Data, q: Page)
    requires Inv(s, size) && HasRoom(s, size, p.lba) && p.off < size && q.lba == p.lba && q != p && !InLog(s, q)
    ensures Holds(AfterLogWrite(s, size, p, d), q) == Holds(s, q)
  {
    hide Inv;
    LogWriteBlocks(s, size, p, d);
    BlocksSizes(s, size, p.lba);
    hide AfterLogWrite, LogProgrammed, InData;
  }

  // ---------- taking a block from the pools ----------

  ghost predicate CanTake(s: State) {
    s.pools.Head().Some? && s.pools.Head().value < |s.dev| == |s.owner|
  }

  /** A new, empty log block for l. */
  ghost function AfterAlloc(s: State, size: nat, l: nat): State
    requires CanTake(s)
  {
    var n := s.pools.Head().value;
    s.(log := s.log[l := LogPageBlock(n, seq(size, _ => -1))],
       pools := s.pools.Taken(LOG),
       owner := s.owner[n := Log(l)])
  }

  /** A block with the given contents becomes l's data block. */
  ghost function AfterInstall(s: State, l: nat, view: BlockView): State
    requires CanTake(s) && l < |s.dl|
  {
    var n := s.pools.Head().value;
    s.(dev := s.dev[n := view], dl := s.dl[l := n],
       pools := s.pools.Taken(DATA),
       owner := s.owner[n := DataOf(l)])
  }

  lemma {:induction false} HeadIsUnowned(s: State)
    requires PoolsOk(s) && FreeClean(s) && s.pools.Head().Some?
    ensures CanTake(s)
    ensures var n := s.pools.Head().value;
      && Clean(s.dev[n]) && (s.owner[n] == Fresh || s.owner[n] == Free)
  {
  }

  lemma {:induction false} TakenPools(s: State, s': State, t: BlockType, o: Owner)
    requires PoolsOk(s) && FreeClean(s) && CanTake(s) && o != Fresh && o != Free
    requires |s'.dev| == |s.dev|
    requires forall b :: 0 <= b < |s.dev| && b != s.pools.Head().value ==> s'.dev[b] == s.dev[b]
    requires s'.pools == s.pools.Taken(t) && s'.owner == s.owner[s.pools.Head().value := o]
    ensures PoolsOk(s') && FreeClean(s')
  {
  }

  lemma {:induction false} AllocSelf(s: State, size: nat, l: nat)
    requires Inv(s, size) && CanTake(s) && l < |s.dl| && l !in s.log
    ensures var s' := AfterAlloc(s, size, l);
      LogOk(s', size, l) && Exclusive(s', size, l) && DataOk(s', l)
  {
    HeadIsUnowned(s);
    BlocksOf(s, size, l);
    assert BlockOk(s.dev[s.pools.Head().value], size);
  }

  lemma {:induction false} AllocSameFor(s: State, size: nat, l: nat, m: nat)
    requires Inv(s, size) && CanTake(s) && l < |s.dl| && m != l
    ensures SameFor(s, AfterAlloc(s, size, l), m)
  {
    HeadIsUnowned(s);
  }

  lemma {:induction false} AllocInv(s: State, size: nat, l: nat)
    requires Inv(s, size) && CanTake(s) && l < |s.dl| && l !in s.log
    ensures Inv(AfterAlloc(s, size, l), size)
    ensures forall q :: Holds(AfterAlloc(s, size, l), q) == Holds(s, q)
  {
    hide Maps, PoolsOk, FreeClean, SameFor, LogOk, Exclusive, DataOk, Holds;
    var s' := AfterAlloc(s, size, l);
    AllocSelf(s, size, l);
    forall m: nat | m != l ensures SameFor(s, s', m) { AllocSameFor(s, size, l, m); }
    MapsStep(s, s', size, l);
    TakenPools(s, s', LOG, Log(l));
    assert s'.log.Keys == s.log.Keys + {l} && |s'.log| == |s'.log.Keys| == |s.log.Keys| + 1;
    forall q: Page ensures Holds(s', q) == Holds(s, q) {
      if q.lba != l { SameForMaps(s, s', size, q.lba); } else { AllocHolds(s, size, q); }
    }
  }

  /** l's log block exists and nothing was written to it yet. */
  ghost predicate EmptyLog(s: State, size: nat, l: nat) {
    && l in s.log && s.log[l].block < |s.dev| && Clean(s.dev[s.log[l].block])
    && s.log[l].pages == seq(size, _ => -1)
  }

  lemma {:induction false} AllocEmpty(s: State, size: nat, l: nat)
    requires Inv(s, size) && CanTake(s)
    ensures EmptyLog(AfterAlloc(s, size, l), size, l)
  {
  }

  lemma {:induction false} EmptyLogHasRoom(s: State, size: nat, l: nat)
    requires Inv(s, size) && EmptyLog(s, size, l)
    ensures HasRoom(s, size, l) && s.dev[s.log[l].block].pagesValid == 0
  {
    hide Inv;
    BlocksOf(s, size, l);
  }

  lemma {:induction false} AllocHolds(s: State, size: nat, q: Page)
    requires CanTake(s) && q.lba !in s.log
    ensures Holds(AfterAlloc(s, size, q.lba), q) == Holds(s, q)
  {
  }

  lemma {:induction false} InstallInv(s: State, size: nat, l: nat, view: BlockView)
    requires Inv(s, size) && CanTake(s) && l < |s.dl| && l !in s.log && s.dl[l] == -1
    requires BlockOk(view, size)
    ensures Inv(AfterInstall(s, l, view), size)
    ensures forall q: Page :: q.lba != l ==> Holds(AfterInstall(s, l, view), q) == Holds(s, q)
    ensures forall q: Page :: q.lba == l ==>
      Holds(AfterInstall(s, l, view), q)
      == (if q.off < size && view.pages[q.off] == VALID then Some(view.data[q.off]) else None)
  {
    InstallMaps(s, size, l, view);
    InstallPools(s, size, l, view);
    hide Inv, Maps, PoolsOk, FreeClean, SameFor, Holds, Accounted, DevOk, AfterInstall;
    forall q: Page | q.lba == l
      ensures Holds(AfterInstall(s, l, view), q)
        == (if q.off < size && view.pages[q.off] == VALID then Some(view.data[q.off]) else None)
    {
      InstallOwn(s, size, l, view, q);
    }
    InvFrom(AfterInstall(s, l, view), size);
  }

  lemma {:induction false} InvFrom(s: State, size: nat)
    requires size > 0 && DevOk(s, size) && PoolsOk(s) && FreeClean(s) && Accounted(s) && Maps(s, size)
    ensures Inv(s, size)
  {
  }

  lemma {:induction false} InstallMaps(s: State, size: nat, l: nat, view: BlockView)
    requires Inv(s, size) && CanTake(s) && l < |s.dl| && l !in s.log && BlockOk(view, size)
    ensures Maps(AfterInstall(s, l, view), size) && DevOk(AfterInstall(s, l, view), size) && size > 0
    ensures forall q: Page :: q.lba != l ==> Holds(AfterInstall(s, l, view), q) == Holds(s, q)
  {
    hide Maps, PoolsOk, FreeClean, Accounted, SameFor, LogOk, Exclusive, Holds;
    var s' := AfterInstall(s, l, view);
    forall m: nat | m != l ensures SameFor(s, s', m) { InstallSameFor(s, size, l, view, m); }
    InstallData(s, size, l, view);
    MapsStep(s, s', size, l);
    forall q: Page | q.lba != l ensures Holds(s', q) == Holds(s, q) { SameForMaps(s, s', size, q.lba); }
  }

  lemma {:induction false} InstallData(s: State, size: nat, l: nat, view: BlockView)
    requires Inv(s, size) && CanTake(s) && l < |s.dl|
    ensures DataOk(AfterInstall(s, l, view), l)
  {
    hide Maps, DevOk, Accounted;
    HeadIsUnowned(s);
  }

  lemma {:induction false} InstallPools(s: State, size: nat, l: nat, view: BlockView)
    requires Inv(s, size) && CanTake(s) && l < |s.dl| && l !in s.log && s.dl[l] == -1
    ensures var s' := AfterInstall(s, l, view); PoolsOk(s') && FreeClean(s') && Accounted(s')
  {
    hide Maps, DevOk, PoolsOk, FreeClean;
    TakenPools(s, AfterInstall(s, l, view), DATA, DataOf(l));
    MappedPlus(s.dl, l, s.pools.Head().value);
    hide Mapped;
  }

  lemma {:induction false} MappedPlus(dl: seq<int>, l: nat, n: nat)
    requires l < |dl| && dl[l] == -1
    ensures Mapped(dl[l := n]) == Mapped(dl) + {l} && |Mapped(dl[l := n])| == |Mapped(dl)| + 1
  {
    assert Mapped(dl[l := n]) == Mapped(dl) + {l};
    assert l !in Mapped(dl);
  }

  lemma {:induction false} InstallOwn(s: State, size: nat, l: nat, view: BlockView, q: Page)
    requires CanTake(s) && l < |s.dl| && l !in s.log && BlockOk(view, size) && q.lba == l
    ensures Holds(AfterInstall(s, l, view), q)
      == (if q.off < size && view.pages[q.off] == VALID then Some(view.data[q.off]) else None)
  {
  }

  lemma {:induction false} InstallSameFor(s: State, size: nat, l: nat, view: BlockView, m: nat)
    requires Inv(s, size) && CanTake(s) && l < |s.dl| && m != l
    ensures SameFor(s, AfterInstall(s, l, view), m)
  {
    HeadIsUnowned(s);
  }

  // ---------- giving a block back ----------

  ghost function AfterReleaseLog(s: State, l: nat): State
    requires l in s.log && s.log[l].block < |s.dev| == |s.owner| && s.dev[s.log[l].block].erasesRemaining >= 1
  {
    var b := s.log[l].block;
    s.(dev := s.dev[b := Erased(s.dev[b])], log := s.log - {l},
       pools := s.pools.Released(b, LOG), owner := s.owner[b := Free])
  }

  ghost function AfterReleaseData(s: State, l: nat): State
    requires l < |s.dl| && 0 <= s.dl[l] < |s.dev| == |s.owner| && s.dev[s.dl[l]].erasesRemaining >= 1
  {
    var b := s.dl[l];
    s.(dev := s.dev[b := Erased(s.dev[b])], dl := s.dl[l := -1],
       pools := s.pools.Released(b, DATA), owner := s.owner[b := Free])
  }

  lemma {:induction false} ReleasedPools(s: State, s': State, b: nat, t: BlockType)
    requires PoolsOk(s) && FreeClean(s) && b < |s.dev| && s.owner[b] != Fresh && s.owner[b] != Free
    requires |s'.dev| == |s.dev| && Clean(s'.dev[b])
    requires forall c :: 0 <= c < |s.dev| && c != b ==> s'.dev[c] == s.dev[c]
    requires s'.pools == s.pools.Released(b, t) && s'.owner == s.owner[b := Free]
    ensures PoolsOk(s') && FreeClean(s')
  {
  }

  /** Giving up the log block loses the pages only it held. */
  lemma {:induction false} ReleaseLogInv(s: State, size: nat, l: nat)
    requires Inv(s, size) && l in s.log && s.log[l].block < |s.dev| && s.dev[s.log[l].block].erasesRemaining >= 1
    ensures Inv(AfterReleaseLog(s, l), size)
    ensures forall q: Page :: q.lba != l || !InLog(s, q) ==> Holds(AfterReleaseLog(s, l), q) == Holds(s, q)
  {
    hide Maps, PoolsOk, FreeClean, SameFor, LogOk, Exclusive, Holds;
    BlocksOf(s, size, l);
    var s' := AfterReleaseLog(s, l);
    var b := s.log[l].block;
    ErasedOk(s.dev[b], size);
    forall m: nat | m != l ensures SameFor(s, s', m) { ReleaseLogSameFor(s, size, l, m); }
    MapsStep(s, s', size, l);
    ReleasedPools(s, s', b, LOG);
    assert s'.log.Keys == s.log.Keys - {l} && |s'.log| == |s'.log.Keys| == |s.log.Keys| - 1;
    forall q: Page | q.lba != l || !InLog(s, q) ensures Holds(s', q) == Holds(s, q) {
      if q.lba != l { SameForMaps(s, s', size, q.lba); } else { ReleaseLogHolds(s, q); }
    }
  }

  lemma {:induction false} ReleaseLogHolds(s: State, q: Page)
    requires q.lba in s.log && s.log[q.lba].block < |s.dev| == |s.owner|
    requires s.dev[s.log[q.lba].block].erasesRemaining >= 1
    requires q.lba < |s.dl| && s.dl[q.lba] != s.log[q.lba].block && !InLog(s, q)
    ensures Holds(AfterReleaseLog(s, q.lba), q) == Holds(s, q)
  {
  }

  lemma {:induction false} ReleaseLogSameFor(s: State, size: nat, l: nat, m: nat)
    requires Inv(s, size) && l in s.log && s.log[l].block < |s.dev| && s.dev[s.log[l].block].erasesRemaining >= 1
    requires m != l
    ensures SameFor(s, AfterReleaseLog(s, l), m)
  {
    hide Inv;
    BlocksOf(s, size, l);
    BlocksOf(s, size, m);
  }

  /** Giving up the data block loses the pages the log block does not hold. */
  lemma {:induction false} ReleaseDataInv(s: State, size: nat, l: nat)
    requires Inv(s, size) && l < |s.dl| && 0 <= s.dl[l] < |s.dev| && s.dev[s.dl[l]].erasesRemaining >= 1
    ensures Inv(AfterReleaseData(s, l), size)
    ensures forall q: Page :: q.lba != l || InLog(s, q) ==> Holds(AfterReleaseData(s, l), q) == Holds(s, q)
    ensures forall q: Page :: q.lba == l && !InLog(s, q) ==> Holds(AfterReleaseData(s, l), q) == None
  {
    hide Maps, PoolsOk, FreeClean, SameFor, Holds;
    BlocksOf(s, size, l);
    var s' := AfterReleaseData(s, l);
    var b := s.dl[l];
    ErasedOk(s.dev[b], size);
    forall m: nat | m != l ensures SameFor(s, s', m) { ReleaseDataSameFor(s, size, l, m); }
    MapsStep(s, s', size, l);
    ReleasedPools(s, s', b, DATA);
    assert Mapped(s'.dl) == Mapped(s.dl) - {l};
    forall q: Page ensures q.lba != l || InLog(s, q) ==> Holds(s', q) == Holds(s, q) {
      if q.lba != l { SameForMaps(s, s', size, q.lba); } else { ReleaseDataHolds(s, size, q); }
    }
    forall q: Page | q.lba == l && !InLog(s, q) ensures Holds(s', q) == None { ReleaseDataHolds(s, size, q); }
  }

  lemma {:induction false} ReleaseDataHolds(s: State, size: nat, q: Page)
    requires Inv(s, size) && q.lba < |s.dl| && 0 <= s.dl[q.lba] < |s.dev| && s.dev[s.dl[q.lba]].erasesRemaining >= 1
    ensures InLog(s, q) ==> Holds(AfterReleaseData(s, q.lba), q) == Holds(s, q)
    ensures !InLog(s, q) ==> Holds(AfterReleaseData(s, q.lba), q) == None
  {
    hide Inv;
    BlocksOf(s, size, q.lba);
  }

  lemma {:induction false} ReleaseDataSameFor(s: State, size: nat, l: nat, m: nat)
    requires Inv(s, size) && l < |s.dl| && 0 <= s.dl[l] < |s.dev| && s.dev[s.dl[l]].erasesRemaining >= 1
    requires m != l
    ensures SameFor(s, AfterReleaseData(s, l), m)
  {
    hide Inv;
    BlocksOf(s, size, l);
    BlocksOf(s, size, m);
  }

  // ---------- switch merge: the log block becomes the data block ----------

  ghost predicate Sequential(pages: seq<int>) {
    forall o :: 0 <= o < |pages| ==> pages[o] == o
  }

  ghost function AfterPromote(s: State, l: nat): State
    requires l in s.log && l < |s.dl| && s.log[l].block < |s.owner|
  {
    var b := s.log[l].block;
    s.(log := s.log - {l}, dl := s.dl[l := b], pools := s.pools.Promoted(), owner := s.owner[b := DataOf(l)])
  }

  lemma {:induction false} PromoteInv(s: State, size: nat, l: nat)
    requires Inv(s, size) && l in s.log && l < |s.dl| && s.dl[l] == -1 && s.log[l].block < |s.owner|
    requires Sequential(s.log[l].pages)
    ensures Inv(AfterPromote(s, l), size)
    ensures forall q: Page :: Holds(AfterPromote(s, l), q) == Holds(s, q)
  {
    hide Maps, PoolsOk, FreeClean, SameFor, Holds, Exclusive;
    var s' := AfterPromote(s, l);
    BlocksOf(s, size, l);
    forall m: nat | m != l ensures SameFor(s, s', m) { PromoteSameFor(s, size, l, m); }
    MapsStep(s, s', size, l);
    PromotePools(s, size, l);
    assert s'.log.Keys == s.log.Keys - {l} && |s'.log| == |s'.log.Keys| == |s.log.Keys| - 1;
    MappedPlus(s.dl, l, s.log[l].block);
    hide Mapped;
    forall q: Page ensures Holds(s', q) == Holds(s, q) {
      if q.lba != l { SameForMaps(s, s', size, q.lba); } else { PromoteHolds(s, size, q); }
    }
  }

  lemma {:induction false} PromotePools(s: State, size: nat, l: nat)
    requires Inv(s, size) && l in s.log && l < |s.dl| && s.log[l].block < |s.owner|
    ensures PoolsOk(AfterPromote(s, l)) && FreeClean(AfterPromote(s, l))
  {
    BlocksOf(s, size, l);
    hide Maps, DevOk, Clean, PageMapOk, BlockOk, Exclusive, Sequential, Accounted;
  }

  lemma {:induction false} PromoteHolds(s: State, size: nat, q: Page)
    requires Inv(s, size) && q.lba in s.log && q.lba < |s.dl| && s.dl[q.lba] == -1 && s.log[q.lba].block < |s.owner|
    requires Sequential(s.log[q.lba].pages)
    ensures Holds(AfterPromote(s, q.lba), q) == Holds(s, q)
  {
    hide Inv;
    BlocksOf(s, size, q.lba);
    if q.off < size { assert s.log[q.lba].pages[q.off] == q.off; }
  }

  lemma {:induction false} PromoteSameFor(s: State, size: nat, l: nat, m: nat)
    requires Inv(s, size) && l in s.log && l < |s.dl| && s.log[l].block < |s.owner| && m != l
    ensures SameFor(s, AfterPromote(s, l), m)
  {
    hide Inv;
    BlocksOf(s, size, l);
    BlocksOf(s, size, m);
  }

  ghost predicate CanSwitch(s: State, l: nat) {
    && l in s.log && l < |s.dl| && s.log[l].block < |s.dev| == |s.owner|
    && (s.dl[l] != -1 ==> 0 <= s.dl[l] < |s.dev| && s.dev[s.dl[l]].erasesRemaining >= 1)
  }

  /** The whole switch merge: an old data block is erased and freed, the log block takes its place. */
  ghost function AfterSwitch(s: State, l: nat): State
    requires CanSwitch(s, l)
  {
    AfterPromote(if s.dl[l] == -1 then s else AfterReleaseData(s, l), l)
  }

  /** A switch merge keeps every page's contents. */
  lemma {:induction false} SwitchInv(s: State, size: nat, l: nat)
    requires Inv(s, size) && CanSwitch(s, l) && Sequential(s.log[l].pages)
    ensures Inv(AfterSwitch(s, l), size)
    ensures SameContents(s, AfterSwitch(s, l)) && WearAtMostOne(s, AfterSwitch(s, l))
    ensures Used(AfterSwitch(s, l)) <= Used(s) && Touched(AfterSwitch(s, l)) <= Touched(s)
  {
    hide Inv, Holds;
    var s1 := s;
    if s.dl[l] != -1 {
      ReleaseDataInv(s, size, l);
      s1 := AfterReleaseData(s, l);
    }
    PromoteInv(s1, size, l);
    BlocksOf(s, size, l);
    forall q: Page | s.dl[l] != -1 ensures Holds(s1, q) == Holds(s, q) {
      if q.lba == l && q.off >= size { DeadBeyond(s, size, q); }
      if q.lba == l && q.off < size { assert s.log[l].pages[q.off] == q.off; }
    }
  }

  // ---------- trimming one page ----------

  ghost function AfterLogTrim(s: State, p: Page): State
    requires InLog(s, p)
  {
    var lb := s.log[p.lba];
    s.(dev := InvalidatedAt(s.dev, Some(Address(lb.block, lb.pages[p.off]))),
       log := s.log[p.lba := lb.(pages := lb.pages[p.off := -1])])
  }

  ghost function AfterDataTrim(s: State, p: Page): State
    requires HasDataBlock(s, p)
  {
    s.(dev := InvalidatedAt(s.dev, Some(Address(s.dl[p.lba], p.off))))
  }

  lemma {:induction false} LogTrimInv(s: State, size: nat, p: Page)
    requires Inv(s, size) && InLog(s, p)
    ensures Inv(AfterLogTrim(s, p), size)
    ensures forall q: Page :: Holds(AfterLogTrim(s, p), q) == if q == p then None else Holds(s, q)
  {
    hide Maps, PoolsOk, FreeClean, SameFor, Holds, Accounted;
    var s' := AfterLogTrim(s, p);
    var lb := s.log[p.lba];
    BlocksOf(s, size, p.lba);
    InvalidatedOk(s.dev[lb.block], size, lb.pages[p.off]);
    forall m: nat | m != p.lba ensures SameFor(s, s', m) { LogTrimSameFor(s, size, p, m); }
    LogTrimSelf(s, size, p);
    MapsStep(s, s', size, p.lba);
    PoolsFrame(s, s');
    forall q: Page ensures Holds(s', q) == if q == p then None else Holds(s, q) {
      if q.lba != p.lba { SameForMaps(s, s', size, q.lba); } else { LogTrimHolds(s, size, p, q); }
    }
  }

  lemma {:induction false} LogTrimSelf(s: State, size: nat, p: Page)
    requires Inv(s, size) && InLog(s, p)
    ensures var s' := AfterLogTrim(s, p);
      LogOk(s', size, p.lba) && Exclusive(s', size, p.lba) && DataOk(s', p.lba)
  {
    hide Inv;
    BlocksOf(s, size, p.lba);
  }

  lemma {:induction false} LogTrimHolds(s: State, size: nat, p: Page, q: Page)
    requires Inv(s, size) && InLog(s, p) && q.lba == p.lba
    ensures Holds(AfterLogTrim(s, p), q) == if q == p then None else Holds(s, q)
  {
    hide Inv;
    BlocksOf(s, size, p.lba);
  }

  lemma {:induction false} LogTrimSameFor(s: State, size: nat, p: Page, m: nat)
    requires Inv(s, size) && InLog(s, p) && m != p.lba
    ensures SameFor(s, AfterLogTrim(s, p), m)
  {
    hide Inv;
    BlocksOf(s, size, p.lba);
    BlocksOf(s, size, m);
  }

  lemma {:induction false} DataTrimInv(s: State, size: nat, p: Page)
    requires Inv(s, size) && HasDataBlock(s, p)
    ensures Inv(AfterDataTrim(s, p), size)
    ensures forall q: Page :: Holds(AfterDataTrim(s, p), q) == if q == p && !InLog(s, p) then None else Holds(s, q)
  {
    hide Maps, PoolsOk, FreeClean, SameFor, Holds, Accounted;
    var s' := AfterDataTrim(s, p);
    BlocksOf(s, size, p.lba);
    InvalidatedOk(s.dev[s.dl[p.lba]], size, p.off);
    forall m: nat | m != p.lba ensures SameFor(s, s', m) { DataTrimSameFor(s, size, p, m); }
    MapsStep(s, s', size, p.lba);
    PoolsFrame(s, s');
    forall q: Page ensures Holds(s', q) == if q == p && !InLog(s, p) then None else Holds(s, q) {
      if q.lba != p.lba { SameForMaps(s, s', size, q.lba); } else { DataTrimHolds(s, size, p, q); }
    }
  }

  lemma {:induction false} DataTrimHolds(s: State, size: nat, p: Page, q: Page)
    requires Inv(s, size) && HasDataBlock(s, p) && q.lba == p.lba
    ensures Holds(AfterDataTrim(s, p), q) == if q == p && !InLog(s, p) then None else Holds(s, q)
  {
    hide Inv;
    BlocksOf(s, size, p.lba);
  }

  lemma {:induction false} DataTrimSameFor(s: State, size: nat, p: Page, m: nat)
    requires Inv(s, size) && HasDataBlock(s, p) && m != p.lba
    ensures SameFor(s, AfterDataTrim(s, p), m)
  {
    hide Inv;
    BlocksOf(s, size, p.lba);
    BlocksOf(s, size, m);
  }

  /** A block marked INACTIVE holds nothing: no page of l is found in it. */
  lemma {:induction false} InactiveIsDead(s: State, size: nat, l: nat)
    requires Inv(s, size)
    ensures l in s.log && s.log[l].block < |s.dev| && s.dev[s.log[l].block].state == INACTIVE ==>
      forall q: Page :: q.lba == l ==> !InLog(s, q)
    ensures l < |s.dl| && 0 <= s.dl[l] < |s.dev| && s.dev[s.dl[l]].state == INACTIVE ==>
      forall q: Page :: q.lba == l && !InLog(s, q) ==> Holds(s, q) == None
  {
    hide Inv;
    BlocksOf(s, size, l);
    if l in s.log { CountBound(s.dev[s.log[l].block].pages); }
    if l < |s.dl| && s.dl[l] != -1 { CountBound(s.dev[s.dl[l]].pages); }
  }

  // ---------- random merge: copy the live pages of l, then switch to the copy ----------

  /** Same bytes and wear; page states may differ. */
  ghost predicate SameBytes(b: BlockView, b': BlockView) {
    b'.data == b.data && |b'.pages| == |b.pages| && b'.erasesRemaining == b.erasesRemaining
  }

  /** The source page the copy loop looks up for offset i. */
  ghost function CopySource(s: State, p: Page): Option<Address> {
    if InLog(s, p) then Some(Address(s.log[p.lba].block, s.log[p.lba].pages[p.off]))
    else if HasDataBlock(s, p) then Some(Address(s.dl[p.lba], p.off))
    else None
  }

  /** Offsets below i have been copied into block n; the sources of the others are untouched. */
  ghost predicate Copied(s: State, dev: seq<BlockView>, size: nat, l: nat, n: nat, i: nat)
    requires l in s.log && l < |s.dl|
  {
    var b, d := s.log[l].block, s.dl[l];
    && |dev| == |s.dev| && n < |dev| && n != b && n != d && b < |dev|
    && (forall x :: 0 <= x < |dev| && x != n && x != b && x != d ==> dev[x] == s.dev[x])
    && CopiedTo(s, dev[n], s.dev[n].erasesRemaining, size, l, i)
    && CopiedLog(s, dev[b], size, l, i)
    && (0 <= d < |dev| ==> CopiedData(s.dev[d], dev[d], size, i))
  }

  /** The new block holds the live pages below i. */
  ghost predicate CopiedTo(s: State, v: BlockView, erases: nat, size: nat, l: nat, i: nat) {
    && BlockOk(v, size) && v.erasesRemaining == erases
    && forall o :: 0 <= o < size ==>
         if o < i && Holds(s, Page(l, o)).Some?
         then v.pages[o] == VALID && v.data[o] == Holds(s, Page(l, o)).value
         else v.pages[o] == EMPTY
  }

  /** The log block still holds the mapped pages from i on. */
  ghost predicate CopiedLog(s: State, v: BlockView, size: nat, l: nat, i: nat)
    requires l in s.log && s.log[l].block < |s.dev|
  {
    && SameBytes(s.dev[s.log[l].block], v) && BlockOk(v, size)
    && forall o :: i <= o < size && InLog(s, Page(l, o)) && s.log[l].pages[o] < size ==>
         v.pages[s.log[l].pages[o]] == VALID
  }

  /** The data block is unchanged from i on. */
  ghost predicate CopiedData(was: BlockView, v: BlockView, size: nat, i: nat) {
    && SameBytes(was, v) && BlockOk(v, size)
    && forall o :: i <= o < size && o < |was.pages| ==> v.pages[o] == was.pages[o]
  }

  ghost function AfterCopy(dev: seq<BlockView>, n: nat, i: nat, src: Address): seq<BlockView>
    requires n < |dev| && i < |dev[n].pages| && i < |dev[n].data|
    requires src.block < |dev| && src.page < |dev[src.block].data|
  {
    InvalidatedAt(dev[n := Programmed(dev[n], i, dev[src.block].data[src.page])], Some(src))
  }

  lemma {:induction false} CopyStarts(s: State, size: nat, l: nat)
    requires Inv(s, size) && l in s.log && l < |s.dl| && s.pools.Head().Some?
    ensures Copied(s, s.dev, size, l, s.pools.Head().value, 0)
  {
    hide BlockOk, Exclusive, PageMapOk, Clean, Holds, Maps, Accounted;
    HeadIsUnowned(s);
    var n, b, d := s.pools.Head().value, s.log[l].block, s.dl[l];
    BlocksOf(s, size, l);
    CopyStart(s, size, l, n);
  }

  lemma {:induction false} CopyStart(s: State, size: nat, l: nat, n: nat)
    requires l in s.log && l < |s.dl| && n < |s.dev| && s.log[l].block < |s.dev| && n != s.log[l].block && n != s.dl[l]
    requires BlockOk(s.dev[n], size) && Clean(s.dev[n]) && BlockOk(s.dev[s.log[l].block], size)
    requires PageMapOk(s.dev[s.log[l].block], s.log[l].pages, size)
    requires 0 <= s.dl[l] < |s.dev| ==> BlockOk(s.dev[s.dl[l]], size)
    ensures Copied(s, s.dev, size, l, n, 0)
  {
    hide Holds, CountInvalid;
  }

  lemma {:induction false} CopySourceState(s: State, dev: seq<BlockView>, size: nat, l: nat, n: nat, i: nat)
    requires Inv(s, size) && l in s.log && l < |s.dl| && i < size && Copied(s, dev, size, l, n, i)
    ensures var a := CopySource(s, Page(l, i));
      && (a.Some? ==> a.value.block < |dev| && a.value.block != n && a.value.page < size)
      && (a.Some? ==> |dev[a.value.block].pages| == size == |dev[a.value.block].data|)
      && (Holds(s, Page(l, i)).Some? <==> a.Some? && dev[a.value.block].pages[a.value.page] == VALID)
      && (Holds(s, Page(l, i)).Some? ==> Holds(s, Page(l, i)).value == dev[a.value.block].data[a.value.page])
  {
    hide Inv;
    BlocksOf(s, size, l);
  }

  /** An offset without a live page is skipped. */
  lemma {:induction false} CopySkip(s: State, dev: seq<BlockView>, size: nat, l: nat, n: nat, i: nat)
    requires l in s.log && l < |s.dl| && i < size && Copied(s, dev, size, l, n, i)
    requires Holds(s, Page(l, i)).None?
    ensures Copied(s, dev, size, l, n, i + 1)
  {
  }

  /** A live page is copied and its source invalidated. */
  lemma {:induction false} CopyStep(s: State, dev: seq<BlockView>, size: nat, l: nat, n: nat, i: nat)
    requires Inv(s, size) && l in s.log && l < |s.dl| && i < size && Copied(s, dev, size, l, n, i)
    requires Holds(s, Page(l, i)).Some?
    ensures var a := CopySource(s, Page(l, i));
      && a.Some? && a.value.block < |dev| && a.value.page < |dev[a.value.block].data|
      && dev[n].pages[i] == EMPTY
      && Copied(s, AfterCopy(dev, n, i, a.value), size, l, n, i + 1)
  {
    CopySourceState(s, dev, size, l, n, i);
    BlocksApart(s, size, l);
    CopySourceIs(s, l, i);
    CopyTarget(s, dev, size, l, n, i);
    var a := CopySource(s, Page(l, i)).value;
    hide Inv, AfterCopy, Copied, Holds, CopySource, InLog;
    if InLog(s, Page(l, i)) { CopyFromLog(s, dev, size, l, n, i, a); } else { CopyFromData(s, dev, size, l, n, i, a); }
  }

  lemma {:induction false} CopyFromLog(s: State, dev: seq<BlockView>, size: nat, l: nat, n: nat, i: nat, a: Address)
    requires l in s.log && l < |s.dl| && i < size && Copied(s, dev, size, l, n, i) && s.log[l].block != s.dl[l]
    requires i < |s.log[l].pages| && a.page < size && a.block == s.log[l].block && a.page == s.log[l].pages[i]
    requires forall o, q :: 0 <= o < q < |s.log[l].pages| && s.log[l].pages[o] != -1 ==>
      s.log[l].pages[o] != s.log[l].pages[q]
    requires |dev[a.block].data| == size == |dev[a.block].pages| == |dev[n].pages| == |dev[n].data|
    requires Holds(s, Page(l, i)) == Some(dev[a.block].data[a.page])
    ensures dev[n].pages[i] == EMPTY && Copied(s, AfterCopy(dev, n, i, a), size, l, n, i + 1)
  {
    AfterCopyBlocks(dev, n, i, a);
    hide AfterCopy, CopiedTo, CopiedLog, CopiedData, Holds, Programmed, Invalidated;
    CopyToStep(s, dev[n], s.dev[n].erasesRemaining, size, l, i, dev[a.block].data[a.page]);
    CopyLogStep(s, size, l, i, dev[a.block], a.page);
    if 0 <= s.dl[l] < |dev| { CopyDataKeep(s.dev[s.dl[l]], dev[s.dl[l]], size, i); }
  }

  lemma {:induction false} CopyFromData(s: State, dev: seq<BlockView>, size: nat, l: nat, n: nat, i: nat, a: Address)
    requires l in s.log && l < |s.dl| && i < size && Copied(s, dev, size, l, n, i) && s.log[l].block != s.dl[l]
    requires 0 <= s.dl[l] < |s.dev| && a == Address(s.dl[l], i)
    requires |dev[a.block].data| == size == |dev[a.block].pages| == |dev[n].pages| == |dev[n].data|
    requires Holds(s, Page(l, i)) == Some(dev[a.block].data[a.page])
    ensures dev[n].pages[i] == EMPTY && Copied(s, AfterCopy(dev, n, i, a), size, l, n, i + 1)
  {
    AfterCopyBlocks(dev, n, i, a);
    hide AfterCopy, CopiedTo, CopiedLog, CopiedData, Holds, Programmed, Invalidated;
    CopyToStep(s, dev[n], s.dev[n].erasesRemaining, size, l, i, dev[a.block].data[a.page]);
    CopyLogKeep(s, size, l, i, dev[s.log[l].block]);
    CopyDataStep(s.dev[a.block], dev[a.block], size, i);
  }

  lemma {:induction false} BlocksApart(s: State, size: nat, l: nat)
    requires Inv(s, size) && l in s.log && l < |s.dl|
    ensures s.log[l].block < |s.dev| && s.dl[l] != s.log[l].block
    ensures forall o, q :: 0 <= o < q < |s.log[l].pages| && s.log[l].pages[o] != -1 ==>
      s.log[l].pages[o] != s.log[l].pages[q]
  {
    hide Inv, Exclusive, BlockOk;
    BlocksOf(s, size, l);
  }

  lemma {:induction false} CopySourceIs(s: State, l: nat, i: nat)
    requires l in s.log && l < |s.dl|
    ensures var a := CopySource(s, Page(l, i));
      if InLog(s, Page(l, i))
      then i < |s.log[l].pages| && s.log[l].pages[i] >= 0 && a == Some(Address(s.log[l].block, s.log[l].pages[i]))
      else a.Some? ==> 0 <= s.dl[l] < |s.dev| && a == Some(Address(s.dl[l], i))
  {
  }

  lemma {:induction false} AfterCopyBlocks(dev: seq<BlockView>, n: nat, i: nat, a: Address)
    requires n < |dev| && i < |dev[n].pages| && i < |dev[n].data| && a.block != n
    requires a.block < |dev| && a.page < |dev[a.block].data| && a.page < |dev[a.block].pages|
    ensures var dev' := AfterCopy(dev, n, i, a);
      && |dev'| == |dev| && dev'[n] == Programmed(dev[n], i, dev[a.block].data[a.page])
      && dev'[a.block] == Invalidated(dev[a.block], a.page)
      && forall x :: 0 <= x < |dev| && x != n && x != a.block ==> dev'[x] == dev[x]
  {
    hide Programmed, Invalidated;
  }

  lemma {:induction false} CopyToStep(s: State, v: BlockView, erases: nat, size: nat, l: nat, i: nat, d: Data)
    requires CopiedTo(s, v, erases, size, l, i) && i < size && Holds(s, Page(l, i)) == Some(d)
    ensures v.pages[i] == EMPTY && CopiedTo(s, Programmed(v, i, d), erases, size, l, i + 1)
  {
    hide Holds;
    ProgrammedOk(v, size, i, d);
    hide BlockOk;
  }

  lemma {:induction false} CopyLogStep(s: State, size: nat, l: nat, i: nat, v: BlockView, at: nat)
    requires l in s.log && s.log[l].block < |s.dev| && CopiedLog(s, v, size, l, i) && i < size
    requires at < size && i < |s.log[l].pages| && s.log[l].pages[i] == at
    requires forall o, q :: 0 <= o < q < |s.log[l].pages| && s.log[l].pages[o] != -1 ==>
      s.log[l].pages[o] != s.log[l].pages[q]
    ensures CopiedLog(s, Invalidated(v, at), size, l, i + 1)
  {
    InvalidatedOk(v, size, at);
    hide BlockOk;
  }

  lemma {:induction false} CopyLogKeep(s: State, size: nat, l: nat, i: nat, v: BlockView)
    requires l in s.log && s.log[l].block < |s.dev| && CopiedLog(s, v, size, l, i)
    ensures CopiedLog(s, v, size, l, i + 1)
  {
  }

  lemma {:induction false} CopyDataStep(was: BlockView, v: BlockView, size: nat, i: nat)
    requires CopiedData(was, v, size, i) && i < size
    ensures CopiedData(was, Invalidated(v, i), size, i + 1)
  {
    InvalidatedOk(v, size, i);
    hide BlockOk;
  }

  lemma {:induction false} CopyDataKeep(was: BlockView, v: BlockView, size: nat, i: nat)
    requires CopiedData(was, v, size, i)
    ensures CopiedData(was, v, size, i + 1)
  {
  }

  lemma {:induction false} CopyTarget(s: State, dev: seq<BlockView>, size: nat, l: nat, n: nat, i: nat)
    requires l in s.log && l < |s.dl| && i < size && Copied(s, dev, size, l, n, i)
    ensures n < |dev| && |dev[n].pages| == size == |dev[n].data|
  {
  }

  lemma {:induction false} CopyKeepsWear(s: State, dev: seq<BlockView>, size: nat, l: nat, n: nat)
    requires l in s.log && l < |s.dl| && Copied(s, dev, size, l, n, size)
    ensures |dev| == |s.dev| && n != s.log[l].block && n != s.dl[l] && s.log[l].block < |dev|
    ensures forall b :: 0 <= b < |dev| ==> dev[b].erasesRemaining == s.dev[b].erasesRemaining
  {
  }

  lemma {:induction false} HeadInRange(s: State, size: nat)
    requires Inv(s, size) && s.pools.Head().Some?
    ensures CanTake(s)
  {
  }

  lemma {:induction false} LogCountBound(s: State, size: nat)
    requires Inv(s, size)
    ensures 0 <= s.pools.dataActive && 0 <= s.pools.logActive <= s.pools.max
  {
  }

  ghost predicate Erasable(s: State, dev: seq<BlockView>, l: nat) {
    && l in s.log && l < |s.dl| && s.log[l].block < |dev| == |s.owner| && |s.dev| == |dev|
    && dev[s.log[l].block].erasesRemaining >= 1
    && (s.dl[l] != -1 ==> 0 <= s.dl[l] < |dev| && s.dl[l] != s.log[l].block && dev[s.dl[l]].erasesRemaining >= 1)
  }

  /** The state after the merge: n was taken, the log block and any data block were erased and freed. */
  ghost function AfterMerge(s: State, dev: seq<BlockView>, l: nat): State
    requires CanTake(s) && Erasable(s, dev, l)
  {
    var n, b, d := s.pools.Head().value, s.log[l].block, s.dl[l];
    var dev1 := dev[b := Erased(dev[b])];
    var pools1 := s.pools.Taken(DATA).Released(b, LOG);
    State(if d == -1 then dev1 else dev1[d := Erased(dev1[d])],
          s.log - {l},
          s.dl[l := n],
          if d == -1 then pools1 else pools1.Released(d, DATA),
          (if d == -1 then s.owner[b := Free] else s.owner[b := Free][d := Free])[n := DataOf(l)])
  }

  /** A random merge keeps every page's contents. */
  lemma {:induction false} MergeInv(s: State, dev: seq<BlockView>, size: nat, l: nat)
    requires Inv(s, size) && CanTake(s) && Erasable(s, dev, l)
    requires Copied(s, dev, size, l, s.pools.Head().value, size)
    ensures Inv(AfterMerge(s, dev, l), size)
    ensures SameContents(s, AfterMerge(s, dev, l)) && WearAtMostOne(s, AfterMerge(s, dev, l))
    ensures Used(AfterMerge(s, dev, l)) <= Used(s) && Touched(AfterMerge(s, dev, l)) <= Touched(s)
  {
    hide Inv, Holds, Copied, Exclusive, PageMapOk, BlockOk, WearAtMostOne;
    var n := s.pools.Head().value;
    CopiedBlock(s, dev, size, l, n);
    CopyKeepsWear(s, dev, size, l, n);
    BlocksOf(s, size, l);
    ReleaseLogInv(s, size, l);
    var s1 := AfterReleaseLog(s, l);
    var s2 := s1;
    if s.dl[l] != -1 {
      ReleaseDataInv(s1, size, l);
      s2 := AfterReleaseData(s1, l);
    }
    MergeHead(s, s.log[l].block, s.dl[l]);
    InstallInv(s2, size, l, dev[n]);
    MergeState(s, dev, size, l);
    var t := AfterInstall(s2, l, dev[n]);
    forall q: Page ensures Holds(t, q) == Holds(s, q) {
      CopiedHolds(s, dev, size, l, n, q);
    }
    MergeWear(s, dev, l);
    hide AfterMerge;
  }

  lemma {:induction false} CopiedBlock(s: State, dev: seq<BlockView>, size: nat, l: nat, n: nat)
    requires l in s.log && l < |s.dl| && Copied(s, dev, size, l, n, size)
    ensures n < |dev| && BlockOk(dev[n], size)
  {
  }

  lemma {:induction false} MergeWear(s: State, dev: seq<BlockView>, l: nat)
    requires CanTake(s) && Erasable(s, dev, l)
    requires forall b :: 0 <= b < |dev| ==> dev[b].erasesRemaining == s.dev[b].erasesRemaining
    ensures WearAtMostOne(s, AfterMerge(s, dev, l))
  {
  }

  lemma {:induction false} CopiedHolds(s: State, dev: seq<BlockView>, size: nat, l: nat, n: nat, q: Page)
    requires Inv(s, size) && l in s.log && l < |s.dl| && Copied(s, dev, size, l, n, size)
    ensures |dev| == |s.dev| && n < |dev| && |dev[n].pages| == size == |dev[n].data|
    ensures q.lba == l ==>
      Holds(s, q) == if q.off < size && dev[n].pages[q.off] == VALID then Some(dev[n].data[q.off]) else None
  {
    hide Inv, Holds;
    if q.lba == l && q.off >= size { DeadBeyond(s, size, q); }
    assert q.lba == l ==> q == Page(l, q.off);
  }

  lemma {:induction false} DeadBeyond(s: State, size: nat, q: Page)
    requires Inv(s, size) && q.off >= size
    ensures Holds(s, q) == None
  {
    if Where(s, q).Some? { LiveIsValid(s, size, q); }
  }

  /** Taking before or after freeing hands out the same block. */
  lemma {:induction false} MergeHead(s: State, b: nat, d: int)
    requires s.pools.Head().Some? && (d == -1 || d >= 0)
    ensures var p := s.pools.Released(b, LOG);
      var q := if d == -1 then p else p.Released(d, DATA);
      && q.Head() == s.pools.Head()
      && q.Taken(DATA) == (var r := s.pools.Taken(DATA).Released(b, LOG); if d == -1 then r else r.Released(d, DATA))
  {
  }

  lemma {:induction false} MergeState(s: State, dev: seq<BlockView>, size: nat, l: nat)
    requires CanTake(s) && Erasable(s, dev, l) && Erasable(s, s.dev, l)
    requires Copied(s, dev, size, l, s.pools.Head().value, size)
    ensures var s1 := AfterReleaseLog(s, l);
      var s2 := if s.dl[l] == -1 then s1 else AfterReleaseData(s1, l);
      && CanTake(s2) && s2.pools.Head() == s.pools.Head()
      && AfterInstall(s2, l, dev[s.pools.Head().value]) == AfterMerge(s, dev, l)
  {
    hide CopiedTo, BlockOk, Holds, InLog;
    var n, b, d := s.pools.Head().value, s.log[l].block, s.dl[l];
    MergeHead(s, b, d);
    var s1 := AfterReleaseLog(s, l);
    var s2 := if d == -1 then s1 else AfterReleaseData(s1, l);
    var t, m := AfterInstall(s2, l, dev[n]), AfterMerge(s, dev, l);
    assert Erased(dev[b]) == Erased(s.dev[b]);
    assert d != -1 ==> Erased(dev[d]) == Erased(s.dev[d]);
    hide Erased, Copied;
    assert t.dev == m.dev;
    assert t.dl == m.dl;
  }
}
