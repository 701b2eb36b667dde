/** The optimal write-buffer policy over blocks (src/owbp.h, src/owbp.cpp): the cold heap and the pool of blocks
    without a further reference against the block table. */
module Owbp {
  import opened Options
  import opened Sets
  import opened CacheStatus
  import opened Trace

  type Block = nat
  type Page = nat

  /** A request of memTrace: file-system page, the block it lies in, trace line. */
  datatype PageRequest = PageRequest(page: Page, block: Block, line: nat)

  /** What the trace reader guarantees and the source asserts. */
  ghost predicate ValidRequests(t: seq<PageRequest>) {
    forall i :: 0 <= i < |t| ==> t[i].page > 0 && 0 < t[i].line < INF
  }

  // ---------- the future window ----------

  /** Distinct pages requested after the current request, up to position n. */
  ghost function Upcoming(t: seq<PageRequest>, n: int): set<Page>
    requires n < |t|
  {
    set i | 1 <= i <= n :: t[i].page
  }

  const UINT := 0x1_0000_0000

  /** Position i is examined: the window, counted in distinct pages, was not full before. One is taken off for the
      current page, an unsigned 32-bit difference. */
  ghost predicate InWindow(t: seq<PageRequest>, window: nat, i: int) {
    1 <= i < |t| && forall j :: 1 <= j < i ==> |Upcoming(t, j)| < (window - 1) % UINT
  }

  /** The request behind the current one is always examined, and any other while the pages up to it and the current one
      leave room in the window; a window of 0 wraps to the largest. */
  lemma {:induction false} WindowCounts(t: seq<PageRequest>, window: nat, i: nat)
    requires window < UINT && 1 <= i < |t|
    ensures InWindow(t, window, i) <==>
      i == 1 || |Upcoming(t, i - 1)| + 1 < if window == 0 then UINT else window
  {
    if i > 1 {
      forall j | 1 <= j < i ensures |Upcoming(t, j)| <= |Upcoming(t, i - 1)| {
        SubsetSize(Upcoming(t, j), Upcoming(t, i - 1));
      }
      hide Upcoming;
    }
  }

  /** d is the line of the first reference to the block before position n, INF if there is none. */
  ghost predicate FirstBefore(t: seq<PageRequest>, n: int, b: Block, d: nat)
    requires n <= |t|
  {
    if d == INF then forall i :: 1 <= i < n ==> t[i].block != b
    else exists i :: 1 <= i < n && t[i].block == b && t[i].line == d && forall j :: 1 <= j < i ==> t[j].block != b
  }

  ghost predicate PageBefore(t: seq<PageRequest>, n: int, b: Block, p: Page)
    requires n <= |t|
  {
    exists i :: 1 <= i < n && t[i].block == b && t[i].page == p
  }

  /** d is the line of the first reference to the block in the window, INF if there is none. */
  ghost predicate IsDistance(t: seq<PageRequest>, window: nat, b: Block, d: nat) {
    if d == INF then forall i :: InWindow(t, window, i) ==> t[i].block != b
    else exists i :: InWindow(t, window, i) && t[i].block == b && t[i].line == d
                     && forall j :: 1 <= j < i ==> t[j].block != b
  }

  /** The page is referenced in the window. */
  ghost predicate IsHot(t: seq<PageRequest>, window: nat, b: Block, p: Page) {
    exists i :: InWindow(t, window, i) && t[i].block == b && t[i].page == p
  }

  /** The window examined ends before position n. */
  ghost predicate EndsAt(t: seq<PageRequest>, window: nat, n: int) {
    forall i :: InWindow(t, window, i) ==> i < n
  }

  /** The scan of memTrace that follows a page insertion. */
  method ScanFuture(t: seq<PageRequest>, window: nat, b: Block, p: Page) returns (distance: nat, hot: bool)
    requires |t| > 0 && ValidRequests(t)
    ensures IsDistance(t, window, b, distance) && distance != 0
    ensures hot <==> IsHot(t, window, b, p)
    ensures hot ==> distance != INF
  {
    hide InWindow, FirstBefore, PageBefore, EndsAt, IsDistance, IsHot, Upcoming;
    distance, hot := INF, false;
    var uniqSet: set<Page> := {};
    var i := 1;
    var full := false;
    ScanStarts(t, window, b, p);
    while i < |t| && !hot && !full
      invariant 1 <= i <= |t| && uniqSet == Upcoming(t, i - 1)
      invariant FirstBefore(t, i, b, distance) && distance != 0
      invariant hot <==> PageBefore(t, i, b, p)
      invariant hot ==> distance != INF
      invariant if full then EndsAt(t, window, i) else hot || i == |t| || InWindow(t, window, i)
      invariant i > 1 ==> InWindow(t, window, i - 1)
      decreases |t| - i
    {
      ScanStep(t, window, b, p, i, distance);
      uniqSet := uniqSet + {t[i].page};
      if t[i].block == b {
        if distance == INF {
          distance := t[i].line;
        }
        if t[i].page == p {
          hot := true;
        }
      }
      if |uniqSet| >= (window - 1) % UINT {
        full := true;
      }
      i := i + 1;
    }
    ScanEnds(t, window, b, p, i, distance, hot);
  }

  lemma {:induction false} ScanStarts(t: seq<PageRequest>, window: nat, b: Block, p: Page)
    requires |t| > 0
    ensures Upcoming(t, 0) == {} && FirstBefore(t, 1, b, INF) && !PageBefore(t, 1, b, p)
    ensures |t| > 1 ==> InWindow(t, window, 1)
  {
  }

  /** Examining position i. */
  lemma {:induction false} ScanStep(t: seq<PageRequest>, window: nat, b: Block, p: Page, i: nat, d: nat)
    requires ValidRequests(t) && InWindow(t, window, i) && FirstBefore(t, i, b, d)
    ensures i < |t| && 0 < t[i].line < INF && Upcoming(t, i) == Upcoming(t, i - 1) + {t[i].page}
    ensures FirstBefore(t, i + 1, b, if t[i].block == b && d == INF then t[i].line else d)
    ensures PageBefore(t, i + 1, b, p) <==> PageBefore(t, i, b, p) || (t[i].block == b && t[i].page == p)
    ensures if |Upcoming(t, i)| >= (window - 1) % UINT then EndsAt(t, window, i + 1)
            else i + 1 == |t| || InWindow(t, window, i + 1)
  {
    hide PageBefore, FirstBefore;
    FirstStep(t, b, i, d);
    PageStep(t, b, p, i);
  }

  lemma {:induction false} FirstStep(t: seq<PageRequest>, b: Block, i: nat, d: nat)
    requires ValidRequests(t) && 1 <= i < |t| && FirstBefore(t, i, b, d)
    ensures FirstBefore(t, i + 1, b, if t[i].block == b && d == INF then t[i].line else d)
  {
  }

  lemma {:induction false} PageStep(t: seq<PageRequest>, b: Block, p: Page, i: nat)
    requires 1 <= i < |t|
    ensures PageBefore(t, i + 1, b, p) <==> PageBefore(t, i, b, p) || (t[i].block == b && t[i].page == p)
  {
    if PageBefore(t, i, b, p) {
      var j :| 1 <= j < i && t[j].block == b && t[j].page == p;
    }
  }

  /** What was found before the end of the window, or before the page itself was found, is what the window holds. */
  lemma {:induction false} ScanEnds(t: seq<PageRequest>, window: nat, b: Block, p: Page, n: nat, d: nat, hot: bool)
    requires 1 <= n <= |t| && FirstBefore(t, n, b, d) && (hot <==> PageBefore(t, n, b, p))
    requires (n > 1 ==> InWindow(t, window, n - 1)) && (hot ==> d != INF)
    requires !hot ==> n == |t| || EndsAt(t, window, n)
    ensures IsDistance(t, window, b, d) && (hot <==> IsHot(t, window, b, p))
  {
    hide Upcoming;
    if hot {
      var i :| 1 <= i < n && t[i].block == b && t[i].page == p;
      assert InWindow(t, window, i);
    } else {
      assert EndsAt(t, window, n);
    }
    if d != INF {
      var i :| 1 <= i < n && t[i].block == b && t[i].line == d && forall j :: 1 <= j < i ==> t[j].block != b;
      assert InWindow(t, window, i);
    }
  }

  // ---------- blocks ----------

  /** OwbpCacheBlockMetaData; the counter of valid pages, which drifts and is never read, is left out. */
  datatype Meta = Meta(coldness: nat, distance: nat, block: Block)

  /** The heap order: coldness, then distance. */
  predicate Less(a: Meta, b: Meta) {
    if a.coldness != b.coldness then a.coldness < b.coldness else a.distance < b.distance
  }

  /** A cached block; heapIt is None for the end iterator. */
  datatype CacheBlock = CacheBlock(pages: set<Page>, coldPages: set<Page>, meta: Meta, heapIt: Option<Meta>)

  datatype State = State(table: map<Block, CacheBlock>, heap: multiset<Meta>, pool: set<Block>, size: int)

  /** A block's own data agree, and its iterator points at its entry. */
  ghost predicate BlockOk(b: Block, c: CacheBlock) {
    && c.meta.block == b && c.meta.coldness == |c.coldPages| && c.meta.distance != 0
    && c.heapIt == if c.meta.distance == INF then None else Some(c.meta)
  }

  /** The heap entry m belongs to a cached block with exactly this metadata. */
  ghost predicate Current(table: map<Block, CacheBlock>, m: Meta) {
    m.distance != INF && m.block in table && table[m.block].meta == m
  }

  /** The pool is exactly the blocks at distance INF, the heap exactly the metadata of the others, each once. */
  ghost predicate IndexOk(s: State) {
    && (forall b :: b in s.table ==> BlockOk(b, s.table[b]))
    && (forall b :: b in s.pool <==> b in s.table && s.table[b].meta.distance == INF)
    && (forall m :: s.heap[m] == if Current(s.table, m) then 1 else 0)
  }

  /** Every cached page with its block. */
  ghost function Cached(table: map<Block, CacheBlock>): set<(Block, Page)> {
    set b, p | b in table && p in table[b].pages :: (b, p)
  }

  /** The size counter counts the cached pages, which fit. */
  ghost predicate SizeOk(s: State, c: nat) {
    s.size == |Cached(s.table)| <= c
  }

  ghost predicate NoneEmpty(table: map<Block, CacheBlock>) {
    forall b :: b in table ==> table[b].pages != {}
  }

  ghost predicate Inv(s: State, c: nat) {
    c > 0 && IndexOk(s) && SizeOk(s, c) && NoneEmpty(s.table)
  }

  // ---------- counting pages ----------

  ghost function PagesOf(b: Block, pages: set<Page>): set<(Block, Page)> {
    set p | p in pages :: (b, p)
  }

  lemma {:induction false} PagesOfSize(b: Block, pages: set<Page>)
    ensures |PagesOf(b, pages)| == |pages|
    decreases pages
  {
    if pages == {} {
      assert PagesOf(b, pages) == {};
    } else {
      var p :| p in pages;
      PagesOfSize(b, pages - {p});
      assert PagesOf(b, pages) == PagesOf(b, pages - {p}) + {(b, p)};
    }
  }

  /** Replacing the page set of a block, or adding the block. */
  lemma {:induction false} CachedAfterPut(table: map<Block, CacheBlock>, b: Block, c: CacheBlock)
    ensures Cached(table[b := c]) == Cached(table) - PagesOf(b, PagesAt(table, b)) + PagesOf(b, c.pages)
  {
  }

  lemma {:induction false} CachedPut(table: map<Block, CacheBlock>, b: Block, c: CacheBlock)
    ensures Cached(table[b := c]) == Cached(table) - PagesOf(b, PagesAt(table, b)) + PagesOf(b, c.pages)
    ensures |Cached(table[b := c])| == |Cached(table)| - |PagesAt(table, b)| + |c.pages|
  {
    var rest := Cached(table) - PagesOf(b, PagesAt(table, b));
    PagesOfSize(b, PagesAt(table, b));
    PagesOfSize(b, c.pages);
    CachedSplit(table, b);
    CachedAfterPut(table, b, c);
    hide Cached;
    assert rest !! PagesOf(b, c.pages);
  }

  ghost function PagesAt(table: map<Block, CacheBlock>, b: Block): set<Page> {
    if b in table then table[b].pages else {}
  }

  lemma {:induction false} CachedSplit(table: map<Block, CacheBlock>, b: Block)
    ensures PagesOf(b, PagesAt(table, b)) <= Cached(table)
    ensures |Cached(table) - PagesOf(b, PagesAt(table, b))| == |Cached(table)| - |PagesOf(b, PagesAt(table, b))|
    ensures forall x :: x in Cached(table) - PagesOf(b, PagesAt(table, b)) ==> x.0 != b
  {
    var own := PagesOf(b, PagesAt(table, b));
    assert own <= Cached(table);
    assert Cached(table) == (Cached(table) - own) + own;
  }

  lemma {:induction false} CachedCut(table: map<Block, CacheBlock>, b: Block)
    requires b in table
    ensures Cached(table - {b}) == Cached(table) - PagesOf(b, table[b].pages)
    ensures |Cached(table - {b})| == |Cached(table)| - |table[b].pages|
  {
    PagesOfSize(b, table[b].pages);
    assert PagesOf(b, table[b].pages) <= Cached(table);
    assert Cached(table - {b}) == Cached(table) - PagesOf(b, table[b].pages);
  }

  // ---------- eviction ----------

  /** v is what evict picks: the smallest block without a further reference, if any; else a block with the most cold
      pages, of several one that is referenced last. */
  ghost predicate IsVictim(s: State, v: Block) {
    if exists b :: b in s.table && s.table[b].meta.distance == INF
    then v in s.table && s.table[v].meta.distance == INF
         && forall b :: b in s.table && s.table[b].meta.distance == INF ==> v <= b
    else v in s.table && forall b :: b in s.table ==> NoColder(s.table[b], s.table[v])
  }

  /** c has no more cold pages than d, or as many and is referenced no later. */
  ghost predicate NoColder(c: CacheBlock, d: CacheBlock) {
    |c.coldPages| < |d.coldPages|
    || (|c.coldPages| == |d.coldPages| && c.meta.distance <= d.meta.distance)
  }

  /** After evicting v: gone, or only emptied when it is the block being written. */
  ghost function Evicted(s: State, current: Block, v: Block): State
    requires v in s.table
  {
    var size := s.size - |s.table[v].pages|;
    if v == current then s.(table := s.table[v := s.table[v].(pages := {})], size := size)
    else State(s.table - {v}, s.heap - multiset{s.table[v].meta}, s.pool - {v}, size)
  }

  lemma {:induction false} EmptiedIndex(s: State, v: Block)
    requires IndexOk(s) && v in s.table
    ensures IndexOk(Evicted(s, v, v))
  {
    var s' := Evicted(s, v, v);
    forall m ensures Current(s'.table, m) <==> Current(s.table, m) {
    }
  }

  lemma {:induction false} DroppedIndex(s: State, current: Block, v: Block)
    requires IndexOk(s) && v in s.table && v != current
    ensures IndexOk(Evicted(s, current, v))
  {
    var s' := Evicted(s, current, v);
    forall m ensures s'.heap[m] == if Current(s'.table, m) then 1 else 0 {
      assert Current(s.table, m) && m.block == v ==> m == s.table[v].meta;
      assert s.table[v].meta.distance == INF ==> s.heap[s.table[v].meta] == 0;
    }
  }

  lemma {:induction false} EvictedIndex(s: State, current: Block, v: Block)
    requires IndexOk(s) && v in s.table
    ensures IndexOk(Evicted(s, current, v))
  {
    hide IndexOk, Evicted;
    if v == current { EmptiedIndex(s, v); } else { DroppedIndex(s, current, v); }
  }

  /** Eviction empties a nonempty block, so there is room; no other block's pages change. */
  lemma {:induction false} EvictedKeeps(s: State, c: nat, current: Block, v: Block)
    requires Inv(s, c) && s.size == c && v in s.table
    ensures var s' := Evicted(s, current, v);
      && IndexOk(s') && SizeOk(s', c) && s'.size < c
      && (forall b :: b in s'.table && b != current ==> s'.table[b].pages != {})
      && Cached(s'.table) == Cached(s.table) - PagesOf(v, s.table[v].pages)
  {
    hide IndexOk, Cached;
    EvictedIndex(s, current, v);
    if v == current {
      CachedPut(s.table, v, s.table[v].(pages := {}));
      assert PagesOf(v, {}) == {};
    } else {
      CachedCut(s.table, v);
    }
  }

  /** A full cache always has a victim to offer. */
  lemma {:induction false} SomeCached(s: State, c: nat)
    requires Inv(s, c) && s.size == c
    ensures s.pool == {} ==> exists m :: m in s.heap
  {
    assert Cached(s.table) != {};
    var x :| x in Cached(s.table);
    assert x.0 in s.table && BlockOk(x.0, s.table[x.0]);
    if s.pool == {} { assert Current(s.table, s.table[x.0].meta); assert s.table[x.0].meta in s.heap; }
  }

  // ---------- writing a page ----------

  /** What OwbpCacheBlock keeps of a block after its page p is written: distance from the scan, p cold or not. */
  function Written(c: CacheBlock, p: Page, distance: nat, hot: bool): CacheBlock {
    var cold := if hot then c.coldPages - {p} else c.coldPages + {p};
    c.(pages := c.pages + {p}, coldPages := cold, meta := Meta(|cold|, distance, c.meta.block))
  }

  /** The block's entry moved between pool and heap as its new distance demands. */
  function Reindexed(s: State, b: Block, c: CacheBlock): State {
    var inf := c.meta.distance == INF;
    var heap := if b in s.table && s.table[b].heapIt.Some? then s.heap - multiset{s.table[b].heapIt.value} else s.heap;
    State(s.table[b := c.(heapIt := if inf then None else Some(c.meta))],
          if inf then heap else heap + multiset{c.meta},
          if inf then s.pool + {b} else s.pool - {b}, s.size)
  }

  lemma {:induction false} ReindexedOk(s: State, b: Block, c: CacheBlock)
    requires IndexOk(s) && c.meta.block == b && c.meta.coldness == |c.coldPages| && c.meta.distance != 0
    ensures IndexOk(Reindexed(s, b, c))
  {
    ReindexedBlocks(s, b, c);
    ReindexedHeap(s, b, c);
    hide BlockOk, Current;
    var s' := Reindexed(s, b, c);
    forall x ensures x in s'.pool <==> x in s'.table && s'.table[x].meta.distance == INF {
      if x != b && x in s'.table { assert s'.table[x] == s.table[x]; }
    }
  }

  lemma {:induction false} ReindexedBlocks(s: State, b: Block, c: CacheBlock)
    requires IndexOk(s) && c.meta.block == b && c.meta.coldness == |c.coldPages| && c.meta.distance != 0
    ensures forall x :: x in Reindexed(s, b, c).table ==> BlockOk(x, Reindexed(s, b, c).table[x])
  {
    var s' := Reindexed(s, b, c);
    forall x | x in s'.table ensures BlockOk(x, s'.table[x]) {
      if x != b { assert BlockOk(x, s.table[x]); }
    }
  }

  lemma {:induction false} ReindexedHeap(s: State, b: Block, c: CacheBlock)
    requires IndexOk(s) && c.meta.block == b
    ensures forall m :: Reindexed(s, b, c).heap[m] == if Current(Reindexed(s, b, c).table, m) then 1 else 0
  {
    var s' := Reindexed(s, b, c);
    if b in s.table {
      assert BlockOk(b, s.table[b]);
    }
    hide BlockOk;
    forall m ensures s'.heap[m] == if Current(s'.table, m) then 1 else 0 {
      assert s.heap[m] == if Current(s.table, m) then 1 else 0;
    }
  }

  /** The block about to be written; a new one is empty. */
  function BlockAt(table: map<Block, CacheBlock>, b: Block): CacheBlock {
    if b in table then table[b] else CacheBlock({}, {}, Meta(0, 0, b), None)
  }

  function Stored(s: State, b: Block, p: Page, distance: nat, hot: bool): State {
    var block := BlockAt(s.table, b);
    Reindexed(s, b, Written(block, p, distance, hot)).(size := s.size + if p in block.pages then 0 else 1)
  }

  /** Storing a page adds exactly it, restores a block emptied for it, and leaves pool and heap exact. */
  lemma {:induction false} StoredKeeps(s: State, c: nat, b: Block, p: Page, distance: nat, hot: bool)
    requires c > 0 && IndexOk(s) && SizeOk(s, c) && distance != 0
    requires forall x :: x in s.table && x != b ==> s.table[x].pages != {}
    requires p in PagesAt(s.table, b) || s.size < c
    ensures Inv(Stored(s, b, p, distance, hot), c)
    ensures Cached(Stored(s, b, p, distance, hot).table) == Cached(s.table) + {(b, p)}
  {
    hide IndexOk, Cached, Reindexed, Written;
    var c0 := BlockAt(s.table, b);
    BlockAtOk(s, b);
    var c1 := Written(c0, p, distance, hot);
    WrittenIs(c0, p, distance, hot);
    ReindexedOk(s, b, c1);
    SameIndex(Reindexed(s, b, c1), Stored(s, b, p, distance, hot));
    ReindexedPages(s, b, c1);
    StoredPages(s, b, p, c0, Stored(s, b, p, distance, hot));
  }

  lemma {:induction false} WrittenIs(c: CacheBlock, p: Page, distance: nat, hot: bool)
    ensures var w := Written(c, p, distance, hot);
      && w.pages == c.pages + {p} && w.meta.block == c.meta.block && w.meta.distance == distance
      && w.meta.coldness == |w.coldPages| && w.heapIt == c.heapIt
  {
  }

  lemma {:induction false} ReindexedPages(s: State, b: Block, c: CacheBlock)
    ensures var s' := Reindexed(s, b, c);
      s'.size == s.size && b in s'.table && s'.table[b].pages == c.pages && s'.table == s.table[b := s'.table[b]]
  {
  }

  lemma {:induction false} StoredPages(s: State, b: Block, p: Page, c0: CacheBlock, s': State)
    requires b in s'.table && s'.table == s.table[b := s'.table[b]]
    requires c0.pages == PagesAt(s.table, b) && s'.table[b].pages == c0.pages + {p}
    ensures Cached(s'.table) == Cached(s.table) + {(b, p)}
    ensures |Cached(s'.table)| == |Cached(s.table)| + if p in c0.pages then 0 else 1
  {
    hide Cached, PagesOf;
    CachedPut(s.table, b, s'.table[b]);
    CachedSplit(s.table, b);
    PagesOfPlus(b, c0.pages, p);
  }

  lemma {:induction false} PagesOfPlus(b: Block, pages: set<Page>, p: Page)
    ensures PagesOf(b, pages + {p}) == PagesOf(b, pages) + {(b, p)}
    ensures |pages + {p}| == |pages| + if p in pages then 0 else 1
  {
    if p in pages { assert pages + {p} == pages; }
  }

  lemma {:induction false} SameIndex(s: State, s': State)
    requires IndexOk(s) && s' == s.(size := s'.size)
    ensures IndexOk(s')
  {
  }

  lemma {:induction false} BlockAtOk(s: State, b: Block)
    requires IndexOk(s)
    ensures BlockAt(s.table, b).meta.block == b
    ensures b in s.table ==> BlockOk(b, s.table[b]) && (b in s.pool <==> s.table[b].meta.distance == INF)
    ensures b !in s.table ==> b !in s.pool
  {
  }

  // ---------- one access ----------

  /** Room for page p of block b: nothing to do if it is cached or fits, else one victim goes. */
  ghost predicate MakesRoom(s: State, c: nat, b: Block, p: Page, mid: State) {
    if p in PagesAt(s.table, b) || s.size < c then mid == s
    else exists v :: v in s.table && IsVictim(s, v) && mid == Evicted(s, b, v)
  }

  /** A write: room is made, and the page is stored with what the trace says of its future. */
  ghost predicate Writes(s: State, c: nat, t: seq<PageRequest>, window: nat, s': State)
    requires |t| > 0
  {
    exists mid, d, hot ::
      && MakesRoom(s, c, t[0].block, t[0].page, mid)
      && d != 0 && IsDistance(t, window, t[0].block, d) && (hot <==> IsHot(t, window, t[0].block, t[0].page))
      && s' == Stored(mid, t[0].block, t[0].page, d, hot)
  }

  /** What a write does to the cached pages: it adds its own, and if it was new and the cache full, all pages of one
      victim left. */
  ghost predicate PagesChange(s: State, c: nat, b: Block, p: Page, s': State) {
    if p in PagesAt(s.table, b) || s.size < c then Cached(s'.table) == Cached(s.table) + {(b, p)}
    else exists v :: v in s.table && IsVictim(s, v)
           && Cached(s'.table) == Cached(s.table) - PagesOf(v, s.table[v].pages) + {(b, p)}
  }

  lemma {:induction false} MakesRoomKeeps(s: State, c: nat, b: Block, p: Page, mid: State)
    requires Inv(s, c) && MakesRoom(s, c, b, p, mid)
    ensures IndexOk(mid) && SizeOk(mid, c) && (p in PagesAt(mid.table, b) || mid.size < c)
    ensures forall x :: x in mid.table && x != b ==> mid.table[x].pages != {}
    ensures if p in PagesAt(s.table, b) || s.size < c then mid == s
            else exists v :: v in s.table && IsVictim(s, v)
                   && Cached(mid.table) == Cached(s.table) - PagesOf(v, s.table[v].pages)
  {
    hide IndexOk, Cached, IsVictim;
    if !(p in PagesAt(s.table, b) || s.size < c) {
      var v :| v in s.table && IsVictim(s, v) && mid == Evicted(s, b, v);
      EvictedKeeps(s, c, b, v);
    }
  }

  /** Pages of a cached block marked cold. */
  ghost function ColdAt(table: map<Block, CacheBlock>, b: Block): set<Page> {
    if b in table then table[b].coldPages else {}
  }

  /** Making room forgets no page of the block being written that is marked cold; storing the page marks it as the
      trace says. */
  lemma {:induction false} ColdKept(s: State, c: nat, b: Block, p: Page, mid: State, d: nat, hot: bool)
    requires MakesRoom(s, c, b, p, mid)
    ensures ColdAt(mid.table, b) == ColdAt(s.table, b)
    ensures p in ColdAt(Stored(mid, b, p, d, hot).table, b) <==> !hot
  {
    hide IsVictim;
  }

  /** Which block goes for page p of block b: none if p is cached or fits, else the victim. */
  ghost predicate Goes(s: State, c: nat, b: Block, p: Page, gone: Option<Block>) {
    if p in PagesAt(s.table, b) || s.size < c then gone == None
    else gone.Some? && gone.value in s.table && IsVictim(s, gone.value)
  }

  /** The block written, after it: its page added, what it knew to be cold kept but for that page, which is cold unless
      it is hot, and the distance d; if it was the victim, the page is its only one. */
  ghost predicate BlockAfter(s: State, b: Block, p: Page, gone: Option<Block>, d: nat, hot: bool, c: CacheBlock) {
    && c.pages == (if gone == Some(b) then {} else PagesAt(s.table, b)) + {p}
    && c.coldPages == (if hot then ColdAt(s.table, b) - {p} else ColdAt(s.table, b) + {p})
    && c.meta.distance == d
  }

  /** A write, stated on the table alone: the block that goes is gone, unless it is the one written, and no other block
      changes. */
  ghost predicate TableAfter(s: State, c: nat, t: seq<PageRequest>, window: nat, s': State)
    requires |t| > 0
  {
    var b, p := t[0].block, t[0].page;
    exists gone, d, hot ::
      && Goes(s, c, b, p, gone)
      && IsDistance(t, window, b, d) && (hot <==> IsHot(t, window, b, p))
      && (forall x :: x in s'.table <==> x == b || (x in s.table && gone != Some(x)))
      && (forall x :: x in s'.table && x != b ==> s'.table[x] == s.table[x])
      && BlockAfter(s, b, p, gone, d, hot, s'.table[b])
  }

  /** What one block's leaving does to the table. */
  ghost predicate Left(s: State, b: Block, gone: Option<Block>, mid: State) {
    && (forall x :: x != b ==> (x in mid.table <==> x in s.table && gone != Some(x)))
    && (forall x :: x in mid.table && x != b ==> mid.table[x] == s.table[x])
    && ColdAt(mid.table, b) == ColdAt(s.table, b)
    && PagesAt(mid.table, b) == if gone == Some(b) then {} else PagesAt(s.table, b)
  }

  lemma {:induction false} EvictedLeft(s: State, b: Block, v: Block)
    requires v in s.table
    ensures Left(s, b, Some(v), Evicted(s, b, v))
  {
    EvictedIs(s, b, v);
    hide Evicted;
  }

  lemma {:induction false} RoomIs(s: State, c: nat, b: Block, p: Page, mid: State) returns (gone: Option<Block>)
    requires MakesRoom(s, c, b, p, mid)
    ensures Goes(s, c, b, p, gone) && Left(s, b, gone, mid)
  {
    gone := None;
    if p in PagesAt(s.table, b) || s.size < c {
      hide IsVictim, Evicted;
    } else {
      hide IsVictim, Evicted, Left;
      var v :| v in s.table && IsVictim(s, v) && mid == Evicted(s, b, v);
      EvictedLeft(s, b, v);
      gone := Some(v);
    }
  }

  lemma {:induction false} StoredIs(mid: State, b: Block, p: Page, d: nat, hot: bool)
    ensures var s' := Stored(mid, b, p, d, hot);
      && (forall x :: x in s'.table <==> x == b || x in mid.table)
      && (forall x :: x in s'.table && x != b ==> s'.table[x] == mid.table[x])
      && s'.table[b].pages == PagesAt(mid.table, b) + {p} && s'.table[b].meta.distance == d
      && s'.table[b].coldPages == if hot then ColdAt(mid.table, b) - {p} else ColdAt(mid.table, b) + {p}
  {
  }

  lemma {:induction false} WritesTable(s: State, c: nat, t: seq<PageRequest>, window: nat, s': State)
    requires |t| > 0 && Writes(s, c, t, window, s')
    ensures TableAfter(s, c, t, window, s')
  {
    hide MakesRoom, IsDistance, IsHot, Stored, Goes;
    var b, p := t[0].block, t[0].page;
    var mid, d, hot :|
      MakesRoom(s, c, b, p, mid) && d != 0 && IsDistance(t, window, b, d) && (hot <==> IsHot(t, window, b, p))
      && s' == Stored(mid, b, p, d, hot);
    var gone := RoomIs(s, c, b, p, mid);
    StoredIs(mid, b, p, d, hot);
    assert BlockAfter(s, b, p, gone, d, hot, s'.table[b]);
  }

  /** Every write keeps pool, heap, table and size in agreement. */
  lemma {:induction false} WritesKeeps(s: State, c: nat, t: seq<PageRequest>, window: nat, s': State)
    requires |t| > 0 && Inv(s, c) && Writes(s, c, t, window, s')
    ensures Inv(s', c) && PagesChange(s, c, t[0].block, t[0].page, s')
  {
    hide IndexOk, Cached, IsVictim, MakesRoom, IsDistance, IsHot, Stored;
    var b, p := t[0].block, t[0].page;
    var mid, d, hot :|
      MakesRoom(s, c, b, p, mid) && d != 0 && IsDistance(t, window, b, d) && (hot <==> IsHot(t, window, b, p))
      && s' == Stored(mid, b, p, d, hot);
    MakesRoomKeeps(s, c, b, p, mid);
    StoredKeeps(mid, c, b, p, d, hot);
  }

  lemma {:induction false} WritesBy(s: State, c: nat, t: seq<PageRequest>, window: nat, mid: State, d: nat, hot: bool)
    requires |t| > 0 && MakesRoom(s, c, t[0].block, t[0].page, mid) && d != 0
    requires IsDistance(t, window, t[0].block, d) && (hot <==> IsHot(t, window, t[0].block, t[0].page))
    ensures Writes(s, c, t, window, Stored(mid, t[0].block, t[0].page, d, hot))
  {
    hide MakesRoom, IsDistance, IsHot, Stored;
  }

  lemma {:induction false} LeastExists(s: set<Block>) returns (v: Block)
    requires s != {}
    ensures v in s && forall b :: b in s ==> v <= b
    decreases s
  {
    v :| v in s;
    if s != {v} {
      var u := LeastExists(s - {v});
      forall b | b in s ensures b == v || u <= b {
        assert b == v || b in s - {v};
      }
      if u < v { v := u; }
    }
  }

  /** Some entry is not exceeded by any other. */
  lemma {:induction false} LargestExists(h: multiset<Meta>) returns (m: Meta)
    requires h != multiset{}
    ensures m in h && forall x :: x in h ==> !Less(m, x)
    decreases |h|
  {
    m :| m in h;
    if h != multiset{m} {
      var rest := h - multiset{m};
      assert rest != multiset{};
      var u := LargestExists(rest);
      forall x | x in h ensures x in rest || x == m {
      }
      if Less(m, u) { m := u; }
    }
  }

  lemma {:induction false} HeapVictim(s: State, m: Meta)
    requires IndexOk(s) && s.pool == {} && m in s.heap && forall x :: x in s.heap ==> !Less(m, x)
    ensures m.block in s.table && s.table[m.block].meta == m && m.distance != INF && IsVictim(s, m.block)
  {
    assert Current(s.table, m);
    assert BlockOk(m.block, s.table[m.block]);
    forall b | b in s.table ensures s.table[b].meta.distance != INF && NoColder(s.table[b], s.table[m.block]) {
      assert BlockOk(b, s.table[b]) && b !in s.pool;
      assert Current(s.table, s.table[b].meta);
      assert s.table[b].meta in s.heap;
    }
  }

  lemma {:induction false} PoolVictim(s: State, v: Block)
    requires IndexOk(s) && v in s.pool && forall b :: b in s.pool ==> v <= b
    ensures v in s.table && s.table[v].meta.distance == INF && s.heap[s.table[v].meta] == 0 && IsVictim(s, v)
  {
  }

  class OwbpCache {
    const capacity: nat
    const futureWindowSize: nat
    var currSize: int
    var blkID2DS: map<Block, CacheBlock>
    var coldHeap: multiset<Meta>
    var victimPull: set<Block>

    ghost function View(): State
      reads this
    {
      State(blkID2DS, coldHeap, victimPull, currSize)
    }

    ghost predicate Valid()
      reads this
    {
      Inv(View(), capacity)
    }

    constructor (c: nat, window: nat)
      requires c != 0
      ensures Valid() && blkID2DS == map[] && capacity == c && futureWindowSize == window
    {
      capacity, futureWindowSize, currSize, blkID2DS, coldHeap, victimPull := c, window, 0, map[], multiset{}, {};
      new;
      assert Cached(blkID2DS) == {};
    }

    /** One access to the request at the front of memTrace. Only writes change the cache. */
    method Access(memTrace: seq<PageRequest>, status0: Status) returns (status: Status)
      requires Valid() && |memTrace| > 0 && ValidRequests(memTrace)
      requires status0 !! {PAGEHIT, PAGEMISS, BLKHIT, BLKMISS, EVICT, COLD2COLD, COLD2HOT}
      modifies this
      ensures Valid()
      ensures WRITE !in status0 ==> View() == old(View())
      ensures WRITE in status0 ==>
        && Writes(old(View()), capacity, memTrace, futureWindowSize, View())
        && TableAfter(old(View()), capacity, memTrace, futureWindowSize, View())
        && PagesChange(old(View()), capacity, memTrace[0].block, memTrace[0].page, View())
      ensures PAGEHIT in status <==> memTrace[0].page in PagesAt(old(blkID2DS), memTrace[0].block)
      ensures BLKHIT in status <==> memTrace[0].block in old(blkID2DS)
      ensures (PAGEMISS in status <==> PAGEHIT !in status) && (BLKMISS in status <==> BLKHIT !in status)
      ensures status0 <= status
                      <= status0 + {PAGEHIT, PAGEMISS, BLKHIT, BLKMISS, EVICT, COLD2COLD, COLD2HOT}
      ensures EVICT in status <==>
        WRITE in status0 && old(currSize) == capacity && memTrace[0].page !in PagesAt(old(blkID2DS), memTrace[0].block)
      ensures var b, p := memTrace[0].block, memTrace[0].page;
        && (COLD2COLD in status <==> WRITE in status0 && p in ColdAt(old(blkID2DS), b) && p in ColdAt(blkID2DS, b))
        && (COLD2HOT in status <==> WRITE in status0 && p in ColdAt(old(blkID2DS), b) && p !in ColdAt(blkID2DS, b))
    {
      hide IndexOk, Cached, IsVictim, MakesRoom, IsDistance, IsHot, Stored, PagesChange, ValidRequests, Writes,
           TableAfter;
      var b, p := memTrace[0].block, memTrace[0].page;
      ghost var s := View();
      InvParts(s, capacity);
      var blockHit := b in blkID2DS;
      var pageHit := blockHit && p in blkID2DS[b].pages;
      status := status0 + (if blockHit then {BLKHIT} else {BLKMISS}) + (if pageHit then {PAGEHIT} else {PAGEMISS});
      if WRITE in status {
        StayRoom(s, capacity, b, p);
        if !pageHit && currSize == capacity {
          Evict(b, p);
          status := status + {EVICT};
        }
        ghost var mid := View();
        MakesRoomKeeps(s, capacity, b, p, mid);
        var wasCold := b in blkID2DS && p in blkID2DS[b].coldPages;
        var distance, hot := Store(memTrace, b, p);
        if wasCold {
          status := status + (if hot then {COLD2HOT} else {COLD2COLD});
        }
        ColdKept(s, capacity, b, p, mid, distance, hot);
        WritesBy(s, capacity, memTrace, futureWindowSize, mid, distance, hot);
        WritesKeeps(s, capacity, memTrace, futureWindowSize, View());
        WritesTable(s, capacity, memTrace, futureWindowSize, View());
      }
    }

    /** Picks and removes the victim; the block being written is only emptied, keeping its place in the index. */
    method Evict(currBlk: Block, ghost p: Page)
      requires Valid() && currSize == capacity && p !in PagesAt(blkID2DS, currBlk)
      modifies this
      ensures MakesRoom(old(View()), capacity, currBlk, p, View())
    {
      hide IndexOk, IsVictim, Cached, Evicted, SizeOk, NoneEmpty;
      ghost var s := View();
      InvParts(s, capacity);
      SomeCached(s, capacity);
      var victim: Block;
      if victimPull != {} {
        ghost var w := LeastExists(victimPull);
        victim :| victim in victimPull && forall b :: b in victimPull ==> victim <= b;
        PoolVictim(s, victim);
        if victim != currBlk {
          victimPull := victimPull - {victim};
        }
      } else {
        ghost var w := LargestExists(coldHeap);
        var itH :| itH in coldHeap && forall x :: x in coldHeap ==> !Less(itH, x);
        HeapVictim(s, itH);
        victim := itH.block;
        if victim != currBlk {
          coldHeap := coldHeap - multiset{itH};
        }
      }
      PoolOf(s, victim);
      EvictedIs(s, currBlk, victim);
      currSize := currSize - |blkID2DS[victim].pages|;
      if victim == currBlk {
        blkID2DS := blkID2DS[victim := blkID2DS[victim].(pages := {})];
      } else {
        blkID2DS := blkID2DS - {victim};
      }
      assert View() == Evicted(s, currBlk, victim);
    }

    /** insertNewBlk, or writePage and the update of the index. */
    method Store(memTrace: seq<PageRequest>, b: Block, p: Page) returns (distance: nat, hot: bool)
      requires |memTrace| > 0 && ValidRequests(memTrace) && IndexOk(View())
      modifies this
      ensures distance != 0 && IsDistance(memTrace, futureWindowSize, b, distance)
      ensures hot <==> IsHot(memTrace, futureWindowSize, b, p)
      ensures View() == Stored(old(View()), b, p, distance, hot)
    {
      hide IndexOk, IsDistance, IsHot, ValidRequests, Reindexed, Written;
      BlockAtOk(View(), b);
      distance, hot := ScanFuture(memTrace, futureWindowSize, b, p);
      if b !in blkID2DS {
        InsertNewBlk(b, p, distance, hot);
        currSize := currSize + 1;
      } else {
        if p !in blkID2DS[b].pages {
          currSize := currSize + 1;
        }
        ReindexWritten(old(View()), currSize, b, p, distance, hot);
        blkID2DS := blkID2DS[b := Written(blkID2DS[b], p, distance, hot)];
        UpdateIndex(b);
      }
    }

    method InsertNewBlk(b: Block, p: Page, distance: nat, hot: bool)
      requires b !in blkID2DS && b !in victimPull
      modifies this`blkID2DS, this`coldHeap, this`victimPull
      ensures View() == Reindexed(old(View()), b, Written(BlockAt(old(blkID2DS), b), p, distance, hot))
    {
      assert victimPull - {b} == victimPull;
      var tempBlock := Written(BlockAt(blkID2DS, b), p, distance, hot);
      if distance == INF {
        victimPull := victimPull + {b};
      } else {
        coldHeap := coldHeap + multiset{tempBlock.meta};
        tempBlock := tempBlock.(heapIt := Some(tempBlock.meta));
      }
      blkID2DS := blkID2DS[b := tempBlock];
    }

    /** Moves a block whose metadata changed to where its distance puts it. */
    method UpdateIndex(b: Block)
      requires b in blkID2DS && (blkID2DS[b].heapIt.None? <==> b in victimPull)
      modifies this`blkID2DS, this`coldHeap, this`victimPull
      ensures View() == Reindexed(old(View()), b, old(blkID2DS)[b])
    {
      var block := blkID2DS[b];
      if block.heapIt.None? {
        if block.meta.distance != INF {
          victimPull := victimPull - {b};
          coldHeap := coldHeap + multiset{block.meta};
          blkID2DS := blkID2DS[b := block.(heapIt := Some(block.meta))];
        }
      } else {
        coldHeap := coldHeap - multiset{block.heapIt.value};
        if block.meta.distance == INF {
          victimPull := victimPull + {b};
          blkID2DS := blkID2DS[b := block.(heapIt := None)];
        } else {
          coldHeap := coldHeap + multiset{block.meta};
          blkID2DS := blkID2DS[b := block.(heapIt := Some(block.meta))];
        }
      }
    }
  }

  /** Reindexing does not depend on what the table held, beyond the iterator, which writing leaves alone. */
  lemma {:induction false} ReindexWritten(s: State, size: int, b: Block, p: Page, distance: nat, hot: bool)
    requires b in s.table
    ensures var c := Written(s.table[b], p, distance, hot);
      && c.heapIt == s.table[b].heapIt
      && Reindexed(s.(table := s.table[b := c], size := size), b, c) == Reindexed(s, b, c).(size := size)
  {
    var c := Written(s.table[b], p, distance, hot);
    var e := c.(heapIt := if c.meta.distance == INF then None else Some(c.meta));
    assert s.table[b := c][b := e] == s.table[b := e];
  }

  lemma {:induction false} EvictedIs(s: State, current: Block, v: Block)
    requires v in s.table
    ensures var s' := Evicted(s, current, v);
      && s'.size == s.size - |s.table[v].pages|
      && s'.table == (if v == current then s.table[v := s.table[v].(pages := {})] else s.table - {v})
      && s'.heap == (if v == current then s.heap else s.heap - multiset{s.table[v].meta})
      && s'.pool == (if v == current then s.pool else s.pool - {v})
  {
  }

  lemma {:induction false} InvParts(s: State, c: nat)
    requires Inv(s, c)
    ensures IndexOk(s) && s.size <= c && SizeOk(s, c)
  {
  }

  lemma {:induction false} StayRoom(s: State, c: nat, b: Block, p: Page)
    ensures p in PagesAt(s.table, b) || s.size < c ==> MakesRoom(s, c, b, p, s)
  {
  }

  /** A victim from the pool has no heap entry, one from the heap is not in the pool. */
  lemma {:induction false} PoolOf(s: State, v: Block)
    requires IndexOk(s) && v in s.table
    ensures v in s.pool ==> s.heap - multiset{s.table[v].meta} == s.heap
    ensures v !in s.pool ==> s.pool - {v} == s.pool
  {
    if v in s.pool { assert s.heap[s.table[v].meta] == 0; }
  }
}
