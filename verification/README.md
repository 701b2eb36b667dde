# Cache policies and flash translation layers, verified

Dafny models of the two simulators of this repository and proofs of what they promise. The cache-policy simulator
(`src/`) replays a trace against a cache; the SSD simulator (`flashsim/`) maps logical pages to flash that must be
erased before it is rewritten.

`dafny verify dfyconfig.toml` checks the whole project.

## What is modelled

| module | file | subject |
|---|---|---|
| `Trace`, `AccessIndex` | `Trace.dfy`, `AccessOrdering.dfy` | traces and the index of future references |
| `PageMin` | `PageMin.dfy` | the offline page cache |
| `MinOptimality`, `MinNecessity`, `MinCapacity` | same names | when no policy misses less, and when some policy does |
| `Flash`, `BlockPools` | `Flash.dfy`, `BlockManager.dfy` | pages, blocks, device; free blocks |
| `BastModel`, `BastSteps`, `Bast` | same names | log-block translation layer |
| `DftlModel`, `MappingTable`, `Dftl` | same names | page-mapped translation layer with a cached mapping table |
| `Workload` | `Workload.dfy` | request streams and the array they should see |
| `TrackedPages`, `WriteBack`, `DirtyRuns` | same names | recency lists with their tables, write-back accounting, runs of dirty pages |
| `PureLru`, `PageLru`, `Arc`, `DynamicLru` | same names | online cache policies |
| `Owbp` | `Owbp.dfy` | block-granular write buffer |
| `Channel`, `Addressing` | `Channel.dfy`, `Addressing.dfy` | bus scheduler, address arithmetic |
| `CacheStatus`, `Options`, `Sets` | same names | flag words, optional values, sizes of sets |

Code that updates state in place is a class whose methods are proved against functions or predicates on its value
(`View()`); what the source promises is then proved about those as lemmas and whole-run theorems. Where a method's
value is computed by a function, its contract also states the result without that function, from the state before and
after. Many small lemmas open one definition for callers that keep it hidden from the solver.

Main results:

* **Belady.** `PageMinCache` always drops a cached key whose next use is on the furthest line, of several the one
  requested longest ago. For traces with one write per line the misses of its run are the least any policy with the
  same admission rule can reach. In general this is not so, for two reasons: a read that misses is not inserted, and
  keys requested on one line tie (`MinNecessity.SharedLineLoses`). `MinNecessity.OptimalExactlyWhenSafe` gives the
  exact patterns of reads, writes and lines for which the policy is optimal on every trace and capacity: those without
  a `CostlyReadAt` and a `CostlyTieAt`, two conditions on the positions of writes, reads and lines. With one request
  per line the exact patterns are given for each capacity (`MinCapacity.OptimalAtCapacity`).
* **BAST and DFTL are arrays.** Any run of reads, writes and trims, through log-block allocation, switch and random
  merges, garbage collection and erasures, returns for every written page the bytes last written to it. Both complete
  every run on a device with room and wear left: garbage collection always finds a victim that gains a page, and one
  collection erases no block twice. The DFTL table counter drifts by exactly the trims that hit a mapped and cached
  entry.
* **What the flash sees.** In BAST every step is stated page by page: a log block with each page at its own offset is
  merged without a copy, any other by copying the live pages and no others, and a trim erases a block exactly if it
  empties it (`BastSteps`). In DFTL a collection takes victims with the most invalid pages, up to five, gains
  exactly their invalid pages, and ends early only in stated cases (`DftlModel.Ends`).
* **The mapping table of DFTL** drops entries by the time of the request that stamped them: which requests do is stated
  exactly, and over every run the time an entry carries is that of the last one (`Dftl.StampHistory`).
* **Space.** In BAST every block is in exactly one pool (`BastModel.ExactlyOnePool`), the counters are exact, and
  a device with room for the logical blocks addressed, its log blocks and one more never runs out of blocks.
* **LRU is a stack algorithm**, hits are decided by reuse distance, and more capacity never means more misses.
* **ARC** keeps its size invariants in every run, so none of its asserts fails and REPLACE never reads an empty list,
  although it records the requested key instead of the evicted one in its ghost lists (`src/arc.h:299-302`,
  `src/arc.h:332-335`). What that does to the ghosts is stated exactly, with the runs in which a key is cached and a
  ghost at once. The target moves by the quotient of the ghost lists' sizes, and the page that leaves follows from the
  new target (`Arc.StepTransition`).
* **Periodic flush** writes exactly the maximal runs of dirty pages, each once, and no page stays dirty beyond the
  window it was written in, even where the 32-bit deadlines wrap. When they do, and when a flush comes out of turn for
  that, is stated exactly.
* **Dynamic LRU** evicts exactly the first long enough run, its threshold stays within bounds, and over a run it is
  counted from the evictions of either kind (`DynamicLru.ThresholdCounts`, `DynamicLru.ShortStretch`).
* **OWBP** keeps heap, pool, block table and size counter in exact agreement; its victim is a block without a further
  reference in the window, or else one that has the most cold pages and of those the furthest next reference.
* **Bus channel.** Reservations never overlap exactly if empty and real transfers are not mixed; the slot found is the
  earliest one, and all slots ever granted stay disjoint, exactly under stated conditions on the table. Each condition
  comes with a concrete run that breaks the property without it.
* **Addresses.** Decomposition is a bijection, addresses compare by the parts that hold them, and the physical addresses
  the nested constructors hand out agree with it exactly if none of their 32-bit offsets overflows.

## Where code and documentation differ

* The pruning loop of the bus channel is described as removing expired entries (`flashsim/ssd_channel.cpp:192-205`)
  but skips the entry behind each one it erases: it removes all of them exactly if each one is at an even position
  with only expired entries at the even positions before it (`Channel.PrunedAllExpired`). Its sort is described as by
  finish time and is by lock time. The model follows the code.
* `pages_valid` of a block counts programs since the last erase, not VALID pages (`flashsim/ssd_block.cpp:113`).
* A DFTL trim writes back a copy of the map entry made before the entry was dropped from the cached mapping table
  (`flashsim/dftl_ftl.cpp:103-127`), so the table counter falls below the number of entries marked as cached by one
  exactly then (`Dftl.Dftl.Trim`), and over a run by the number of such trims (`Dftl.Replay`).
* A read hit in the dynamic LRU caches makes a dirty page clean (`src/lru_dynamic.h:121-137`); the model states the
  dirty bit as the code keeps it: set exactly if the last access was a write.

## Model

| member | source | states |
|---|---|---|
| `AccessIndex.AccessOrdering.PageBaseBuild` | src/sharedDS.cpp:14-54 | After the pass every key of the trace is indexed with exactly its lines, in order, and no other key is; different keys may share a line |
| `AccessIndex.AccessOrdering.NextAccess` | src/sharedDS.cpp:103-134 | Returns the least line beyond the current one at which the key occurs, or INF; the entry is dropped exactly on INF |
| `AccessIndex.LinesOfMeaning` | src/sharedDS.cpp:14-54 | The queue of a key is strictly increasing and holds exactly the lines at which it is requested |
| `Trace.NextUseMeaning` | src/sharedDS.cpp:103-134 | What a plain scan finds: the line of the next request for the key, with none before it |
| `Trace.NextUseIsScan` | src/sharedDS.cpp:103-134 | The index's answer for the current line is what the plain scan of the rest of the trace finds |
| `Trace.NextUseBound` | src/sharedDS.cpp:103-134 | A next use is never on an earlier line than the request at hand, and a key is not used twice on a line |
| `PageMin.PageMinCache.Access` | src/min.cpp:10-78 | Contents change by one step of furthest-next-use with write allocation, dropping of several keys of the furthest line the one requested longest ago; flags tell hit, miss and eviction; heap and index stay exact, also when requests share a line |
| `PageMin.PageMinCache.ServeMiss` | src/min.cpp:19-31 | A miss inserts the key if it was written, and leaves the contents alone if it was read |
| `PageMin.PageMinCache.ServeHit` | src/min.cpp:33-75 | On a hit the lookup in the index succeeds and the key's heap atom moves to its true next line |
| `PageMin.PageMinCache.NextUseOf` | src/min.cpp:44-47 | The index gives the true next line of the key just requested, and stays right for the rest of the trace |
| `PageMin.PageMinCache.UpdateHeap` | src/min.cpp:49-72 | The search in the equal range of the current line finds the key's own atom and re-keys it |
| `PageMin.PageMinCache.Insert` | src/min.cpp:82-122 | A written key is cached, after dropping the front key if the cache was full |
| `PageMin.PageMinCache.Evict` | src/min.cpp:124-138 | The key at the front of the heap is cached, no cached key is used later, and none used on the same line was requested longer ago |
| `PageMin.FrontIsFurthest` | src/min.cpp:124-138 | The front of a sorted heap that matches the cache is a key whose next use is furthest |
| `PageMin.FrontIsFront` | src/min.cpp:124-138 | And of the keys with that next use it is the one requested longest ago |
| `PageMin.EnterAtom` | src/min.cpp:106-118 | Entering the atom of the key just requested keeps the heap sorted, matched to the cache, and in order of last request within a line |
| `PageMin.AtomInRange` | src/min.cpp:49-72 | The atom of the key requested lies in the equal range of the current line, so the assertion that it is found holds |
| `PageMin.RekeyMatches` | src/min.cpp:49-72 | Re-keying that one atom restores one atom per cached key, each with its true next line |
| `PageMin.InsertHeapOk` | src/min.cpp:106-118 | The atom inserted for a new key carries its true next line |
| `PageMin.ForgetIndexOk` | src/sharedDS.cpp:103-134 | Dropping a key from the index once it has no further use makes no later lookup fail |
| `PageMin.RunBenchmark` | src/main.cpp:251-279 | The misses of the whole run are those of a furthest-next-use run with the heap's own choice among keys of one line, and on every trace of a safe pattern no allowed policy misses less |
| `MinOptimality.MinIsOptimal` | src/min.cpp:10-138 | On a safe pattern of reads, writes and lines no policy of the same capacity, dropping keys at will but admitting on every written miss only, has fewer misses |
| `MinOptimality.Potential` | src/min.cpp:10-138 | At every point the rival is ahead, at every horizon, by at most the misses it has already paid in excess; or only the last line is left, and it is ahead in pages still wanted by at most that |
| `MinOptimality.LostReadIsLast` | src/min.cpp:19-31 | On a pattern without costly reads, a read that the rival hits and the policy misses does not recur |
| `MinOptimality.TroubleIsLate` | src/main.cpp:81-96 | On a safe pattern a tie between pages of one line can cost something on the last line only |
| `MinOptimality.TailStep` | src/min.cpp:124-138 | On the last line of a safe pattern the policy gives up no page that is still wanted |
| `MinOptimality.HorizonStep` | src/min.cpp:10-138 | One request moves the rival's lead at a horizon by at most the difference of the two misses |
| `MinOptimality.EvictionHorizon` | src/min.cpp:124-138 | Dropping the furthest key costs nothing before its use and leaves only wanted keys beyond it |
| `MinNecessity.OptimalExactlyWhenSafe` | src/min.cpp:10-138 | For every pattern of reads, writes and lines: the policy, with the heap's own choice among keys of one line, is optimal on every trace of the pattern and every capacity if and only if the pattern has no costly read and no costly tie |
| `MinNecessity.OptimalAtTwo` | src/min.cpp:10-138 | With room for two pages it is optimal on every trace of a pattern if and only if the pattern is safe |
| `MinNecessity.OptimalAtOne` | src/min.cpp:10-138 | With room for one page it is optimal on every pattern |
| `MinNecessity.OptimalWithRoom` | src/min.cpp:10-138 | With room for every write it is optimal on every pattern |
| `MinCapacity.OptimalAtCapacity` | src/min.cpp:10-138 | With one request per line, for each capacity c of two or more: it is optimal on every trace of a pattern if and only if no read but the last request comes after c + 1 writes with at least c - 1 requests in between |
| `MinCapacity.LostReadIsLate` | src/min.cpp:19-31 | A read that the rival hits, the policy misses and something follows is such a read |
| `MinCapacity.LateIsBeaten` | src/min.cpp:19-31 | For every pattern with such a read and every capacity, a trace of the pattern on which the policy is beaten |
| `MinCapacity.SafeForIsOptimal` | src/min.cpp:10-138 | On a pattern without such a read no policy of that capacity has fewer misses |
| `MinNecessity.OnePerLineSafe` | src/min.cpp:10-30 | With one request per line a pattern is safe if and only if no read but the last request comes after three writes with a request in between |
| `MinNecessity.AllWritesSafe` | src/min.cpp:10-138 | Traces with one write per line and no reads are safe, so on them the policy is optimal |
| `MinNecessity.SharedLineLoses` | src/main.cpp:81-96 | A pattern that is not optimal though it has no reads: six writes, the fourth and fifth on one line |
| `MinNecessity.CostlyReadLoses` | src/min.cpp:19-31 | For every pattern with a costly read whose two pages are in the order the heap needs, a trace of that pattern on which the policy is beaten by a rival under the same rules |
| `MinNecessity.CostlyTieLoses` | src/min.cpp:124-138 | The same for every pattern with a costly tie |
| `MinNecessity.UnsafeIsBeaten` | src/min.cpp:10-138 | For every pattern that is not safe a trace on which the policy is beaten |
| `MinNecessity.RivalAllowed` | src/min.cpp:10-30 | The rival holds at most two pages, admits every written one, and prefetches nothing |
| `Flash.Block.Write` | flashsim/ssd_block.cpp:106-120 | Programs an EMPTY page, stores its bytes, counts one program and makes the block ACTIVE |
| `Flash.Block.InvalidatePage` | flashsim/ssd_block.cpp:213-237 | Marks a page INVALID once, counts it, and makes the block INACTIVE exactly when all its pages are; the FREE branch is dead |
| `Flash.Block.Erase` | flashsim/ssd_block.cpp:132-163 | Fails on a worn-out block and changes nothing; else every page is EMPTY, the block FREE, and exactly one erase is spent |
| `Flash.ProgrammedOk` | flashsim/ssd_block.cpp:106-120 | Programming keeps the invalid counter exact, INACTIVE meaning that every page is invalid, and FREE that none was programmed or invalidated since the last erase |
| `Flash.InvalidatedOk` | flashsim/ssd_block.cpp:213-237 | Invalidation keeps all three, and an INACTIVE block has no page left |
| `Flash.ErasedOk` | flashsim/ssd_block.cpp:132-163 | An erased block is clean |
| `Flash.Ssd.Write` | flashsim/ssd_page.cpp:78-97 | Only the addressed page changes, and it was EMPTY: the assertion in the page's write holds |
| `Flash.Ssd.Replace` | flashsim/ssd_plane.cpp:138-142 | Only the replaced page is invalidated |
| `Flash.Ssd.Erase` | flashsim/ssd_plane.cpp:149-165 | Only the addressed block is erased |
| `BlockPools.BlockManager.GetPageBlock` | flashsim/ssd_bm.cpp:76-100 | Hands out the front of the queue of blocks, fresh ones before freed ones, or fails if it is empty, for a caller for whom `insert_events` has nothing to erase; tells whether the last attempt failed |
| `BlockPools.BlockManager.GetFreeBlock` | flashsim/ssd_bm.cpp:243-265 | The same with the counter of the requested type raised by one; with more log blocks in use than there are blocks it takes the block and fails |
| `BlockPools.BlockManager.PromoteToData` | flashsim/ssd_bm.cpp:112-124 | One block moves from the log to the data counter |
| `BlockPools.BlockManager.EraseAndInvalidate` | flashsim/ssd_bm.cpp:290-313 | Erases the block, puts it at the end of the queue and lowers the counter of its type |
| `BlockPools.TakenQueue` | flashsim/ssd_bm.cpp:76-100 | Blocks leave at the front of the queue: the fresh ones in order, then the freed ones in the order they were freed |
| `BlockPools.ReleasedQueue` | flashsim/ssd_bm.cpp:290-313 | And enter at its end |
| `BastModel.LiveIsValid` | flashsim/bast_ftl.cpp:99-132 | Every live logical page is found at a VALID physical page holding its bytes |
| `BastModel.BlocksOf` | flashsim/bast_ftl.cpp:134-192 | The log block and the data block of a logical block are distinct, owned by it, and well formed |
| `BastModel.ExactlyOnePool` | flashsim/ssd_bm.cpp:76-124 | Every block of the device is in exactly one place, the one its owner tells: the fresh blocks, the free list, the log block of one logical block, or the data block of one |
| `BastModel.MapsStep` | flashsim/bast_ftl.cpp:134-192 | A step on one logical block leaves the mapping of all others intact |
| `BastModel.LogWriteInv` | flashsim/bast_ftl.cpp:149-192 | A log write keeps mapping, pools, accounting and device consistent |
| `BastModel.LogWriteHolds` | flashsim/bast_ftl.cpp:149-192 | After a log write its page holds the new bytes and every other page what it held, though the data block's copy may replace the log copy as the page invalidated |
| `BastModel.AllocInv` | flashsim/bast_ftl.cpp:248-272 | Giving a logical block an empty log block keeps invariant and contents |
| `BastModel.InstallInv` | flashsim/bast_ftl.cpp:316-389 | Installing a data block keeps the invariant; its logical block then holds exactly the VALID pages of that block, all others what they held |
| `BastModel.ReleaseLogInv` | flashsim/ssd_bm.cpp:290-313 | Erasing a log block keeps the invariant and every page the log block does not hold |
| `BastModel.ReleaseDataInv` | flashsim/ssd_bm.cpp:290-313 | Erasing a data block keeps the invariant and loses exactly the pages its logical block does not have in the log |
| `BastModel.PromoteInv` | flashsim/ssd_bm.cpp:112-124 | A log block whose pages are in order becomes the data block with invariant and contents kept |
| `BastModel.SwitchInv` | flashsim/bast_ftl.cpp:280-314 | The switch merge, with or without an old data block, keeps invariant and contents |
| `BastModel.LogTrimInv` | flashsim/bast_ftl.cpp:208-222 | Dropping a log copy keeps the invariant and loses exactly that page |
| `BastModel.DataTrimInv` | flashsim/bast_ftl.cpp:224-236 | Dropping a data copy keeps the invariant |
| `BastModel.InactiveIsDead` | flashsim/bast_ftl.cpp:216-220 | A log or data block that became INACTIVE holds no live page, so erasing it loses nothing |
| `BastModel.CopyStep` | flashsim/bast_ftl.cpp:332-367 | One turn of the copy loop moves one live page to its own offset in the new block, which is EMPTY there |
| `BastModel.MergeInv` | flashsim/bast_ftl.cpp:369-388 | After copying, erasing both old blocks and mapping the new one keeps invariant and contents |
| `BastSteps.SwitchSteps` | flashsim/bast_ftl.cpp:295-311 | A switch merge programs no page and takes no block: the log block becomes the data block, and of all blocks only the old data block changes, by one erase |
| `BastSteps.MergeSteps` | flashsim/bast_ftl.cpp:316-389 | A full merge takes the next block of the queue, which then holds exactly the live pages of the logical block, erases the log block and the old data block once, and changes no other |
| `BastSteps.AllocSteps` | flashsim/bast_ftl.cpp:267-271 | The next block of the queue becomes an empty log block, and no page changes |
| `BastSteps.LogWriteSteps` | flashsim/bast_ftl.cpp:149-191 | A log write programs the next page of the log block and invalidates the copy in the data block, unless that page is EMPTY: then the older copy in the log block |
| `BastSteps.DropSteps` | flashsim/ssd_block.cpp:213-237 | Dropping a page of a block makes it INACTIVE if and only if no other page of it is left |
| `BastSteps.LogDropSteps` | flashsim/bast_ftl.cpp:208-222 | A trim of the last page left in the log block erases it |
| `BastSteps.DataDropSteps` | flashsim/bast_ftl.cpp:224-236 | The same of the data block |
| `BastSteps.RemadeBy` | flashsim/bast_ftl.cpp:165-177 | The allocation that follows a merge of the full log block merges no other |
| `Bast.Bast.constructor` | flashsim/bast_ftl.cpp:73-92 | A new device holds no page and all its blocks are fresh |
| `Bast.Bast.Read` | flashsim/bast_ftl.cpp:99-132 | A live page is read at its VALID address with its bytes; any other read goes to the EMPTY page of the data block at its offset, or else to page 0 of block 0 |
| `Bast.Bast.Write` | flashsim/bast_ftl.cpp:134-192 | Contents become the old contents with that page set, by the merges, the block and the page programs the code prescribes and nothing else; stops only if every block is in use or a block is worn out |
| `Bast.Bast.Trim` | flashsim/bast_ftl.cpp:194-245 | Contents lose exactly that page; its log block is erased if and only if no other page is left there, and so is its data block; stops if and only if such a block is worn out |
| `Bast.Bast.TrimLog` | flashsim/bast_ftl.cpp:208-222 | The log half: the page leaves the log; its log block is erased if and only if no other page is left there, else only that page is invalidated |
| `Bast.Bast.DisposeLogBlock` | flashsim/bast_ftl.cpp:216-220 | A log block that became INACTIVE is erased and forgotten, with contents kept |
| `Bast.Bast.TrimData` | flashsim/bast_ftl.cpp:224-236 | The data half: the page is gone; its data block is erased if and only if no other page is left there, else only that page is invalidated |
| `Bast.Bast.DisposeDataBlock` | flashsim/bast_ftl.cpp:230-234 | A data block that became INACTIVE is erased and forgotten, with contents kept |
| `Bast.Bast.AllocateNewLogblock` | flashsim/bast_ftl.cpp:248-272 | Same contents; the next block becomes the empty log block of the logical block, after merging one log block if and only if there are as many as the limit |
| `Bast.Bast.MergeVictim` | flashsim/bast_ftl.cpp:250-265 | Whichever log block is drawn, merging it keeps contents and frees a log slot; it is switched if its pages are in order, else its live pages are copied |
| `Bast.Bast.PagesInOrder` | flashsim/bast_ftl.cpp:288-293 | True exactly if every page of the log block is at its own offset |
| `Bast.Bast.IsSequential` | flashsim/bast_ftl.cpp:280-314 | True if and only if every page of the log block is at its own offset; then that block is the data block, no page was programmed and only the old data block erased; else nothing changes |
| `Bast.Bast.SwitchMerge` | flashsim/bast_ftl.cpp:295-311 | The switch keeps contents, makes the log block the data block, erases only the old data block, and stops if and only if that is worn out |
| `Bast.Bast.RandomMerge` | flashsim/bast_ftl.cpp:316-389 | Same contents, by copying the live pages to the next block and erasing the two old ones once; stops if and only if no block is left or one of the two is worn out |
| `Bast.Bast.CopyLoop` | flashsim/bast_ftl.cpp:332-367 | After the loop the new block holds every live page of the logical block |
| `Bast.Bast.ReplaceByCopy` | flashsim/bast_ftl.cpp:369-388 | Erasing the old blocks and mapping the copy keeps contents and changes no other block |
| `Bast.Bast.LogPage` | flashsim/bast_ftl.cpp:149-191 | The event programs the next page of the log block, which is EMPTY, and invalidates the superseded copy |
| `Bast.Bast.MergeOwnLog` | flashsim/bast_ftl.cpp:165-177 | A full log block is switched if its pages are in order, else its live pages are copied, and the logical block gets an empty one |
| `Bast.EventArrive` | flashsim/bast_ftl.cpp:99-245 | Every operation acts on the array of live pages as on a plain array, and on the device by the steps of its kind |
| `Bast.NeverFull` | flashsim/ssd_bm.cpp:76-100 | With at most max - limit - 1 logical blocks in use some block is always available |
| `Bast.Replay` | flashsim/bast_ftl.cpp:99-389 | Over any run from a new device every read of a written page returns the bytes last written; with room and wear left the run completes |
| `DftlModel.NextPageEmpty` | flashsim/dftl_parent.cpp:125-136 | The data page handed out is EMPTY, the next in order of its block |
| `DftlModel.MovedBijection` | flashsim/dftl_ftl.cpp:77-101 | Programming a page for a logical page and invalidating the old copy keeps mapped pages and VALID pages in bijection and changes only that page's bytes |
| `DftlModel.MovedFlash` | flashsim/dftl_ftl.cpp:77-101 | The same keeps blocks programmed in order and pools clean |
| `DftlModel.TrimBijection` | flashsim/dftl_ftl.cpp:103-127 | Invalidating a mapped page and unmapping it keeps the bijection |
| `DftlModel.ErasedBijection` | flashsim/ssd_bm.cpp:218-225 | Erasing a block without VALID pages changes no contents |
| `DftlModel.ErasedFlash` | flashsim/ssd_bm.cpp:218-225 | An erased victim joins the free list clean and distinct from the others |
| `DftlModel.NotEmpty` | flashsim/dftl_ftl.cpp:137-139 | A full victim block has no EMPTY page: the assertion in the copy loop holds |
| `DftlModel.OwnerKnown` | flashsim/dftl_ftl.cpp:169-173 | During cleaning the stored reverse map still names the owner of each VALID page of the victim |
| `DftlModel.CleanStep` | flashsim/dftl_ftl.cpp:137-183 | One turn of the copy loop: contents with the pending moves applied are unchanged and the page is free |
| `DftlModel.EnterMove` | flashsim/dftl_ftl.cpp:193-214 | Entering one pending move in both maps keeps contents and bijection |
| `DftlModel.MappedIsValid` | flashsim/dftl_ftl.cpp:57-75 | A mapped logical page is at a VALID physical page |
| `DftlModel.VictimExists` | flashsim/ssd_bm.cpp:204-209 | With fewer pages mapped than the full blocks other than the current one hold, one of these has an invalid page |
| `DftlModel.LowMustClean` | flashsim/ssd_bm.cpp:170-209 | On a spacious device, at a block end with two blocks available, cleaning is due and has a victim |
| `DftlModel.DueWhenLow` | flashsim/ssd_bm.cpp:170-178 | The share of blocks in use is above 0.90 when two blocks are left of more than 20 |
| `DftlModel.StaysReady` | flashsim/dftl_parent.cpp:120-136 | Two blocks stay available after a block end if there were three before, or if cleaning gained a page |
| `DftlModel.WornOnceMore` | flashsim/ssd_bm.cpp:209-231 | Erased blocks have no invalid page and victims have one, so no block is erased twice in one collection |
| `DftlModel.ReclaimedBy` | flashsim/ssd_bm.cpp:209-231 | A turn erases exactly its victim and invalidates no page outside it |
| `DftlModel.CollectionStep` | flashsim/ssd_bm.cpp:209-240 | Such turns one after the other, and the pages they gain |
| `DftlModel.EndsHere` | flashsim/ssd_bm.cpp:209-240 | When the loop ends: after five victims, or when no block but the one being written has an invalid page left; with four victims or none also when that block had the most at the start, which then was full or not |
| `DftlModel.OthersAreFull` | flashsim/ssd_bm.cpp:209 | Every block with an invalid page other than the one being written is full |
| `DftlModel.MustGain` | flashsim/ssd_bm.cpp:204-240 | Where cleaning must happen it gains a page |
| `Dftl.Dftl.constructor` | flashsim/dftl_parent.cpp:61-88 | A new map is empty, as is the cached mapping table |
| `Dftl.Dftl.ResolveMapping` | flashsim/dftl_parent.cpp:143-182 | The mapping never changes. A read hit stamps no entry, a write hit stamps its own, a miss enters its own with its timestamps; the entries that go are the oldest by the times held then; what stays keeps its modification time and counts as unmodified if and only if its translation page was written back; the counter ends at one below the limit where it had reached it |
| `Dftl.Dftl.EvictPageFromCache` | flashsim/dftl_parent.cpp:184-230 | Entries are dropped oldest modification first until the counter is one below the limit, and none if it was below; the entries left keep their modification times and count as unmodified if and only if one of their translation page that had been modified went; no physical page number changes |
| `Dftl.Dftl.EvictEntry` | flashsim/dftl_parent.cpp:232-278 | Exactly one entry leaves the table, reset; if it was modified, exactly the cached entries of its translation page are marked as written |
| `Dftl.Dftl.MarkWritten` | flashsim/dftl_parent.cpp:199-209 | Every cached entry of the translation page counts as unmodified afterwards, and nothing else changes |
| `MappingTable.OldestExists` | flashsim/dftl_parent.cpp:186-192 | A nonempty table has an entry modified no later than any other |
| `MappingTable.EvictedStep` | flashsim/dftl_parent.cpp:186-228 | Dropping the oldest entry, and writing back its translation page if it was modified, continues an eviction in order of modification time |
| `MappingTable.WhoStamps` | flashsim/dftl_parent.cpp:143-182 | The requests that stamp an entry: a read or write of it that finds it missing, a write of it, and any other write during which its page is moved; with these times. A read hit and a trim stamp none |
| `MappingTable.DropsOldest` | flashsim/dftl_parent.cpp:184-230 | Of two cached entries other than the one requested, one that goes was modified no later than one that stays without a new stamp |
| `MappingTable.TrimKeepsMarks` | flashsim/dftl_ftl.cpp:103-127 | A trim leaves the same entries marked as cached |
| `Dftl.StampHistory` | flashsim/dftl_parent.cpp:143-182 | In every run on a table that begins empty the modification time of a cached entry is that of the last request that stamped it, and none since did |
| `Dftl.Dftl.NextDataPage` | flashsim/dftl_parent.cpp:125-136 | The next page of the current block, or at its end the first of the next block of the queue, which uses up one free page |
| `Dftl.Dftl.GetFreeDataPage` | flashsim/dftl_parent.cpp:120-136 | The same, after garbage collection at the end of a block where it is due and only there, with the array unchanged; free pages grow by exactly the invalid pages of the victims, less the one handed out; on a spacious device two blocks stay available |
| `Dftl.Dftl.TakePage` | flashsim/dftl_parent.cpp:125-136 | The page handed out is EMPTY and next in order of its block |
| `Dftl.Dftl.MovePage` | flashsim/dftl_ftl.cpp:142-182 | One VALID page is copied and invalidated; contents with pending moves are unchanged |
| `Dftl.Dftl.CleanupBlock` | flashsim/dftl_ftl.cpp:129-216 | The array is unchanged, no VALID page is left in the block, at most one new block was taken, and exactly as many free pages were used as the victim had VALID ones |
| `Dftl.Dftl.MoveAll` | flashsim/dftl_ftl.cpp:137-183 | After the copy loop no VALID page is left in the block, and the array with the pending moves applied is unchanged |
| `Dftl.Dftl.EnterMoves` | flashsim/dftl_ftl.cpp:191-214 | In whatever order the moves are entered the map and reverse map end in bijection with the VALID pages |
| `Dftl.Dftl.LastByCost` | flashsim/ssd_bm.cpp:204-236 | A block with the most invalid pages among those allowed |
| `Dftl.Dftl.EraseCleaned` | flashsim/ssd_bm.cpp:218-225 | Erasing the cleaned block keeps the array and returns one block to the free list |
| `Dftl.Dftl.InsertEvents` | flashsim/ssd_bm.cpp:170-241 | Nothing changes if collection is not due. If it is, victims with the most invalid pages are cleaned and erased: five, or fewer where no block but the one being written has an invalid page left, or where that block had the most at the start; the array is unchanged, no block is erased twice, and free pages grow by exactly the victims' invalid pages |
| `Dftl.Dftl.CollectWorst` | flashsim/ssd_bm.cpp:204-240 | The loop: its turns one by one, each with a victim that has the most invalid pages of all blocks but the one being written, and how it ends |
| `Dftl.Dftl.CollectUnlessCurrent` | flashsim/ssd_bm.cpp:209-231 | One turn of that loop: the block being written is passed over and nothing changes; any other victim is erased and gains its invalid pages |
| `Dftl.Dftl.Collect` | flashsim/ssd_bm.cpp:211-231 | One victim cleaned, erased and returned: array unchanged, no other block erased, exactly its invalid pages gained, and it was not erased before in the same collection |
| `Dftl.Dftl.NextVictim` | flashsim/ssd_bm.cpp:233-237 | A block with the most invalid pages, other than the one being written |
| `Dftl.Dftl.Read` | flashsim/dftl_ftl.cpp:57-75 | A mapped page is read at a VALID address with its bytes; an unmapped one is a no-op at page 0; the mapping table changes as for a read |
| `Dftl.Dftl.Write` | flashsim/dftl_ftl.cpp:77-101 | The array becomes the old one with that page set; no erase unless a block ends and collection is due, and then at most one in each block; it stops only if a block has no erase left; only its own entry and those whose pages a cleaning moved are stamped; on a spacious device two blocks stay available |
| `Dftl.Dftl.StorePage` | flashsim/dftl_ftl.cpp:86-100 | The page handed out is EMPTY when programmed, and the page it replaces is invalidated |
| `Dftl.Dftl.Trim` | flashsim/dftl_ftl.cpp:103-127 | The array loses that page; the table counter drifts by one exactly if the entry was mapped and cached, whose times are kept, and its translation page is written back if it had been modified |
| `Dftl.Dftl.UnmapEntry` | flashsim/dftl_ftl.cpp:117-121 | Only that entry is unmapped, and it stays marked as cached |
| `Dftl.EventArrive` | flashsim/dftl_ftl.cpp:57-127 | Every operation acts on the array as on a plain array; the number of entries marked as cached moves away from the counter by one exactly if a mapped and marked page is trimmed |
| `Dftl.Replay` | flashsim/dftl_ftl.cpp:57-216 | Over any run every read of a written page returns the bytes last written; the entries marked as cached run ahead of the counter by exactly the number of trims of mapped and marked pages, so not at all if and only if there is none; with more than 20 blocks, three blocks' worth of logical pages never written and an erase left in each block for every write, the run completes |
| `Dftl.ReplayNew` | flashsim/dftl_ftl.cpp:57-216 | The same on a new device: it completes if each block has an erase for every write |
| `Dftl.DriftNone` | flashsim/dftl_ftl.cpp:103-127 | The counted drift of a run is zero if and only if no request trims a mapped and marked page |
| `Dftl.DriftRun` | flashsim/dftl_ftl.cpp:77-127 | On a new device one write and one trim of a page leave one more entry marked as cached than the counter tells |
| `TrackedPages.RemoveOk` | src/lru_pure.h:133-169 | Erasing a key from list and table keeps them in agreement |
| `TrackedPages.RecencyWithout` | src/lru_pure.h:83-96 | Removing a key keeps a list in order of last use |
| `WriteBack.WriteBackConservation` | src/lru_pure.h:58-98 | In every run a cached page is dirty exactly if written since its last miss, misses are cached pages plus evictions, and pages that became dirty are cached dirty or were evicted dirty |
| `PureLru.PureLruCache.Access` | src/lru_pure.h:52-100 | One LRU step on list, table and eviction counters, with the flags telling hit, miss and eviction |
| `PureLru.PureLruCache.Insert` | src/lru_pure.h:196-221 | Inserts at the back, evicting first if full |
| `PureLru.PureLruCache.Evict` | src/lru_pure.h:239-246 | Evicts the front of the list |
| `PureLru.PureLruCache.Remove` | src/lru_pure.h:133-169 | Drops the key from both and counts it as clean or dirty |
| `PureLru.StepKeeps` | src/lru_pure.h:52-100 | An access keeps list and table in agreement within the capacity, serves its page and evicts only from a full cache |
| `PureLru.StackMeaning` | src/lru_pure.h:52-100 | The stack lists exactly the keys used, in order of last use |
| `PureLru.StackProperty` | src/lru_pure.h:52-100 | After any trace the cache is the last c elements of the stack |
| `PureLru.Inclusion` | src/lru_pure.h:52-100 | A larger cache holds everything a smaller one holds, at every point |
| `PureLru.MissesMonotone` | src/lru_pure.h:52-100 | More capacity never means more misses |
| `PureLru.HitIffReuseDistance` | src/lru_pure.h:52-100 | An access hits exactly if its key was used before and fewer than c distinct keys since |
| `PureLru.RunConserves` | src/lru_pure.h:58-98 | The write-back accounts balance in every run |
| `Arc.Arc.Access` | src/arc.h:59-267 | One ARC step; the page is served, at most one page leaves for it, and only from a full cache; target, lists and ghosts afterwards are stated from those before |
| `Arc.Arc.ServeHit` | src/arc.h:86-122 | Case I: from either list to the back of T2, dirty bit kept |
| `Arc.Arc.ServeB1` | src/arc.h:124-157 | Case II with its adaptation, REPLACE and the move to T2 |
| `Arc.Arc.ServeB2` | src/arc.h:158-191 | Case III likewise |
| `Arc.Arc.MakeRoom` | src/arc.h:196-251 | Case IV: drops the oldest ghost or page that stands in the way |
| `Arc.Arc.Replace` | src/arc.h:270-338 | Evicts from T1 or T2 as the target says, counts it, and records the requested key |
| `Arc.StepKeeps` | src/arc.h:59-267 | Every access keeps all size bounds, 0 <= p <= c, T1 and T2 disjoint, B1 and B2 disjoint, ghosts only beside a full cache; it never reads an empty list and evicts exactly on a miss of a full cache |
| `Arc.StepTransition` | src/arc.h:59-338 | A hit in B1 raises the target by d, at most to the capacity, where d is 1 if B1 is no shorter than B2 and else d * |B1| <= |B2| < (d + 1) * |B1|; a hit in B2 lowers it likewise, at least to 0; no other access moves it. The page that leaves is the front of T1 exactly if T1 is longer than the new target, or as long and the key is a ghost of B2; and the four lists change by it, the requested key and the ghost in the way alone |
| `Arc.GhostHit1Keeps` | src/arc.h:124-157 | Case II keeps them: T1 cannot fill the cache, so REPLACE finds a page |
| `Arc.GhostHit2Keeps` | src/arc.h:158-191 | Case III keeps them: the target falls below the capacity, so REPLACE finds a page |
| `Arc.MissedKeeps` | src/arc.h:192-264 | Case IV keeps them |
| `Arc.HitKeeps` | src/arc.h:86-122 | Case I keeps them |
| `Arc.ReplacedDrops` | src/arc.h:270-338 | REPLACE removes one cached page and counts it by its dirty bit |
| `Arc.GhostsAreRequested` | src/arc.h:299-335 | The ghosts after an access, exactly: the requested key is among them if and only if it was cached and a ghost before, or REPLACE put it into the ghost list it is not taken from, or it was in no list and REPLACE was called; of the others only the one in the way is forgotten, and the evicted page is never added |
| `Arc.ApartStep` | src/arc.h:59-338 | An access keeps cached pages and ghosts without a common key if and only if the requested key does not become a ghost |
| `Arc.ApartExactlyWhen` | src/arc.h:59-338 | Over a run: cached pages and ghosts have no key in common at every point if and only if no access makes its own key a ghost |
| `Arc.OverlapReached` | src/arc.h:299-335 | Four accesses to an empty cache after which a key is cached and a ghost at once, and the evicted one is remembered nowhere |
| `Arc.ListsByRecency` | src/arc.h:59-338 | In every run both page lists are in order of last use, so the page evicted is the least recently used of its list |
| `Arc.RunConserves` | src/arc.h:71-121 | The write-back accounts balance in every run |
| `DirtyRuns.FindRun` | src/lru_dynamic.h:274-340 | The search up and then down finds the maximal run of dirty pages around a dirty page |
| `DirtyRuns.LeftRunIsRun` | src/lru_stl.h:81-125 | With whole runs cleaned, a maximal run of what is left is a maximal run of the original |
| `DirtyRuns.NothingLeft` | src/lru_stl.h:81-125 | When nothing dirty is left, the runs written are exactly the maximal runs, each once |
| `PageLru.PageLruCache.FlushRun` | src/lru_stl.h:82-123 | Writes back the maximal run around a dirty page, cleaning exactly it |
| `PageLru.PageLruCache.Flush` | src/lru_stl.h:81-125 | The runs written are exactly the maximal runs of dirty pages, each once; each dirty page is counted once, none stays dirty, the list is untouched |
| `PageLru.PageLruCache.Access` | src/lru_stl.h:58-181 | The flush if due, then one LRU step, with deadlines computed in 32 bits |
| `PageLru.PageLruCache.Serve` | src/lru_stl.h:131-181 | The LRU step with the old dirty bit kept on a hit |
| `PageLru.DeadlineAhead` | src/lru_stl.h:72-127 | After a flush, whatever the counter and however often it has wrapped: the next deadline lies ahead if and only if the first time beyond the request that is a whole number of gaps from the deadline passed fits 32 bits; else it is that time less 2^32, which has passed |
| `PageLru.DeadlineIsNext` | src/lru_stl.h:77-127 | In every run in order of time: the next deadline is the first multiple of the gap beyond the last request if and only if that request came before the last multiple that fits 32 bits |
| `PageLru.OnTimeExactly` | src/lru_stl.h:77-129 | Over a run in order of time: every request flushes exactly if it is the first of its window if and only if no request but the last comes at or after the last multiple of the gap that fits 32 bits |
| `PageLru.FlushesOnTime` | src/lru_stl.h:77-129 | A request flushes if and only if it is the first of its window, as long as the one before it came before that multiple |
| `PageLru.WrapReached` | src/lru_stl.h:78-127 | Three requests after the first of which the deadline has passed, and after the second of which it lies ahead, so that the third does not flush |
| `PageLru.PreparedKeeps` | src/lru_stl.h:78-129 | A flush changes neither keys nor recency and moves every dirty page to the count of pages written |
| `PageLru.SameKeysAsPureLru` | src/lru_stl.h:58-181 | Flushing changes no hit: the list is that of the pure LRU cache in every run |
| `PageLru.DirtyConserved` | src/lru_stl.h:58-234 | Every page that became dirty is cached dirty or was written back once, by flush or eviction |
| `PageLru.DirtyWindow` | src/lru_stl.h:78-129 | In every run in order of time, at all times the 32-bit deadlines allow for, a dirty page was written in the window of the last request: none is older than one gap |
| `DynamicLru.DynamicLruCache.Access` | src/lru_dynamic.h:83-138 | One step; a hit stores the new flags alone; the flags tell hit, miss, eviction and its kind; who is evicted is stated from the state before |
| `DynamicLru.DynamicLruCache.Insert` | src/lru_dynamic.h:179-203 | Inserts at the back after making room |
| `DynamicLru.DynamicLruCache.Evict` | src/lru_dynamic.h:222-417 | A clean front goes alone; else the first run reaching the threshold in recency order goes, else the run of the front |
| `DynamicLru.DynamicLruCache.EvictLongRun` | src/lru_dynamic.h:266-345 | The scan evicts the maximal run around the first key whose run is long enough, or proves there is none |
| `DynamicLru.DynamicLruCache.EvictFrontRun` | src/lru_dynamic.h:347-402 | Evicts the maximal run around the least recently used key and lowers the threshold |
| `DynamicLru.DynamicLruCache.Remove` | src/lru_dynamic.h:153-174 | Every page of the run is found; list and table lose exactly the run |
| `DynamicLru.EvictsKeeps` | src/lru_dynamicB.h:222-417 | Eviction removes at least one page, only pages it counts, and keeps the threshold within 1 and capacity + 1, or twice the capacity for the doubling variant |
| `DynamicLru.ShortThreshold` | src/lru_dynamicC.h:347-350 | The threshold is lowered only above the length of a run, so it never falls below one |
| `DynamicLru.StepWhom` | src/lru_dynamic.h:222-417 | A long eviction takes the first key in recency order around which as many dirty pages in a row are cached as the threshold says, a short one the least recently used key for want of such a key, and with it go exactly the dirty pages linked to it without a gap; a clean front goes alone |
| `DynamicLru.StepThreshold` | src/lru_dynamic.h:266-402 | A long eviction adds one to the threshold, or doubles it in the doubling variant; a short one subtracts one, or halves it rounding down in the halving variant; nothing else changes it |
| `DynamicLru.ThresholdCounts` | src/lru_dynamicB.h:222-417 | Adding and subtracting one: at every point of every run the threshold is one plus the long evictions less the short ones |
| `DynamicLru.LongStretch` | src/lru_dynamicC.h:222-417 | Over any stretch of a run without short evictions the threshold grows by the number of long ones, or by that power of two as a factor in the doubling variant |
| `DynamicLru.ShortStretch` | src/lru_dynamic.h:347-402 | Over any stretch without long evictions k short ones subtract k, or in the halving variant leave t' with t' * 2^k <= t < (t' + 1) * 2^k |
| `DynamicLru.CutOk` | src/lru_dynamic.h:153-174 | Removing a maximal run removes as many pages as it is long, at least one |
| `DynamicLru.StepKeeps` | src/lru_dynamic.h:83-138 | An access keeps agreement, bounds, recency and dirty bits |
| `DynamicLru.EveryRun` | src/lru_dynamicC.h:83-417 | In every run of the three variants: list and table agree within the capacity, thresholds are within bounds, a page is dirty exactly if last accessed by a write, misses are cached pages plus evictions |
| `DynamicLru.Simulate` | src/main.cpp:251-279 | A whole trace through the cache is such a run, with its misses counted |
| `Owbp.ScanFuture` | src/owbp.cpp:5-83 | The distance is the line of the first reference to the block in the window of distinct pages, INF if none; hot exactly if the page is referenced there; a window of 0 wraps to the largest |
| `Owbp.WindowCounts` | src/owbp.cpp:5-83 | A request is examined if and only if it is the next one, or the distinct pages up to it together with the current one leave room in the window; a window of 0 counts as 2^32 |
| `Owbp.OwbpCache.Access` | src/owbp.cpp:179-311 | Only writes change the cache; a write adds its page and, if it was new and the cache full, all pages of one victim leave; the block table afterwards is stated from the one before; the flags tell hit, miss, eviction and how the block's coldness changed |
| `Owbp.OwbpCache.Evict` | src/owbp.cpp:314-364 | The victim is the smallest of the blocks without a further reference, if any; else every cached block has at most as many cold pages, and each with as many a distance no greater; the block being written is only emptied |
| `Owbp.OwbpCache.Store` | src/owbp.cpp:89-176 | The page is stored with the distance and hotness the trace tells |
| `Owbp.OwbpCache.InsertNewBlk` | src/owbp.cpp:140-176 | A new block enters pool or heap as its distance demands |
| `Owbp.OwbpCache.UpdateIndex` | src/owbp.cpp:245-299 | A written block moves to where its new distance puts it |
| `Owbp.ReindexedOk` | src/owbp.cpp:245-299 | The pool stays the blocks at distance INF, the heap the metadata of the others, each once |
| `Owbp.EvictedKeeps` | src/owbp.cpp:314-364 | Eviction frees at least one page and keeps index and size counter exact |
| `Owbp.StoredKeeps` | src/owbp.cpp:101-125 | Storing a page adds exactly it and leaves no cached block empty |
| `Owbp.WritesKeeps` | src/owbp.cpp:179-364 | Every write keeps pool, heap, table and size in agreement within the capacity |
| `Owbp.WritesTable` | src/owbp.cpp:179-364 | The block table after a write: the victim is gone, or emptied if it is the block written; that block has the page added, cold or not as the trace tells, and its new distance; every other block is as before |
| `Owbp.HeapVictim` | src/owbp.cpp:329-346 | A largest heap entry belongs to a cached block with the most cold pages and of those the greatest distance |
| `Owbp.SomeCached` | src/owbp.cpp:314-345 | A full cache with an empty pool has a heap entry: the assertion holds |
| `Channel.Channel.Unlock` | flashsim/ssd_channel.cpp:195-207 | Erases expired entries with the code's skipping, and sorts the rest |
| `Channel.Channel.Lock` | flashsim/ssd_channel.cpp:123-190 | Reserves the slot chosen, adds its waiting and total time, and keeps the table free of overlap; the slot begins at start, or else at the end of the first entry left that ends at or after start with a long enough gap behind it, or of the last |
| `Channel.Channel.Between` | flashsim/ssd_channel.cpp:154-173 | The scan returns the end of the first entry with a long enough gap behind it, else of the last |
| `Channel.ScheduledIsChosen` | flashsim/ssd_channel.cpp:134-174 | The time chosen is start if the table is empty or begins a whole duration after it, and else the end of the first entry at or after start with a gap behind it, or of the last: a free start further on is not looked for |
| `Channel.PrunedKeeps` | flashsim/ssd_channel.cpp:197-205 | Only expired entries are erased |
| `Channel.PrunedExactly` | flashsim/ssd_channel.cpp:197-205 | What the erase loop leaves, exactly: all entries but those at even positions whose own and all earlier even positions have expired |
| `Channel.PrunedAllExpired` | flashsim/ssd_channel.cpp:192-205 | No expired entry is left if and only if every expired entry is at an even position and all entries at even positions before it have expired |
| `Channel.SortedInOrder` | flashsim/ssd_channel.cpp:206-211 | Sorting disjoint intervals by lock time puts them one after the other |
| `Channel.ScheduledFree` | flashsim/ssd_channel.cpp:134-174 | The slot chosen overlaps nothing in the table |
| `Channel.BeginsBeforeStart` | flashsim/ssd_channel.cpp:134-174 | In terms of the stored table: the slot begins before the requested start if and only if entries are left and all of them end before it |
| `Channel.EarliestFit` | flashsim/ssd_channel.cpp:134-174 | In terms of the stored table: the slot is the earliest at or after start if and only if start is not free, or no expired entry is left, or an entry left ends just there |
| `Channel.EarliestInRun` | flashsim/ssd_channel.cpp:123-207 | The same at every call of every run with positive durations |
| `Channel.BusExclusion` | flashsim/ssd_channel.cpp:123-207 | With positive durations the reserved intervals are pairwise disjoint in every run |
| `Channel.ExclusiveExactlyWhen` | flashsim/ssd_channel.cpp:123-207 | For a set of allowed durations: every run is free of overlap if and only if empty and real transfers are not both allowed |
| `Channel.MixedOverlaps` | flashsim/ssd_channel.cpp:123-207 | Four calls, one of them empty, that overlap |
| `Channel.ReadyIsGreatest` | flashsim/ssd_channel.cpp:182-183 | The ready time is the greatest unlock time ever granted |
| `Channel.HistoryExclusion` | flashsim/ssd_channel.cpp:123-207 | In every run with starts in order and positive durations: all slots ever granted are pairwise disjoint if and only if no call is placed behind a table of expired entries and reaches a slot granted before |
| `Channel.HistoryStep` | flashsim/ssd_channel.cpp:123-207 | One call keeps them disjoint if and only if it is not such a call |
| `Channel.EveryDurationSafe` | flashsim/ssd_channel.cpp:123-207 | Before a call: every duration keeps them disjoint if and only if no entry is left, or one left ends at or after start, or the last to end is the last ever granted to end |
| `Channel.HistorySafeExactlyWhen` | flashsim/ssd_channel.cpp:123-207 | After a run in which no call was made behind the history all slots are disjoint, and they stay so for every duration of a further call if and only if it is not made behind the history either |
| `Channel.LateOverlaps` | flashsim/ssd_channel.cpp:195-207 | Four calls in order whose last one is granted a slot in the past, over another, and not the earliest one |
| `Addressing.FlashAddress.SetLinearAddress` | flashsim/ssd_address.cpp:149-162 | The fields name the page of the linear address, and the level of validity is kept |
| `Addressing.FlashAddress.SetLinearAddressTo` | flashsim/ssd_address.cpp:164-168 | The same with the level of validity set |
| `Addressing.FlashAddress.constructor` | flashsim/ssd_address.cpp:69-74 | The fields name the page of the address as passed in 32 bits |
| `Addressing.NarrowedExactly` | flashsim/ssd_address.cpp:69-74 | Every address of the device survives that if and only if the device has at most 2^32 pages |
| `Addressing.FlashAddress.FromFields` | flashsim/ssd_address.cpp:58-67 | The fields and the level are those given; the linear address is not set |
| `Addressing.FlashAddress.CheckValid` | flashsim/ssd_address.cpp:76-106 | The level is lowered to the leading fields in range, level by level, and not at all for an address set from a linear one |
| `Addressing.FlashAddress.Compare` | flashsim/ssd_address.cpp:110-137 | Two addresses match to as many leading fields as they share, as far as both are valid; on the device they match to a level if and only if both are valid to it and the same package, die, plane, block or page holds both |
| `Addressing.SharedMeansSamePart` | flashsim/ssd_address.cpp:110-162 | Two pages of the device share their first fields if and only if the same part of that level holds both |
| `Addressing.FlashAddress.Advance` | flashsim/ssd_address.cpp:175-189 | Adding a signed or unsigned 32-bit integer, in 64 bits, keeps fields and linear address in agreement, and the level |
| `Addressing.StepsUndo` | flashsim/ssd_address.cpp:175-189 | Within 64 bits the sum is exact, beyond them it differs by a multiple of 2^64, and the opposite step undoes a step in any case |
| `Addressing.ComposeDecompose` | flashsim/ssd_address.cpp:149-162 | Addresses of the device decompose into digits in range that determine them |
| `Addressing.StartsOver` | flashsim/ssd_address.cpp:149-162 | Beyond the end of the device the addresses start over |
| `Addressing.DecomposeCompose` | flashsim/ssd_address.cpp:149-162 | Every tuple of digits in range is the decomposition of one address of the device |
| `Addressing.BuildDevice` | flashsim/ssd_plane.cpp:92-95 | The nested constructors create the blocks in the order of their linear addresses; the i-th block's physical address divided by the block size is i for all i if and only if no 32-bit offset overflows |
| `Addressing.CreatedAt` | flashsim/ssd_plane.cpp:92-95 | The block with given fields is created at the position the fields tell, with the sum of the offsets as its address |
| `Addressing.AgreeExactlyWhenFit` | flashsim/ssd_plane.cpp:92-95 | The block at an address has the physical address of its first page and, divided by the block size, its position in the order of creation, on the whole device if and only if no 32-bit offset overflows |
| `Addressing.OverflowReached` | flashsim/ssd_plane.cpp:92-95 | A device of two packages of 2^32 pages on which it does not: the first blocks of both have physical address 0 |
| `Addressing.FitMeansAgree` | flashsim/ssd_bm.cpp:323-327 | Under that condition the position the cost table uses is the block's own |

## Left out

- `MinNecessity.OptimalExactlyWhenSafe`: for requests that share lines the condition for a single capacity above two is not given; safe patterns are optimal there too.
- `PageMin.RunBenchmark`: line numbers stay below INF, and a trace line holds no page twice.
- `Bast.Replay`: addresses are below the device size (the source's assertion admits one more); payloads are always present; `BLOCK_SIZE` is `2^addressShift`; `simpleCurrentFree` starts at 0; the log limit is at least 1; the victim log block is arbitrary where the source draws it at random.
- `Dftl.Replay`: a write at a block end with fewer than two blocks available ends the run, so that garbage collection does not start again from within itself; a run that meets the condition for completion never gets there. Whether collection is due at a ratio of exactly 0.90 and the order of equally costly blocks are arbitrary; the reverse-map entry for page -1 that a trim stores is not kept; event times are reals.
- `Dftl.Dftl.GetFreeDataPage`: for the same reason it, and `Write`, `InsertEvents`, `CollectWorst`, `CollectUnlessCurrent` and `Collect` around it, need two blocks available where a block is to be taken, and `NextDataPage`, `TakePage`, `MovePage`, `MoveAll` and `CleanupBlock` one that is handed out without cleaning.
- `BlockPools.BlockManager.GetPageBlock`: the call of `insert_events` from here is not modelled; in BAST it finds nothing to erase, in DFTL blocks are taken only where it is not made.
- `BlockPools.BlockManager.GetFreeBlock`: the same.
- `PageLru.PageLruCache.Access`: request times are reals whose integer part fits 32 bits; page numbers stay below 2^64 - 1.
- `DynamicLru.DynamicLruCache.Access`: thresholds are unbounded integers; the doubling variant needs twice the capacity to fit an `int`.
- `Owbp.OwbpCache.Access`: the valid page counter (never read) and the output trace are not modelled; among heap entries of equal rank any may be evicted.
- `Channel.Channel.Lock`: connection counts and controller delays are not modelled; entries that start together keep their order when sorted, which matters only if empty transfers are allowed.
- Values cached: of a cached value only its DIRTY bit is kept, the one bit the policies read; the static `p`, flush counter and threshold belong to one cache.
- BlockMinCache: the block-granular variant of the offline cache.
- FAST, block-and-page hybrid and plain page translation layers, the garbage-collector and wear-leveler stubs, `Plane::_merge` and wear statistics.
- The hot/cold and fixed-threshold LRU variants: copies of policies modelled here.
- Delays and statistics other than the counters named, trace parsing, configuration, logging, output traces, memory mapping, threads, RAID, drivers, and hierarchies of several cache levels.
