# Verification of QueryX's storage and access layers

QueryX is a small relational engine. This project models the part of it that stores, finds and
recovers rows, and proves what that part promises:

* **B+ tree** (`btree_*.dfy`, `btree.dfy`). A tree shape with page numbers; functional insertion and
  deletion on it; a page map that spells the shape out, node by node, with the leaf chain; and the
  class `BPlusTree`, whose methods work on the page map and are proved against the functions. Over
  every run, the leaf chain is one sorted list: insertion is `insort_right`, deletion removes the
  first occurrence it can see. Nodes are also encoded to bytes, and every reachable node fits a page.
* **Log, pager and recovery** (`wal.dfy`, `crash.dfy`, `pager.dfy`, `pager_runs.dfy`). Record encoding
  with torn tails; a step machine in which a process crash can fall between or inside any two steps,
  recovery included; and the pager that drives it, with its free list in page 0.
* **Buffer pool** (`buffer_*.dfy`). A write-back LRU cache that no client can tell from plain memory.
* **Slotted pages, heap files, rows** (`slotted_page.dfy`, `page.dfy`, `heap_file.dfy`,
  `row_codec.dfy`), on the bytes.
* **Hash index** (`hash_chains.dfy`, `hash_index.dfy`). Overflow chains that hold a bag of entries.
* **Statements and plans** (`sql.dfy`, `planner.dfy`, `joins.dfy`, `column_index.dfy`, `dml.dfy`,
  `lost_row.dfy`). When an index plan returns what the sequential plan returns, and when a statement
  leaves an index, of either kind, in step with its table.
* **Predicates as text** (`lexer.dfy`, `spelling.dfy`, `parser.dfy`, `grammar.dfy`, `printer.dfy`,
  `printed_text.dfy`). The lexer reads exactly the texts that spell tokens, the parser exactly what a
  grammar derives, and printed predicates read back under an exact condition.

## What the proofs found

* **Empty leaves hide rows.** `search` and `delete` stop at an empty leaf
  (queryx/index/btree.py:220, 347), and deletion can leave one. For every max_keys, the 254 that the
  database uses included, `BTreeHiding.EmptyLeafHidesKey` gives a run: insert keys 1 to max_keys + 1
  and delete those of the left half of the leaf that split. `BTreeRuns.SearchComplete` and
  `BTreeRuns.DeleteComplete` give the exact condition, and `BTreeRuns.InsertKeepsLeaves` and
  `BTreeRuns.DeleteKeepsLeaves` say when empty leaves arise. `range_scan` does not stop at them.
* **So plans and joins can disagree.** `Planner.IndexPathIff` says exactly when an index plan agrees
  with the sequential one, and `Planner.IndexPathEquivalent` that they do for hash indexes, for range
  operators, and for equality on trees without empty leaves. `Joins.ProbeIff` and `Joins.JoinIff` say
  the same of the two joins. On the tree of that run, in step with its table, the index plan misses a
  row (`LostRow.PlanMissesRow`) and so does the index join (`LostRow.JoinMissesRow`).
* **And an index can fall out of step.** A DELETE or UPDATE leaves a B+ tree in step with the table if
  and only if deletion got to each old entry when its turn came: `ColumnIndexes.StatementIff`. One
  DELETE on a tree without empty leaves can empty a leaf and then miss an entry
  (`LostRow.DeleteMissesRow`, `LostRow.DeleteEndsOutOfStep`).
* **A log holding only a torn first record is kept.** Opening truncates the log only if it replayed
  something (queryx/storage/pager.py:73-77), so later appends land behind the torn bytes, and some of
  them are lost to the next replay. `Crash.DurableIff` is the exact statement: after opening, every
  later write of a whole page is safe, however the run goes on, if and only if the log that was found
  was empty or held an intact record. `Crash.StuckLogLosesWrite` is a family of runs that lose a write,
  and `PagerRuns.StuckListUnsafe` and `PagerRuns.TornListUnsafe` put a page in use on the free list.
* **`!=` on a B+ tree column.** The optimizer can choose it (queryx/planner/optimizer.py:113), and
  the database then rejects it (queryx/database.py:626). `Planner.RejectedIff` says exactly when that
  can happen, with costs under which it must, and `Planner.NeqChosen` when it does for one comparison.
* **Chained comparisons do not survive printing.** A comparison whose operand is a comparison prints
  without parentheses (queryx/planner/explain.py:39). `PrintedText.PrintRoundTrip` proves that this
  is the only obstacle.

## Assumptions

* A process crash keeps every byte that was flushed; it leaves a strict prefix of an append in
  flight and arbitrary bytes in a page write in flight (queryx/wal/log.py:21-25).
* The checksum is an uninterpreted function. No theorem needs it to be free of collisions.
* Page numbers and slots fit 32 bits and index keys 64, as the formats store them.
* Every structure above the buffer pool is modelled on plain page memory;
  `BufferModel.Transparent` is what makes that the same thing.

## Model

| member | source | states |
|---|---|---|
| SortedKeys.BisectRight | queryx/index/btree.py:284 | the loop returns the first position whose key exceeds k |
| SortedKeys.BisectLeft | queryx/index/btree.py:202 | the loop returns the first position whose key is at least k |
| BTreeInsert.InsertOrdered | queryx/index/btree.py:272-324 | through any splits separators keep bounding their subtrees, not strictly, and the key set grows by the new key alone |
| BTreeInsert.SplitNodeOrdered | queryx/index/btree.py:312-324 | an internal split leaves two ordered nodes with the middle key between them |
| BTreeInsert.WidenedOrdered | queryx/index/btree.py:286-291 | a node that takes in a separator and a right sibling of child i stays ordered |
| BTreeGrowth.InsertFlat | queryx/index/btree.py:258-324 | recursive insertion with splits is stable sorted insertion into the leaf sequence |
| BTreeGrowth.InsertBalanced | queryx/index/btree.py:272-324 | all leaves stay at one depth |
| BTreeGrowth.InsertCapped | queryx/index/btree.py:272-324 | no node ends up with more than max_keys keys |
| BTreeGrowth.InsertFilled | queryx/index/btree.py:297-324 | a split leaves two nodes that are at least half full |
| BTreeGrowth.InsertPages | queryx/index/btree.py:297-324 | insertion keeps every page in use and takes fresh pages in order, each once |
| BTreeGrowth.InsertKeepsFirst | queryx/index/btree.py:297-310 | insertion keeps a subtree's root page and first leaf, so links to it stay good |
| BTreeStore.HoldsInsert | queryx/index/btree.py:272-324 | the node writes of one recursion step make the pages spell the tree after insertion, leaf chain included, and touch no other page |
| BTreeStore.HoldsLeaves | queryx/index/btree.py:301-310 | the next pointers chain exactly the in-order leaves |
| BTreeStore.HoldsPut | queryx/index/btree.py:340-346 | rewriting one leaf page replaces that leaf in the tree and nothing else |
| BTreeWalk.LandingPageIs | queryx/index/btree.py:193-204 | the functional descent and the position in the leaf chain name the same leaf |
| BTreeWalk.LandingSkips | queryx/index/btree.py:193-204 | no entry left of the leaf `_find_leaf` reaches has the key |
| BTreeWalk.LandingReaches | queryx/index/btree.py:193-204 | every entry right of that leaf is at least the key |
| BTreeWalk.VisibleHidden | queryx/index/btree.py:206-224 | the leaf sequence is what a walk can see and what lies past the first empty leaf |
| BTreeWalk.TreeSorted | queryx/index/btree.py:1-43 | the leaf sequence of an ordered tree is sorted |
| BTreeDelete.PutFlat | queryx/index/btree.py:328-351 | replacing the entries of one leaf replaces that stretch of the sequence |
| BTreeDelete.PutOrdered | queryx/index/btree.py:328-351 | taking entries out of a leaf keeps the tree ordered |
| BTreeDelete.PutFilled | queryx/index/btree.py:328-351 | only the leaf that lost an entry can fall below half full |
| BTreeRoot.InsertRootSound | queryx/index/btree.py:258-270 | insertion keeps the whole invariant: order, one depth, at most max_keys, distinct pages |
| BTreeRoot.InsertRootFlat | queryx/index/btree.py:258-270 | with root growth, insertion is stable sorted insertion |
| BTreeRoot.DeleteRootFlat | queryx/index/btree.py:328-351 | deletion removes the first occurrence in the sequence if one is visible and otherwise changes nothing |
| BTreeRoot.DeleteRootSound | queryx/index/btree.py:328-351 | deletion keeps the whole invariant and the height |
| BTreeRoot.SearchEnds | queryx/index/btree.py:206-224 | where the search loop stops it has collected exactly the visible rows under the key |
| BTreeRoot.RangeEnds | queryx/index/btree.py:226-248 | a scan that stops above the upper bound has yielded everything in range |
| BTreeRoot.DeleteStep | queryx/index/btree.py:340-351 | a leaf without the entry hands the walk on, or ends it with the entry not visible |
| BTree.BPlusTree.constructor | queryx/index/btree.py:105-123 | a fresh file is a meta page and an empty root leaf |
| BTree.BPlusTree.Insert | queryx/index/btree.py:258-270 | on pages: the tree becomes the functional insertion's tree, and its entries the sorted insertion |
| BTree.BPlusTree.InsertInto | queryx/index/btree.py:272-295 | the recursive step stores exactly the parts of the functional insertion and returns its separator and right page |
| BTree.BPlusTree.InsertIntoLeaf | queryx/index/btree.py:274-282 | the leaf case stores the leaf or its two halves |
| BTree.BPlusTree.AddChild | queryx/index/btree.py:286-295 | which pages a node that takes in a split child writes, and the separator it hands up |
| BTree.BPlusTree.SplitLeafNode | queryx/index/btree.py:297-310 | both halves, the link between them, and the right half's first key as separator |
| BTree.BPlusTree.SplitInternal | queryx/index/btree.py:312-324 | both halves without the middle key, which moves up |
| BTree.BPlusTree.FindLeaf | queryx/index/btree.py:193-204 | the loop ends at the landing leaf |
| BTree.BPlusTree.Search | queryx/index/btree.py:206-224 | returns the visible rows under the key, a prefix of all of them, in insertion order |
| BTree.BPlusTree.LeftmostLeaf | queryx/index/btree.py:250-254 | the loop ends at the first leaf |
| BTree.BPlusTree.RangeScan | queryx/index/btree.py:226-248 | yields exactly the entries in range, in order, in every reachable state |
| BTree.BPlusTree.Delete | queryx/index/btree.py:328-351 | true, and the first occurrence gone, if the entry is visible; false and no change otherwise |
| BTree.BPlusTree.Locate | queryx/index/btree.py:335-351 | the walk finds the first visible occurrence, its leaf and its place there, or establishes that there is none |
| BTree.BPlusTree.CountLevels | queryx/index/btree.py:368-375 | the loop counts the levels of the tree |
| BTreeRuns.Run | queryx/index/btree.py:258-351 | every run of insertions and deletions on a fresh tree ends in a sound tree |
| BTreeRuns.RunIsListed | queryx/index/btree.py:258-351 | while no deletion starts from a tree with an empty leaf, the tree is the sorted list that the operations describe |
| BTreeRuns.InsortMatches | queryx/index/btree.py:206-224 | rows under one key keep insertion order, and other keys are unaffected |
| BTreeRuns.InsertKeepsLeaves | queryx/index/btree.py:258-324 | insertion creates no empty leaf |
| BTreeRuns.DeleteKeepsLeaves | queryx/index/btree.py:328-351 | deletion creates one exactly when it takes the last entry of a leaf that is not the root |
| BTreeRuns.SearchComplete | queryx/index/btree.py:206-224 | search returns every row under the key exactly when none lies past the first empty leaf from the landing leaf on |
| BTreeRuns.DeleteComplete | queryx/index/btree.py:328-351 | deletion reports presence and takes out one occurrence if and only if the entry is absent or visible |
| BTreeRuns.InsertOnlyRun | queryx/index/btree.py:297-324 | after insertions alone every node is half full, the entries are those inserted, and every search is complete and in insertion order |
| BTreeRuns.HeightBound | queryx/index/btree.py:297-324 | a tree of height h >= 2 built by insertions has at least 2 * (max_keys/2 + 1)^(h-2) * ((max_keys+1)/2) entries |
| BTreeHiding.EmptyLeafHidesKey | queryx/index/btree.py:206-224 | for every max_keys, after inserting keys 1, ..., max_keys + 1 and deleting those of the left half of the leaf that split, the next key is still in the tree, but search returns nothing for it and delete does nothing |
| BTreeHiding.LeafSplits | queryx/index/btree.py:258-310 | inserting keys 1, ..., max_keys + 1 leaves exactly two leaves, the left one with (max_keys + 1) / 2 entries |
| BTreeCodec.NodeRoundTrip | queryx/index/btree.py:142-189 | loading a stored node gives the node back |
| BTreeCodec.DecodeIff | queryx/index/btree.py:142-168 | whatever is on a page, it is read as a node if and only if the page starts with that node's bytes, any first byte but a leaf's standing for an inner node |
| BTreeCodec.StoreNode | queryx/index/btree.py:170-189 | the packing loops write exactly the encoding |
| BTreeCodec.LoadNode | queryx/index/btree.py:142-168 | the unpacking loops read exactly the decoding |
| BTreeFit.SubtreeFits | queryx/index/btree.py:67-73 | with at most 254 keys to a node, every node of a well-formed tree fits in 4096 bytes |
| BTreeFit.StoredRun | queryx/index/btree.py:67-73 | after any run every stored node fits and reads back as it was written |
| Bytes.UnpackPack | queryx/index/btree.py:60-65 | unpacking undoes packing, for every width |
| Bytes.PackUnpack | queryx/wal/log.py:64 | and packing undoes unpacking, so bytes spell one number only |
| Bytes.UnpackConcat | queryx/index/btree.py:60-65 | the first bytes are the low-order ones |
| Bytes.UnpackPackSigned | queryx/index/btree.py:64 | two's complement round trip for every 64-bit key |
| PageBytes.PutAtReads | queryx/storage/page.py:134-155 | a write at a position changes the bytes it covers and no others |
| PageBytes.UnpackPackEntries | queryx/index/btree.py:61-62 | entries read back in order, whatever follows them |
| PageBytes.PackUnpackEntries | queryx/index/btree.py:149-153 | and packing what was unpacked gives the bytes back |
| PageBytes.WriteEntries | queryx/index/btree.py:174-176 | the loop writes the entries one after another and nothing else |
| Wal.FirstTorn | queryx/wal/log.py:56-71 | a strict prefix of a record is never taken for a record, whatever the checksum |
| Wal.FirstEncoded | queryx/wal/log.py:48-71 | a record at the front is read back whatever follows it |
| Wal.FirstIff | queryx/wal/log.py:56-71 | whatever bytes a log is, a record is read from its front if and only if its whole encoding stands there, with the checksum of its data |
| Wal.ParseIff | queryx/wal/log.py:56-71 | for every byte string and checksum: what is read back are the records whose whole encodings the log starts with, in order, and reading stops only where no whole encoding follows |
| Wal.ParseEncoded | queryx/wal/log.py:56-71 | any records and then a strict prefix of one more parse as exactly those records |
| Wal.EncodeAllSize | queryx/wal/log.py:48-54 | the size of a log of whole records |
| Wal.ShortTailHides | queryx/wal/log.py:56-71 | one to three torn bytes hide every record behind them |
| Wal.TornTailHides | queryx/wal/log.py:56-71 | a torn tail of any length hides a record logged behind it on a low page other than its own, if no proper suffix of that record parses as a record; whatever the checksum |
| Wal.ZerosQuiet | queryx/wal/log.py:48-71 | the record of a page of zeros on a low page is such a record |
| Wal.WriteAheadLog.LogAppend | queryx/wal/log.py:48-54 | the file grows by exactly the encoding |
| Wal.WriteAheadLog.Records | queryx/wal/log.py:56-71 | the log starts with the encodings of the records yielded, each with its own checksum, and no whole encoding stands behind them |
| Wal.WriteAheadLog.Checkpoint | queryx/wal/log.py:73-82 | the log is empty afterwards |
| Crash.ImagesHas | queryx/wal/recovery.py:23-34 | applying records leaves, on each page, the last image logged for it |
| Crash.StepSafe | queryx/storage/pager.py:59-111 | every step keeps log, disk and committed state in agreement, unless recovery ends on a stuck log |
| Crash.RunSafe | queryx/storage/pager.py:59-111 | so does every run |
| Crash.ReopenRestores | queryx/storage/pager.py:66-77 | from any crash point, opening gives exactly the writes whose append completed |
| Crash.CrashSafety | queryx/storage/pager.py:59-111 | for every run from a safe state (an empty log, a file just created, or whatever a safe run left) in which no recovery ended on a stuck log, with crashes anywhere, recovery included: reopening gives exactly the committed writes, and neither replaying again nor another crash and opening changes anything |
| Crash.DurableIff | queryx/storage/pager.py:66-77 | after opening, every continuation with writes of whole pages and without stuck recoveries restores exactly the committed writes, if and only if the log found was empty or held an intact record |
| Crash.StuckLosesWrite | queryx/storage/pager.py:73-77 | after opening on a stuck log of any length, a write of a page of zeros that is logged in full and torn on disk is lost, whatever the checksum |
| Crash.LogBound | queryx/storage/pager.py:93-99 | between page writes of any such run of whole pages from a log below the threshold, the log is below 2^20 bytes and holds at most 255 records |
| Crash.UpMeansCommitted | queryx/storage/pager.py:87-99 | between page writes the disk holds every committed write |
| Crash.RecoveryRestarts | queryx/wal/recovery.py:23-34 | recovery that was cut short and started over gives what an undisturbed one gives |
| Crash.LogEmptyAfterOpen | queryx/storage/pager.py:66-77 | the log is empty after opening exactly when it was empty or held an intact record |
| Crash.StuckLogLosesWrite | queryx/storage/pager.py:73-77 | a family of runs, from the first append on, in which a write that returned is lost |
| Pager.HeaderRoundTrip | queryx/storage/pager.py:113-138 | page 0 gives back the free list, in order |
| Pager.HeaderIff | queryx/storage/pager.py:123-138 | whatever page 0 holds, a free list is loaded if and only if a whole header of this version with that list stands at its front |
| Pager.DoneOk | queryx/storage/pager.py:174-199 | every operation keeps the list duplicate-free, in bounds, at most 1021 long and apart from the pages in use |
| Pager.DoneAccounted | queryx/storage/pager.py:174-199 | no operation loses a page: every page stays in use or on the list |
| Pager.ReloadedOk | queryx/storage/pager.py:174-199 | a file that holds the first n page writes of an operation loads a list that is in order and apart from the pages in use |
| PagerRuns.WritesRun | queryx/storage/pager.py:87-99 | an operation's page writes, as steps of the crash machine, are all committed and all on disk |
| PagerRuns.CutWrites | queryx/storage/pager.py:87-99 | cut off after any number of steps, exactly the writes whose append is among them are committed |
| PagerRuns.RestartOk | queryx/storage/pager.py:66-85 | an operation cut anywhere, a torn append or page write and openings that are cut short included, is recovered to a file with a good list |
| PagerRuns.FreeListSafe | queryx/storage/pager.py:113-199 | over all runs of operations and crashes from any good file and any safe log in which no recovery ended on a stuck log, the list loaded is duplicate-free, in bounds, and never holds a page handed out and not freed since |
| PagerRuns.NewFileSafe | queryx/storage/pager.py:81-85 | so it is from the first session of a file on, which starts with the record of page 0 still in the log |
| PagerRuns.NewFileOk | queryx/storage/pager.py:81-85 | creating a file leaves a good file and a safe log below the threshold |
| PagerRuns.StuckListUnsafe | queryx/storage/pager.py:73-77 | behind one to three torn bytes, whatever the list was, a torn write of page 0 can put a page in use on the list |
| PagerRuns.TornListUnsafe | queryx/storage/pager.py:73-77 | and so it can behind a torn tail of any length, when the list was empty |
| Pager.Pager.Recover | queryx/storage/pager.py:66-77 | the code's recovery is the step machine's |
| Pager.RecoveredFiles | queryx/storage/pager.py:66-85 | a recovered file's length and page 0 give back the page count and the list |
| Pager.Pager.Open | queryx/storage/pager.py:59-85 | opening recovers and loads the free list, or creates the file; a new file is valid, and a file that some run left good is opened as exactly that |
| Pager.Pager.PersistPage | queryx/storage/pager.py:87-99 | log, write and checkpoint, as the step machine runs them |
| Pager.Pager.AllocatePage | queryx/storage/pager.py:174-187 | the last freed page or one past the end is handed out, empty; it is off the list, page 0 is up to date, and no other page changes |
| Pager.Pager.FreePage | queryx/storage/pager.py:189-199 | the page goes to the end of the list, once, unless the list is full, and no page but page 0 changes; the three refusals, exactly |
| BufferModel.GetKeeps | queryx/storage/buffer_pool.py:61-71 | fetching, evicting or not, leaves the memory clients see as it was, and dirty pages cached |
| BufferModel.NewKeeps | queryx/storage/buffer_pool.py:73-78 | a new page adds one empty page to that memory |
| BufferModel.ChangeKeeps | queryx/storage/buffer_pool.py:80-84 | a page changed and marked dirty changes there and nothing else does |
| BufferModel.FlushKeeps | queryx/storage/buffer_pool.py:94-98 | flushing makes the disk equal that memory |
| BufferModel.FlushPageKeeps | queryx/storage/buffer_pool.py:88-92 | flushing one page brings that page up to date on disk |
| BufferModel.Transparent | queryx/storage/buffer_pool.py:43-115 | every client, however it adapts to replies, gets from a pool of any capacity what plain memory gives |
| BufferLru.LruStack | queryx/storage/buffer_pool.py:61-78 | after any run the cache is the most recently accessed distinct pages, in order |
| BufferLru.LargerPoolsHoldMore | queryx/storage/buffer_pool.py:102-112 | on the same run a larger pool holds a smaller one's pages and never misses more |
| BufferPool.BufferPool.GetPage | queryx/storage/buffer_pool.py:61-71 | the method does what the model says and returns the page's own object |
| BufferPool.BufferPool.NewPage | queryx/storage/buffer_pool.py:73-78 | likewise for a new page |
| BufferPool.BufferPool.EvictOneFrame | queryx/storage/buffer_pool.py:108-114 | the least recent page goes, written back if dirty |
| BufferPool.BufferPool.MarkDirty | queryx/storage/buffer_pool.py:80-84 | dirty if cached, refused otherwise |
| BufferPool.BufferPool.FlushAllFrames | queryx/storage/buffer_pool.py:94-98 | the loop over dirty pages does what the model says |
| BufferPool.BufferPool.FlushPageFrame | queryx/storage/buffer_pool.py:88-92 | flushing one page does what the model says |
| BufferPool.BufferPool.Change | queryx/index/btree.py:187-189 | fetching a page, overwriting it and marking it dirty does what the model's change says |
| HashChains.BucketRoundTrip | queryx/index/hash_index.py:103-125 | a bucket page reads back as it was written |
| HashChains.BucketIff | queryx/index/hash_index.py:103-112 | whatever is on a page, it is read as a bucket if and only if it starts with that bucket's bytes |
| HashChains.MetaRoundTrip | queryx/index/hash_index.py:76-88 | so does the meta page |
| HashChains.MetaIff | queryx/index/hash_index.py:83-88 | a page is taken for the meta page if and only if it starts with the magic bytes and that bucket count |
| HashChains.BucketOf | queryx/index/hash_index.py:92-93 | every key, negative ones included, falls in a bucket |
| HashChains.BucketsInTurn | queryx/index/hash_index.py:92-93 | with a bucket count that divides 2^32, as the default 64 does, two keys share a bucket if and only if they are a multiple of the count apart |
| HashChains.InItsChain | queryx/index/hash_index.py:147-157 | an entry occurs in the index as often as on its own bucket's chain |
| HashChains.Rewritten | queryx/index/hash_index.py:114-125 | rewriting one page keeps all chains and exchanges its entries in the bag |
| HashChains.Linked | queryx/index/hash_index.py:141-145 | linking an overflow page keeps chains acyclic and disjoint |
| HashChains.LinkedBag | queryx/index/hash_index.py:141-145 | and adds exactly its entry |
| HashIndex.StoreBucket | queryx/index/hash_index.py:114-125 | the packing loop writes exactly the encoding |
| HashIndex.LoadBucket | queryx/index/hash_index.py:103-112 | the unpacking loop reads exactly the decoding |
| HashIndex.HashIndex.constructor | queryx/index/hash_index.py:57-72 | a fresh index is empty, one page to a bucket |
| HashIndex.HashIndex.Open | queryx/index/hash_index.py:73-88 | reopening gives the same contents |
| HashIndex.HashIndex.Insert | queryx/index/hash_index.py:129-145 | the bag grows by the entry, and the chains stay in order |
| HashIndex.HashIndex.FindRoom | queryx/index/hash_index.py:131-140 | the walk ends, on a page with room or the last one |
| HashIndex.HashIndex.Search | queryx/index/hash_index.py:147-157 | returns each row id exactly as often as it is stored under the key |
| HashIndex.HashIndex.Delete | queryx/index/hash_index.py:159-170 | true exactly if the entry was there, and then one occurrence goes |
| SlottedPage.PlaceKeeps | queryx/storage/page.py:166-195 | placing a record fills its slot, leaves every other slot's bytes, keeps live ranges disjoint, and uses exactly the space it needs |
| SlottedPage.PlaceSame | queryx/storage/page.py:182-192 | a placement leaves alone every byte it does not write |
| SlottedPage.KillKeeps | queryx/storage/page.py:206-220 | deleting empties one slot, keeps the others, and frees no space |
| Page.Page.FindDeadSlot | queryx/storage/page.py:157-162 | the loop finds the first dead slot |
| Page.Page.InsertRecord | queryx/storage/page.py:166-195 | refused exactly if empty or space is short, and then nothing changes; otherwise a dead slot is reused before a new one is made |
| Page.Page.GetRecord | queryx/storage/page.py:197-204 | the slot's record, None if dead, an error out of range |
| Page.Page.DeleteRecord | queryx/storage/page.py:206-220 | true exactly for a live slot, which becomes dead |
| Page.Page.LiveRecords | queryx/storage/page.py:222-228 | the loop yields the live slots in order |
| Page.LiveOfIs | queryx/storage/page.py:222-228 | a page scan lists exactly the live slots, each once, in increasing order |
| HeapFile.RowsPut | queryx/storage/heap_file.py:83-108 | storing in a dead or new slot adds one row under an address that was not live |
| HeapFile.HeapFile.constructor | queryx/storage/heap_file.py:68-74 | opening the same pages gives the same rows |
| HeapFile.FlushReopens | queryx/storage/heap_file.py:135-137 | after a flush, the file on disk holds the rows the pool showed |
| HeapFile.HeapFile.Insert | queryx/storage/heap_file.py:83-108 | every record of 1 to 4088 bytes is stored under a fresh address, on the last page if it has room there and else on a new one, and no other row changes |
| HeapFile.HeapFile.Delete | queryx/storage/heap_file.py:110-118 | the row goes and no other; false if it was not there; errors for unknown pages and slots |
| HeapFile.HeapFile.Get | queryx/storage/heap_file.py:120-123 | the row at a live address, None at a dead one |
| HeapFile.HeapFile.Scan | queryx/storage/heap_file.py:125-131 | exactly the live rows, each once, in page and slot order |
| HeapFile.ScanIs | queryx/storage/heap_file.py:125-131 | the page-by-page listing is the row map in address order |
| RowCodec.RowRoundTrip | queryx/storage/page.py:254-288 | a serialized row reads back, whatever surrounds it |
| RowCodec.DeserializeRow | queryx/storage/page.py:273-288 | the loop over columns reads exactly that |
| RowCodec.SerializeRow | queryx/storage/page.py:254-270 | the loop over columns writes exactly that |
| Sql.PassesIff | queryx/execution/operators.py:64-88 | on a row that has the columns, and with both sides of each comparison of one type, a predicate of AND, OR, NOT, comparisons and bare operands selects the row if and only if it is true as logic has it |
| Sql.Connectives | queryx/execution/operators.py:78-83 | on operands of any kind: AND, OR and NOT are those of logic where both sides evaluate, and the right side matters only where the left one does not decide |
| Sql.CompareOrder | queryx/execution/operators.py:35-39 | the six comparisons are one total order on INT and one on TEXT: exactly one of less, equal and greater |
| Sql.CompareKinds | queryx/execution/operators.py:35-39 | text is never equal to a number, ordering the two raises, and truth values compare as 1 and 0 |
| Sql.TextLessIff | queryx/execution/operators.py:35-39 | one text is less than another if and only if it is at the first character that differs, or ends where the other goes on |
| Sql.PrecedesTransitive | queryx/execution/operators.py:35-39 | the order is transitive |
| Planner.ChooseAccessPath | queryx/planner/optimizer.py:97-126 | for any costs, the loop returns a cheapest path among those that could be chosen |
| Planner.NormalizeMeets | queryx/planner/optimizer.py:66-72 | a flipped comparison holds of the same rows |
| Planner.SargImplied | queryx/planner/optimizer.py:75-84 | a row that passes the predicate meets every comparison pulled out of it |
| Planner.SargableIff | queryx/planner/optimizer.py:66-84 | just the comparisons of a column with a literal that ANDs alone lead to are found, and all of them |
| Planner.IndexOnIff | queryx/planner/optimizer.py:108 | of the indexes on a column the last one is taken |
| Planner.RowIdsHas | queryx/database.py:610-626 | the index lists exactly the entries that meet the comparison, with exclusive bounds one off, but for those a tree's search overlooks |
| Planner.IndexPathIff | queryx/database.py:590-608 | whatever the costs, IndexScan and the kept filter return the same bag of rows as SeqScan and the whole predicate, if and only if the index's search overlooks no row that passes |
| Planner.IndexPathEquivalent | queryx/database.py:590-608 | so they do on a hash index, for range operators, and for equality on a tree without empty leaves |
| Planner.RejectedIff | queryx/planner/optimizer.py:97-126 | the optimizer can choose an operator the database rejects if and only if a top-level conjunct is a != on a B+ tree column, and then there are costs under which every cheapest choice is rejected |
| Planner.NeqChosen | queryx/planner/optimizer.py:113 | and does choose it when it looks cheaper |
| Joins.ColumnAt | queryx/execution/operators.py:46-61 | a column's full name is found at its position |
| Joins.ColumnIndexIff | queryx/execution/operators.py:46-61 | a name refers to column i if and only if i is the last column of that full name or, where no column has it as its full name, the only one of that bare name |
| Joins.BareIff | queryx/execution/operators.py:56-58 | the bare name is what follows the last dot, or the whole of a name without one |
| Joins.EquijoinPasses | queryx/database.py:536-555 | an ON clause recognised as an equijoin, written either way, says the two columns are equal |
| Joins.EquijoinIff | queryx/database.py:536-555 | just the equalities between a column of the one table and a column of the other are recognised |
| Joins.NestedLoopAre | queryx/execution/operators.py:538-551 | the nested loop joins every pair of rows of which the predicate is true, each once, in the order of the left rows and, for each, of the right ones |
| Joins.NestedLoopJoin.Next | queryx/execution/operators.py:538-551 | each call yields the next joined row of the specification |
| Joins.IndexNestedLoopJoin.Next | queryx/execution/operators.py:591-603 | likewise for the index join, whose probe is the index's own search |
| Joins.ProbeIff | queryx/execution/operators.py:591-603 | for one left row, probing yields a part of what scanning yields, and the same bag if and only if the search overlooks no right row with its key |
| Joins.ProbeEquivalent | queryx/execution/operators.py:591-603 | so it does on a hash index and on a tree without empty leaves |
| Joins.JoinIff | queryx/database.py:520-534 | the two joins yield the same bag for a list of left rows if and only if no left row's search overlooks a right row with its key |
| Joins.JoinEquivalent | queryx/database.py:520-534 | so they do on a hash index and on a tree without empty leaves |
| ColumnIndexes.Put | queryx/database.py:312-314 | inserting into an index of either kind keeps it sound and adds the one entry |
| ColumnIndexes.Take | queryx/database.py:371-374 | deleting from a hash index takes one occurrence out; from a B+ tree it does so if and only if the entry is visible, and otherwise changes nothing |
| ColumnIndexes.PutInStep | queryx/database.py:312-314 | storing a row's entry keeps an index of either kind in step with the table |
| ColumnIndexes.MissedStays | queryx/database.py:343-374 | after the changes of a DELETE or UPDATE, an index holds what it should and, besides, exactly the entries that deletion did not get to |
| ColumnIndexes.StatementIff | queryx/database.py:343-374 | any DELETE or UPDATE, in any order and with addresses reused, leaves an index in step if and only if deletion got to each old entry when its turn came |
| ColumnIndexes.ChangeIff | queryx/database.py:343-351 | for one row, re-pointed or deleted: if and only if its old entry is in reach |
| ColumnIndexes.NothingMissed | queryx/database.py:343-374 | so always for a hash index, and for a B+ tree as long as no deletion starts from a tree with an empty leaf |
| Dml.RowBagTake | queryx/database.py:304-377 | the bag of a table is any one row and the bag of the rest |
| Dml.CollectedBag | queryx/database.py:334-341 | the rows collected before an update are exactly the selected part of the table |
| Dml.AssignVersion | queryx/database.py:342-344 | a new row holds, in each assigned column, the last value assigned to it, and in every other column what it held |
| Dml.OneVersion | queryx/database.py:342-344 | and that leaves one row only |
| Dml.Table.InsertRows | queryx/database.py:304-317 | every index that was in step stays so, none gets an empty leaf, the bag grows by the rows, and row_count by their number |
| Dml.Table.UpdateRows | queryx/database.py:319-354 | exactly the selected rows are replaced, though slots are reused in the loop: each by the row that holds the last value assigned to every assigned column and the old value elsewhere; every other row keeps its address; every index that was in step stays so if and only if no deletion on it missed its entry |
| Dml.Table.DeleteRows | queryx/database.py:356-377 | exactly the rows that the WHERE clause selects go (`Sql.PassesIff` says which they are), and row_count falls by their number; every index that was in step stays so if and only if no deletion on it missed its entry |
| Dml.Table.CreateIndex | queryx/database.py:258-278 | an INT column gets an index of the kind asked for, in step with the table and without empty leaves, and any other column is refused; the distinct-key count is right |
| LostRow.PlanMissesRow | queryx/database.py:617-618 | for every max_keys, a reachable tree in step with its table, which the optimizer can choose for c = k, on which the index plan returns nothing and the sequential plan a row |
| LostRow.JoinMissesRow | queryx/execution/operators.py:591-603 | on the same tree, the index join yields nothing for a left row that holds k and the nested loop one row |
| LostRow.DeleteMissesRow | queryx/database.py:370-374 | for every max_keys, one DELETE on the tree of keys 1, ..., max_keys + 1 gets to every entry but the last |
| LostRow.InsertedInStep | queryx/database.py:312-314 | that tree has no empty leaf and is in step with the table of those rows |
| LostRow.DeleteEndsOutOfStep | queryx/database.py:370-374 | that DELETE leaves the index out of step with any table of those rows that it was in step with |
| Parser.Parser.OrExpr | queryx/sql/parser.py:220-224 | the OR loop reads what `Grammar.OrDerived` and `Grammar.ReadDisjunction` characterise, and terminates on every token list ending in EOF |
| Parser.Parser.AndExpr | queryx/sql/parser.py:226-230 | likewise for the AND loop, `Grammar.AndDerived` and `Grammar.ReadConjunction` |
| Parser.Parser.ComparisonExpr | queryx/sql/parser.py:237-243 | at most one comparison operator is taken |
| Parser.Parser.Primary | queryx/sql/parser.py:245-252 | parentheses, aggregates and atoms |
| Parser.Parser.LiteralOrColumn | queryx/sql/parser.py:254-266 | numbers, negative ones included, strings and column references |
| Grammar.ParseIff | queryx/sql/parser.py:217-266 | tokens are read as an expression if and only if the grammar derives it from them: OR below AND below NOT below comparisons, which do not chain, chains of AND and OR leaning left, columns qualified or not, and aggregates |
| Grammar.ReadDisjunction | queryx/sql/parser.py:220-224 | every phrase of the OR layer is read as what it means, and the loop goes on behind it |
| Grammar.ReadConjunction | queryx/sql/parser.py:226-230 | likewise for the AND layer |
| Grammar.OrDerived | queryx/sql/parser.py:220-224 | what the OR layer reads is a phrase of that layer at the front of the tokens, and the rest is left |
| Grammar.AndDerived | queryx/sql/parser.py:226-230 | likewise for the AND layer |
| Grammar.SpelledParses | queryx/sql/parser.py:217-266 | every expression the parser can return reads back from the tokens that put parentheses only where the layers need them |
| Grammar.SpelledShortest | queryx/sql/parser.py:217-266 | the parser returns no other expressions, and no tokens for one are fewer than those |
| Lexer.Lexer.Tokenize | queryx/sql/lexer.py:36-43 | the loop returns the tokens, or the error, that `Spelling.LexIff` and `Spelling.LexRefuses` characterise |
| Lexer.LexEnded | queryx/sql/lexer.py:36-43 | a token list ends with EOF and holds it nowhere else |
| Spelling.LexIff | queryx/sql/lexer.py:31-160 | a text is read as tokens if and only if it spells them: reserved words in any case, other words as identifiers, digits after any zeros, texts with their quotes doubled, both spellings of NEQ, every symbol; with blanks and comments between, and each token ending where it could go on no longer |
| Spelling.LexRefuses | queryx/sql/lexer.py:91-160 | a text is refused if and only if it spells no tokens |
| Spelling.WordIff | queryx/sql/lexer.py:84-89 | which token a word stands for |
| Spelling.ParseTextIff | queryx/sql/parser.py:217-266 | a text is read as an expression if and only if it spells a phrase that means it |
| Printer.PrintParse | queryx/sql/parser.py:217-266 | the printed tokens parse back to the predicate exactly when no comparison is an operand of a comparison |
| PrintedText.LexShow | queryx/planner/explain.py:30-44 | the printed text lexes to those tokens |
| PrintedText.PrintRoundTrip | queryx/planner/explain.py:30-44 | printing, lexing and parsing gives the predicate back, under exactly that condition |

## Left out

- Crash.CrashSafety: covers runs in which no recovery ends on a log holding only a torn record; `Crash.DurableIff` gives the exact condition.
- PagerRuns.FreeListSafe: under the same condition, which `PagerRuns.StuckListUnsafe` and `PagerRuns.TornListUnsafe` show is needed.
- PagerRuns.TornListUnsafe: for a list that was empty; with pages on it, a record of page 0 may hold bytes that read as a record, and then the torn tail need not hide it.
- Pager.Pager.Replay: pages between the end of the file and a logged page past it, which the file system fills with zeros, are not modelled; no run from a good file logs such a page.
- BTree.BPlusTree.Search: sees only up to the first empty leaf, as the code does; `BTreeRuns.SearchComplete` gives the exact condition.
- Dml.Table.DeleteRows: a hash index is its bag of entries here, and `HashIndex.HashIndex.Delete` proves that the class keeps to that; the rows are deleted in some order, not in scan order.
- Dml.Table.UpdateRows: the same; assignments are well-typed columns of the table, which the statement checks before it changes anything.
- Dml.Table.InsertRows: rows have the table's types and fit a page; statements that raise midway are not modelled.
- Sql.PassesIff: compares columns and literals; an aggregate in HAVING is only looked up under its label.
- Planner.IndexPathIff: predicates have unqualified columns and are well-typed (a row on which evaluation raises counts as one that does not pass, where a plan that reads it raises), the index agrees with the table, and a comparison served by an index has an integer literal.
- Planner.IndexPathEquivalent: the same.
- Joins.JoinIff: left rows carry integers in the join column, and the index agrees with the right table.
- HashIndex.HashIndex.Insert: keys fit 64 bits and pages 32, where the code raises otherwise.
- RowCodec.SerializeRow: values match the schema and fit their fields, where the code raises or converts otherwise; text is its UTF-8 bytes.
- PrintedText.PrintRoundTrip: for unqualified columns, integers and text that Python prints between plain single quotes; aggregates are printed as "?".
- Lexer.Lexer.Tokenize: letters and digits are the ASCII ones; tokens carry no source positions.
- Index pages are modelled as decoded nodes and buckets in the index classes; the byte layouts are proved separately, and every stored node or bucket fits them.
- `BufferModel.Transparent` is about pages as values; that a page object is shared between its users is captured only inside the buffer pool class.
- Freeing a page that the buffer pool still caches: nothing in the engine frees pages.
- Real files, flushing to the device and power loss: the code excludes power loss itself.
- CRC-32 arithmetic: which damage the checksum fails to notice.
- Atomicity across a table's file and its indexes' files: the design does not provide it.
- Cost and selectivity estimates: they are arbitrary numbers here.
- Catalog files, the workload advisor, projection, sorting, limits, grouping and aggregates: they would add easy members.
- The shell, EXPLAIN's layout, benchmarks and demos.
- Use by several threads: the engine is single-threaded.
