# qinDB in Dafny

qinDB is a small relational engine written in C++ with Qt. This project models the parts of it where
several operations must keep one invariant, and proves what they promise:

- the paged **B+ tree** (`BPlus*.dfy`): pages with parent pointers and a doubly linked leaf chain, inserted into,
  split, searched, scanned and deleted from in place;
- **transactions** (`Rollback*.dfy`, `CommitTheory.dfy`): row operations of a session transaction, their undo log,
  what the transaction and other readers see, COMMIT and ROLLBACK;
- the **hash index** (`HashBuckets.dfy`, `HashBucketPages.dfy`, `HashIndexes.dfy`): the bytes of a bucket page as
  a list of entries, and chains of such byte pages as a multimap;
- the **query cache** (`QueryCache.dfy`) and the **inverted index** (`InvertedIndex.dfy`, `SearchScores.dfy`,
  `InvertedSearch.dfy`), compared with a history of calls and with a scan of the documents, and what ranks first;
- **BLAKE2b** fed in pieces (`Blake2b.dfy`) and the **Argon2id memory fill** (`Argon2Fill.dfy`);
- the **wire protocol** (`Framing.dfy`, `QueryResponses.dfy`): reassembly of a byte stream into messages, and the
  query response payload;
- **WHERE clauses** (`Expressions.dfy`, `ExpressionMeaning.dfy`, `Rewriting.dfy`): the evaluator, what its operators
  mean, and the transformations applied to a clause;
- **composite keys** (`CompositeKeys.dfy`).

`Basics.dfy` holds the types, the arithmetic and the sequence facts that several files share.

Code that updates objects in place is a class or a method on an array, proved against functions on values;
lemmas about those functions carry the theorems. `dafny verify dfyconfig.toml` checks everything.

## Where the code does not do what it is meant to do

For each of these there is a statement for all inputs of exactly when it happens; the concrete cases are named beside it.

- Deleting a key that is also a separator just above the leaves can free a leaf its parent still points to
  (`BPlusTheory.SeparatorDeletionBreaks`, `BPlusTree.GenericBPlusTree.Remove`).
- ROLLBACK leaves in a record the first shortest of the rows its updates read and the row that is there
  (`RollbackTheory.UndoneRow`), so it does not restore a row that an in-place UPDATE made shorter (`ShrunkRowStays`),
  nor one that was updated in place and then moved by a growing UPDATE (`MovedRowStays`). Below a vacuumed slot the
  executor reads one record and writes another, and the rollback copies the one over the other
  (`VacuumedSlotMisdirects`). A transaction number used again after a restart hides the rows committed under it when it
  is rolled back (`ReusedIdHidesRows`). `RollbackTheory.RollbackTheorem` has the exact condition for every database and
  every run.
- An in-place UPDATE is read by others before it commits (`CommitTheory.DirtyRead`), though the visibility rules are
  described as snapshot isolation; `CommitTheory.IsolationTheorem` says exactly which runs stay hidden.
- No page accepts a key above 8144 bytes (`HashBuckets.FitsSomePage`): inserting one into a hash index links overflow
  pages until the page ids run out, and then fails (`HashIndexes.HashIndex.Insert`). Rounding up more than 2^31 buckets
  does not end (`HashIndexes.ShiftingNeverReaches`). The comment on `HashIndex::remove` says that row id 0 removes all
  matches; the code removes the first one, and the model follows it.
- A cache re-put that names a new table leaves the query unlisted under it (`QueryCaches.StaleHit`,
  `QueryCaches.ChangesKeepFreshIffCovered`).
- With several lanes of twenty blocks or more the first slice of the Argon2 fill can read a block not yet written
  (`Argon2Fill.TwoLanes`), and with a lane length that is not a multiple of four the last blocks of a lane are never
  written but read in later passes (`Argon2Fill.NineBlocks`); in all other cases every block read has been written
  (`Argon2Fill.FillReadsWritten`). The variable-length hash leaves out the length prefix of section 3.3 of RFC 9106
  for outputs of up to 64 bytes (`Blake2b.Blake2bLong`).
- A length field from 2^31 - 4 to 2^32 - 4 makes the receive loop spin (`Framing.SpinsExactly`).
- A 64-bit integer in a BIGINT column arrives as its upper half
  (`QueryResponses.LongLongArrivesAsUpperHalf`, `QueryResponses.SeenIffMatches`); `QueryResponses.SeenIs` lists what
  arrives for every type of value under every column type.
- An entry limit of 2^31 or more is cut to a signed 32-bit number (`QueryCaches.EntryLimitMeans`).
- The smallest 64-bit integer divided by -1 has no 64-bit quotient (`ExpressionMeaning.IntegerDivision`); C++ leaves the
  result open, and the model wraps.
- Constant folding turns a failing constant into NULL (`Rewriting.DivisionFoldedAway`, `Rewriting.FoldIsLenient`,
  `Rewriting.FoldIsExact`);
  predicate pushdown takes predicates out of a join's WHERE and applies them nowhere
  (`Rewriting.PredicateDropped`, `Rewriting.PushdownIsExact`).
- Keys are compared by what their columns convert to, so different keys can be one (`CompositeKeys.DifferentKeysAgree`).
  CHAR columns are compared without the white space around the text but hashed with it: keys that compare equal have
  equal hashes exactly for column lists without CHAR (`CompositeKeys.EqualKeysHashAlike`).

## Model

| member | source | states |
|---|---|---|
| `BPlusTree.GenericBPlusTree.constructor` | src/index/generic_bplustree.cpp:22-49 | a new tree satisfies the full invariant, stores nothing, is balanced and has exact separators; the invariant says that a root other than a leaf has a key and that leaves with a sibling are half full |
| `BPlusTree.GenericBPlusTree.FindKeyPositionInLeaf` | src/index/generic_bplustree.cpp:1051-1080 | the binary search splits a sorted leaf into the keys below and the keys from the sought one on |
| `BPlusTree.GenericBPlusTree.FindChildPosition` | src/index/generic_bplustree.cpp:1082-1101 | the number of separators not above the key |
| `BPlusTree.GenericBPlusTree.FindLeafPage` | src/index/generic_bplustree.cpp:385-447 | the descent ends in the leaf whose key interval contains the key |
| `BPlusTree.GenericBPlusTree.Search` | src/index/generic_bplustree.cpp:162-204 | finds a key exactly when the stored map has it, with the map's value |
| `BPlusTree.GenericBPlusTree.SplitLeafNode` | src/index/generic_bplustree.cpp:550-632 | the pages after the split, the chain link of the right neighbour included |
| `BPlusTree.GenericBPlusTree.SplitInternalNode` | src/index/generic_bplustree.cpp:634-727 | the pages after the split, every moved child's parent pointer included |
| `BPlusTree.GenericBPlusTree.CreateNewRoot` | src/index/generic_bplustree.cpp:729-768 | the pages after a new root, with no entry gained or lost |
| `BPlusTree.GenericBPlusTree.InsertIntoParent` | src/index/generic_bplustree.cpp:770-846 | from a tree with one pending child to a valid tree with the same entries, through recursive splits up to a new root; balance and exact separators survive |
| `BPlusTree.GenericBPlusTree.InsertIntoLeaf` | src/index/generic_bplustree.cpp:449-548 | a valid tree whose map is updated at exactly that key |
| `BPlusTree.GenericBPlusTree.Insert` | src/index/generic_bplustree.cpp:122-160 | insert is map update, and keeps the invariant (root and leaf fill included), the fill of every node and the exactness of separators |
| `BPlusTree.GenericBPlusTree.RangeSearch` | src/index/generic_bplustree.cpp:292-383 | exactly the stored pairs in the range, in ascending order, none twice |
| `BPlusTree.GenericBPlusTree.DeleteKeyFromLeaf` | src/index/generic_bplustree.cpp:1257-1300 | found exactly when the leaf has the key; the leaf without it |
| `BPlusTree.GenericBPlusTree.BorrowFromLeftSiblingLeaf` | src/index/generic_bplustree.cpp:1351-1434 | lends only from a sibling above the minimum, moving one entry and the separator |
| `BPlusTree.GenericBPlusTree.BorrowFromRightSiblingLeaf` | src/index/generic_bplustree.cpp:1436-1519 | the same on the other side |
| `BPlusTree.GenericBPlusTree.MergeLeaves` | src/index/generic_bplustree.cpp:1521-1662 | the pages after a merge, whose separator is looked up by key equality |
| `BPlusTree.GenericBPlusTree.DeleteKeyFromInternal` | src/index/generic_bplustree.cpp:1664-1697 | drops the separator equal to the key and the child to its right, if there is one |
| `BPlusTree.GenericBPlusTree.HandleUnderflow` | src/index/generic_bplustree.cpp:1699-1768 | tries the borrows, then the merges, in the source's order |
| `BPlusTree.GenericBPlusTree.UpdateRootIfEmpty` | src/index/generic_bplustree.cpp:1770-1807 | an internal root with no key and one existing child gives way to that child, which loses its parent; the old root page is gone and every other page is unchanged; any other root stays |
| `BPlusTree.GenericBPlusTree.Remove` | src/index/generic_bplustree.cpp:223-290 | removing a stored key is map deletion on a valid tree if and only if the deletion is safe, and then the root has a key or is a leaf and every leaf with a sibling is half full; otherwise some page points to a freed page; always safe when separators are exact and the key is none of them, and separators stay exact |
| `BPlusRemove.RemoveTheorem` | src/index/generic_bplustree.cpp:223-271 | the same on pages, through borrow-left, borrow-right, both merges and root collapse |
| `BPlusRemove.UnderflowFills` | src/index/generic_bplustree.cpp:1699-1768 | repairing an underflown leaf leaves every leaf with a sibling half full, and a root without keys only right above a leaf |
| `BPlusRemove.CollapseTheorem` | src/index/generic_bplustree.cpp:1770-1807 | dropping such a root keeps the invariant and everything stored and leaves a root that has a key or is a leaf |
| `BPlusRemove.UnderflowTheorem` | src/index/generic_bplustree.cpp:1699-1768 | repairing an underfull leaf keeps the invariant and the entries exactly when it is repairable |
| `BPlusRemove.ExactRemovesSafely` | src/index/generic_bplustree.cpp:1572-1590 | exact separators make the deletion of any other key safe |
| `BPlusRemove.MergeFits` | src/index/generic_bplustree.cpp:1203-1255 | for every page capacity, a leaf merge taken after a refused borrow never overfills the leaf |
| `BPlusRemove.DanglingIsInvalid` | src/index/generic_bplustree.cpp:1521-1662 | a tree with a dangling child satisfies the invariant under no choice of intervals, chain or root |
| `BPlusInsert.SplitLeafKeepsInv` | src/index/generic_bplustree.cpp:550-632 | a leaf split keeps the whole invariant, sorted nodes, bounds, levels, parent pointers and chain |
| `BPlusInsert.SplitInternalKeepsInv` | src/index/generic_bplustree.cpp:634-727 | an internal split does too |
| `BPlusInsert.GrowKeepsInv` | src/index/generic_bplustree.cpp:729-768 | a new level above the root does too |
| `BPlusInsert.SplitLeafPairs` | src/index/generic_bplustree.cpp:580-600 | a leaf split moves entries and loses none |
| `BPlusSteps.LeafWritten` | src/index/generic_bplustree.cpp:470-510 | writing one entry into its leaf updates the stored map at that key |
| `BPlusBalance.SplitLeafBalance` | src/index/generic_bplustree.cpp:580-582 | both halves of a split leaf are at least half full |
| `BPlusBalance.SplitInternalBalance` | src/index/generic_bplustree.cpp:662-669 | both halves of a split internal node hold at least half of the capacity |
| `BPlusBalance.SplitLeafExact` | src/index/generic_bplustree.cpp:550-632 | a leaf split keeps separators equal to the first key to their right |
| `BPlusBalance.SplitInternalExact` | src/index/generic_bplustree.cpp:634-727 | an internal split does too |
| `BPlusDelete.ShiftKeepsInv` | src/index/generic_bplustree.cpp:1351-1519 | a borrow keeps the invariant |
| `BPlusDelete.MergeKeepsInv` | src/index/generic_bplustree.cpp:1521-1662 | a merge that removes its separator keeps the invariant |
| `BPlusDelete.CollapseKeepsInv` | src/index/generic_bplustree.cpp:1770-1807 | dropping an empty root keeps the invariant |
| `BPlusRange.RangeExtends` | src/index/generic_bplustree.cpp:318-360 | the leaves read so far give exactly the pairs of the range up to their upper bound |
| `BPlusRange.RangeStops` | src/index/generic_bplustree.cpp:335-350 | stopping at the first key above the range loses nothing |
| `BPlusTheory.InvIsTree` | src/index/generic_bplustree.cpp:449-846 | the page invariant implies the recursive definition of a B+ tree with all leaves at one depth |
| `BPlusTheory.ChainIsInOrder` | src/index/generic_bplustree.cpp:550-632 | the leaf chain is the in-order list of the leaves |
| `BPlusTheory.ChainSpellsMap` | src/index/generic_bplustree.cpp:292-365 | read along the chain, the leaves spell the stored map in strictly ascending key order |
| `BPlusTheory.TreeHolds` | src/index/generic_bplustree.cpp:580-582 | a balanced tree with its root h levels above the leaves and capacity m holds at least 2 (m/2+1)^(h-1) ((m+1)/2) keys, for every m |
| `BPlusTheory.FourKeysBuilt` | src/index/generic_bplustree.cpp:550-632 | the four-key tree of the next row is what a root leaf split leaves |
| `BPlusTheory.SeparatorDeletionBreaks` | src/index/generic_bplustree.cpp:1572-1590 | a valid, balanced, exact tree in which deleting a separator leaves a dangling child |
| `RollbackExecutor.Executor.ExecuteBegin` | src/executor/executor.cpp:2638-2669 | a fresh active transaction and an empty undo log; refused inside a transaction; under a number no record names it starts with what any reader saw that wrote nothing |
| `RollbackExecutor.Executor.ExecuteCommit` | src/executor/executor.cpp:2671-2710 | from now on every reader that wrote nothing sees exactly what the transaction saw; refused outside a transaction |
| `RollbackExecutor.Executor.InsertRow` | src/executor/executor.cpp:435-461 | the record is appended and its undo logged; the transaction sees what it saw before and the row in the new slot |
| `RollbackExecutor.Executor.UpdateRow` | src/executor/executor.cpp:1532-1669 | in place with the old row logged, or deleted and inserted elsewhere without a log entry; the transaction sees the new row there, or in the new slot and nothing in the old one, and everything else as before |
| `RollbackExecutor.Executor.DeleteRow` | src/executor/executor.cpp:1834-1885 | the record is marked deleted and its undo logged; the transaction sees nothing there and everything else as before |
| `RollbackExecutor.Executor.ExecuteRollback` | src/executor/executor.cpp:2712-2837 | the backward loop over the undo log, then the abort; every other reader sees again what it saw at BEGIN if and only if the number was unclaimed and each record is left with its row, and for updates that wrote what they read, if and only if all were reversible |
| `CommitTheory.CommitTheorem` | src/storage/transaction.cpp:58-93 | after COMMIT every reader that no record names sees exactly what the transaction saw |
| `CommitTheory.BeginTheorem` | src/storage/visibility_checker.cpp:11-73 | a transaction whose number is fresh starts with the view of any reader that wrote nothing |
| `CommitTheory.InsertView` | src/executor/executor.cpp:435-461 | an insert adds exactly its row to the transaction's view |
| `CommitTheory.UpdateView` | src/executor/executor.cpp:1532-1669 | an update changes the transaction's view in exactly the slot it writes, or moves the row |
| `CommitTheory.DeleteView` | src/executor/executor.cpp:1834-1885 | a delete takes exactly one slot out of the transaction's view |
| `CommitTheory.IsolationTheorem` | src/storage/visibility_checker.cpp:11-73 | for every run before its commit: other readers see nothing of it if and only if the number was unclaimed and every record they saw still holds its row |
| `CommitTheory.DirtyRead` | src/storage/table_page.cpp:699-772 | an in-place update that another reader sees before the commit |
| `CommitTheory.StaysNumbered` | src/storage/transaction.cpp:10-60 | runs, commits and rollbacks keep all numbers in records below the next one |
| `CommitTheory.NumberedIsFresh` | src/storage/transaction.cpp:10-60 | so without a restart the next number is in no record and unclaimed |
| `RollbackTheory.InsertsUndone` | src/executor/executor.cpp:2752-2830 | undoing a logged insert marks its record deleted, whatever followed |
| `RollbackTheory.ScannedIs` | src/storage/table_page.cpp:217-328 | record i of a page scan is the one with i records before it |
| `RollbackTheory.RollbackTheorem` | src/executor/executor.cpp:2752-2830 | for every database, vacuumed slots and reused numbers included, and every run of inserts, updates and deletes: rolling back gives every other reader the rows seen before BEGIN if and only if no committed record names the number and each record another reader saw is left with its row |
| `RollbackTheory.UndoAllAt` | src/executor/executor.cpp:2752-2830 | replaying the whole log acts on each slot as replaying that slot's records |
| `RollbackTheory.RunFollows` | src/executor/executor.cpp:453-461 | over every run, each record is tracked by its part of the undo log, wherever the updates read |
| `RollbackTheory.RolledBackSlot` | src/storage/visibility_checker.cpp:11-73 | exactly when other readers find the same in one slot after the rollback |
| `RollbackTheory.ShrunkRowStays` | src/storage/table_page.cpp:699-772 | a row shortened in place whose view ROLLBACK does not restore |
| `RollbackTheory.MovedRowStays` | src/executor/executor.cpp:1532-1669 | a row updated in place and then moved whose view ROLLBACK does not restore |
| `RollbackTheory.UndoneRow` | src/storage/table_page.cpp:699-772 | undoing updates, last first, leaves the first shortest of the rows they read and the row that is there |
| `RollbackTheory.FirstShortestIs` | src/storage/table_page.cpp:699-772 | which row that is: none before it is as short, none after it shorter |
| `RollbackTheory.DirectRollback` | src/executor/executor.cpp:1532-1669 | for every run whose updates write the record they read: the view is restored if and only if the number was unclaimed, no update shrank a visible old record in place and none moved one it had changed |
| `RollbackTheory.NoHolesDirect` | src/storage/table_page.cpp:217-328 | without vacuumed slots every run is such a run |
| `RollbackTheory.LoneUpdate` | src/executor/executor.cpp:1563-1584 | rolling back a lone in-place update restores the view if and only if the row that was read, or the row written if that is shorter, is the row that was there, or nobody else saw it |
| `RollbackTheory.EmptyTransaction` | src/storage/transaction.cpp:10-60 | BEGIN and ROLLBACK alone keep the view if and only if no committed record was created or deleted under the number |
| `RollbackTheory.StaysReady` | src/executor/executor.cpp:2752-2830 | a run and its rollback keep record lengths right, so the theorem applies again |
| `RollbackTheory.VacuumedSlotMisdirects` | src/storage/table_page.cpp:217-328 | a page with a vacuumed slot on which an update of unchanged length is not undone |
| `RollbackTheory.ReusedIdHidesRows` | src/storage/transaction.cpp:10-60 | rolling back an empty transaction with a reused number hides a row that number committed |
| `HashBuckets.FitsSomePage` | src/index/hash_bucket_page.cpp:26-78 | some page accepts a key if and only if it has 1 to 8144 bytes |
| `HashBuckets.ValuesOfCounts` | src/index/hash_bucket_page.cpp:122-163 | collecting a key's values counts each pair as often as the list has it |
| `HashBucketPages.Initialize` | src/index/hash_bucket_page.cpp:10-24 | a cleared page reads as no entries and no link |
| `HashBucketPages.Insert` | src/index/hash_bucket_page.cpp:26-78 | accepted exactly for a new non-empty key that fits; then the page parses as the old entries and the new one, link kept; otherwise no byte changes |
| `HashBucketPages.Search` | src/index/hash_bucket_page.cpp:80-120 | the first value of the key, if the page lists it |
| `HashBucketPages.SearchAll` | src/index/hash_bucket_page.cpp:122-163 | all its values in page order |
| `HashBucketPages.Remove` | src/index/hash_bucket_page.cpp:165-224 | the page parses as the old entries without the first match, link kept; otherwise no byte changes |
| `HashBucketPages.CloseGap` | src/index/hash_bucket_page.cpp:199-219 | moving the tail down and clearing the end takes out exactly one entry |
| `HashBucketPages.GetAll` | src/index/hash_bucket_page.cpp:226-263 | the parsed entries |
| `HashBucketPages.IsFull` | src/index/hash_bucket_page.cpp:265-289 | full exactly when the entry would pass the end of the page |
| `HashBucketPages.GetNextBucketPageId` | src/index/hash_bucket_page.cpp:291-299 | the link |
| `HashBucketPages.SetNextBucketPageId` | src/index/hash_bucket_page.cpp:301-307 | changes the link and no entry |
| `HashBucketPages.EntryRoundTrip` | src/index/hash_bucket_page.cpp:56-71 | the bytes written for an entry read back as that entry |
| `HashBucketPages.ParseMoved` | src/index/hash_bucket_page.cpp:199-214 | a run of entries parses alike wherever it is moved |
| `HashIndexes.HashIndex.constructor` | src/index/hash_index.cpp:10-35 | the bucket count is the next power of two; the multimap is empty |
| `HashIndexes.RoundUp` | src/index/hash_index.cpp:20-29 | rounding in 32 bits, ending for up to 2^31 buckets |
| `HashIndexes.ShiftingNeverReaches` | src/index/hash_index.cpp:20-29 | for more, no shift reaches the wanted count |
| `HashIndexes.HashIndex.GetBucketPageId` | src/index/hash_index.cpp:357-401 | the first page of the bucket, created on demand, without changing the multimap |
| `HashIndexes.HashIndex.Insert` | src/index/hash_index.cpp:41-116 | adds exactly one pair to the multimap, or none; the walk along the chain ends, for a key above 8144 bytes with all page ids used up |
| `HashIndexes.HashIndex.Search` | src/index/hash_index.cpp:118-176 | on the bytes of the pages: a value of the key, or nothing only if the multimap has none |
| `HashIndexes.HashIndex.SearchAll` | src/index/hash_index.cpp:178-230 | on the bytes of the pages: exactly the multiset of the key's values |
| `HashIndexes.HashIndex.Remove` | src/index/hash_index.cpp:232-290 | on the bytes of the pages: takes out exactly one matching pair if there is one and conserves all others |
| `HashIndexes.OneBucketStep` | src/index/hash_index.cpp:41-116 | a step on one chain keeps the index invariant: no page holds a key twice, chains are disjoint, pairs sit in their bucket |
| `HashIndexes.ExtendChain` | src/index/hash_index.cpp:81-95 | linking an overflow page adds nothing |
| `QueryCaches.QueryCache.Get` | src/cache/query_cache.cpp:39-90 | a hit returns the latest accepted put, less than a second past its time to live, and in a sound cache with no change of its tables since |
| `QueryCaches.QueryCache.Put` | src/cache/query_cache.cpp:92-174 | accepted exactly for a successful result of at most half the budget; evicts only when needed and only entries no more recently used than every survivor; the entry limit holds; soundness, coherence and the budget survive exactly under the stated conditions on a re-put |
| `QueryCaches.EntryLimitMeans` | src/cache/query_cache.cpp:145 | the limit is the given one exactly below 2^31, and congruent to it modulo 2^32 |
| `QueryCaches.QueryCache.InvalidateTable` | src/cache/query_cache.cpp:176-213 | drops the listed queries; in a coherent cache exactly those that read the table |
| `QueryCaches.QueryCache.InvalidateDatabase` | src/cache/query_cache.cpp:215-260 | drops exactly the queries that mention the database, with their listings |
| `QueryCaches.QueryCache.Clear` | src/cache/query_cache.cpp:262-271 | an empty, sound, coherent cache |
| `QueryCaches.QueryCache.EvictLRU` | src/cache/query_cache.cpp:385-420 | evicts one entry no more recent than any survivor |
| `QueryCaches.QueryCache.EvictToFreeMemory` | src/cache/query_cache.cpp:422-469 | frees enough or everything, and no more than that takes; the byte total stays the sum of the entries |
| `QueryCaches.ChangesKeepFreshIffCovered` | src/cache/query_cache.cpp:176-213 | every cached entry stays fresh through any table change if and only if the reverse index lists every cached query under all its tables |
| `QueryCaches.ReplacedEntryAgrees` | src/cache/query_cache.cpp:119-137 | a re-put keeps coherence if and only if its tables are the same, and coverage if and only if all are already listed |
| `QueryCaches.NewEntryAgrees` | src/cache/query_cache.cpp:155-167 | a new entry keeps both |
| `QueryCaches.CoherentDropsExactly` | src/cache/query_cache.cpp:176-213 | in a coherent cache a table change drops exactly its readers |
| `QueryCaches.ExpiryIsAfterOneMoreSecond` | src/cache/query_cache.cpp:374-383 | an entry expires exactly from one second after its time to live |
| `QueryCaches.MemoryWithout` | src/cache/query_cache.cpp:385-420 | removing an entry takes exactly its size off the sum |
| `QueryCaches.StaleHit` | src/cache/query_cache.cpp:119-137 | a run in which a hit is served after its table changed |
| `InvertedSearch.InvertedIndex.Insert` | src/index/inverted_index.cpp:35-92 | a fresh document's tokens join the index, which keeps agreeing with the documents |
| `InvertedSearch.InvertedIndex.Remove` | src/index/inverted_index.cpp:94-135 | the document leaves every list, and emptied lists go |
| `InvertedSearch.InvertedIndex.Update` | src/index/inverted_index.cpp:137-152 | remove, then insert |
| `InvertedSearch.InvertedIndex.GetDocumentTerms` | src/index/inverted_index.cpp:353-366 | the document's term frequencies, which add up to its stored length |
| `InvertedSearch.InvertedIndex.CalculateTfIdf` | src/index/inverted_index.cpp:267-315 | the score a scan of the documents gives |
| `SearchScores.RarerScoresHigher` | src/index/inverted_index.cpp:306-315 | at equal frequency and length a term in fewer documents scores strictly higher |
| `SearchScores.DenserScoresHigher` | src/index/inverted_index.cpp:296-304 | more occurrences, or a shorter document, score strictly higher for the same term |
| `SearchScores.DominantScore` | src/index/inverted_index.cpp:219-265 | and so does a document for a whole query, if it is not worse for any of its terms |
| `SearchScores.RarerQueryScore` | src/index/inverted_index.cpp:219-265 | a document whose only query term is rarer beats one with a commoner term |
| `SearchScores.RarityOfShare` | src/index/inverted_index.cpp:306-315 | only the share of documents with the term counts; a term in all of them weighs log 2 |
| `SearchScores.SingleOccurrence` | src/index/inverted_index.cpp:296-304 | one occurrence weighs log 2 divided by the length |
| `InvertedSearch.InvertedIndex.SearchAnd` | src/index/inverted_index.cpp:174-217 | exactly the documents with all terms, scored as by a scan, best first; a limit keeps the best; for a rising logarithm a document that is not longer and has the terms not less often comes before another, if anything differs |
| `InvertedSearch.InvertedIndex.SearchOr` | src/index/inverted_index.cpp:219-265 | exactly the documents with any term, likewise; and of two equally long documents with one query term each, as often, the one with the rarer term comes first |
| `InvertedSearch.MergeResults` | src/index/inverted_index.cpp:368-393 | the union of the result sets with summed scores |
| `InvertedSearch.IntersectResults` | src/index/inverted_index.cpp:395-460 | the intersection of the result sets with summed scores |
| `InvertedSearch.CommonIds` | src/index/inverted_index.cpp:404-436 | starting from a smallest set and stopping early gives exactly the common documents |
| `InvertedSearch.DfIsDocumentFrequency` | src/index/inverted_index.cpp:66-82 | `df` is the number of documents that contain the term |
| `InvertedIndexes.InsertAgrees` | src/index/inverted_index.cpp:35-92 | insertion keeps the lists in agreement with the documents |
| `InvertedIndexes.RemoveAgrees` | src/index/inverted_index.cpp:94-135 | removal does too |
| `InvertedIndexes.InsertThenRemove` | src/index/inverted_index.cpp:35-135 | inserting a fresh document and removing it is the identity on the index |
| `InvertedIndexes.FrequenciesSum` | src/index/inverted_index.cpp:55-63 | term frequencies sum to the number of tokens |
| `Blake2b.Context.constructor` | src/auth/argon2id.cpp:92-105 | nothing fed, nothing counted |
| `Blake2b.Context.Update` | src/auth/argon2id.cpp:115-148 | any input is appended to what was fed; the buffer holds its last block, the counter the bytes compressed |
| `Blake2b.Context.Final` | src/auth/argon2id.cpp:150-165 | the digest of everything fed, as computed in one go |
| `Blake2b.DigestWord` | src/auth/argon2id.cpp:150-165 | eight bytes of the digest spell a word of the state, the lowest byte first |
| `Blake2b.CounterAdd` | src/auth/argon2id.cpp:125-128 | the two-word counter with carry counts modulo 2^128 |
| `Blake2b.LastBlock` | src/auth/argon2id.cpp:150-165 | the block kept back is the last block of the padded message |
| `Blake2b.HashPieces` | src/auth/argon2id.cpp:115-175 | for every cut of a message into updates the digest is that of section 3.3 of RFC 7693 |
| `Blake2b.HashWithKey` | src/auth/argon2id.cpp:92-186 | a key is a zero-padded first block, counted like the rest |
| `Blake2b.Blake2bLong` | src/auth/argon2id.cpp:211-240 | exactly `outlen` bytes; above 64 the construction of section 3.3 of RFC 9106 |
| `Blake2b.Le32Spells` | src/auth/argon2id.cpp:211-240 | the length in front of a long output is spelled the lowest byte first |
| `Argon2Fill.LayoutOk` | src/auth/argon2id.cpp:242-261 | at least eight blocks a lane and all block numbers below 2^32, if and only if there are fewer than 2^29 lanes |
| `Argon2Fill.LayoutUses` | src/auth/argon2id.cpp:242-261 | the lanes share out the memory cost, or eight blocks each if that is more, but for less than a block a lane |
| `Argon2Fill.PositionInArea` | src/auth/argon2id.cpp:405-408 | no product leaves 64 bits, no difference is negative, and the position is in the reference area |
| `Argon2Fill.IndexInBounds` | src/auth/argon2id.cpp:380-419 | the reference block is in the memory for every step and every random word |
| `Argon2Fill.FirstPassReference` | src/auth/argon2id.cpp:380-419 | in the first pass the reference lies at least two blocks back |
| `Argon2Fill.LaterPassReference` | src/auth/argon2id.cpp:380-419 | later it lies behind the segment or at least two blocks back, wrap-around in 32 bits included |
| `Argon2Fill.LaterPassEnds` | src/auth/argon2id.cpp:380-419 | the references of a later step reach exactly from the next segment to the block before the previous one |
| `Argon2Fill.LanePicked` | src/auth/argon2id.cpp:389-391 | which words pick which lane in the first slice; afterwards the lane is the step's own |
| `Argon2Fill.ReferenceIsOther` | src/auth/argon2id.cpp:380-447 | the reference is neither the current nor the previous block, in any pass and for any lane length |
| `Argon2Fill.ReferenceWritten` | src/auth/argon2id.cpp:380-457 | step by step, exactly when the reference has been written: in the first pass unless it is ahead of its lane in the first slice, later unless it lies behind the four segments |
| `Argon2Fill.FirstPassWritten` | src/auth/argon2id.cpp:380-457 | the first pass reads written blocks only, for all words, if and only if there is one lane or a segment has at most four blocks |
| `Argon2Fill.LaterPassWritten` | src/auth/argon2id.cpp:380-457 | a later pass does if and only if the lane length is four segments |
| `Argon2Fill.FillReadsWritten` | src/auth/argon2id.cpp:449-457 | the whole fill does exactly for one lane or fewer than twenty blocks a lane, and, from the second pass on, lane lengths divisible by four |
| `Argon2Fill.NineBlocks` | src/auth/argon2id.cpp:255-256 | a lane of nine blocks whose last block is read and never written |
| `Argon2Fill.TwoLanes` | src/auth/argon2id.cpp:389-391 | two lanes of twenty blocks, where lane 0 asks for a block of lane 1 that is not there yet |
| `Argon2Fill.PreviousWritten` | src/auth/argon2id.cpp:422-447 | the previous block has been written except at a lane start of a later pass when the lane length is not a multiple of four |
| `Argon2Fill.Context.FillFirstBlocks` | src/auth/argon2id.cpp:286-301 | two given blocks at the start of every lane |
| `Argon2Fill.Context.FillSegment` | src/auth/argon2id.cpp:422-447 | fills the segment in order; every access is in the memory, and what was filled before keeps its recurrence |
| `Argon2Fill.Context.FillPass` | src/auth/argon2id.cpp:450-456 | after the pass every block it fills is the mix of the two blocks its step found, joined with the old value from the second pass on |
| `Argon2Fill.Context.FillMemoryBlocks` | src/auth/argon2id.cpp:449-457 | for any number of passes and lanes every block obeys that recurrence from each pass to the next; after the first pass in that memory alone; and which blocks are ever written |
| `Framing.FrameRoundTrip` | src/network/message_codec.cpp:11-65 | a frame below 2^31 bytes gives its message back, whatever follows it |
| `Framing.FrameLayout` | src/network/message_codec.cpp:11-30 | where length, type and payload lie in a frame, the length highest byte first |
| `Framing.DrainConserves` | src/network/client_connection.cpp:63-89 | frames taken off and bytes left are all the bytes, in order, and what is left is an incomplete frame |
| `Framing.DrainAppend` | src/network/client_connection.cpp:63-89 | draining what has arrived and then the rest is draining everything |
| `Framing.ChunkingDoesNotMatter` | src/network/client_connection.cpp:63-89 | for every byte stream and every cut into reads the same messages come out |
| `Framing.StreamDelivers` | src/network/client_manager.cpp:246-277 | the bytes of any message list, cut anywhere, are received as exactly those messages |
| `Framing.PrefixWaits` | src/network/client_connection.cpp:63-89 | a proper prefix of a frame waits |
| `Framing.SpinsExactly` | src/network/client_connection.cpp:77-86 | the length fields on which the loop never ends |
| `Framing.Receiver.OnReadyRead` | src/network/client_connection.cpp:63-89 | one read does what `Feed` does, ends, and keeps only an incomplete tail |
| `QueryResponses.EncodeQueryResponse` | src/network/message_codec.cpp:206-252 | the loops write the payload |
| `QueryResponses.PayloadLayout` | src/network/message_codec.cpp:206-252 | where each field lies in the payload |
| `QueryResponses.CellLayout` | src/network/message_codec.cpp:436-469 | the bytes of a cell, for every type of value |
| `QueryResponses.DecodeQueryResponse` | src/network/message_codec.cpp:254-325 | the loops read any payload, short or malformed ones too, as the reader functions do |
| `QueryResponses.ResponseRead` | src/network/message_codec.cpp:206-325 | a rectangular response takes exactly its own bytes, whatever the cell types |
| `QueryResponses.ResponseRoundTrip` | src/network/message_codec.cpp:206-325 | decoding recovers status, counts, columns, NULL positions and database, every cell as it arrives under its column type, and the whole response if and only if every cell has the type its column reads |
| `QueryResponses.SeenIffMatches` | src/network/message_codec.cpp:436-508 | a cell is recovered if and only if its value type is the one its column type reads |
| `QueryResponses.SeenIs` | src/network/message_codec.cpp:436-508 | what a value of each type arrives as under each column type; a value of a further type arrives as its text in every column read as text |
| `QueryResponses.LongLongArrivesAsUpperHalf` | src/network/message_codec.cpp:436-508 | what becomes of a 64-bit integer under BIGINT |
| `QueryResponses.StringRead` | src/network/message_codec.cpp:407-434 | strings round-trip |
| `Expressions.FindColumn` | src/executor/expression_evaluator.cpp:388-401 | the first column of the name, or the number of columns |
| `Expressions.ExpressionEvaluator.FindColumnIndex` | src/executor/expression_evaluator.cpp:388-401 | the loop finds it |
| `Expressions.ExpressionEvaluator.EvaluateWithRow` | src/executor/expression_evaluator.cpp:53-226 | value and `lastError` together are what the pure evaluator gives, though the field is cleared at every subexpression |
| `ExpressionMeaning.CompareIntegers` | src/executor/expression_evaluator.cpp:332-346 | the six comparisons of integers are those of the integers |
| `ExpressionMeaning.CompareNumbers` | src/executor/expression_evaluator.cpp:332-346 | and of fractions those of the numbers |
| `ExpressionMeaning.CompareTexts` | src/executor/expression_evaluator.cpp:311-325 | with a text on either side, those of the texts |
| `ExpressionMeaning.CompareNulls` | src/executor/expression_evaluator.cpp:293-307 | NULL equals only NULL, and no order holds or fails for it |
| `ExpressionMeaning.CompareOthers` | src/executor/expression_evaluator.cpp:349-350 | anything else cannot be compared |
| `ExpressionMeaning.IntegerSums` | src/executor/expression_evaluator.cpp:239-246 | sum, difference and product are exact in 64 bits and wrap beyond |
| `ExpressionMeaning.IntegerDivision` | src/executor/expression_evaluator.cpp:247-258 | quotient and remainder divide towards zero, if and only if it is not the smallest integer by -1; by zero it fails |
| `ExpressionMeaning.Fractions` | src/executor/expression_evaluator.cpp:265-284 | exact results, no remainder, failure by zero |
| `ExpressionMeaning.NullArithmetic` | src/executor/expression_evaluator.cpp:232-234 | NULL makes every arithmetic result NULL |
| `ExpressionMeaning.ThreeValued` | src/executor/expression_evaluator.cpp:353-386 | AND is the minimum, OR the maximum and NOT the opposite of FALSE, NULL, TRUE |
| `ExpressionMeaning.UnaryOperators` | src/executor/expression_evaluator.cpp:145-190 | IS NULL, IS NOT NULL and the sign |
| `ExpressionMeaning.ColumnMeans` | src/executor/expression_evaluator.cpp:192-226 | the value of the row at the first column of that name, or which failure |
| `Expressions.ExpressionEvaluator.Filter` | src/executor/executor.cpp:1050-1074 | the scan keeps the rows on which the WHERE is TRUE and fails on the first error |
| `ExpressionMeaning.KeptPicks` | src/executor/executor.cpp:1061-1074 | the kept rows are exactly the included ones, in order and each once |
| `ExpressionMeaning.FailsOnSomeRow` | src/executor/executor.cpp:1061-1074 | a scan fails if and only if the WHERE fails on some row |
| `Expressions.SameVerdictsSameRows` | src/executor/executor.cpp:1061-1074 | equal verdicts on every row make equal results |
| `Rewriting.JudgeConjuncts` | src/executor/expression_evaluator.cpp:353-370 | a WHERE judges a row as its conjuncts together do |
| `Rewriting.JudgeAllMeans` | src/executor/expression_evaluator.cpp:353-370 | some conjunct fails, or else all must include the row |
| `Rewriting.ReorderedConjuncts` | src/executor/expression_evaluator.cpp:353-370 | regrouping, reordering and repeating conjuncts keeps the verdict of every row |
| `Rewriting.ReorderedWhere` | src/executor/executor.cpp:1061-1074 | and so the rows and the error-or-not outcome of every scan |
| `Rewriting.PushKeepsMeaning` | src/executor/expression_evaluator.cpp:145-190 | De Morgan all the way down keeps the exact value or error on every row |
| `Rewriting.PushIsNormal` | src/executor/expression_evaluator.cpp:353-386 | and leaves no NOT above an AND or OR |
| `Rewriting.FoldKeepsMeaning` | src/optimizer/query_rewriter.cpp:301-393 | folding constants keeps the exact value or error when no constant fails |
| `Rewriting.UnsafeFails` | src/optimizer/query_rewriter.cpp:443-457 | when one does, the original fails on every row |
| `Rewriting.FoldIsLenient` | src/optimizer/query_rewriter.cpp:301-457 | on every row a folded expression evaluates as the original does when failing constants and calls of constants are NULL |
| `Rewriting.FoldIsExact` | src/optimizer/query_rewriter.cpp:301-457 | folding keeps the verdict of a row if and only if no constant fails or the row fails even so |
| `Rewriting.ConstantFoldIsExact` | src/optimizer/query_rewriter.cpp:301-457 | and for an expression of constants only, if and only if none of them fails |
| `Rewriting.DivisionFoldedAway` | src/optimizer/query_rewriter.cpp:443-457 | an expression that fails everywhere and, folded, includes every row |
| `Rewriting.PushdownIsExact` | src/optimizer/query_rewriter.cpp:57-115 | the original verdict is that of the remaining and the removed conjuncts together, the new one that of the remaining; and exactly when they are the same |
| `Rewriting.PushdownLeaves` | src/optimizer/query_rewriter.cpp:57-115 | the WHERE stays as it is if and only if no conjunct is on the table alone; otherwise exactly those conjuncts are gone |
| `Rewriting.PredicateDropped` | src/optimizer/query_rewriter.cpp:57-115 | a join whose whole WHERE disappears |
| `CompositeKeys.Compare` | src/index/composite_key.cpp:122-135 | the sign says before, equal or after, in both directions, in the lexicographic order of what the columns convert to; equal means that nullness and converted values agree column by column |
| `CompositeKeys.CompareValue` | src/index/key_comparator.cpp:13-49 | the order of one column through its conversion, NULL first; zero exactly for agreeing values |
| `CompositeKeys.CompareBinary` | src/index/key_comparator.cpp:180-198 | the lexicographic order of byte strings |
| `CompositeKeys.KeyOrder` | src/index/composite_key.cpp:122-135 | for any conversions irreflexive, transitive and asymmetric, and blind to the difference between agreeing keys |
| `CompositeKeys.PrefixFirst` | src/index/composite_key.cpp:133-134 | a proper prefix sorts first |
| `CompositeKeys.TrimmedIs` | src/index/key_comparator.cpp:167-171 | exactly the white space at both ends of a CHAR value is dropped |
| `CompositeKeys.AgreeingKeysHashAlike` | src/index/composite_key.cpp:137-148 | without CHAR columns keys that compare equal have equal hashes, for any conversions |
| `CompositeKeys.KnownHashes` | src/index/key_comparator.cpp:326-339 | the published hash values of no bytes and of one letter |
| `CompositeKeys.EqualKeysHashAlike` | src/index/key_comparator.cpp:163-176 | compare = 0 implies equal hashes, whatever the conversions, if and only if no column is CHAR |
| `CompositeKeys.OneColumnTells` | src/index/composite_key.cpp:137-148 | keys that differ in the hash of one column hash differently |
| `CompositeKeys.DifferentKeysAgree` | src/index/key_comparator.cpp:240-248 | the keys 1 and 2 are one key as booleans and two as integers |

## Left out

- B+ tree keys are integers and row ids plain numbers: the tree only compares keys, and `CompositeKeys` proves
  that the comparison of integer, boolean, binary and text keys is a total order up to agreement. Float keys compare
  with a tolerance and are not ordered.
- Buffer pool and disk: `newPage` and `fetchPage` succeed in the B+ tree model, page ids are unbounded there, and
  `maxKeysPerPage_ + 1` entries are taken to fit in a page. In the hash index model page ids run out at 2^32.
- Opening an existing B+ tree or hash index from its root page.
- NULL keys and failing key serialization in the B+ tree; the hash index takes the serialized key, empty on failure.
- HashIndexes.HashIndex.constructor: takes at most 2^31 buckets, because with more the loop of the source never ends
  (`HashIndexes.ShiftingNeverReaches`); the directory is a map, and the
  one-page directory of the source has room for 2048 buckets.
- HashIndexes.RoundUp: takes at most 2^31 buckets for the same reason.
- The buffer pool of the hash index copies a page into a frame and writes a changed frame back; it never evicts or fails.
- Framing.Receiver.OnReadyRead: takes reads on which the loop ends; `SpinsExactly` and `Drain` say which those are.
- Index and full-text maintenance inside the executor, table schemas, expressions in SET lists, concurrency of several
  session transactions, WAL and recovery.
- Query cache: 64-bit overflow of byte totals, and the estimate of a result's size, which is a given function; the SQL
  text match of `invalidateDatabase` is a given predicate; every call reads the clock once.
- Inverted index: tokenizer and logarithm are given, scores are reals without rounding, counters do not overflow.
- Blake2b: the compression function and the parameter block are given functions. Argon2: the mixing of blocks,
  the first blocks' contents and the final hash.
- Argon2Fill.Context.constructor: takes a parallelism from 1 to 2^29 - 1; 0 divides by zero in the source, and from
  2^29 on a lane has fewer than eight blocks (`Argon2Fill.LayoutOk`).
- Other message types of the protocol, which only add shorter round trips; text encoding beyond UTF-8 bytes.
- Responses with rows of unequal length, and memory exhaustion on a large length field in a payload. Bytes that a
  short read leaves unset are 0 in the model; the source leaves them open.
- Value conversions of the evaluator are given functions; each result names the conversions it relies on. Fractions
  are reals without rounding. Null expression pointers; column pruning and subquery unnesting in the rewriter.
- Float, decimal, date and UUID key comparison. Keys are compared through the column types of the first.
- Catalog, permissions, TLS, user interface, the older int64 tree in src/index/bplus_tree.cpp.
