# MiniDB: a machine-checked model of the storage engine

MiniDB is a small relational engine: a B+Tree index, multi-version concurrency control (MVCC), a
write-ahead log (WAL) with recovery, a rule-based planner with index maintenance, a buffer pool, heap
files over slotted pages, a lock manager with a deadlock detector, and a SQL parser. This project models
those parts in Dafny 4.11 and proves what they promise. `dafny verify dfyconfig.toml` checks everything.

Each part has a value model (`datatype`s, functions, steps and runs) where the theorems are proved, and,
where the source updates state in place, a class whose methods are proved to do exactly what the
functions say. The layers meet: bytes of a page refine slotted pages, those refine a map from record ids to
bytes, the record codec turns that into rows, statements keep the index trees in step with the rows over every
sequence of statements, and a query reads rows back through the pages of the same trees.

## Modules

| part | files |
|---|---|
| shared types, bytes, page fields | `Types`, `Bytes`, `PageFields` |
| B+Tree | `BPlusTreeModel`, `BPlusTreeSearch`, `BPlusTreeRuns` (values); `BPlusTreePages`, `BPlusTreeChain`, `BPlusTreeScan`, `BPlusTree`, `BPlusTreeAcyclic` (pages); `BPlusNode`, `BPlusTreeBytes`, `BPlusTreeFile` (bytes) |
| MVCC | `Mvcc`, `MvccIsolation`, `MvccLimits`, `MvccAborted`; `MvccStore` (classes) |
| WAL and recovery | `Wal`, `WalManager`, `WalTorn`, `WalRestart`, `RecoveryModel`, `RecoveryManager` |
| values, expressions, planner, scans | `Values`, `ExprEval`, `Planner`, `IndexScan`, `ScanOperators` |
| statements and index maintenance | `TableIndexModel`, `TableExecutor`, `RecordManager`, `RecordCodec` |
| heap file | `SlottedPageModel`, `SlottedPage`, `HeapModel`, `HeapFile` |
| locks | `LockModel`, `LockManager`, `Deadlock` |
| buffer pool | `BufferModel`, `BufferPool` |
| WHERE parser | `ParserModel`, `Parser` |

## Where the code does not keep a promise

For each of these there is a lemma with a concrete state or input, and one with the exact condition.

- B+Tree: a full leaf whose 292 keys are all equal is cut in the middle of the key, so an equality search
  then misses entries (`BPlusTreeRuns.OverfullKeyLosesEntries`). A strict tree stays strict under an insert if
  and only if the leaf for the key is not such a leaf (`InsertStrictIff`), and all equality searches are exact
  if and only if the tree is strict (`BPlusTreeSearch.ExactSearchesIffStrict`).
- Planner: an index scan chosen for `!=` never reaches rows with NULL in the column, and `=`, `<=`, `>=`
  compare as doubles in the filter but as integers in the index (`IndexScan.NullRowLostUnderNeq`,
  `LargeKeyLost`). The two plans agree if and only if no accepted row is of one of these two kinds
  (`IndexScanIff`).
- Recovery: a committed update that follows a never-committed one on the same page is lost
  (`RecoveryModel.CommittedUpdateLost`). A page is recovered if and only if no committed update of it follows
  its first never-committed one, or the last such update writes the image from before (`RecoversIff`).
- WAL: the remains of a record that was cut short stay in the file, and new records go behind them. A cut
  inside a length field goes unnoticed; after any later cut the log cannot be read and numbering starts at 1
  again, whatever the log held (`WalRestart.NumbersRestart`). Whatever is then appended, the log reads back if
  and only if nothing of the cut record was left: for cuts inside a length field without any condition
  (`WalTorn.AppendsReadBackIff`), for cuts anywhere else unless the cut record is an update with number 1
  (`WalRestart.CutReadsBackIff`), and so for every cut behind at least one complete record of a log numbered
  from 1 (`LaterCutReadsBackIff`). The exception is real: the page image of such an update can hide its own
  remains (`RemainsAbsorbed`). A log can even read, without any error, as records that nobody wrote
  (`WalTorn.InventedRecords`).
- MVCC: `DeleteVersion` overwrites the deletion mark of any version. A client that does not look at the mark
  keeps the versions of each row in one line if and only if the version it supersedes is the last one
  (`MvccLimits.UncheckedKeepsInvIff`); otherwise later readers see two versions (`NotLastShowsTwo`, and
  `OverwrittenMarkShowsTwoVersions` as a run). Another reader's view survives such a write if and only if the
  version was not already both created and deleted for that reader (`UncheckedMarkKeepsViewIff`).
- MVCC: a reader that has aborted can see two versions of a row (`MvccLimits.AbortedReaderSeesTwoVersions`). In
  every disciplined run it does if and only if it wrote a version of a row it had not created and the version it
  had replaced no longer carries its mark (`MvccAborted.AbortedSeesTwoRun`).
- Heap file: an update whose new bytes fit on no page deletes the record and then fails
  (`HeapModel.GrownRecordLost`, and exactly when: `UpdateLosesIff`); the indexes of the table keep the entry of
  the lost row, and each of them agrees afterwards if and only if it has no key for it
  (`TableExecutor.LostRowAgreesIff`).
- Buffer pool: a write that is not flagged dirty at the last unpin is lost with the next eviction
  (`BufferModel.UnflaggedWriteLost`); it survives if and only if the frame was dirty already or equals the
  file's copy (`UnflaggedKeptIff`).
- Locks: transaction id zero means "nobody", so a lock taken under it excludes nobody
  (`LockModel.ZeroIdNotExclusive`). After a granted exclusive lock other requests are refused if and only if the
  holder is not transaction zero (`ExclusiveIffNotZero`).

## Model

| member | source | states |
|---|---|---|
| `BPlusTreeModel.SplitPointSeparates` | src/index/bplus_tree.cpp:84-99 | The split point of a full leaf falls between two different keys whenever the leaf holds two different keys |
| `BPlusTreeModel.SplitChildFlat` | src/index/bplus_tree.cpp:67-126 | Splitting a child changes neither the entries of the tree nor their order |
| `BPlusTreeModel.SplitChildOrd` | src/index/bplus_tree.cpp:67-126 | A split keeps every key within the bounds its separators give, strictly unless the leaf was uniform |
| `BPlusTreeRuns.InsertKeeps` | src/index/bplus_tree.cpp:128-184 | Every insert keeps balance, capacities (292 and 340) and key order, and adds exactly the one entry |
| `BPlusTreeRuns.InsertStrictIff` | src/index/bplus_tree.cpp:80-184 | An insert into a strictly separated tree keeps it strict if and only if the routed leaf is not full of one key |
| `BPlusTreeRuns.RunKeepsOrder` | src/index/bplus_tree.cpp:67-214 | With any number of duplicates, every run of inserts and deletes keeps all leaves at one depth, the capacities and a sorted leaf chain |
| `BPlusTreeRuns.RunKeepsStrict` | src/index/bplus_tree.cpp:67-214 | While no key has 292 entries when an insert starts, separators stay strict and the entries are the multiset that inserts and deletes call for |
| `BPlusTreeRuns.RunExact` | src/index/bplus_tree.cpp:44-293 | After every such run SearchEqual, RangeScan for every combination of bounds, and Delete are exact: all the matching rids, all the in-range entries in key order, and found exactly when present |
| `BPlusTreeRuns.RunOpenScanExact` | src/index/bplus_tree.cpp:247-293 | A range scan without a lower bound is exact after every run at all |
| `BPlusTreeRuns.OverfullKeyLosesEntries` | src/index/bplus_tree.cpp:87-106 | Inserting a 293rd entry of one key into a leaf full of it makes SearchEqual return fewer entries than there are |
| `BPlusTreeSearch.SearchExact` | src/index/bplus_tree.cpp:216-245 | In a strictly separated tree an equality search returns exactly the rids of the key |
| `BPlusTreeSearch.ExactSearchesIffStrict` | src/index/bplus_tree.cpp:216-245 | All equality searches of an ordered tree are exact if and only if its separators are strict |
| `BPlusTreeSearch.RangeScanExact` | src/index/bplus_tree.cpp:247-293 | A range scan returns exactly the entries in range when the tree is strict or the lower bound is absent or exclusive |
| `BPlusTreeSearch.InRangeSorted` | src/index/bplus_tree.cpp:272-292 | The entries in range of sorted entries come out in key order |
| `BPlusTreeSearch.DeleteExact` | src/index/bplus_tree.cpp:186-214 | In a strict tree a deletion finds its entry exactly when it is there |
| `BPlusTreeSearch.RemoveAtFlat` | src/index/bplus_tree.cpp:199-206 | Removing an entry from its leaf removes that one entry from the tree and no other |
| `BPlusTreePages.SplitChildRep` | src/index/bplus_tree.cpp:67-126 | After the page writes of a split the pages hold the tree with the child in two halves |
| `BPlusTreeChain.RepChain` | src/index/bplus_tree.cpp:80-82 | Pages that hold a tree link its leaves in order, from first to last |
| `BPlusTreeAcyclic.LeavesDistinct` | src/index/bplus_tree.cpp:75-82 | In a tree whose nodes have pages of their own no two leaves share a page |
| `BPlusTreeAcyclic.ChainAcyclic` | src/index/bplus_tree.cpp:80-82 | Following the leaf links from the first leaf reaches every leaf page once, in order, and then the end |
| `BPlusTreeAcyclic.TreeAcyclic` | src/index/bplus_tree.cpp:67-214 | Every index object that its operations leave in order has such a chain |
| `BPlusTreeAcyclic.RunAcyclic` | src/index/bplus_tree.cpp:67-214 | After every run of inserts and deletes the leaf chain has no cycle |
| `BPlusTreeScan.CollectEqual` | src/index/bplus_tree.cpp:223-238 | One leaf's part of an equality search is the rids of the key in that leaf |
| `BPlusTreeScan.CollectRange` | src/index/bplus_tree.cpp:275-285 | One leaf's part of a range scan is its entries in range |
| `BPlusTreeScan.FindLeafForKey` | src/index/bplus_tree.cpp:51-65 | Descending from the root reaches the leaf the model routes the key to |
| `BPlusTreeScan.ScanEqual` | src/index/bplus_tree.cpp:220-243 | Following the leaf links and stopping at a larger key finds the matches of all the leaves from the start on |
| `BPlusTreeScan.ScanRange` | src/index/bplus_tree.cpp:272-290 | Following the leaf links and stopping above the range finds the entries in range of all the leaves from the start on |
| `BPlusTreeScan.Locate` | src/index/bplus_tree.cpp:187-212 | The deletion loop finds the first occurrence of the entry in the chain, or none |
| `BPlusTree.FindSplitPoint` | src/index/bplus_tree.cpp:84-99 | The two-sided search loop finds the boundary the model splits at |
| `BPlusTree.BPlusTree.constructor` | src/index/bplus_tree.cpp:12-29 | A new index holds an empty, strictly separated tree |
| `BPlusTree.BPlusTree.SplitChild` | src/index/bplus_tree.cpp:67-126 | In place on pages: the pages go from holding a tree to holding it with the child split; other pages are untouched |
| `BPlusTree.BPlusTree.InsertNonFull` | src/index/bplus_tree.cpp:128-160 | In place on pages: the subtree's pages go on to hold the subtree with the entry inserted |
| `BPlusTree.BPlusTree.Insert` | src/index/bplus_tree.cpp:162-184 | The pages hold the tree with the entry inserted, with a new root when the old one was full |
| `BPlusTree.BPlusTree.Delete` | src/index/bplus_tree.cpp:186-214 | The pages hold the tree without the entry; the status says whether it was found |
| `BPlusTree.BPlusTree.SearchEqual` | src/index/bplus_tree.cpp:216-245 | The page walk returns what the model's search returns, hence exactly the rids of the key in a strict tree |
| `BPlusTree.BPlusTree.RangeScan` | src/index/bplus_tree.cpp:247-293 | The page walk returns exactly the entries in range in a strict tree or without an inclusive lower bound |
| `BPlusNode.BPlusNodeView.InsertLeafEntryAt` | src/index/bplus_node.hpp:69-76 | The shifting loop over page bytes inserts the entry at its place and keeps every other entry and the link |
| `BPlusNode.BPlusNodeView.RemoveLeafEntryAt` | src/index/bplus_node.hpp:78-84 | The shifting loop over page bytes removes that one entry |
| `BPlusNode.BPlusNodeView.InsertInternalKeyChildAt` | src/index/bplus_node.hpp:97-104 | The two shifting loops insert a key and its right child and keep every other key and child |
| `BPlusTreeBytes.SplitLeaf` | src/index/bplus_tree.cpp:80-106 | On page bytes: the copying loop leaves the lower entries in place and moves the upper ones and the link to the new page |
| `BPlusTreeBytes.SplitInner` | src/index/bplus_tree.cpp:107-118 | On page bytes: the two copying loops move the keys and children behind the middle key to the new page |
| `BPlusTreeBytes.SplitChild` | src/index/bplus_tree.cpp:67-126 | On page bytes: the file goes on to hold exactly the node pages that the tree's split writes |
| `BPlusTreeBytes.InsertIntoLeaf` | src/index/bplus_tree.cpp:132-138 | On page bytes: the file goes on to hold the leaf with the entry at its place |
| `BPlusTreeBytes.RemoveFromLeaf` | src/index/bplus_tree.cpp:199-204 | On page bytes: the file goes on to hold the leaf without the entry |
| `BPlusTreeBytes.NewRoot` | src/index/bplus_tree.cpp:170-175 | On page bytes: the file goes on to hold a root with the old root as its only child |
| `BPlusTreeFile.IndexFile.constructor` | src/index/bplus_tree.cpp:12-29 | On page bytes: a new index is a page with the number of the root and an empty leaf, which hold an empty, strictly separated tree |
| `BPlusTreeFile.IndexFile.InsertNonFull` | src/index/bplus_tree.cpp:128-160 | On page bytes: the recursion with its splits on the way leaves bytes that hold the subtree with the entry inserted |
| `BPlusTreeFile.IndexFile.Insert` | src/index/bplus_tree.cpp:162-184 | On page bytes: a whole insertion, a new root and its number included, leaves bytes that hold the tree with the entry inserted; node pages outside the tree keep their nodes |
| `BPlusTreeFile.IndexFile.Delete` | src/index/bplus_tree.cpp:186-214 | On page bytes: a whole deletion leaves bytes that hold the tree without the entry; the status says whether it was found |
| `BPlusNode.SetLeafEntryAt` | src/index/bplus_node.hpp:53-66 | A written entry reads back, and no other entry of the page changes |
| `Mvcc.VisibleIff` | src/transaction/mvcc.cpp:28-54 | A version is visible exactly when its creator is in the reader's snapshot and its deleter is not |
| `Mvcc.SnapshotFixed` | src/transaction/transaction_manager.cpp:5-38 | No step of any transaction changes who is in a snapshot reader's snapshot |
| `Mvcc.SnapshotIsCommittedBeforeBegin` | src/transaction/mvcc.cpp:28-37 | Over every run, another transaction is visible to a snapshot reader exactly when it had committed before the reader began |
| `MvccIsolation.RunInv` | src/transaction/mvcc.cpp:56-86 | Under the stamping rule every run keeps the versions of each row in one line, each superseded by the next |
| `MvccIsolation.OneVersionSeen` | src/transaction/mvcc.cpp:40-54 | In such a state a snapshot reader that has not aborted sees at most one version of a row |
| `MvccIsolation.AtMostOneVersion` | src/transaction/mvcc.cpp:40-86 | In every interleaving under the stamping rule, a snapshot reader sees at most one version of each row |
| `MvccIsolation.ViewKept` | src/transaction/mvcc.cpp:88-100 | One step of another transaction leaves the reader's scan exactly as it was |
| `MvccIsolation.ViewStable` | src/transaction/mvcc.cpp:88-100 | Over every run of other transactions' steps the reader's scan returns the same rows in the same order |
| `MvccLimits.UncheckedMarkKeepsViewIff` | src/transaction/mvcc.cpp:69-79 | Overwriting a deletion mark without a check keeps another reader's view if and only if the version was not already deleted for that reader |
| `MvccLimits.UncheckedKeepsInvIff` | src/transaction/mvcc.cpp:69-86 | Superseding a version that the transaction sees, whatever mark it carries, keeps each row's versions in one line if and only if it is the last of its row |
| `MvccLimits.LastIffNotReplaced` | src/transaction/mvcc.cpp:69-86 | A version that a snapshot transaction sees is the last of its row exactly if nobody who has not aborted has put a version in its place |
| `MvccLimits.NotLastShowsTwo` | src/transaction/mvcc.cpp:69-86 | When a version that is not the last is superseded and the transaction commits, the next reader sees two versions of the row |
| `MvccLimits.OverwrittenMarkShowsTwoVersions` | src/transaction/mvcc.cpp:73-74 | A run with an unchecked second deletion after which a reader sees two versions of a row |
| `MvccLimits.AbortedReaderSeesTwoVersions` | src/transaction/mvcc.cpp:40-54 | A run in which a reader that has aborted sees two versions of a row |
| `MvccAborted.RunHistory` | src/transaction/mvcc.cpp:56-86 | Every disciplined run keeps what versions remember: only creators mark uncommitted versions, one open version per creator and row, and a replaced version stays known |
| `MvccAborted.AbortedSeesTwoIff` | src/transaction/mvcc.cpp:40-54 | In such a state a reader that has aborted sees two versions of a row if and only if it wrote one and the one it replaced was taken over by another |
| `MvccAborted.AbortedSeesTwoRun` | src/transaction/mvcc.cpp:40-86 | The same in every disciplined interleaving |
| `MvccStore.TransactionManager.Begin` | src/transaction/transaction_manager.cpp:5-18 | Begin hands out the next id with the set of transactions active at that moment |
| `MvccStore.TransactionManager.Commit` | src/transaction/transaction_manager.cpp:20-28 | Commit finishes an active transaction and refuses any other |
| `MvccStore.TransactionManager.Abort` | src/transaction/transaction_manager.cpp:30-38 | Abort finishes an active transaction and refuses any other |
| `MvccStore.VersionedRecordStore.DeleteVersion` | src/transaction/mvcc.cpp:69-79 | Deletion stamps the version's xmax, whatever it was; a missing version is an error |
| `MvccStore.VersionedRecordStore.UpdateVersion` | src/transaction/mvcc.cpp:81-86 | An update is a deletion followed by an insertion; the deletion stays when the new row cannot be stored |
| `MvccStore.VersionedRecordStore.ScanVisible` | src/transaction/mvcc.cpp:88-100 | The scan returns the visible versions in heap order |
| `Wal.ReadBack` | src/recovery/wal_manager.cpp:33-136 | Any sequence of appended records reads back as the same records |
| `Wal.ReadCutFile` | src/recovery/wal_manager.cpp:98-136 | A file cut at any byte reads as exactly its complete records, or as corrupt if the cut is at least four bytes into a record; never as an altered record |
| `Wal.TornLengthHidesAppends` | src/recovery/wal_manager.cpp:33-61 | One record appended behind the remains of a torn length field reads as corruption |
| `WalTorn.AppendsReadBackIff` | src/recovery/wal_manager.cpp:12-136 | For every non-empty list of records, under any numbers, appended behind the remains of a length field, the log reads back as the old and the new records if and only if there are no remains |
| `WalRestart.NumbersRestart` | src/recovery/wal_manager.cpp:12-24 | A log cut in the middle of a record reads as its complete records and numbering goes on if less than four bytes are left; otherwise it is corrupt and numbering starts at 1 |
| `WalRestart.CutReadsBackIff` | src/recovery/wal_manager.cpp:12-136 | For a cut anywhere within a record, records appended under the numbers of the reopened manager read back behind the old ones if and only if nothing of the cut record was left, unless it was an update with number 1 whose kind is among the remains |
| `WalRestart.LaterCutReadsBackIff` | src/recovery/wal_manager.cpp:12-136 | The same without exception for every cut behind at least one complete record of a log numbered from 1 |
| `WalRestart.RemainsAbsorbed` | src/recovery/wal_manager.cpp:12-136 | For a family of update records with number 1, the remains, the same record again and one more record read back as just the two records appended |
| `WalTorn.InventedRecords` | src/recovery/wal_manager.cpp:98-136 | Behind one torn byte, a commit and a suitable update read without error as two records that were never written |
| `WalManager.WALManager.constructor` | src/recovery/wal_manager.cpp:12-24 | Opening a log continues the numbering behind the last readable record |
| `WalManager.WALManager.AppendRecord` | src/recovery/wal_manager.cpp:33-61 | An append adds one framed record under the next number, and the log then reads as one record more |
| `WalManager.ReadBytes` | src/recovery/wal_manager.cpp:98-136 | The reading loop returns what the recursive reader returns |
| `WalManager.NumberingSurvivesRestart` | src/recovery/wal_manager.cpp:12-61 | Appending, reopening and appending again yields one log with consecutive numbers |
| `RecoveryModel.RecoveryRestarts` | src/recovery/recovery_manager.cpp:33-55 | For any log, stopping recovery after any number of writes, any number of times, and running it again ends in the same disk |
| `RecoveryModel.RecoveryIdempotent` | src/recovery/recovery_manager.cpp:13-58 | A second full recovery changes nothing |
| `RecoveryModel.RecoveredPage` | src/recovery/recovery_manager.cpp:20-55 | A recovered page is the before-image of its first never-committed update, or else its last image since the checkpoint |
| `RecoveryModel.RecoversIff` | src/recovery/recovery_manager.cpp:20-55 | With chained images and flushed pages, a page is recovered to the committed state if and only if no committed update follows its first never-committed one, or the last such update writes the image from before |
| `RecoveryModel.RecoveryRestoresCommitted` | src/recovery/recovery_manager.cpp:20-55 | If no committed update follows a never-committed one on a page, recovery leaves every page as if only the committed updates had been replayed, whatever the crash left behind |
| `RecoveryModel.CommittedUpdateLost` | src/recovery/recovery_manager.cpp:44-55 | A log in which undo overwrites a committed update |
| `RecoveryManager.Analyse` | src/recovery/recovery_manager.cpp:20-30 | The analysis loop finds the committed transactions and the start of redo |
| `RecoveryManager.RecoveryManager.Recover` | src/recovery/recovery_manager.cpp:13-58 | The three loops leave the recovered disk and count the writes; a page outside the file stops them at that write with an error |
| `Values.NearestMonotone` | src/executor/expr_eval.cpp:18-23 | Conversion of integers to doubles never reverses their order |
| `Values.NearestExact` | src/executor/expr_eval.cpp:18-23 | An integer below 2^53 in magnitude is the same double as no other integer |
| `Planner.ChooseUsable` | src/executor/executor.cpp:366-399 | The chosen conjunct is one of the clause's conjuncts, on an indexed column |
| `Planner.EqualityPreferred` | src/executor/executor.cpp:389-398 | A usable equality is always preferred to a range |
| `Planner.ConjunctsTrue` | src/executor/executor.cpp:300-307 | A clause that is true of a row makes each of its conjuncts true |
| `Planner.ExtractKeepsMeaning` | src/executor/executor.cpp:309-346 | The extracted column, operator and literal mean what the comparison means, also when it is turned around |
| `Planner.CoverageIff` | src/executor/executor.cpp:401-417 | A value for which the conjunct holds is outside the scanned key range exactly for NULL under `!=` and for a key that is the same double as the literal |
| `IndexScan.FilterAllIs` | src/executor/filter.hpp:22-33 | A filter succeeds if and only if no tuple raises an error, and keeps each accepted tuple as often as it occurs |
| `IndexScan.IndexTuples` | src/executor/index_scan.hpp:38-63 | An index that agrees with the table scans exactly the covered rows, each once |
| `IndexScan.IndexScanIff` | src/executor/executor.cpp:300-428 | For every WHERE tree: if filtering the table scan raises no error then filtering the index scan raises none, and both return the same multiset of rows if and only if no accepted row is lost in one of the two known ways |
| `IndexScan.IndexScanFaithful` | src/executor/executor.cpp:300-428 | With a literal below 2^53 in magnitude or a strict comparison, and no NULL under a chosen `!=`, the index scan returns the rows of the table scan |
| `IndexScan.NullRowLostUnderNeq` | src/executor/executor.cpp:405-417 | A table and a clause with `!=` for which the index scan loses a row |
| `IndexScan.LargeKeyLost` | src/executor/expr_eval.cpp:18-38 | A table with the key 2^53 + 1 and the clause `a = 2^53`, for which the index scan loses a row |
| `ScanOperators.SeqScanOperator.Next` | src/executor/seq_scan.hpp:24-27 | Pulls hand out the table's tuples one after another |
| `ScanOperators.IndexScanOperator.Open` | src/executor/index_scan.hpp:38-53 | Opening looks up in the tree's pages what its search returns for the conjunct, which are exactly the candidates if the separators are strict |
| `ScanOperators.IndexScanOperator.Next` | src/executor/index_scan.hpp:55-63 | Pulls fetch the candidates' rows in order and skip rows that are gone |
| `ScanOperators.FilterOperator.Next` | src/executor/filter.hpp:22-33 | A pull returns the next accepted tuple, or ends; at the end the error says whether evaluation failed |
| `ScanOperators.ChooseIndex` | src/executor/executor.cpp:366-399 | The choosing loop returns the plan of the model |
| `ScanOperators.SelectRows` | src/executor/executor.cpp:363-428 | A whole query over page-level trees: the filtered result of the chosen plan, no new error, and if the chosen index agrees with the table the rows of the filtered table if and only if none is lost |
| `RecordCodec.NullMarksBits` | src/storage/record.cpp:18-36 | A bit of the bitmap is set exactly for the NULL columns, for any number of columns |
| `RecordCodec.RoundTrip` | src/storage/record.cpp:13-141 | Decoding an encoded row gives the row back, for any schema, any number of columns and whatever bytes follow |
| `RecordCodec.EncodedLength` | src/storage/record.cpp:18-82 | An encoded row takes one bit per column, and bytes only for values that are not NULL |
| `RecordCodec.EncodeRow` | src/storage/record.cpp:13-83 | The encoding loop accepts exactly the rows every column accepts and writes the bytes of the model |
| `RecordCodec.DecodeRow` | src/storage/record.cpp:85-141 | The decoding loop with its cursor returns what the model decodes, including every truncation error |
| `SlottedPageModel.InsertRepresents` | src/storage/slotted_page.hpp:76-112 | The bytes written by an insert represent the page with the record in the first deleted slot or a new one; all other records keep their bytes |
| `SlottedPageModel.UpdateRepresents` | src/storage/slotted_page.hpp:131-140 | Overwriting in place changes that record only; live byte ranges stay apart from each other and from the directory |
| `SlottedPageModel.DeleteRepresents` | src/storage/slotted_page.hpp:122-129 | Clearing a slot's length removes that record only |
| `SlottedPage.SlottedPage.InsertRecord` | src/storage/slotted_page.hpp:76-112 | In place on the buffer: the record is stored if it fits, else the page is untouched |
| `SlottedPage.SlottedPage.GetRecord` | src/storage/slotted_page.hpp:115-120 | The bytes of a live slot, and nothing for a deleted or missing one |
| `SlottedPage.SlottedPage.DeleteRecord` | src/storage/slotted_page.hpp:122-129 | In place on the buffer: a live record is removed, anything else is refused |
| `SlottedPage.SlottedPage.UpdateRecordInPlace` | src/storage/slotted_page.hpp:131-140 | In place on the buffer: a live record takes bytes that are no longer than its own, else the page is untouched |
| `HeapModel.InsertKeeps` | src/storage/heap_file.cpp:33-70 | An insert succeeds exactly for at most 4080 bytes, under an id that was not in use; no other record changes and the chain stays acyclic |
| `HeapModel.RunRefines` | src/storage/heap_file.cpp:33-116 | Over every run of inserts, updates and deletes the heap file holds what a plain map from ids to bytes holds, and every call returns what the map calls for |
| `HeapModel.UpdateLosesIff` | src/storage/heap_file.cpp:100-116 | An update of a stored record fails if and only if the new bytes exceed the old ones and 4080 bytes; the record is then gone |
| `HeapModel.GrownRecordLost` | src/storage/heap_file.cpp:33-116 | In a new heap file any record that is inserted and then updated to 4081 bytes is gone |
| `HeapModel.FirstRoomIsFirst` | src/storage/heap_file.cpp:37-53 | No page between the last insert position and the page used has room |
| `HeapModel.ScanExact` | src/storage/heap_file.cpp:118-135 | A scan visits every live record of the chain exactly once |
| `HeapFile.HeapFile.constructor` | src/storage/heap_file.cpp:5-16 | A new heap file adds one empty page and changes no stored record |
| `HeapFile.HeapFile.AllocateNewPage` | src/storage/heap_file.cpp:18-31 | A fresh empty page is linked behind the last page of the chain |
| `HeapFile.HeapFile.InsertRecord` | src/storage/heap_file.cpp:33-70 | On page bytes: the walk along the chain and the new page do what the model's insert does |
| `HeapFile.HeapFile.GetRecordBytes` | src/storage/heap_file.cpp:72-86 | The bytes stored under an id, or NotFound |
| `HeapFile.HeapFile.DeleteRecord` | src/storage/heap_file.cpp:88-98 | On page bytes: the record is removed, or NotFound |
| `HeapFile.HeapFile.UpdateRecord` | src/storage/heap_file.cpp:100-116 | On page bytes: in place, or deleted and inserted, as the model says |
| `HeapFile.HeapFile.Scan` | src/storage/heap_file.cpp:118-135 | On page bytes: the records of the chain in page and slot order |
| `RecordManager.RecordCodecOk` | src/storage/record.cpp:13-141 | The record codec of a table with a column reads back what it writes and never writes an empty record |
| `RecordManager.ScanLists` | src/storage/record_manager.hpp:47-53 | Scanning and decoding lists every row of the table exactly once |
| `RecordManager.RecordManager.InsertRow` | src/storage/record_manager.hpp:19-27 | A row is stored under an unused id exactly if it can be encoded in at most 4080 bytes |
| `RecordManager.RecordManager.UpdateRow` | src/storage/record_manager.hpp:35-43 | A row is replaced in place, moved to an unused id, refused unchanged, or lost; a storable row is never refused. An id of another heap file changes no row, or adds the row that was moved here |
| `RecordManager.RecordManager.DeleteRow` | src/storage/record_manager.hpp:45 | That row is removed and no other; an id of another heap file removes no row |
| `TableIndexModel.AddedOkIff` | src/executor/executor.cpp:84-94 | Inserting a new row's key into a tree in step with the rows keeps it in step if and only if the key does not go to a leaf full of one key |
| `TableIndexModel.RemovedOk` | src/executor/executor.cpp:96-106 | Deleting a row's key from a tree in step with the rows keeps it in step, always |
| `TableIndexModel.FewRowsNotCrowded` | src/executor/executor.cpp:84-94 | While no key is shared by 292 rows, no key goes to a leaf full of one key |
| `TableIndexModel.BuiltIndexed` | src/executor/executor.cpp:158-163 | The keys of a scan of the table are exactly one entry per row with a key |
| `TableIndexModel.KeptIndexServesScans` | src/executor/executor.cpp:84-106 | An index in step with the rows satisfies what the index scan's theorem asks of it |
| `TableIndexModel.RewriteOne` | src/executor/executor.cpp:245-255 | Rewriting one more matched row, even to another id, leaves the matched rows still to come where they were |
| `TableIndexModel.KeysFallOneMore` | src/executor/executor.cpp:245-255 | While matched rows are rewritten one by one, no key but the one the SET clause assigns comes to be shared by more rows |
| `TableIndexModel.FewInBetween` | src/executor/executor.cpp:245-255 | If no key of a column is shared by 292 rows before some rows are rewritten and after one more is, none was in between |
| `TableExecutor.LostRowAgreesIff` | src/executor/executor.cpp:249-253 | After a row is lost from the table, each index that was in step still is if and only if it has no key for the row |
| `TableExecutor.AllAddedIff` | src/executor/executor.cpp:84-94 | Adding a row's key to every tree keeps each tree in step if and only if the key does not go to a leaf full of one key there, and always while no key of its column is shared by 292 rows |
| `TableExecutor.IndexSet.MaintainIndexesOnInsert` | src/executor/executor.cpp:84-94 | Every index tree, and no other, gets the row's key; exactly those indexes become stale whose tree is in the crowded case |
| `TableExecutor.IndexSet.MaintainIndexesOnDelete` | src/executor/executor.cpp:96-106 | Every index tree loses the row's key; a key that is not found is no error |
| `TableExecutor.BuildTree` | src/executor/executor.cpp:158-163 | Inserting the keys of a scan fills a tree with one entry per row with a key, in search order while no key is shared by 292 rows |
| `TableExecutor.TableExecutor.ExecuteInsert` | src/executor/executor.cpp:182-219 | The rows before the first refused one are stored under unused ids, all of them on success; every index tree in step stays in step if no key of its column is shared by 292 rows afterwards |
| `TableExecutor.TableExecutor.ExecuteUpdate` | src/executor/executor.cpp:221-261 | Every row that matched beforehand is rewritten exactly once even when rows move; a failing statement has rewritten a prefix; a row is lost exactly when the result is OutOfSpace; however many rows match, every index tree in step stays in step if no key of its column is shared by 292 rows before or after, apart from the key of a lost row |
| `TableExecutor.TableExecutor.ExecuteDelete` | src/executor/executor.cpp:263-289 | Exactly the matching rows are removed, the result is their number, and every index tree in step stays in step |
| `TableExecutor.TableExecutor.ExecuteCreateIndex` | src/executor/executor.cpp:143-172 | A new index tree holds one entry per row with a key and is in step if no key is shared by 292 rows; unknown or unsuitable columns and taken names change nothing |
| `TableExecutor.TableExecutor.Execute` | src/executor/executor.cpp:110-289 | One statement does to rows and indexes what its kind says and returns the result that goes with it; unless an UPDATE runs out of space, every index in step stays in step if no key of its column is shared by 292 rows before or after |
| `TableExecutor.TableExecutor.ExecuteAll` | src/executor/executor.cpp:143-289 | For every sequence of these statements, failing ones included: each result and each change from one table to the next is what its statement says; if no result is an UPDATE out of space, every index that was in step at the start or was created on the way agrees at the end with the table as index scans need it, provided that no key of its column is shared by 292 rows at any point between the statements |
| `TableExecutor.TableExecutor.ExecuteSelect` | src/executor/executor.cpp:363-428 | A query on the table and its own index trees: no new error, and if the index chosen for it is in step the rows of the filtered table if and only if none is lost |
| `TableExecutor.IndexSet.ServesScans` | src/executor/executor.cpp:84-106 | An index tree in step with the rows is what a query's precondition for exactness asks of the index it chooses |
| `TableExecutor.BuildRow` | src/executor/executor.cpp:203-209 | In a new row each column holds the coerced literal of the last target that names it, or NULL; if a literal is refused the first refused one decides the error |
| `TableExecutor.Assignments` | src/executor/executor.cpp:225-232 | A SET clause is accepted exactly if every column exists and takes its literal |
| `TableExecutor.CollectMatches` | src/executor/executor.cpp:235-241 | The collected rows are those for which the clause evaluates to true |
| `LockModel.StepInv` | src/transaction/lock_manager.cpp:10-61 | Every request by a real transaction keeps exclusivity, agreement of the two tables, and leaves no empty entry |
| `LockModel.RunInv` | src/transaction/lock_manager.cpp:10-61 | Every run of requests keeps them |
| `LockModel.ExclusiveAlone` | src/transaction/lock_manager.cpp:10-39 | In every reachable state a row with an exclusive holder has no other holder of either kind |
| `LockModel.GrantedIff` | src/transaction/lock_manager.cpp:10-39 | A shared or exclusive request is granted exactly when no other transaction holds a lock that excludes it |
| `LockModel.ReleaseAllInterleaved` | src/transaction/lock_manager.cpp:63-75 | Releasing everything, with other transactions' requests in between, leaves the transaction without a lock and the invariant intact |
| `LockModel.ZeroIdNotExclusive` | src/transaction/lock_manager.cpp:22-39 | Under id zero two transactions are granted the same row exclusively |
| `LockModel.ExclusiveIffNotZero` | src/transaction/lock_manager.cpp:10-39 | After a granted exclusive lock every shared or exclusive request of another transaction is refused if and only if the holder is not transaction zero |
| `LockManager.LockManager.LockShared` | src/transaction/lock_manager.cpp:10-20 | The in-place request does what the model's step does |
| `LockManager.LockManager.LockExclusive` | src/transaction/lock_manager.cpp:22-39 | The in-place request with its loop over holders does what the model's step does |
| `LockManager.LockManager.Unlock` | src/transaction/lock_manager.cpp:41-61 | The in-place release does what the model's step does |
| `LockManager.LockManager.ReleaseAll` | src/transaction/lock_manager.cpp:63-75 | All locks of one transaction are gone and every other transaction holds each row in the mode it had |
| `Deadlock.NoCycle` | src/transaction/lock_manager.cpp:108-114 | When every waiting transaction has been finished without success there is no cycle |
| `Deadlock.DeadlockSearch.Visit` | src/transaction/lock_manager.cpp:84-106 | The depth-first visit terminates and either reports a real cycle or finishes the node with all it reaches |
| `Deadlock.DetectDeadlock` | src/transaction/lock_manager.cpp:77-115 | The answer is true if and only if the wait-for graph has a cycle, and the list is then a cycle of the graph |
| `BufferModel.VictimRight` | src/buffer/buffer_pool.cpp:13-20 | A victim is never pinned, and one from the replacer is the frame whose pin count fell to zero longest ago |
| `BufferModel.StepStruct` | src/buffer/buffer_pool.cpp:22-131 | Each operation of any client keeps every frame in exactly one of free list, replacer and pinned, and the page table as the inverse of the frames |
| `BufferModel.ReachableStruct` | src/buffer/buffer_pool.cpp:5-131 | That holds in every state that any run reaches from an empty pool, whether or not clients flag their writes |
| `BufferModel.PinnedStaysRun` | src/buffer/buffer_pool.cpp:13-131 | Over every run in which a pin is not given up, the pinned page stays in its frame and nobody else's operation changes its bytes |
| `BufferModel.TakenView` | src/buffer/buffer_pool.cpp:40-48 | Evicting a frame loses nothing that clients could see, if no write is unflagged |
| `BufferModel.StepTransparent` | src/buffer/buffer_pool.cpp:22-131 | Each operation of clients that flag their writes leaves them seeing the pages of a plain page store |
| `BufferModel.RunTransparent` | src/buffer/buffer_pool.cpp:22-131 | Over every disciplined run the cache shows exactly the pages of a plain page store |
| `BufferModel.FlushAllWrites` | src/buffer/buffer_pool.cpp:120-131 | After FlushAll, with no unflagged write left, the file holds what clients see |
| `BufferModel.RunThenFlush` | src/buffer/buffer_pool.cpp:5-131 | From an empty pool, any disciplined run followed by FlushAll makes the file the plain page store |
| `BufferModel.UnflaggedKeptIff` | src/buffer/buffer_pool.cpp:92-106 | An unflagged write survives eviction if and only if the frame was dirty or equals the file's copy |
| `BufferModel.UnflaggedWriteLost` | src/buffer/buffer_pool.cpp:22-106 | In a pool of one frame a fetch, a write, an unflagged unpin and a fetch of another page lose the write |
| `BufferPool.LRUReplacer.Unpin` | src/buffer/Iru_replacer.hpp:15-20 | A frame goes to the front unless it is listed already |
| `BufferPool.LRUReplacer.Pin` | src/buffer/Iru_replacer.hpp:22-28 | That frame leaves the list and the others keep their order |
| `BufferPool.LRUReplacer.Victim` | src/buffer/Iru_replacer.hpp:30-37 | The frame at the back leaves the list |
| `BufferPool.BufferPool.FetchPage` | src/buffer/buffer_pool.cpp:22-60 | The in-place fetch does what the model's step does, keeps every pinned page, and changes nothing clients see if no write is unflagged |
| `BufferPool.BufferPool.NewPage` | src/buffer/buffer_pool.cpp:62-90 | The in-place allocation does what the model's step does, using up a page number even without a frame |
| `BufferPool.BufferPool.UnpinPage` | src/buffer/buffer_pool.cpp:92-106 | The in-place unpin does what the model's step does and keeps the pool in order, flagged or not; a disciplined one leaves no unflagged write |
| `BufferPool.BufferPool.FlushPage` | src/buffer/buffer_pool.cpp:108-118 | The in-place flush does what the model's step does |
| `BufferPool.BufferPool.FlushAll` | src/buffer/buffer_pool.cpp:120-131 | In any order of the page table, flushing leaves the view alone and the file equal to it when no unflagged write is left |
| `ParserModel.DecimalValue` | src/parser/parser.cpp:194-201 | The digits of a number read back as that number |
| `ParserModel.PrintParse` | src/parser/parser.cpp:261-323 | Parsing a printed expression, before any token that is no operator, gives back the same tree and consumes exactly its tokens |
| `ParserModel.ParsePrintParse` | src/parser/parser.cpp:261-323 | Whatever the parser accepts, printing the result and parsing it again gives the same tree |
| `Parser.Parser.ParsePrimary` | src/parser/parser.cpp:261-275 | The cursor method returns what the grammar function returns and never leaves the tokens |
| `Parser.Parser.ParseComparison` | src/parser/parser.cpp:277-299 | The cursor method returns what the grammar function returns and never leaves the tokens |
| `Parser.Parser.ParseAndExpr` | src/parser/parser.cpp:301-311 | The loop builds the left-associated tree of the grammar function and never leaves the tokens |
| `Parser.Parser.ParseOrExpr` | src/parser/parser.cpp:313-323 | The loop builds the left-associated tree of the grammar function and never leaves the tokens |
| `Parser.Parser.ParseWhereClause` | src/parser/parser.cpp:325-329 | A WHERE keyword and an expression, or an error without moving |

## Assumptions

- Each mutex-guarded method is one atomic step; `ReleaseAll`, which takes its mutex several times, is also
  stated with other transactions' steps in between.
- Reads and writes of pages in the file's range succeed. Page numbers stay below 2^31 and log sequence
  numbers below 2^64.
- Integers are unbounded unless the bytes of a field are written; then their widths are explicit.
- Doubles are finite and stand for the real number they denote. Integers become doubles by rounding to
  nearest, ties to even. The record codec takes the eight bytes of a double as given.
- The iteration order of hash tables is arbitrary: a choice in the loop, or a parameter.
- MVCC clients follow a stamping rule where a theorem says so: a transaction stamps only versions it sees
  whose deleter is unset or has aborted.
- Where a document and the code differ, the model follows the code.

## Left out

- Network, CLI and server: socket input and output without a deep invariant.
- File streams and the header page of the page file: the file is a map from page numbers to pages.
- Catalog, table manager and their codecs: schema lookup and the list of a table's indexes are given.
- Dropping an index, which takes it off the table's list, and dropping a table that still has indexes: the code leaves its index metadata behind.
- Tokenizer, DDL parsing, Sort, Project, Limit and Aggregate operators, result formatting: easier than what is modelled.
- Floating-point sums and averages, infinities and NaN.
- The version header in front of a versioned record: two fixed fields, with the same round trip as other fields.
- The buffer pool below heap files and trees: both work on the logical pages the pool is proved to show.
- One page file for all index trees: each tree has pages of its own, and is proved to touch no other.
- Cache hit and miss counters.
- Transaction ids across a restart: the code does not persist them.
- BPlusTree.BPlusTree.Insert: works on node values; `BPlusTreeFile.IndexFile.Insert` carries the same insertion out on page bytes, for keys and page numbers that fit their fields. Searches and scans are not repeated on bytes: a stored page reads as its node.
- MvccStore.VersionedRecordStore.UpdateVersion: takes the place where the heap file stores the new version as a parameter.
- BufferPool.LRUReplacer.Pin: list positions stand for the source's list iterators.
- Parser.Parser.ParsePrimary: a float literal carries the number its digits stand for, or that they stand for none; the conversion of the digits is not modelled.
