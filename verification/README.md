# RMDB storage and query kernel, in Dafny

RMDB is a small relational database: tables of fixed-size records, B+ tree indexes, a sharded buffer pool, a
write-ahead log with crash recovery, and a planner whose plans are run by iterators. This project models that
kernel and proves that each fast or stateful part does what its simple mathematical meaning says.

| part | files | meaning it refines |
|---|---|---|
| B+ tree index | IxNode, KeyOrder, BTree, LeafChain, IxIndexHandle, IxScan, EmptyLeaf | a finite sorted map |
| log and recovery | LogCodec, LogFormat, LogProtocol, LogCalls, WriteAheadRule, Recovery, TableRun, CrashRecovery, SecondLifetime | committed changes only, in LSN order |
| buffer pool | LruReplacer, LruHistory, BufferPool, BufferPoolManager, LostUpdate | the last contents written to each page |
| record file | Bitmap, RecordFile, RmFileHandle | a map from record ids to bytes |
| planner and executors | Relational, QueryLaws, RepeatedSources, Plans, Planner, ExplainPlan, ExplainSelfJoin, Executors, IndexRange, RangeExact, IndexScanExecutor, SetClauses, UpdateExecutor | project, filter, cross product |

`Common` holds what the parts share. `dafny verify dfyconfig.toml` checks the whole project.

## Reading the model

* Index keys are integers. `KeyOrder.CodeOrders` shows that the column-by-column comparison of index keys is the
  order of their integer codes, so an index over codes is an index over keys.
* A `Shape` gives every index page a level and the interval of keys that search can route to it. The invariant
  (`BTree.Inv`) is a set of local conditions over one page, one slot or two pages. Slot 0 of an internal page on
  the leftmost path may hold a key that is out of date; only slots 1 and up are separators.
* The log manager and its interplay with the pool are state machines whose steps are the stretches of code
  between two points where the latch can change hands.
* A row is a map from columns to values, integers or strings; a joined row looks a column up from the left. A source
  yields its rows in some order (`Access`); plan results are stated as sequences for that order, and
  `Planner.AnyScanOrder` turns them into bags for every order.
* A thread in `flush_cv_.wait` sleeps until some `notify_all`; clearing the flag and notifying are two steps, as in
  the source, where the latch is released between them.
* `CrashRecovery.Restart` joins the log parts: a run of pool and log threads, a crash anywhere in it, the bytes left in
  the log file, the loader, and recovery.
* State that the source changes in place is a class whose methods are proved against functions of the old state.

## What turned out false, and exactly when it holds

* **Index scans across empty leaves.** `IxScan::next` steps into the next leaf without looking whether it is
  empty. `EmptyLeaf.BreakScan`: any index with more than two leaves' worth of entries can be brought by deletes
  alone to a state that a full scan cannot pass. `EmptyLeaf.EmptyLeafStopsScan` does it from an empty index, for
  every key schema with enough keys: `2 * order + 1` inserts, then the deletes of one leaf. The smallest order, 6,
  belongs to keys of 512 bytes (`EmptyLeaf.SmallestOrder`).
  `IxScan.Collect` works if and only if the start is not behind the end and no crossed leaf is followed by an
  empty leaf other than the last one; `IndexScanExecutor.StartBeforeEnd` says when contradictory bounds put the
  start behind the end.
* **Open bounds on an index of several columns.** The range that an index scan builds for `a > 5` on an index over
  `(a, b)` starts behind the smallest key with `a = 5`, so it holds other keys with `a = 5`. `RangeExact.OpenBoundExact`:
  an open bound keeps its own value out of the range if and only if no index column follows. A key in the range always
  satisfies the closed form of the condition (`RangeExact.RangeImplies`), and each record is checked after the scan.
* **A second crash.** `global_lsn_` and the transaction counter start at 0 whenever the server starts, and the log file
  is kept. `SecondLifetime.RecoverTwice` is a log of two runs of the server whose second committed update is lost: the
  page carries an LSN of the first run. `Recovery.RedoExact`: redo applies exactly the changes that a page lacks,
  wherever in the log the page was flushed, if and only if the LSNs of the changes on that page increase along the
  log. Within one run of the server they do.
* **Recovery after an abort.** ABORT is treated as a loser. `Recovery.AbortThenCommitLosesUpdate` is a log whose
  committed update is lost. `Recovery.RecoveryExact`: from a page flushed with LSN `lsn0` and left at `lsn1` by redo
  a record gets its committed value if and only if its oldest loser change is above `lsn1` or recorded that value.
  `Recovery.RecoveryAlwaysRight` is the same over every mix of flushed pages.
* **A failed log write.** The batch is dropped, and later `persist_lsn_` passes it
  (`LogProtocol.FailedBatchIsForgotten`). `LogProtocol.ForceIsDurable`: after a force, a record up to the target
  is in the file if and only if no failed write dropped it.
* **Flushing a pinned page.** `flush_page` does not wait for pins, so a client may change the page between the log
  force and the page write; `WriteAheadRule.FlushRaceBreaksRule` is such a run from the start.
  `WriteAheadRule.TouchBeforeWrite`: once the force has returned, the change keeps the write-ahead rule if and only
  if its records are already in the file. `WriteAheadRule.TouchExact`: a change leaves every continuation right if
  and only if nobody is saving its page or the saver's force covers its LSN; `WriteAheadRule.RuleIffTouchesSafe`
  lifts this to whole runs. Eviction and `delete_page` need no such care.
* **Unmarked changes.** A client that changes a page has to mark it before its last unpin or with it. Then the pool
  is transparent (`BufferPoolManager.TransparentCache`). `LostUpdate.LoseUpdate` runs a pool in which a client forgets
  the mark and the next fetch returns the old bytes. `BufferPoolManager.LossExact`: a call changes what another page
  shows if and only if that page's change was forgotten so, the call takes it out of the cache, and its disk image is
  different. `BufferPoolManager.ForgottenIsVictim`: once forgotten it can be the next victim.
* **Self joins.** Aliases are for display only; a table joined with itself is one name twice, and a column means its
  first occurrence. `RepeatedSources.SelfJoinRepeats` says what such a query means: the query over the first
  occurrences, with each row once for every choice of rows from the later ones; conditions between two occurrences
  compare each row with itself. The plans of `Planner.MakeOneRel` yield that. An EXPLAIN plan does not: it keeps
  single-source conditions by name and filters every occurrence (planner.cpp, lines 517-520 and 563-566). For
  `explain analyze select a.x from t a, t b where a.x = 1` over the rows 1 and 2 it finds one row where the query has
  two (`ExplainSelfJoin.Explain`, `ExplainSelfJoin.Select`). `ExplainPlan.ExplainExact`: it yields what the query
  means if and only if that is nothing, or every row of each repeated source satisfies the source's own conditions;
  `ExplainPlan.ExplainAgrees` is what can be seen before the call, that no repeated source has such conditions.
* **The replacer's list.** `delete_page` puts a frame on the free list without taking it out of the replacer. The
  true invariant (`BufferPool.Ok`) allows that; it is safe because victims are sought only when the free list is
  empty.

Where the source's comments and code disagree the code is followed: the update executor sets the page LSN
before it writes the record, while recovery relies on a page holding the operations up to its LSN, which is
therefore a stated assumption of `Recovery.RecoveryManager.Recover` and `CrashRecovery.Restart`. It is asked only of
records that no loser change on the page covers: a rollback restores a record without a log record and without touching
the page LSN.

## Model

| member | source | states |
|---|---|---|
| `KeyOrder.IxCompare` | src/index/ix_index_handle.h:39-47 | the comparison loop computes the lexicographic order of key tuples |
| `KeyOrder.BigEndianOrders` | src/index/ix_index_handle.h:32-33 | byte comparison of string columns is comparison of their big-endian values, and is 0 exactly on equal strings |
| `KeyOrder.CodeOrders` | src/index/ix_index_handle.h:20-47 | the integer code of a key is an order isomorphism: comparing keys is comparing codes, and equal means identical |
| `IxNode.OverfullNodeFits` | src/index/ix_manager.h:69-79 | for every legal key length an index page holds one entry more than the order and not two more, and the order is at least 6 |
| `IxNode.NodeLowerBound` | src/index/ix_index_handle.cpp:21-33 | the first slot whose key is not below the target |
| `IxNode.NodeUpperBound` | src/index/ix_index_handle.cpp:41-53 | the first slot above the target, never slot 0 of an internal page |
| `IxNode.FindChild` | src/index/ix_index_handle.h:148-157 | the slot that points to the child |
| `BTree.LeafUnique` | src/index/ix_index_handle.cpp:184-197 | at most one leaf's interval contains a key, so search has one place to go |
| `BTree.LookupAgrees` | src/index/ix_index_handle.cpp:207-221 | the leaf that search reaches holds the key exactly when the map does, with the same rid |
| `BTree.LeafEntriesKeepInv` | src/index/ix_index_handle.cpp:103-159 | changing the entries of one leaf within its interval keeps the whole invariant, up to one entry too many |
| `BTree.InsertAgrees` | src/index/ix_index_handle.cpp:123-130 | inserting the entry at the found slot makes the leaves hold the map with that key added |
| `BTree.EraseAgrees` | src/index/ix_index_handle.cpp:137-159 | erasing the entry makes the leaves hold the map without that key |
| `BTree.SplitKeepsLaminar` | src/index/ix_index_handle.cpp:230-262 | cutting an interval keeps all page intervals nested or disjoint when no deeper page straddles the cut |
| `BTree.SplitLeafKeepsInv` | src/index/ix_index_handle.cpp:230-255 | splitting an overfull leaf keeps pages, slots, parents, intervals and the leaf chain, with the new half still to be linked |
| `BTree.SplitLeafKeepsChain` | src/index/ix_index_handle.cpp:244-255 | the new leaf enters the chain right after the old one, in both directions, and last_leaf_ follows |
| `BTree.SplitLeafAgrees` | src/index/ix_index_handle.cpp:230-242 | the two halves hold exactly the entries of the leaf |
| `BTree.SplitInternalKeepsInv` | src/index/ix_index_handle.cpp:230-260 | splitting an overfull internal page re-parents the moved children and keeps the invariant |
| `BTree.LinkRightKeepsInv` | src/index/ix_index_handle.cpp:299-309 | inserting the new half right after the old one in the parent completes the split and separates the two |
| `BTree.GrowRootKeepsInv` | src/index/ix_index_handle.cpp:279-297 | a split root gets a new root over both halves; all leaves stay at equal depth |
| `BTree.SetFirstKeyKeepsInv` | src/index/ix_index_handle.cpp:596-613 | updating slot 0 of a parent changes no separator and moves the pending key up one level |
| `BTree.RaiseKeepsInv` | src/index/ix_index_handle.cpp:596-613 | updating a later slot moves the separator up to the child's first key, along both sides of the boundary |
| `BTree.SkipDone` | src/index/ix_index_handle.cpp:596-613 | the walk up may stop where the parent already holds the child's first key |
| `BTree.ChainAscending` | src/index/ix_index_handle.cpp:244-255 | leaves further along the chain hold larger keys |
| `IxIndexHandle.IndexHandle.constructor` | src/index/ix_manager.h:81-134 | a new index is one empty leaf that is root, first and last leaf, and refines the empty map |
| `IxIndexHandle.IndexHandle.FindLeafPage` | src/index/ix_index_handle.cpp:184-197 | descent ends in the leaf whose interval contains the key |
| `IxIndexHandle.IndexHandle.GetValue` | src/index/ix_index_handle.cpp:207-221 | returns exactly what the map holds for the key |
| `IxIndexHandle.IndexHandle.SplitLeafPage` | src/index/ix_index_handle.cpp:230-255 | the split of a leaf, its new half pending |
| `IxIndexHandle.IndexHandle.SplitInternalPage` | src/index/ix_index_handle.cpp:230-260 | the split of an internal page, its new half pending |
| `IxIndexHandle.MaintainChildren` | src/index/ix_index_handle.cpp:644-652 | each moved child, and no other page, gets the new parent |
| `IxIndexHandle.IndexHandle.NewRoot` | src/index/ix_index_handle.cpp:279-297 | root growth restores the full invariant and the contents |
| `IxIndexHandle.IndexHandle.InsertIntoParent` | src/index/ix_index_handle.cpp:277-310 | from any pending split the recursion ends by height with the full invariant and the same contents |
| `IxIndexHandle.IndexHandle.MaintainParent` | src/index/ix_index_handle.cpp:596-613 | key repair up the tree terminates; the leaf's parent then keeps its first key, only separators have changed, and the invariant and the contents are kept |
| `IxIndexHandle.IndexHandle.InsertEntry` | src/index/ix_index_handle.cpp:318-341 | IX_NO_PAGE exactly on a present key, and then nothing changes; otherwise the map gains the key, and a new first key of a leaf with room is passed on to the parent; first_leaf_ never changes |
| `IxIndexHandle.IndexHandle.DeleteEntry` | src/index/ix_index_handle.cpp:348-363 | true exactly on a present key; the map loses the key, and the parent keeps the first key of the leaf unless it is empty |
| `IxIndexHandle.IndexHandle.Run` | src/index/ix_index_handle.cpp:207-363 | any sequence of inserts, deletes and lookups is answered as a finite map answers it |
| `LeafChain.ChainSorted` | src/index/ix_index_handle.cpp:478-551 | from first_leaf_ along next_leaf the keys are strictly ascending |
| `LeafChain.ChainComplete` | src/index/ix_index_handle.cpp:478-551 | the chain meets exactly the entries of the map |
| `LeafChain.PositionUnique` | src/index/ix_index_handle.cpp:478-551 | two positions are equal exactly when they name the same entry |
| `LeafChain.BoundFound` | src/index/ix_index_handle.cpp:478-518 | a slot with everything before it below the target is the first entry not below it |
| `IxIndexHandle.IndexHandle.LowerBound` | src/index/ix_index_handle.cpp:478-494 | terminates at the first entry not below the key, across any number of empty leaves |
| `IxIndexHandle.IndexHandle.UpperBound` | src/index/ix_index_handle.cpp:502-518 | terminates at the first entry above the key, across any number of empty leaves |
| `IxIndexHandle.IndexHandle.LeafBegin` | src/index/ix_index_handle.cpp:539-551 | the position of the first entry |
| `IxIndexHandle.IndexHandle.LeafEnd` | src/index/ix_index_handle.cpp:526-531 | the position behind the last entry |
| `IxScan.Scan.CurrentRid` | src/index/ix_index_handle.cpp:461-468 | the rid in the slot, or the error for a slot without an entry |
| `IxScan.Scan.Next` | src/index/ix_scan.cpp:17-30 | from entry f the cursor goes to entry f + 1, unless it crosses into an empty leaf that is not the last one |
| `IxScan.Collect` | src/index/ix_scan.cpp:17-34 | a scan succeeds if and only if its start is not behind its end and it crosses no empty leaf, and then returns exactly the entries between |
| `EmptyLeaf.EmptyTheLeaf` | src/index/ix_index_handle.cpp:348-363 | deleting the entries of a leaf one by one leaves the chain and every other leaf as it was |
| `EmptyLeaf.GapOpens` | src/index/ix_scan.cpp:24-28 | an empty leaf behind the first entries, with a leaf after it, lies in the way of a full scan |
| `EmptyLeaf.BreakScan` | src/index/ix_scan.cpp:17-30 | any index with more than twice its order of entries is brought by deletes alone to a well-formed state that a full scan cannot pass |
| `EmptyLeaf.Fill` | src/index/ix_manager.h:69-134 | a new index on any schema, with its real order and key space, filled by inserts |
| `EmptyLeaf.SmallestOrder` | src/index/ix_manager.h:69-79 | keys of 512 bytes have the smallest order, 6, and enough keys |
| `EmptyLeaf.EmptyLeafStopsScan` | src/index/ix_scan.cpp:24-28 | for every key schema with enough keys, a new index filled with 2 * order + 1 entries and then robbed of one leaf's entries ends a full scan in the entry-not-found error |
| `LogCodec.SignedRoundTrip` | src/recovery/log_manager.h:56-72 | signed integers survive encoding and decoding |
| `LogCodec.Serialize` | src/recovery/log_manager.h:169-182 | the copies at a moving offset leave exactly the record's encoding in the buffer and touch nothing else |
| `LogCodec.Validate` | src/recovery/log_manager.cpp:18-46 | accepts exactly the byte strings that parse as the announced values, record id and name, reading nothing past the announced length |
| `LogCodec.DecodeOne` | src/recovery/log_manager.h:183-192 | an insert or delete record is read exactly when its layout is valid |
| `LogCodec.DecodeUpdate` | src/recovery/log_manager.h:304-316 | an update record is read exactly when its layout is valid |
| `LogCodec.Decode` | src/recovery/log_manager.cpp:129-176 | decoding inverts encoding for every record; a change is accepted only as the encoding of what is returned |
| `LogCodec.TornHeader` | src/recovery/log_recovery.cpp:50-61 | a torn record that still has its header announces more bytes than the file holds |
| `LogCodec.LoadLogs` | src/recovery/log_recovery.cpp:41-69 | complete records followed by any strict prefix of one more yield exactly the complete records |
| `LogFormat.HeaderLayout` | src/recovery/log_defs.h:22-34 | type number, LSN, total length, transaction and previous LSN stand at bytes 0, 4, 8, 12 and 20, little-endian and in two's complement |
| `LogFormat.BodyLayout` | src/recovery/log_manager.h:169-192 | values stand behind the header with their lengths, then page, slot, length of the table name and table name, byte by byte |
| `LogProtocol.AppendStep` | src/recovery/log_manager.cpp:55-68 | an append keeps the protocol invariant, whether it adds a record or must flush first |
| `LogProtocol.FlushStep` | src/recovery/log_manager.cpp:73-88 | going to sleep, finding the buffer empty, or taking it over as the batch under way keeps the invariant |
| `LogProtocol.FailStep` | src/recovery/log_manager.cpp:89-97 | a failed write drops its batch and keeps the invariant |
| `LogProtocol.FinishStep` | src/recovery/log_manager.cpp:98-105 | publishing the batch's last LSN keeps the invariant |
| `LogProtocol.RunInv` | src/recovery/log_manager.cpp:55-127 | the invariant holds after every interleaving of appenders and flushers |
| `LogProtocol.AllInOrder` | src/recovery/log_manager.cpp:55-127 | file, batch and buffer together are the history of issued records without those that failed writes dropped; without failed writes, the whole history |
| `LogProtocol.DurableGrows` | src/recovery/log_manager.cpp:73-105 | records never leave the file and persist_lsn_ never goes back |
| `LogProtocol.ForceIsDurable` | src/recovery/log_manager.cpp:110-127 | when a force with a target returns, each record up to the target is in the file if and only if no failed write dropped it |
| `LogCalls.ForceOverRuns` | src/recovery/log_manager.cpp:110-127 | in every run in which a thread calls flush_log_to_disk and returns, every record up to its target is in the file or was dropped by a failed write; without a target, every record issued before the call |
| `LogCalls.AppendOverRuns` | src/recovery/log_manager.cpp:55-68 | in every run in which a thread calls add_log_to_buffer and returns, its record was issued once and with its bytes, or not at all because its own write of a full buffer failed |
| `LogProtocol.NotifyStep` | src/recovery/log_manager.cpp:101-104 | notify_all, with the latch released, wakes every sleeper and keeps the invariant |
| `LogProtocol.SomeoneWakes` | src/recovery/log_manager.cpp:73-127 | no wake-up is lost: in every state of every run, if any thread sleeps, an awake thread that waits for nobody is on its way to notify_all; so never do all sleep |
| `LogProtocol.SleeperIsWoken` | src/recovery/log_manager.cpp:73-127 | in any run from there a sleeper has been woken by the time that thread has taken three steps, whatever the others do and whether the write fails |
| `LogProtocol.CallCanReturn` | src/recovery/log_manager.cpp:55-127 | from every state of every run each append and force can return, by its own steps and those of one thread that finishes the batch under way or delivers its wake-up |
| `LogProtocol.FailedBatchIsForgotten` | src/recovery/log_manager.cpp:91-96 | a run after which persist_lsn_ covers a record that is not in the file |
| `WriteAheadRule.CoversTarget` | src/recovery/log_manager.cpp:110-127 | a force covers its own target |
| `WriteAheadRule.OwnStepKeepsCover` | src/recovery/log_manager.cpp:73-127 | a forcing thread goes on forcing, throws, or returns with everything it covered in the file or dropped |
| `WriteAheadRule.OthersKeepCover` | src/recovery/log_manager.cpp:55-127 | no step of another thread takes an LSN out of what a force covers |
| `WriteAheadRule.WorldStep` | src/storage/buffer_pool_manager.cpp:33-41 | every step of clients, pool threads and log threads keeps the rule, if a page being saved gets only LSNs that the saver's force covers |
| `WriteAheadRule.TouchBeforeWrite` | src/storage/buffer_pool_manager.cpp:229-230 | a change between the return of the force and the page write keeps the rule if and only if its records are already in the file |
| `WriteAheadRule.TouchExact` | src/storage/buffer_pool_manager.cpp:207-236 | a change leaves a state all of whose safe continuations keep the rule if and only if nobody is saving the page or the saver's force covers the LSN |
| `WriteAheadRule.RuleIffTouchesSafe` | src/storage/buffer_pool_manager.cpp:207-236 | over any run, every state and every safe continuation keeps the rule if and only if every change of the run is safe |
| `WriteAheadRule.RuleOverRuns` | src/storage/buffer_pool_manager.cpp:79-82 | in every state of every run whose changes are safe, whatever the interleaving of clients, pool threads and log threads, a page image with an LSN of this run is on disk only after every log record up to that LSN |
| `WriteAheadRule.OnlyFlushDisturbed` | src/storage/buffer_pool_manager.cpp:323-326 | a page that a client can change while it is being saved is being saved by a flush, never by an eviction or delete_page |
| `WriteAheadRule.SavedIsLoaded` | src/storage/buffer_pool_manager.cpp:72-150 | a page that was saved and evicted is loaded again as it was |
| `WriteAheadRule.FlushRaceBreaksRule` | src/storage/buffer_pool_manager.cpp:207-236 | a run from the start in which a client changes a page after the log force of a flush and before its page write, and which breaks the rule |
| `Recovery.UndoIsFirstLoser` | src/recovery/log_recovery.cpp:256-299 | undoing a record's loser changes newest first leaves the before-image of the oldest one that reached the page |
| `Recovery.RedoReaches` | src/recovery/log_recovery.cpp:209-254 | redoing winners from any page LSN reaches the committed value as long as no loser interferes |
| `Recovery.RecoveryExact` | src/recovery/log_recovery.cpp:74-299 | from given page LSNs before and after redo a record ends with its committed value if and only if its oldest loser change is above the latter or recorded that value |
| `Recovery.RecoveryAlwaysRight` | src/recovery/log_recovery.cpp:74-299 | a record ends with its committed value from every mix of flushed pages if and only if its oldest loser change recorded that value |
| `Recovery.RecoveryIdempotent` | src/recovery/log_recovery.cpp:209-299 | a second recovery, from whatever page LSNs the first left, changes no record |
| `Recovery.StrictRestores` | src/recovery/log_recovery.cpp:74-111 | if nobody writes a record after a transaction that did not commit, the exact condition holds for every record |
| `Recovery.AbortThenCommitLosesUpdate` | src/recovery/log_recovery.cpp:89-91 | a log with an abort followed by another transaction's committed update of the same record, which recovery loses |
| `Recovery.ReachedIsMax` | src/recovery/log_recovery.cpp:209-254 | for any log, the LSN of a page after redo is the largest of its LSN before and those of the winners' changes on it |
| `Recovery.RedoExact` | src/recovery/log_recovery.cpp:121-254 | on a page that only winners changed, redo applies exactly the changes that the page lacks, wherever in the log the page was flushed, if and only if the LSNs of its changes increase along the log |
| `Recovery.RedoCatchesUp` | src/recovery/log_recovery.cpp:209-254 | where redo applies what the page lacks, every record of the page ends with its last value |
| `Recovery.RecoveryManager.Analyze` | src/recovery/log_recovery.cpp:74-111 | for any log: winners are the committed transactions, which ids count as active, and the undo list is the changes of these, newest first; with ids that are not used again every change belongs to a winner or a loser, not both |
| `Recovery.RecoveryManager.PageHasLog` | src/recovery/log_recovery.cpp:121-135 | true exactly when the page exists and its LSN has reached the record's |
| `Recovery.RecoveryManager.ApplyRedo` | src/recovery/log_recovery.cpp:209-243 | a winner's change is applied exactly when the page has not seen it: an insertion or update leaves its new bytes, a deletion leaves nothing; then the page LSN moves to it, unless a deletion meets a page that does not exist |
| `Recovery.RecoveryManager.Redo` | src/recovery/log_recovery.cpp:248-254 | for any log, every record and LSN of the existing pages after redo; for a log of one server run, every record of every page |
| `Recovery.RecoveryManager.ApplyUndo` | src/recovery/log_recovery.cpp:256-290 | a loser's change is reversed exactly when the page has seen it: an insertion is removed, a deletion comes back, an update gets its old bytes; then the page LSN moves to it |
| `Recovery.RecoveryManager.Undo` | src/recovery/log_recovery.cpp:295-299 | for a log of one server run, every record after undo, in terms of the undo list |
| `Recovery.RecoveryManager.Recover` | src/recovery/log_recovery.cpp:74-299 | for a log of one server run: a record whose oldest loser change recorded the committed value ends with it; under strict execution that is every record, and running recovery again changes none. For any log without losers, what every record of an existing page ends with |
| `TableRun.RunHasBeforeImages` | src/recovery/log_manager.h:150-330 | the log of any run that inserts at free places, deletes and updates existing records has true before-images |
| `TableRun.OnlyIsWinnerChanges` | src/recovery/log_recovery.cpp:248-254 | what a log says of some transactions is the table after running these alone |
| `TableRun.CommittedRuns` | src/recovery/log_recovery.cpp:74-111 | under strict execution the committed transactions could have run alone |
| `TableRun.RecoverRun` | src/recovery/log_recovery.cpp:74-299 | after any strict run of inserts, deletes and updates, from any mix of flushed pages, recovery leaves the tables as if the committed transactions had run alone |
| `CrashRecovery.ParsedKind` | src/recovery/log_manager.h:26-34 | the type number in the file decides what kind of record recovery sees |
| `CrashRecovery.ParseInjective` | src/recovery/log_manager.cpp:129-176 | two log records that recovery sees alike differ at most in their previous LSN |
| `CrashRecovery.TornBatch` | src/recovery/log_manager.cpp:89-90 | any first part of the bytes of a batch is some complete records and part of one more |
| `CrashRecovery.FileIsPrefix` | src/recovery/log_manager.cpp:81-105 | wherever the crash cuts the batch under way, the log file holds the first n issued records and perhaps part of the next, with n at least the number of durable ones |
| `CrashRecovery.PrefixLoads` | src/recovery/log_recovery.cpp:41-69 | the bytes of the first n records and a torn one are what the loader needs to return exactly these records |
| `CrashRecovery.PrefixRecovers` | src/recovery/log_recovery.cpp:74-111 | every first part of the log of a strict run is itself the log of a strict run, and can be recovered |
| `CrashRecovery.PagesBehindLog` | src/storage/buffer_pool_manager.cpp:33-41 | by the write-ahead rule the log file has reached the LSN of every page on disk |
| `CrashRecovery.PagesFollowPrefix` | src/recovery/log_recovery.cpp:121-135 | pages that follow the whole log follow the part of it that survived |
| `CrashRecovery.ForcedCommitSurvives` | src/transaction/transaction_manager.cpp:974-979 | a transaction whose commit record was forced has committed in every part of the log that can survive |
| `CrashRecovery.AfterCrash` | src/recovery/log_manager.cpp:55-127 | after any safe run and a crash: the loadable records include all durable ones and every forced commit, and every page on disk is behind them |
| `CrashRecovery.RecoverPrefix` | src/recovery/log_recovery.cpp:74-299 | recovery from the first n records of a run, and from pages with LSNs below n, leaves the tables as if exactly the transactions that committed among these had run |
| `CrashRecovery.Restart` | src/rmdb.cpp:552-558 | end to end, in the first run of the server: after any safe interleaving of clients, pool and log threads without a failed log write, and a crash at any byte of the batch under way, loading the file and recovering leaves the tables as if exactly the transactions whose commit survived had run; every commit up to persist_lsn_ did survive |
| `SecondLifetime.RecoverTwice` | src/recovery/log_manager.h:371 | a log of two runs of the server, with the LSNs and ids of the first reused by the second, after which recovery loses the second run's committed update |
| `LruReplacer.Replacer.Victim` | src/replacer/lru_replacer.cpp:32-50 | the frame released longest ago leaves the list; fails exactly on an empty list |
| `LruReplacer.Replacer.Pin` | src/replacer/lru_replacer.cpp:56-71 | the frame leaves the list and the others keep their order; list, hash table and flags stay in step |
| `LruReplacer.Replacer.Unpin` | src/replacer/lru_replacer.cpp:77-88 | an absent frame becomes the most recent one; a present one stays where it is |
| `LruReplacer.WithoutAt` | src/replacer/lru_replacer.cpp:56-71 | taking a frame out of the list leaves the frames before it and behind it where they were |
| `LruHistory.VictimTracked` | src/replacer/lru_replacer.cpp:32-50 | the last frame of the list is, by the calls made so far, the one released first of all that may be evicted |
| `LruHistory.PinTracked` | src/replacer/lru_replacer.cpp:56-71 | after a pin the list still holds the frames that may be evicted in the order of their releases |
| `LruHistory.Run` | src/replacer/lru_replacer.cpp:32-88 | over any calls each victim is the frame whose release that counts is oldest, and there is none exactly when no frame may be evicted |
| `BufferPool.NoPageTwice` | src/storage/buffer_pool_manager.cpp:104-150 | no two pages share a frame |
| `BufferPool.ClaimKeepsPartition` | src/storage/buffer_pool_manager.cpp:48-95 | taking over a frame keeps frames split between free list and page table and the replacer's list sound |
| `BufferPool.ClaimKeepsView` | src/storage/buffer_pool_manager.cpp:72-95 | taking over a frame changes what no other page shows: a dirty victim reaches the disk first |
| `BufferPool.DeleteKeeps` | src/storage/buffer_pool_manager.cpp:299-341 | a freed frame may stay in the replacer's list, and the invariant still holds |
| `BufferPool.Shard.FindVictimPage` | src/storage/buffer_pool_manager.cpp:48-64 | a victim is a free frame or a mapped frame without pins; fails exactly when all frames are pinned |
| `BufferPool.Shard.UpdatePage` | src/storage/buffer_pool_manager.cpp:72-95 | writes a dirty old page back and maps the frame to the new page |
| `BufferPool.Shard.FetchPage` | src/storage/buffer_pool_manager.cpp:104-150 | shows the page's last contents with one pin more; fails exactly when the page is not cached and every frame is pinned; no other page changes |
| `BufferPool.Shard.UnpinPage` | src/storage/buffer_pool_manager.cpp:158-200 | takes a pin exactly when there is one; the page shows the same bytes; a dirty unpin marks it, and a clean one leaves an unmarked change unmarked |
| `BufferPool.Shard.FlushPage` | src/storage/buffer_pool_manager.cpp:207-236 | the page's contents reach the disk and no page changes |
| `BufferPool.Shard.FlushAllPages` | src/storage/buffer_pool_manager.cpp:347-365 | every cached page of the file reaches the disk, no page changes, and the disk changes only under cached pages |
| `BufferPool.Shard.NewPageAt` | src/storage/buffer_pool_manager.cpp:274-292 | a blank page with one pin, exactly when the page is not cached and a frame can be had |
| `BufferPool.Shard.DeletePage` | src/storage/buffer_pool_manager.cpp:299-341 | refuses exactly a pinned page, without effect; otherwise the page leaves the cache with its last contents on disk, unless its change was forgotten |
| `BufferPool.Shard.MarkDirty` | src/storage/buffer_pool_manager.h:70 | the page counts as marked and shows the same contents |
| `BufferPoolManager.FramesSpread` | src/storage/buffer_pool_manager.h:56-59 | every frame goes to exactly one shard, once |
| `BufferPoolManager.EveryShardHasFrames` | src/storage/buffer_pool_manager.cpp:15-23 | no shard of a pool with frames is left without one |
| `BufferPoolManager.ShardsIndependent` | src/storage/buffer_pool_manager.cpp:25-31 | a change of one shard under the pages it caches keeps every other shard sound and every page that one serves unchanged |
| `BufferPoolManager.Step` | src/storage/buffer_pool_manager.cpp:104-341 | each operation of a shard: when it succeeds, what the page shows, its pins, whether it is dirty, whether its change is unmarked, and what may leave the cache |
| `BufferPoolManager.Pool.constructor` | src/storage/buffer_pool_manager.h:48-60 | an empty pool: every frame free in one shard, every page shows its disk image |
| `BufferPoolManager.Pool.Apply` | src/storage/buffer_pool_manager.cpp:25-31 | a call of the pool is the operation in its page's shard and nothing in the others |
| `BufferPoolManager.Pool.FlushAllPages` | src/storage/buffer_pool_manager.cpp:347-365 | over all shards, every cached page of the file reaches the disk and no page changes |
| `BufferPoolManager.TransparentCache` | src/storage/buffer_pool_manager.cpp:72-365 | over any sequence of calls on the whole pool every successful fetch returns what was last written to its page, provided the clients of that page mark a change before its last unpin or with it |
| `BufferPoolManager.Run` | src/storage/buffer_pool_manager.cpp:25-31 | any sequence of operations run through the pool is a trace of the kind that `TransparentCache` speaks of, and ends in the pool's state |
| `BufferPoolManager.LossExact` | src/storage/buffer_pool_manager.cpp:72-95 | a call on another page changes what a page shows if and only if the page's change was unpinned without a mark, the page leaves the cache, and its disk image differs |
| `BufferPoolManager.ForgottenIsVictim` | src/storage/buffer_pool_manager.cpp:48-95 | after a clean last unpin of a page with an unmarked change its frame can be the next victim of a full shard, and the page then shows the same bytes if and only if they equal its disk image |
| `LostUpdate.LoseUpdate` | src/storage/buffer_pool_manager.cpp:72-200 | a run of the pool: write, clean unpin, fetch of another page, fetch again returns the old bytes |
| `BufferPoolManager.PoolStep` | src/storage/buffer_pool_manager.cpp:25-31 | an operation on a page in its shard keeps the whole pool sound, and no other page of any shard shows anything new, except a forgotten one |
| `Bitmap.SetBit` | src/record/bitmap.h:25 | setting a bit changes that bit and no other |
| `Bitmap.ResetBit` | src/record/bitmap.h:28 | clearing a bit changes that bit and no other |
| `Bitmap.BitAt` | src/record/bitmap.h:31-60 | bits are numbered from the highest bit of the first byte |
| `Bitmap.CountFull` | src/record/bitmap.h:31 | the number of set bits equals the number of slots exactly when every slot is taken |
| `Bitmap.NextBit` | src/record/bitmap.h:41-48 | the first position after the given one with the wanted bit, or the limit |
| `RecordFile.LayoutFits` | src/record/rm_manager.h:46-49 | for every legal record size header, bitmap and slots are disjoint and fit 4096 bytes, and a page holds at least seven records |
| `RecordFile.LayoutTight` | src/record/rm_manager.h:45-49 | one record more, with its bit, would fill the page to the end beside a file header |
| `RecordFile.KeyRoundTrip` | src/record/rm_file_handle.h:168-174 | a record id is recovered from its map key, so distinct ids have distinct keys |
| `RecordFile.MapDetermined` | src/record/rm_file_handle.cpp:340-361 | the pages determine the record map |
| `RecordFile.PresentIff` | src/record/rm_file_handle.cpp:35-40 | a record id is in the map exactly when its page exists, its slot is in range and its bit is set |
| `RecordFile.Unlink` | src/record/rm_file_handle.cpp:372-382 | rewriting the predecessor's link removes exactly that page from the free list and keeps the rest in order |
| `RecordFile.StoreKeeps` | src/record/rm_file_handle.cpp:76-87 | filling a slot and setting the map entry keeps map and pages equal |
| `RecordFile.EraseKeeps` | src/record/rm_file_handle.cpp:146-152 | clearing a bit and erasing the map entry keeps map and pages equal |
| `RmFileHandle.CreateFile` | src/record/rm_manager.h:34-55 | refused exactly for record sizes outside 1 to 512; otherwise an empty file |
| `RmFileHandle.GrowsWhenFull` | src/record/rm_file_handle.cpp:316-326 | the free list is empty exactly when every page is full |
| `RmFileHandle.FileHandle.RemovePageFromFreeList` | src/record/rm_file_handle.cpp:363-387 | the walk terminates and the list loses exactly that page |
| `RmFileHandle.FileHandle.ReleasePageHandle` | src/record/rm_file_handle.cpp:331-338 | the page becomes the head of the list |
| `RmFileHandle.FileHandle.CreateNewPageHandle` | src/record/rm_file_handle.cpp:287-308 | an empty page with the next number becomes the head of the list |
| `RmFileHandle.FileHandle.CreatePageHandle` | src/record/rm_file_handle.cpp:316-326 | a page with a free slot, new only when there is none |
| `RmFileHandle.FileHandle.InsertRecord` | src/record/rm_file_handle.cpp:65-93 | always finds a free slot, the first one of the page at the head of the free list or of a new page; the record gets an id that no record had; the file grows exactly when every page is full |
| `RmFileHandle.FileHandle.InsertRecordAt` | src/record/rm_file_handle.cpp:100-126 | the three errors exactly in their cases and without effect; otherwise the record is added |
| `RmFileHandle.FileHandle.DeleteRecord` | src/record/rm_file_handle.cpp:133-156 | the two errors exactly in their cases and without effect; otherwise the record is gone |
| `RmFileHandle.FileHandle.UpdateRecord` | src/record/rm_file_handle.cpp:165-191 | the two errors exactly in their cases and without effect; otherwise the record is replaced |
| `RmFileHandle.FileHandle.IsRecord` | src/record/rm_file_handle.cpp:35-40 | answered from the map, true exactly when the page's bit is set |
| `RmFileHandle.FileHandle.GetRecord` | src/record/rm_file_handle.cpp:48-57 | the bytes of the slot, or the error exactly when the bit is clear |
| `RmFileHandle.FileHandle.LoadMemoryRecords` | src/record/rm_file_handle.cpp:340-361 | the map equals what the pages in the file say; reopening a file gives the same map |
| `QueryLaws.OperatorLaws` | src/execution/execution_common.h:44-133 | of two values of one type exactly one of less, equal and greater holds, and not-equal, at-most and at-least are their negations |
| `QueryLaws.StringsOrdered` | src/execution/execution_common.h:70-82 | strings are ordered by the first byte that differs, a proper prefix first |
| `QueryLaws.ColumnStandsForValue` | src/execution/execution_common.h:84-133 | a column on the right stands for its value in the row, and a condition between columns can be read from either side |
| `QueryLaws.NegationSplits` | src/execution/execution_common.h:29-133 | a condition and its negation split the rows of any query, with multiplicities |
| `Relational.MeaningPermutes` | src/optimizer/planner.cpp:368-404 | the bag of rows that a query means does not depend on the order in which its sources yield rows |
| `Relational.SeesRight` | src/execution/execution_common.h:29-133 | a condition over one source has the same value on a joined row as on that source's row |
| `Relational.CrossCovers` | src/analyze/analyze.cpp:242-244 | a row of the product has every column of each of its sources |
| `Relational.ThinnedBare` | src/optimizer/planner.cpp:563-566 | without conditions on repeated sources, filtering their later occurrences changes nothing |
| `RepeatedSources.ThinnedIsCopies` | src/optimizer/planner.cpp:544-586 | the product of any sources, with or without filtered later occurrences, is as a bag the product of the first occurrences repeated as often as the later ones have rows |
| `RepeatedSources.SelfJoinRepeats` | src/analyze/analyze.cpp:195-244 | a query with any repeated sources is the query over the first occurrences, with each row as often as there are choices of rows from the later ones |
| `RepeatedSources.RepeatsExact` | src/optimizer/planner.cpp:563-566 | filtering the later occurrences keeps the number of repetitions if and only if it drops no row |
| `RepeatedSources.ThinnedExact` | src/optimizer/planner.cpp:563-566 | with filtered later occurrences a query has as many rows as without if and only if it has none or nothing is dropped, and then it has the same rows |
| `Plans.KeyImplied` | src/execution/executor_index_scan.h:212-232 | a pair that satisfies the join conditions satisfies the key bound to the inner scan |
| `Plans.JoinStep` | src/execution/executor_nestedloop_join.h:36-63 | joining a prefix with one more source, bound or not, is filtering its product with that source |
| `Plans.JoinAgain` | src/execution/executor_nestedloop_join.h:36-63 | joining a later occurrence of a source, without join conditions, repeats the rows joined before once for each of its rows |
| `Planner.Take` | src/optimizer/planner.cpp:271-307 | the erase loop splits a condition list in two, losing and duplicating nothing and keeping order |
| `Planner.TakeSingles` | src/optimizer/planner.cpp:373-377 | each source gets exactly its own conditions |
| `Planner.NothingLeft` | src/optimizer/planner.cpp:398-400 | once every source is joined no condition is left for push_conds |
| `Planner.ChooseInljKey` | src/optimizer/planner.cpp:309-331 | a key is one of the join's equalities with an indexed inner column, and none is chosen exactly when no condition equates such a column with one of a joined source |
| `Planner.JoinNext` | src/optimizer/planner.cpp:386-396 | one more join keeps the meaning of the plan, and its inner scan is bound to an outer column exactly when a join condition allows it |
| `Planner.BuildSourceScanPlan` | src/optimizer/planner.cpp:333-364 | the leaf yields its source's rows that satisfy its conditions and the bound key |
| `Planner.NoJoinsAgain` | src/optimizer/planner.cpp:285-307 | a source that is joined a second time gets no join conditions |
| `Planner.MakeOneRel` | src/optimizer/planner.cpp:368-404 | the plan yields exactly the rows of the cross product that satisfy every condition, whatever the indexes and however often a source occurs; each condition is placed exactly once |
| `Planner.AnyScanOrder` | src/optimizer/planner.cpp:346-357 | as a bag the result is the same whichever order index scans use |
| `ExplainPlan.NeededColumns` | src/optimizer/planner.cpp:568-579 | exactly the columns of the source that the output or an unchecked condition mentions, each once |
| `ExplainPlan.PopOne` | src/optimizer/planner.cpp:452-473 | taking a source's conditions from what is left gives the same conditions whichever sources went before |
| `ExplainPlan.PopSingles` | src/optimizer/planner.cpp:512-520 | each source gets its own conditions, by name, and the join conditions are left |
| `ExplainPlan.CheckedCount` | src/optimizer/planner.cpp:563-566 | a condition over one source is checked once for each occurrence of the source, any other condition once |
| `ExplainPlan.KeySurvives` | src/optimizer/planner.cpp:540-583 | the outer column of a bound key survives every projection below the join |
| `ExplainPlan.ExplainNext` | src/optimizer/planner.cpp:527-590 | one more source keeps the meaning of the plan; its scan is bound to an outer column exactly when a join condition allows it |
| `ExplainPlan.GenerateExplainPlan` | src/optimizer/planner.cpp:503-603 | for any sources: the selected columns of the rows that satisfy every condition, in the product whose later occurrences of a source contribute only rows that satisfy the source's own conditions. Each source is filtered by its own conditions and cut down to the columns still needed before it is joined; each join checks the conditions that it is the first to decide; no key column is ever missing |
| `ExplainPlan.ExplainExact` | src/optimizer/planner.cpp:563-566 | over given sources the plan yields the selected columns of the filtered cross product if and only if that is empty or every row of each repeated source satisfies the source's own conditions |
| `ExplainPlan.ExplainAgrees` | src/optimizer/planner.cpp:564 | it does so for all sources when no repeated source has conditions of its own |
| `ExplainSelfJoin.Select` | src/optimizer/planner.cpp:368-404 | the query `select a.x from t a, t b where a.x = 1` over the rows 1 and 2 has two rows |
| `ExplainSelfJoin.Explain` | src/optimizer/planner.cpp:563-566 | EXPLAIN ANALYZE of the same query finds one row and checks its one condition twice |
| `Executors.Executor.SkipRows` | src/execution/executor_seq_scan.h:96-123 | a scan skips exactly the rows that fail the conditions |
| `Executors.Executor.FindNextValid` | src/execution/executor_filter.h:31-43 | a filter skips exactly the rows that fail the conditions |
| `Executors.Executor.MatchRight` | src/execution/executor_nestedloop_join.h:38-53 | the next match under the current left row, if there is one |
| `Executors.Executor.AdvanceToNextMatch` | src/execution/executor_nestedloop_join.h:36-63 | terminates and skips exactly the pairs that fail the conditions, restarting the right side for each left row |
| `Executors.Executor.BindJoinKey` | src/execution/executor_filter.h:91-93 | the key reaches the scan below filters and projections and changes nothing else |
| `Executors.Executor.BeginTuple` | src/execution/executor_nestedloop_join.h:82-93 | from here the executor of any plan yields exactly the plan's rows under the bound key |
| `Executors.Executor.NextTuple` | src/execution/executor_nestedloop_join.h:95-99 | moves past exactly one row |
| `Executors.RunQuery` | src/optimizer/planner.cpp:368-404 | planning and running a query gives the rows of the cross product that satisfy every condition |
| `Executors.Drain` | src/execution/executor_nestedloop_join.h:36-116 | draining the executors of any plan gives the rows that the plan means, for joins every matching pair once in left-major order with the right side rebound to each left row |
| `IndexRange.PaddingOrders` | src/common/common.h:72-78 | memcmp of zero-padded strings is the order of the strings |
| `IndexRange.ValueOrders` | src/execution/execution_common.h:44-82 | key columns are ordered as the conditions order their values, for integers and strings |
| `IndexRange.FillsBound` | src/execution/executor_index_scan.h:136-158 | the minimum and maximum fills bound every key column |
| `IndexRange.ColumnBounds` | src/execution/executor_index_scan.h:248-265 | an equality, lower and upper bound on a column, each missing only when no condition offers one |
| `IndexRange.BuildRange` | src/execution/executor_index_scan.h:240-290 | an equality prefix, one column with bounds, minimum and maximum after it, and the flags that go with them |
| `IndexRange.RangeCovers` | src/execution/executor_index_scan.h:247-290 | every row that satisfies the conditions has its key in the range, for any mix of equality, open and closed bounds and any mix of integer and string columns |
| `IndexRange.RangeIsTight` | src/execution/executor_index_scan.h:267-271 | every key in the range agrees with every leading equality |
| `RangeExact.RangeImplies` | src/execution/executor_index_scan.h:267-299 | a row whose key is in the range satisfies the conditions that gave the bounds of the bounded column, an open one where no index column follows and its closed form in any case |
| `RangeExact.OpenBoundExact` | src/execution/executor_index_scan.h:267-299 | an open bound keeps its own value out of the range if and only if no index column follows |
| `IndexScanExecutor.StartBeforeEnd` | src/execution/executor_index_scan.h:292-299 | the start is not behind the end exactly when no entry lies between crossed bounds |
| `IndexScanExecutor.Positions` | src/execution/executor_index_scan.h:292-297 | the positions are the first entries of the range and past it |
| `IndexScanExecutor.IndexScan` | src/execution/executor_index_scan.h:212-301 | works exactly when the start is not behind the end and no empty leaf is crossed; then it returns each record that satisfies all conditions, once |
| `SetClauses.BuildRecord` | src/execution/executor_update.h:119-154 | every column of the new record has the value of the last clause that sets it, computed from the old record, or its old value |
| `SetClauses.UpdatedUnique` | src/execution/executor_update.h:119-154 | that determines the record |
| `SetClauses.StoredExactly` | src/execution/executor_update.h:129-139 | without overflow the old value of the right-hand column plus or minus the amount is stored |
| `SetClauses.SetsSwap` | src/execution/executor_update.h:129-139 | right-hand columns are read from the old record, so two columns can be exchanged |
| `UpdateExecutor.EntryMoved` | src/execution/executor_update.h:200-215 | replacing one record's entry makes the index agree with the changed table, when the new key was free |
| `UpdateExecutor.UpdateExecutor.CollectChanged` | src/execution/executor_update.h:183-198 | lists exactly the indexes whose key changes, with both keys |
| `UpdateExecutor.UpdateExecutor.Rollback` | src/execution/executor_update.h:218-225 | table and every index are as before the row |
| `UpdateExecutor.UpdateExecutor.UpdateRow` | src/execution/executor_update.h:182-230 | succeeds exactly when no changed index holds the new key; then record and entries are replaced everywhere, otherwise nothing has changed; the indexes agree with the table either way |
| `UpdateExecutor.UpdateExecutor.Next` | src/execution/executor_update.h:86-237 | updates the listed records that satisfy the conditions in turn; a duplicate key stops it with exactly the earlier rows updated, indexes in agreement |
| `UpdateExecutor.UpdateAllExact` | src/execution/executor_update.h:86-237 | of distinct records exactly those listed that satisfy the conditions are updated, column by column, and no other changes |

## Left out

- IxIndexHandle.IndexHandle.FindLeafPage: latches and the transaction's page set, because index calls run under one root latch.
- BufferPool.Shard.FetchPage: latches of the pool, because each call runs under its shard's latch; the log force inside is modelled in `WriteAheadRule`.
- BufferPoolManager.ShardsIndependent: the hash is modelled for non-negative ids with 16-bit file descriptors and is 0 elsewhere; the lemma does not depend on it.
- LogCodec.LoadLogs: a file with foreign bytes after the last complete record, other than a torn record, is not covered.
- LogProtocol.RunInv: how a record's bytes are laid out is the subject of `LogCodec`; `CrashRecovery.Restart` joins the two.
- LogProtocol.CallCanReturn: that a call returns under a fair scheduler is not stated, because an appender can find the buffer full again each time it wakes.
- CrashRecovery.Restart: the log of one run of the server, from an empty file, and no failed log write; `SecondLifetime.RecoverTwice` and `LogProtocol.FailedBatchIsForgotten` show what the others lead to.
- RmFileHandle.FileHandle.InsertRecord: pages are addressed directly; running out of buffer frames is not modelled here.
- Planner.MakeOneRel: conditions mention only the query's sources, as name analysis arranges; then `push_conds` has nothing to do and is not modelled.
- ExplainPlan.GenerateExplainPlan: table aliases, which only change how a plan is printed: name analysis keeps them by table name, so the alias test of `explain_pop_single_conds` never separates two columns of one table; single-source conditions are popped in source order instead of sorted order, which by `ExplainPlan.PopOne` takes the same conditions.
- Executors.Drain: an index scan is a scan in some order of the rows; `LimitExecutor`, whose `Next()` moves it, is not a possible child.
- IndexScanExecutor.IndexScan: integer and string index columns, whose conditions name analysis has typed; strings contain no zero byte; no record versions and no record locks.
- UpdateExecutor.UpdateExecutor.UpdateRow: an index is the finite map that its handle refines; logging and versions are not part of it.
- get_index_cols: which index a scan uses only changes the order of its rows.
- Record offsets in projections and joined records: rows are maps from columns to values.
- Floating-point columns and keys.
- Multi-version concurrency, locks, transactions and their watermarks.
- Index repair during recovery: index pages are not logged.
- coalesce, redistribute, adjust_root and coalesce_or_redistribute: unimplemented in the source.
- delete_all_pages, new_page, reset_data_pages, snapshot_rids: they would only add easy members.
- Sort, union, aggregate, limit and rename executors, data definition, checkpoints and loading.
- Lexer, parser, client and server input and output; the disk is a total map from page ids to contents and an append-only log file.
