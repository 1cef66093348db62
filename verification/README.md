# RMDB kernel: a verified model

RMDB is a relational database kernel written in C++. This project models the parts of it whose
correctness does not show from any one function, and proves that each agrees with a much simpler
specification. Everything is stated and proved in Dafny 4.11; `dafny verify dfyconfig.toml` checks the
whole project. `Basics.dfy` holds what several modules share.

**The unique B+ tree** (`Ix*.dfy`, `KeyOrder.dfy`). Pages form a heap `map<int, Page>` that the methods
of class `IxIndexHandle` change in place: page headers, entries, parent pointers, the circular leaf chain
with its header page, the free-page list and the structural epoch. A ghost `Shape` assigns every live page
a level, a slot in its parent and a key interval; `IxModel.Inv` ties the pages to it. Slot 0 of an internal
page is exempt from sortedness, because inserts never refresh it on the leftmost spine. The specification is a
finite map. Operations that hold the tree latch exclusively are atomic steps; a fast-path leaf insert is
an atomic step on one leaf. Keys are integers; `KeyOrder.Rank` carries composite keys over to them without
changing the order. A fresh page gets the number `numPages`.

**MVCC index probing** (`MvccProtocol.dfy`, `MvccProbe.dfy`, `SkipScan.dfy`, `IndexScan.dfy`). Writers
move keys between the tree and a registry of stale keys while readers scan both. This is a step system over
atomic steps in any interleaving, in which a commit publishes its rows and stamps its registry entries one
at a time. The retry loops of index scan, skip scan and index-join probe are methods over the tree of the
first part, with other operations on it before each round and leaf inserts during each scan, on every leaf
that the scan has not latched. What a scan meets elsewhere, the registry lookups and epochs of its rounds,
are parameters. The theorems hold for every run of the step system, called a `Story`, that accounts for what
the scan met.

**The heap file allocator** (`HeapFile.dfy`, `HeapRuns.dfy`). Class `RmFileHandle` with bitmaps, the free
list threaded through page headers, reservations, quarantine and active insert pages.

**Planner and joins** (`Predicates.dfy`, `Propagation.dfy`, `JoinExec.dfy`, `LeftDeep.dfy`). Constant
propagation, the left-deep plan, and both nested-loop executors as cursors, against "filter the Cartesian
product". The index join probes the tree of the first part, with other sessions at work around each probe.

**The statement gate** (`StatementGate.dfy`). Threads stepping through N shared mutexes.

**UPDATE and abort on the indexes** (`UpdateRekey.dfy`). Re-keying a batch of rows on the trees above, and
undoing it.

Four results show where a property fails, each with the exact condition under which it holds:

- A delete between the publication and the completion of the insert that filled its page ties the heap
  file's free list into a cycle (`DeleteIsSafeIff`). `DeleteBetweenPublishAndComplete` gets there by
  reservations alone, for every page capacity. In this source only a unit test calls `delete_record`
  (`src/unit_test.cpp:1391`); aborts, garbage collection and recovery free slots through the quarantine,
  which leaves the list alone.
- An abort cannot undo an UPDATE in which a row takes a key that a later row of the same statement gives up,
  such as a shift of keys in ascending order. If the earlier row already has its new key, the undo stops with
  a duplicate key, and the process ends; if the statement stopped before that, the undo goes through and the
  later row loses its index entry. In all other cases it restores the indexes exactly, from wherever the
  statement stopped (`Rollback`, `RestoredIff`, `ShiftClashes`).
- A range scan chooses its first slot under the latch of the leaf, lets the leaf go and latches it again. An
  insert between the two can make the scan start below its lower bound (`ScanStartsBelow`). It stays within
  the bound if and only if the leaf has as many keys below the bound at the latch as when the slot was chosen
  (`ScanAmongInserts`). No key of the range that was there is missed either way, and the executors check
  every candidate against the conditions, so what they return does not change (`IndexScan`, `SkipScanTable`).
- A condition in ON that compares with a constant, or two columns of one table, is applied at no level of
  the plan (`OnConstantIsDropped`). The plan answers a query on every database if and only if the conditions
  it does check imply the rest of ON (`ExactIff`). Those are WHERE, the cross-table conditions of ON and the
  constants that propagation carried over; without an equality in ON between columns of one table the first
  two suffice (`ExactWithoutLocalEqualities`). Such an equality takes part in propagation, so it is dropped
  without a constant and checked with one (`LocalEqualityNeedsConstant`).

One more result says what a check in the code is for: a tree scan followed by one registry lookup can miss a
row when an abort comes between them (`HandoffCanBeMissed`), and comparing the handoff epoch before and after
rules that out (`ReaderMissesNothing`).

Where comments and code disagree the model follows the code: `internal_lookup`
(`src/index/ix_index_handle.cpp:119-124`) says that slot `i` holds the least key of subtree `i` and that
position 0 cannot come up; slot 0 may hold any key and position 0 is a normal case.
`reserve_insert_slot` (`src/record/rm_file_handle.cpp:165-166`) speaks of a fixed bound on the active
pages, but one page is added beyond it whenever all of them are exhausted.

## Model

| member | source | states |
|---|---|---|
| `IxNode.LowerBound` | src/index/ix_index_handle.cpp:60-72 | position of the first key at or above the target, over sorted keys |
| `IxNode.UpperBound` | src/index/ix_index_handle.cpp:80-92 | correct from slot 1 on although slot 0 may be out of order |
| `IxNode.ChildSlot` | src/index/ix_index_handle.cpp:118-128 | the slot whose interval contains the key, whatever slot 0 holds |
| `IxNode.FindChild` | src/index/ix_index_handle.h:202-211 | index of the child in its parent, given that it is there |
| `IxNode.PageBuffer.InsertPairs` | src/index/ix_index_handle.cpp:144-162 | in-place shift: entries before, the new run, entries after; never past the buffer |
| `IxNode.PageBuffer.ErasePair` | src/index/ix_index_handle.cpp:187-201 | in-place removal of one entry, the others in order |
| `KeyOrder.BtreeOrder` | src/index/ix_manager.h:66-79 | order above 2, room for order + 1 entries in a page and for no more |
| `KeyOrder.Compare` | src/index/ix_index_handle.h:93-101 | the column loop decides lexicographic order, and equality only of equal keys |
| `KeyOrder.RankOrder` | src/index/ix_index_handle.h:93-101 | ranks of composite keys compare exactly as the keys do |
| `KeyOrder.RankLeading` | src/index/ix_index_handle.h:93-101 | a rank splits into the leading column and the rank of the rest |
| `IxSplit.SplitKeeps` | src/index/ix_index_handle.cpp:423-531 | halving a full page and inserting the separator into its parent keeps the whole tree invariant, the parent alone possibly too full |
| `IxNewRoot.NewRootKeeps` | src/index/ix_index_handle.cpp:486-512 | splitting the root under a fresh root keeps the invariant with nothing exempt |
| `IxRebalance.RebalanceKeeps` | src/index/ix_index_handle.cpp:829-856 | moving the border between two neighbours keeps the invariant |
| `IxRebalance.TakeFirstKeeps` | src/index/ix_index_handle.cpp:829-856 | borrowing the right neighbour's first entry is such a move |
| `IxRebalance.TakeLastKeeps` | src/index/ix_index_handle.cpp:829-856 | borrowing the left neighbour's last entry is such a move |
| `IxMerge.MergeKeeps` | src/index/ix_index_handle.cpp:744-767 | joining two neighbours and dropping their separator keeps the invariant, the right page in hand |
| `IxMerge.MergeIntoKeeps` | src/index/ix_index_handle.cpp:744-767 | the page writes of the code compute that state |
| `IxRaise.RaiseKeeps` | src/index/ix_index_handle.cpp:1077-1117 | raising a separator to the new least key of its subtree keeps the invariant |
| `IxRaise.SetFirstKeeps` | src/index/ix_index_handle.cpp:1077-1117 | refreshing slot 0 passes the pending refresh one level up |
| `IxSteps.AllocKeeps` | src/index/ix_index_handle.cpp:1053-1070 | the page taken is not live and not listed any more |
| `IxSteps.ReleaseKeeps` | src/index/ix_index_handle.cpp:1145-1150 | a page in hand goes to the front of the free list |
| `IxSteps.CollapseRootKeeps` | src/index/ix_index_handle.cpp:793-813 | replacing a root with one child by that child keeps the invariant |
| `IxIndex.RouteStep` | src/index/ix_index_handle.cpp:118-128 | one step of the descent keeps the key inside the page's interval |
| `IxIndex.LeafAnswers` | src/index/ix_index_handle.cpp:102-111 | the leaf that covers a key answers for the whole map |
| `IxIndex.IxIndexHandle.constructor` | src/index/ix_manager.h:81-140 | the empty index is valid and stands for the empty map |
| `IxIndex.IxIndexHandle.FindLeafPage` | src/index/ix_index_handle.cpp:332-355 | descends to a leaf whose interval contains the key; terminates |
| `IxIndex.IxIndexHandle.GetValue` | src/index/ix_index_handle.cpp:365-404 | exact lookup; a ticket left behind is sound |
| `IxIndex.IxIndexHandle.CreateNode` | src/index/ix_index_handle.cpp:1053-1070 | hands out a page that is not live, from the free list or the end of the file |
| `IxIndex.IxIndexHandle.Split` | src/index/ix_index_handle.cpp:423-471 | the code's writes are the abstract split of a full page |
| `IxIndex.IxIndexHandle.InsertIntoParent` | src/index/ix_index_handle.cpp:486-531 | recursive upward insertion ends with the full invariant and a larger epoch |
| `IxIndex.IxIndexHandle.FastInsert` | src/index/ix_index_handle.cpp:541-593 | a one-leaf insert never reaches the split threshold and keeps all routing |
| `IxIndex.IxIndexHandle.Consume` | src/index/ix_index_handle.cpp:544-560 | a ticket is used once, and only with its owner, key and epoch |
| `IxIndex.IxIndexHandle.Locate` | src/index/ix_index_handle.cpp:598-626 | ticket or descent: the leaf covers the key |
| `IxIndex.IxIndexHandle.InsertEntry` | src/index/ix_index_handle.cpp:539-657 | adds exactly one absent key; a present key changes nothing |
| `IxIndex.IxIndexHandle.MaintainParent` | src/index/ix_index_handle.cpp:1077-1117 | restores the child-key equation up the spine; map unchanged |
| `IxIndex.IxIndexHandle.AdjustRoot` | src/index/ix_index_handle.cpp:793-813 | collapses a root with one child, keeps an empty leaf root; map unchanged |
| `IxIndex.IxIndexHandle.Redistribute` | src/index/ix_index_handle.cpp:829-856 | borrows one entry either way; sizes legal again |
| `IxIndex.IxIndexHandle.Merge` | src/index/ix_index_handle.cpp:744-767 | merges into the left page and frees the right one |
| `IxIndex.IxIndexHandle.CoalesceOrRedistribute` | src/index/ix_index_handle.cpp:709-785 | repairs an underfull page through any number of levels; map unchanged |
| `IxIndex.IxIndexHandle.DeleteEntry` | src/index/ix_index_handle.cpp:664-696 | returns presence and removes exactly that key |
| `IxTheorems.LiveIsReachable` | src/index/ix_index_handle.cpp:332-355 | the live pages are exactly those reachable from the root |
| `IxTheorems.PageConservation` | src/index/ix_index_handle.cpp:1053-1150 | pages 2 up to the high-water mark are the disjoint union of reachable pages and an acyclic free list |
| `IxTheorems.UniformDepth` | src/index/ix_index_handle.cpp:709-815 | all leaves have the same depth |
| `IxTheorems.PageSizes` | src/index/ix_index_handle.h:128-130 | non-root sizes in [max/2, max-1], internal root at least 2, parent pointers, child slot 0 equals the parent's slot |
| `IxTheorems.Separators` | src/index/ix_index_handle.cpp:118-128 | keys below slot i lie between the separators of slots i and i + 1 |
| `IxTheorems.ContentsAreLeaves` | src/index/ix_index_handle.cpp:365-404 | the map is exactly what the leaves hold |
| `IxTheorems.LeafChain` | src/index/ix_index_handle.cpp:1023-1138 | the chain visits exactly the leaves, in key order both ways; page 2 stays first, the header agrees with both ends |
| `IxTheorems.NoOverflow` | src/index/ix_manager.h:66-79 | at every step of an insertion each page has at most order + 1 entries, and with the computed order these fit the page |
| `IxRuns.Step` | src/index/ix_index_handle.cpp:365-696 | each operation answers and acts like the map, all tickets stay sound, and no interval changes without a larger epoch |
| `IxRuns.Replay` | src/index/ix_index_handle.cpp:365-696 | every run of probes, inserts, deletes and descents with any tickets gives the answers of a finite map, and a ticket with the current epoch always names the leaf of a fresh descent |
| `IxRuns.FreshDescent` | src/index/ix_index_handle.cpp:541-560 | with the epoch unchanged, a ticket's leaf is the one a fresh descent finds |
| `IxScan.GetBoundKey` | src/index/ix_index_handle.cpp:947-996 | the least key at or above, or strictly above, the probe |
| `IxScan.IxScan.constructor` | src/index/ix_index_handle.cpp:895-911 | chooses the slot of the first key at or above the bound: no such key is passed, and the number of the slot counts the keys below the bound in its leaf |
| `IxScan.IxScan.Latch` | src/index/ix_scan.cpp:45-55 | latched, the scan stands on a pair no later than any key not passed, or has ended when none of them is within the upper bound |
| `IxScan.IxScan.Next` | src/index/ix_scan.cpp:87-122 | moves strictly on and passes no key, to the next slot or, letting the leaf go, to the first slot of the next leaf |
| `IxScan.RangeScan` | src/index/ix_scan.cpp:38-122 | exactly the pairs in [lower, upper], ascending, each once, and it ends |
| `IxScan.ScanAmongInserts` | src/index/ix_scan.cpp:38-122 | the same with leaf inserts in between, also before a leaf is latched: ascending, within the upper bound, every pair of the range there at the start, none that is not in the tree at the end; within the lower bound if and only if the first leaf has no more keys below it at the latch than when its slot was chosen |
| `IxScan.FirstKey` | src/index/ix_scan.cpp:38-56 | the first pair is at or above the lower bound exactly when the slot number still counts the keys below it |
| `IxScan.ScanStartsBelow` | src/index/ix_scan.cpp:38-56 | a tree and an insert between slot and latch after which the scan stands on a key below its lower bound |
| `SkipScan.TreePhase` | src/execution/mvcc_index_probe.h:182-225 | without fallback every key whose suffix is in bounds is settled, whatever writers do between probes and inserts during sub-range scans; no candidate comes from beyond the last leading value, and without such inserts all come from suffixes in bounds; the leading values probed strictly increase; a budget exceeded leaves no candidates and asks for the heap scan |
| `SkipScan.SubRange` | src/execution/mvcc_index_probe.h:197-212 | the sub-range scan of one leading value settles all keys up to the next one, and what it meets is not beyond it |
| `MvccProtocol.StepKeeps` | src/transaction/transaction_manager.cpp:1107-1254 | every step of every writer, reader and collector keeps the protocol invariant |
| `MvccProtocol.RunInv` | src/transaction/transaction_manager.cpp:1107-1254 | the invariant holds in every reachable state |
| `MvccProtocol.RowPublished` | src/transaction/transaction_manager.cpp:367-397 | while a commit publishes its rows one by one, every snapshot still has each row it needs in the tree or the registry |
| `MvccProtocol.EntryLasts` | src/transaction/transaction_manager.cpp:1183-1242 | a registry entry a snapshot needs stays until an abort bumps the epoch |
| `MvccProtocol.ReaderMissesNothing` | src/execution/mvcc_index_probe.h:153-169 | equal epochs around one tree-then-registry pass: every pair the snapshot needs was met, in every interleaving |
| `MvccProtocol.HandoffCanBeMissed` | src/execution/mvcc_index_probe.h:153-155 | a run in which a pass with changed epoch misses a needed pair |
| `MvccProbe.NeedsStays` | src/transaction/transaction_manager.cpp:2085-2124 | what a snapshot needs never changes after it began |
| `MvccProbe.StablePassIsComplete` | src/execution/mvcc_index_probe.h:156-169 | the round that ends the retry loop has met everything needed |
| `MvccProbe.EncodedRidInjective` | src/execution/mvcc_index_probe.h:88-91 | no two 32-bit RIDs share an encoding |
| `MvccProbe.OneKeyPerRow` | src/transaction/transaction_manager.cpp:1107-1254 | a row is in the tree under at most one key at a time |
| `MvccProbe.ListedOnce` | src/execution/mvcc_index_probe.h:115-151 | so one tree scan lists no row twice, which is why the first round needs no deduplication |
| `MvccProbe.CollectCurrentTree` | src/execution/mvcc_index_probe.h:115-133 | point lookup or range scan of the tree: every key in range from the start, and only keys that are there at the end and not above the range, each once |
| `MvccProbe.AddNew` | src/execution/mvcc_index_probe.h:88-151 | remembering 64-bit encodings adds exactly the 32-bit RIDs not met before |
| `MvccProbe.AddRound` | src/execution/mvcc_index_probe.h:115-151 | one round adds its tree and stale RIDs and nothing else; only the first tree scan is not deduplicated |
| `MvccProbe.CollectCandidates` | src/execution/mvcc_index_probe.h:93-170 | stops at the first round that leaves the epoch alone; every round's tree scan covers the range; the candidates are the union of the rounds |
| `MvccProbe.CandidateRids.PushBack` | src/execution/mvcc_index_probe.h:24-36 | inline buffer and overflow list behave as one sequence |
| `MvccProbe.CandidateRids.At` | src/execution/mvcc_index_probe.h:47-49 | element of that sequence |
| `MvccProbe.CollectSkipScanCandidates` | src/execution/mvcc_index_probe.h:172-263 | the same over the tree phase, with budgets: without fallback the union of the rounds within budget, without repeats, every covered key settled in every round |
| `Predicates.EvalConds` | src/execution/executor_abstract.h:90-119 | true exactly when every condition holds |
| `IndexScanExec.FindColumnConds` | src/execution/executor_index_scan.h:83-111 | an equality if there is one, the tightest lower and upper constants |
| `IndexScanExec.BuildKeys` | src/execution/executor_index_scan.h:113-184 | the two scan keys as functions of the conditions, from any starting column |
| `IndexScanExec.KeysEnclose` | src/execution/executor_index_scan.h:113-184 | pinned equality prefix, one range column with the tightest constants, sentinels after it; every matching record's key lies between the two |
| `IndexScanExec.MatchesInRange` | src/execution/executor_index_scan.h:113-184 | so the rank of every matching record is in the range scanned |
| `IndexScanExec.RangeIsMet` | src/execution/mvcc_index_probe.h:93-170 | in every run that accounts for the rounds, once one has left the epoch alone every row of the snapshot in the range is a candidate |
| `IndexScanExec.MetOnce` | src/execution/mvcc_index_probe.h:93-170 | and no row is a candidate twice |
| `IndexScanExec.Recheck` | src/execution/executor_index_scan.h:212-233 | the candidates that are visible and meet every condition |
| `IndexScanExec.IndexScan` | src/execution/executor_index_scan.h:212-333 | among concurrent writers an index scan that ended returns exactly the rows of its snapshot that meet the conditions, each once, whether their keys are in the tree or in the registry |
| `IndexScanExec.SkipScanTable` | src/execution/executor_index_scan.h:154-205 | the same for a skip scan, and also when it falls back to the heap |
| `IndexScanExec.OpenProbe` | src/execution/executor_index_nestedloop_join.h:63-84 | the probe of an index join returns every row of the snapshot with the outer value, no row twice |
| `HeapFile.PushIsSafeIffUnlisted` | src/record/rm_file_handle.cpp:572-576 | pushing a page keeps the free list walkable exactly when it was not listed |
| `HeapFile.DeleteIsSafeIff` | src/record/rm_file_handle.cpp:340-372 | a delete keeps the list walkable exactly when its page is not both full and listed |
| `HeapFile.DeleteBetweenPublishAndComplete` | src/record/rm_file_handle.cpp:162-372 | for every capacity, reservations lead to a page that is full and listed, and a delete there leaves a list that no walk ends |
| `HeapFile.FullIffAllSet` | src/record/rm_file_handle.cpp:322-322 | the counter reaches capacity exactly when all bits are set |
| `HeapFile.RmFileHandle.FirstAvailableSlot` | src/record/rm_file_handle.cpp:585-601 | least slot that is clear, not quarantined and not reserved |
| `HeapFile.RmFileHandle.UnlinkFreePageIfNeeded` | src/record/rm_file_handle.cpp:665-695 | removes exactly that page from the list; the walk ends |
| `HeapFile.RmFileHandle.CreateNewPage` | src/record/rm_file_handle.cpp:511-535 | an empty page with the next number at the head of the list |
| `HeapFile.RmFileHandle.CreatePageHandle` | src/record/rm_file_handle.cpp:542-567 | a listed page with an available slot; exhausted heads are unlinked; terminates |
| `HeapFile.RmFileHandle.InsertRecord` | src/record/rm_file_handle.cpp:205-243 | stores in a slot that was clear, unreserved and not quarantined; nothing else changes |
| `HeapFile.RmFileHandle.InsertAt` | src/record/rm_file_handle.cpp:250-288 | creates missing pages, refuses an occupied slot, ends the slot's quarantine |
| `HeapFile.RmFileHandle.DeleteRecord` | src/record/rm_file_handle.cpp:340-372 | error cases; clears one bit; a full page returns to the head of the list |
| `HeapFile.RmFileHandle.DeleteRecordQuarantine` | src/record/rm_file_handle.cpp:374-400 | clears the bit, quarantines the slot, leaves the list alone |
| `HeapFile.RmFileHandle.AddActive` | src/record/rm_file_handle.cpp:117-121 | adds a page once |
| `HeapFile.RmFileHandle.RemoveActive` | src/record/rm_file_handle.cpp:123-131 | removes the page, the others keep their order; the cursor stays in range |
| `HeapFile.RmFileHandle.EnsureActive` | src/record/rm_file_handle.cpp:133-160 | exactly the wished number of active pages when there were fewer, the new ones with room; both loops end |
| `HeapFile.RmFileHandle.FindActive` | src/record/rm_file_handle.cpp:169-189 | finds an available slot on an active page if there is any |
| `HeapFile.RmFileHandle.PickSlot` | src/record/rm_file_handle.cpp:162-197 | the endless loop ends after at most one extra page |
| `HeapFile.RmFileHandle.ReserveInsertSlot` | src/record/rm_file_handle.cpp:162-197 | a clear slot no other live reservation names; the counter grows by one, the cursor moves on to the next page |
| `HeapFile.RmFileHandle.CancelInsertReservation` | src/record/rm_file_handle.cpp:607-629 | ends exactly that reservation; a dead one changes nothing |
| `HeapFile.RmFileHandle.Publish` | src/record/rm_file_handle.cpp:298-330 | sets the reserved bit, or reports a bad reservation or an occupied slot |
| `HeapFile.RmFileHandle.CompleteInsertReservation` | src/record/rm_file_handle.cpp:631-663 | ends the reservation and takes a filled page off the list and the active pages |
| `HeapFile.RmFileHandle.InsertReserved` | src/record/rm_file_handle.cpp:298-333 | both halves in a row: one record more, no full page listed afterwards |
| `HeapFile.RmFileHandle.BulkInsertRecords` | src/record/rm_file_handle.h:145-206 | n different free slots filled, all other records as before |
| `HeapFile.RmFileHandle.PrepareInsertRid` | src/record/rm_file_handle.cpp:96-115 | the least available slot of the first listed page with room, or slot 0 of a new page when none has |
| `HeapFile.RmFileHandle.ListedPagesHaveRoom` | src/record/rm_file_handle.cpp:665-695 | at rest: exact counters, acyclic list without repeats, only pages with a clear bit on it |
| `HeapRuns.LiveReservationsDiffer` | src/record/rm_file_handle.cpp:162-197 | live reservations for the same slot are the same reservation |
| `HeapRuns.Run` | src/record/rm_file_handle.cpp:162-663 | all of this after every interleaving of reserve, publish, complete, cancel, inserts and deletes |
| `Propagation.FindConstant` | src/optimizer/planner.cpp:85-94 | the first equality with a constant, exactly when the column has one |
| `Propagation.Carry` | src/optimizer/planner.cpp:103-123 | a change gives a column of the join its constant, so that fewer are without |
| `Propagation.CarryShrinks` | src/optimizer/planner.cpp:103-123 | a look at a join that changes nothing means that the join is closed |
| `Propagation.PropagateEqualityConstants` | src/optimizer/planner.cpp:74-126 | terminates; only adds constants of joined columns that the equality joins imply; ends with no compatible equality join bound on one side only |
| `Propagation.PropagatedIsClosed` | src/optimizer/planner.cpp:74-126 | the same of the fixpoint as a function of the query |
| `Propagation.SameRows` | src/optimizer/planner.cpp:74-126 | the rows that qualify are the same before and after, given the equality joins |
| `JoinExec.ScanTable` | src/optimizer/planner.cpp:544-558 | the rows of the table that pass its filter, each once |
| `JoinExec.NestedLoopJoinExecutor.AdvanceToNextValid` | src/execution/executor_nestedloop_join.h:43-60 | the first match at or after the cursor; none is skipped |
| `JoinExec.NestedLoopJoinExecutor.BeginTuple` | src/execution/executor_nestedloop_join.h:82-94 | stands on the first match or has ended, also with an empty side |
| `JoinExec.NestedLoopJoinExecutor.NextTuple` | src/execution/executor_nestedloop_join.h:96-108 | moves strictly on and skips no match |
| `JoinExec.DrainNestedLoop` | src/execution/executor_nestedloop_join.h:43-108 | exactly the pairs that meet the conditions, each once |
| `JoinExec.IndexNestedLoopJoinExecutor.OpenProbe` | src/execution/executor_index_nestedloop_join.h:63-84 | probes the tree and the registry with the outer value of the left tuple |
| `JoinExec.ProbeIsFaithful` | src/execution/executor_index_nestedloop_join.h:63-84 | a probe that ended and that a run of the protocol accounts for has every row with the value, none twice |
| `JoinExec.IndexNestedLoopJoinExecutor.AdvanceToNextValid` | src/execution/executor_index_nestedloop_join.h:95-126 | the next candidate that is visible and passes filter and join conditions, across the probes of further left tuples; none is skipped |
| `JoinExec.DrainIndexJoin` | src/execution/executor_index_nestedloop_join.h:63-171 | one probe for each left tuple, and exactly the matches among their candidates, each once when no left tuple and no candidate of a probe repeats |
| `LeftDeep.Classify` | src/optimizer/planner.cpp:529-537 | one-table WHERE conditions by table, all others after the ON conditions |
| `LeftDeep.LevelConds` | src/optimizer/planner.cpp:566-574 | exactly the join conditions that tie the new table to earlier ones |
| `LeftDeep.ChooseProbe` | src/optimizer/planner.cpp:576-599 | an indexed equality of the level if there is one |
| `LeftDeep.MakeLeftDeepJoinPlan` | src/optimizer/planner.cpp:524-609 | a left-deep plan over all tables in FROM order; an error exactly for empty FROM |
| `LeftDeep.OneLevel` | src/optimizer/planner.cpp:566-574 | every cross-table condition is applied at one level only, that of its later table |
| `LeftDeep.Extend` | src/optimizer/planner.cpp:563-607 | one level turns the qualifying tuples of n tables into those of n + 1 |
| `LeftDeep.ProbeFinds` | src/execution/executor_index_nestedloop_join.h:63-87 | a row that meets the conditions of the level has the value its left tuple is probed with |
| `LeftDeep.IndexMisses` | src/execution/executor_index_nestedloop_join.h:63-126 | so probes that a run accounts for lose no match |
| `LeftDeep.Execute` | src/optimizer/planner.cpp:524-609 | any mix of both joins delivers only tuples that pass filters and join conditions, and exactly those, each once, in all runs that account for its probes |
| `LeftDeep.PlannerSorts` | src/optimizer/planner.cpp:524-537 | the filters are the one-table conditions of WHERE and constants that the equality joins imply |
| `LeftDeep.QualifyingIsDelivered` | src/optimizer/planner.cpp:524-609 | filters per scan and conditions per level together check WHERE, cross-table ON and the carried constants |
| `LeftDeep.Select` | src/optimizer/planner.cpp:524-609 | planning and running delivers each such tuple of the Cartesian product once; without an ON equality inside a table these are the tuples that meet WHERE and cross-table ON; and the answer to the query when the rest of ON follows |
| `LeftDeep.ExactIff` | src/optimizer/planner.cpp:524-609 | the plan answers the query on every database if and only if ON follows from what it checks |
| `LeftDeep.ExactWithoutLocalEqualities` | src/optimizer/planner.cpp:524-609 | without ON equalities inside a table: if and only if WHERE and cross-table ON imply the rest of ON |
| `LeftDeep.CrossOnIsExact` | src/optimizer/planner.cpp:524-609 | a query whose ON compares different tables throughout is answered on every database |
| `LeftDeep.WitnessIsDelivered` | src/optimizer/planner.cpp:524-609 | column values that pass what is checked make a database of one row a table whose only tuple is delivered |
| `LeftDeep.OnConstantIsDropped` | src/optimizer/planner.cpp:566-574 | a query whose ON constant lets a failing tuple through |
| `LeftDeep.LocalEqualityNeedsConstant` | src/optimizer/planner.cpp:103-123 | an ON equality of two columns of one table is dropped with an empty WHERE, and enforced when WHERE fixes one of them |
| `StatementGate.StepKeeps` | src/rmdb.cpp:187-286 | every lock and unlock step keeps mutexes and threads in agreement |
| `StatementGate.RunInv` | src/rmdb.cpp:187-286 | so they agree in every reachable state of any number of threads |
| `StatementGate.Exclusion` | src/rmdb.cpp:205-226 | an exclusive holder is alone: no reader, no writer, nobody with even one shard |
| `StatementGate.UnlockReleasesOwn` | src/rmdb.cpp:267-277 | unlocking releases exactly what the thread had and touches nobody else's locks |
| `StatementGate.UnlockFreesAll` | src/rmdb.cpp:221-225 | a whole exclusive unlock among other threads: each shard is freed by a step of its own, in descending order, and the thread ends with none |
| `StatementGate.SomeHolderCanStep` | src/rmdb.cpp:205-226 | no deadlock: while a lock is held some holder can step |
| `UpdateRekey.CheckNewKeys` | src/execution/executor_update.h:216-231 | a duplicate exactly when two rows take the same key of an index |
| `UpdateRekey.OldKeyPresent` | src/execution/executor_update.h:374-385 | each delete finds its key |
| `UpdateRekey.NewKeyAbsent` | src/execution/executor_update.h:386-391 | no insert meets a duplicate |
| `UpdateRekey.RekeyedIs` | src/execution/executor_update.h:374-391 | deleting all and then inserting all gives {key(new row) -> rid} for any permutation or shift |
| `UpdateRekey.Rekey` | src/execution/executor_update.h:374-391 | UPDATE on all trees goes through unless an index operation fails, and ends in that state; stopped at any operation, each index is the old one with the deletes and inserts so far |
| `UpdateRekey.DropNewKeys` | src/execution/index_helper.h:142-155 | removes the new key of every changed index, whichever row it belongs to |
| `UpdateRekey.RestoreOldKeys` | src/execution/index_helper.h:182-209 | puts the old keys back, an error exactly when an earlier row sits on one |
| `UpdateRekey.OldKeyTaken` | src/execution/index_helper.h:182-209 | a row finds its old key with another row exactly when an earlier row has taken it |
| `UpdateRekey.UndoIs` | src/transaction/transaction_manager.cpp:498-505 | after the undo of the last rows a key is back, gone or as before, by which of them give and take it |
| `UpdateRekey.UndoneIs` | src/transaction/transaction_manager.cpp:477-510 | undone to the first row from any stop, an index has lost exactly the keys that a row wants back and an earlier row takes |
| `UpdateRekey.RestoredIff` | src/transaction/transaction_manager.cpp:477-510 | nothing is lost if and only if there is no such row |
| `UpdateRekey.Rollback` | src/transaction/transaction_manager.cpp:477-510 | from any stop an abort restores every index if and only if no row wants a key back that an earlier row takes; otherwise it fails when such a key is taken already, and loses those keys when none is |
| `UpdateRekey.ShiftClashes` | src/transaction/transaction_manager.cpp:477-510 | an UPDATE that completes and that an abort cannot undo, and that stopped before its inserts loses a key |

## Left out

- Lexer, parser, sockets, client, output files, environment switches: input and output.
- Buffer pool, disk manager, write-ahead log, recovery, page LSNs, header flushing, the resident-root cache: pages are an identity map and operations do not fail for lack of frames; an UPDATE may be stopped at any of its index operations.
- Record bytes: values are integers of an abstract total order, so NaN, infinities, signed zero and raw byte layout do not occur; the byte loop of `MakeKey` is a projection.
- The bit operations of `Bitmap`: a page's bits are a set of slot numbers.
- Sort, aggregate, union and projection executors, EXPLAIN, `make_one_rel` and `push_conds`: easy or unused by the planner.
- `get_index_cols` and `get_skip_scan_index_cols`: which index is chosen does not change the result, and the scans are proved for every index.
- Index joins over keys of different type or length: the probe copies the shorter length, and the model's keys compare as whole values.
- Lock manager, serializable validation, unique-key reservation and retry timing: the accepted new keys of an UPDATE are a precondition.
- IxIndex.IxIndexHandle.FastInsert: latching between threads is not modelled; a one-leaf insert is one atomic step.
- IxScan.ScanAmongInserts: only one-leaf inserts come in between, because a scan holds the tree latch shared and everything else takes it exclusively; how many there are and when is a parameter.
- MvccProbe.CollectCandidates: takes the registry lookups and epochs of its rounds as a value, so that the loop ends when the rounds given do; that handoffs cease is not claimed.
- MvccProbe.CollectSkipScanCandidates: the same, and whether a registry lookup exceeded its budget is part of the round.
- IndexScanExec.IndexScan: a snapshot sees committed rows; the rows its own transaction has written are not modelled. Without a round that leaves the epoch alone only soundness and no repeats are stated.
- IndexScanExec.SkipScanTable: a snapshot is as for the index scan, and without such a round only soundness and no repeats are stated.
- HeapFile.RmFileHandle.DeleteRecord: requires that no insert which filled the page is between publication and completion, since otherwise the list breaks as DeleteIsSafeIff says.
- HeapFile.RmFileHandle.InsertAt: page numbers below 1 name the header page, which the code does not guard, and slots out of range are not guarded either; both are preconditions.
- HeapFile.RmFileHandle.BulkInsertRecords: requires that there are no reservations, which the exclusive statement gate provides.
- LeftDeep.Execute: the order in which scans list the rows of their table is a parameter, because the planner promises none.
- UpdateRekey.Rollback: the write set is that of one statement; an operation that fails has no effect of its own.
- HeapRuns.Run: a delete on a page whose filling insert is not yet completed is passed over; DeleteIsSafeIff says what it would do.
- StatementGate.Next: the lock and unlock loops appear as single steps, because what they promise is about interleavings; slots are reduced modulo the shard count, which is what the mask does for a power of two.
