# Verified model of the RapidDB storage core

RapidDB keeps its tables in B+ trees whose pages are vectors of records in memory.  Splits are lazy: a page
may grow past its limit and is cut into several pages when the write queue is settled, or at once when it
passes a threshold.  Records carry chains of versions behind their locks, page ids come from a coalescing
allocator, and memory from a two-level slab cache.  This project models that core in Dafny and proves what it
is meant to guarantee.

The index tree is modelled as a page table from page ids to pages; page pointers are ids.  Its invariant is
local: every page covers a key range (ghost state), a branch page deals its range out to its children, parent
and child point at each other, and the leaves form a chain.  Splits are shown to keep it, once for both kinds of
page, as the replacement of one entry of the parent by several.

| file | content |
|---|---|
| KeyOrder, Pages, Search | byte order, records and pages, the binary searches |
| GreedySplit, LeafCuts | the loops that cut an overlong page |
| TreeInv, TreeSplit, TreePieces, LeafChain, Ranges | the tree invariant, splits as replacement, the leaf chain, index ranges |
| SplitBuild, SplitSound, SplitTables, TreeState | the split methods page by page, and that they build a sound tree |
| ForcedSplits, LeafLevel | how far a split reaches, what the splitting pass makes of the leaf level |
| SettleOrder | why settling the write queue ends and leaves no page too long |
| TreeUpdate, TreeScan, RecordUpdates, IndexTree | record updates, scans, the tree class |
| Tables, LeafRuns, TreeRuns, RunExamples | the index as a plain map, runs of one leaf and of the tree, runs that go wrong |
| PageIds, GarbageOwner, PageSpace | the page-id allocator and who owns which id |
| RecordVersions | undo chains, locks, commit and rollback |
| Slab, CachePool | size classes, buffers, pools and thread caches |
| WhereSplit | the split of a WHERE condition into index condition and filter |
| RowCodec, PageCodec | the bytes of records, index pages and the head page |
| LeafSave | saving a leaf page while transactions run: what reaches the disk is what is committed |
| Counters, TableCache | stamps and auto-increment keys, the table register |

Where the code departs from what it is evidently meant to do, a lemma says exactly when it matters:

- `SettleOrder.UncutIff`: a branch page of exactly the maximal length counts as overlong but may be cut into one
  piece; on the last page of a level the source then indexes an empty vector.  The model leaves the end mark
  where it is.
- `SettleOrder.FullIsOverlong`, `SettleOrder.FullChunks`: any page of exactly the maximal length, as splits of
  both kinds produce them, still counts as overlong, which the assertions after the settling pass reject.
- `SettleOrder.NoPieceIff`, `RunExamples.StaleRun`: a leaf without a record that stays cannot be split; the
  source reads the first of no lengths.  Two large INSERTs that are rolled back before their leaf is settled get
  there.
- `Search.LostHitsNull`, `RecordUpdates.LostSearchNull`, `RunExamples.NullRun`: a rolled back INSERT that a scan
  releases stays in its page without key bytes.  Every search that compares it goes through a null pointer, and
  so does a split that takes it for the last record; an update, a split or a save that comes before the scan
  erases it.
- `Tables.CoveredLost`, `RecordUpdates.WrongCovered`, `RunExamples.LostKeyRun`: a DELETE of a key the index has
  lost fails an assertion; without assertions it takes the record behind with it.
- `TreeUpdate.ReplacedSurplus`, `RunExamples.WrapRun`: an UPDATE in place does not charge its page, which is
  right exactly for a value of the same length; a rollback can take the temporary length below zero.
- `Tables.ErasedForgotten`, `Tables.ErasedLost`: an update over an unfinished DELETE, by whatever transaction,
  drops the record's undo chain, and its committed length stays in the page's.
- `LeafCuts.LeafCutsWritten`, `LeafCuts.WrittenIff`: when a record would overflow a chunk of a leaf, the loop
  takes the length of its finished version off the temporary length, or goes through a null pointer if it has
  none.  The split is modelled with what the record added.
- `GreedySplit.CutsEndIff`: the cut loop of a branch page does not end on an entry longer than a page.
- `GarbageOwner.RecycledSameIff`, `GarbageOwner.GarbageOwner.ApplyIndexPages`, `GarbageOwner.TakenCoalescedIff`:
  the signed 16-bit merge test, the counter that is lowered although nothing was found, and remainders that are
  not joined with their neighbour.  Recycling is modelled both as meant and as written.
- `RecordVersions.ReleasedIsKeptIff`, `Tables.RollbackApplied`: a rolled back DELETE keeps its delete flag on
  the restored version, which leaves the index; `LeafSave.SavedIsCurrentIff`: saving the page erases it too.
- `LeafSave.FirstStableIff`: a page saved between the ends of two statements of one transaction takes a version
  that is not committed.
- `Slab.WrittenBlockTest`, `Slab.MisplacedIsHandedOutTwice`: the block test in the buffer pool accepts one
  address of another block.  The pool is modelled with the test it is meant to make.
- `IndexTree.IndexTree.UpdateAction`: an UPDATE that meets a conflict overwrites its error with success.
- `RowCodec.UpdateLenIff`: the buffer of an updated record is sized by the overflow page of the old version.
- `WhereSplit.SafeIff`: an AND below an OR stores through a null pointer, and BETWEEN casts the wrong operand to
  a field.  All results hold both for BETWEEN as written and for looking up its child.

## Model

| member | source | states |
|---|---|---|
| `TreeRuns.Run` | src/core/LeafPage.cpp:224-302 | over any sequence of record updates, statements in place, commits, rollbacks, scans, settling passes and changes of the number of index tasks the tree is sound and stores exactly what a plain map from keys to version chains would hold; the run stops exactly at the operation that goes wrong, as the state before it tells; it never stops if nothing is dropped and no DELETE misses; the recorded lengths cover the records unless an UPDATE in place changes a length; every page that has changed is in the write queue, and no branch page below the root is ever left past the threshold; every update and every settling pass has reshaped the pages as UpdateAction and SettleUpdatedPages say; and while the index is one leaf it does what the reference for one leaf does |
| `TreeRuns.Step` | src/core/LeafPage.cpp:224-302 | one operation refines its effect on the plain map or stops, and it stops exactly if a search or scan comes to a record without bytes, a DELETE misses, or a split finds no record to stay or no bytes in the last one; an update past the threshold leaves its leaf cut up, a settling pass every overlong leaf, and all other operations leave the branch pages alone |
| `RunExamples.NewRun` | src/core/IndexTree.cpp:126-160 | a run of a new index stops where the reference for one leaf stops, and not at all if nothing is dropped and no DELETE misses; each tree on its way follows from the one before, and no branch page below the root is left past the threshold |
| `RunExamples.NullRun` | src/core/LeafPage.cpp:313-341 | INSERT, rollback, a scan, then any INSERT: the search goes through the null pointer the release has left |
| `RunExamples.LostKeyRun` | src/core/LeafPage.cpp:265-266 | INSERT, commit, DELETE, rollback, DELETE: the assertion that the record is found fails |
| `RunExamples.WrapRun` | src/statement/UpdateStatement.cpp:304-330 | INSERT, commit, UPDATE in place by a longer value, rollback, a scan: the temporary length of the page wraps around below zero |
| `RunExamples.StaleRun` | src/core/LeafPage.cpp:516-524 | two INSERTs rolled back before their leaf is settled: the leaf is overlong and no record stays |
| `LeafRuns.PlaceIsSpot` | src/core/LeafPage.cpp:313-341 | the place a search finds is the one the reference for one leaf counts |
| `Tables.CommitApplied` | src/core/LeafRecord.cpp:599-636 | a commit leaves the newest version alone, and takes the key of a DELETE out of the map |
| `Tables.UpdateThenCommit` | src/core/LeafRecord.cpp:599-636 | a committed INSERT or UPDATE has left its value as the only version, a committed DELETE no key |
| `Tables.UpdateThenRollback` | src/core/LeafRecord.cpp:563-598 | an update rolled back at once leaves the map as it was, or without the key if there was no record; a DELETE does not: the record is no longer held |
| `Tables.RollbackApplied` | src/core/LeafRecord.cpp:563-598 | rolling everything back brings the committed version back exactly when no DELETE carries its flag over; else the key leaves the map |
| `Tables.ReleasedLater` | src/core/LeafRecord.cpp:549-636 | releasing a record after more of its statements have ended leaves the same as releasing it each time |
| `Tables.CoveredLost` | src/core/LeafPage.cpp:267-280 | the record a DELETE has gone over by mistake is lost whether the DELETE commits or is rolled back |
| `RecordUpdates.WrongCovered` | src/core/LeafPage.cpp:267-280 | without assertions a DELETE that finds no record takes the place of the record behind: the leaf stays sorted and loses that record |
| `Tables.ErasedForgotten` | src/core/LeafPage.cpp:241-250 | an update over an unfinished DELETE forgets the chain below it, whichever it was and whoever locked it |
| `Tables.ErasedLost` | src/core/LeafPage.cpp:241-250 | so when that update is rolled back the record is gone although its DELETE never committed |
| `IndexTree.IndexTree.SettleUpdatedPages` | src/core/IndexTree.cpp:422-490 | both passes keep the tree sound and store the same records; it goes wrong exactly when some overlong leaf cannot be split; else in between every page fits, every overlong leaf has become the greedy chunks of its records and every other leaf is as it was, and afterwards exactly the queued leaves that are valid, changed and not too long count their lengths anew |
| `IndexTree.IndexTree.SplitUpdatedPages` | src/core/IndexTree.cpp:422-431 | one ascending pass over the write queue ends although splits insert into the queue and grow the tree; it goes wrong exactly when some overlong leaf cannot be split, and else every page of the tree is at most as long as a page may be, a page counts as overlong exactly when a length equals the limit, every overlong leaf has become the greedy chunks of its records in itself and new pages, every other leaf is as it was, nothing happens if no page is overlong, the stored records are the same, and the whole tree invariant holds |
| `IndexTree.IndexTree.SaveUpdatedPages` | src/core/IndexTree.cpp:433-490 | exactly the queued leaves that are valid, changed and not too long are saved; the stored records stay the same, and no leaf becomes one that cannot be split |
| `IndexTree.IndexTree.SaveRecords` | src/core/LeafPage.cpp:67-131 | saving releases what is due, drops what waits to be dropped and counts both lengths anew; the stored records are the same |
| `IndexTree.IndexTree.SplitLeafPage` | src/core/LeafPage.cpp:423-663 | a leaf split goes wrong exactly without a record that stays or when the last record has no bytes to search the parent for; else it keeps the tree invariant, the leaf chain, the index ranges and the stored records, the leaf and its new siblings, the only new leaves, hold exactly the greedy chunks of the records that stay, all that changes is queued, no other page of the level changes, and the parent the leaf had is not past the threshold if the leaf was cut, and as it was if not |
| `IndexTree.IndexTree.SplitIfOverlength` | src/core/IndexTree.cpp:423-430 | one stop of the settling pass: an overlong page is split, a leaf into its greedy chunks, or found to be one that cannot be, any other page is left alone with the whole tree, and everything up to the page is settled |
| `IndexTree.IndexTree.UpdateAction` | src/core/LeafPage.cpp:224-302 | the search goes through a null pointer exactly if it compares a record without bytes; else a record with the delete flag makes way, whether its DELETE has ended or not; then INSERT of a key the index holds is a duplicate, a conflicting DELETE is refused, a conflicting UPDATE changes nothing but reports IN_PAGE, and a DELETE of a key it does not hold fails the assertion; otherwise the record is stored with the committed length of the one it covers, or anew over an erased one, and nothing else changes; a leaf past the threshold is then split at once, with its parent if that passes it, or cannot be; all that changes is queued |
| `IndexTree.IndexTree.UpdateAndSplit` | src/table/IndexAction.cpp:94-104 | an update that is not refused and takes its leaf past the threshold leaves the leaf and its new siblings with the greedy chunks of the records that stay; below the threshold it changes its leaf only |
| `IndexTree.IndexTree.EndRecord` | src/statement/Statement.cpp:464-480 | the end of statements turns the record its statement points at into one that is due; the page lengths stay, and nothing else changes |
| `IndexTree.IndexTree.ReleaseRecord` | src/core/LeafPage.cpp:711-718 | a release lets the page lengths follow the record and changes no stored record |
| `IndexTree.IndexTree.HandleLeafRecord` | src/statement/DeleteStatement.cpp:180-280 | a DELETE or UPDATE in place stores its version over the record exactly if the index holds it unlocked, and reads through a null pointer exactly if the search compares a record without bytes; a DELETE charges the page, an UPDATE does not, which leaves the lengths right if the value is as long; what changes is queued |
| `IndexTree.IndexTree.ScanIndex` | src/statement/Statement.cpp:513-625 | a scan releases exactly what is due in its key range, over all leaves, and reads through a null pointer exactly if its search does or it comes to a record without bytes before it has passed the range |
| `TreeUpdate.ReplacedSurplus` | src/statement/UpdateStatement.cpp:304-330 | an UPDATE in place keeps the temporary length right exactly when both versions are charged the same |
| `RecordUpdates.LostSearchNull` | src/core/LeafRecord.cpp:563-597 | every search for the key of a record without bytes goes through the null pointer |
| `Search.LostHitsNull` | src/core/LeafPage.cpp:313-341 | a search for a record without bytes, or for anything that belongs right behind one, compares it |
| `Search.LeafSearchRecord` | src/core/LeafPage.cpp:313-341 | the search goes through a null pointer exactly if a record without bytes stands where it compares; else it ends at the lower bound of the record, and finds it if it is there |
| `Search.LeafSearchKey` | src/core/LeafPage.cpp:343-377 | likewise for the first record with a key, or where it belongs, also when keys repeat |
| `IndexTree.IndexTree.Find` | src/core/IndexTree.cpp:354-420 | a search goes through a null pointer exactly if it compares a record without bytes in its leaf; else it ends at the lower bound of the probe in the sequence of all records, on unique and non-unique indexes and with stale separators, and a record search finds the record exactly when some leaf holds it |
| `IndexTree.IndexTree.constructor` | src/core/IndexTree.cpp:126-160 | a new index is one empty leaf that is root, begin and end of its level |
| `TreeUpdate.HeldIff` | src/core/LeafPage.cpp:224-255 | the one record with a key the tree stores is what a release leaves of the one in the leaf a search ends in, unless that only waits to be dropped |
| `SettleOrder.SplittableStep` | src/core/LeafPage.cpp:423-663 | a split neither helps nor harms the leaves that cannot be split |
| `SettleOrder.WholeNotStuck` | src/core/LeafPage.cpp:516-524 | an overlong leaf of which no record waits to be dropped can be split |
| `SettleOrder.WeighedStep` | src/core/LeafPage.cpp:516-521 | a split leaves lengths that cover what the records are charged |
| `GarbageOwner.GarbageOwner.RecyclePage` | src/core/GarbageOwner.cpp:46-98 | as it is meant: the run becomes free, the two indexes stay inverse and the ranges disjoint, and no two ranges are left that could be one |
| `GarbageOwner.GarbageOwner.RecyclePageWritten` | src/core/GarbageOwner.cpp:46-98 | as written, with signed 16-bit sizes of the neighbours and sums kept in 16 bits |
| `GarbageOwner.RecycledSameIff` | src/core/GarbageOwner.cpp:73-96 | as written both indexes are what they are meant to be exactly when no range that touches the run has 32768 pages or more and passes the bound with it |
| `GarbageOwner.RecycleLosesExample` | src/core/GarbageOwner.cpp:83-92 | a coalesced state in which 65536 pages are lost |
| `IndexTree.IndexTree.SplitBranchPage` | src/core/BranchPage.cpp:233-408 | a branch split, with the forced splits it sets off up to the root, keeps the tree invariant, the leaf chain, the ranges and the stored records; the page and its siblings hold exactly the greedy chunks of its entries; the parent it had is not past the threshold afterwards, nor is any branch page below the root if none was but the page; all that changes is queued; the recursion ends at the root |
| `IndexTree.IndexTree.PutRecord` | src/core/LeafPage.cpp:256-299 | the record goes to its place in the leaf, the page is charged and queued, and the stored records gain it and lose only the one with its key; no other page changes |
| `IndexTree.IndexTree.SearchPage` | src/core/IndexTree.cpp:354-420 | the descent visits one page per level, each the child of the one before and covering the probe, and ends in a leaf |
| `IndexTree.IndexTree.StartPage` | src/core/IndexTree.cpp:33-102 | CalcIndexRange followed by GetTopPage ends at the one page of the split level that covers the probe; with one task the search starts at the root |
| `IndexTree.RouteTargets` | src/core/IndexTree.cpp:543-604 | the page a probe is routed to over range borders and last separators is the only page of its level that covers the probe |
| `IndexTree.RouteMeetsDescent` | src/core/IndexTree.cpp:354-420 | routing over the ranges and descending from the root meet at the same page of the split level |
| `IndexTree.FoundInTree` | src/core/IndexTree.cpp:390-420 | a record that is not in the leaf its search ends in is in no leaf |
| `IndexTree.IndexTree.AllotRanges` | src/table/TableTaskMgr.cpp:228-293 | the start of the index tasks deals the children of a root of level two or more out to ranges, as many as asked for and possible, and sets the split level below the root; the tree stays as it is |
| `IndexTree.IndexTree.DealRanges` | src/table/TableTaskMgr.cpp:238-272 | the dealt ranges cut the level below the root in order and differ by at most one page |
| `IndexTree.IndexTree.NewRanges` | src/core/BranchPage.cpp:364-380 | the new siblings of a page of the split level are put into the range that holds the page, right after it |
| `IndexTree.IndexTree.NewRoot` | src/core/BranchPage.cpp:241-247 | a root that is split gets a page of a fresh id above it and the tree stays sound |
| `IndexTree.IndexTree.SlotInParent` | src/core/LeafPage.cpp:434-443 | searching the parent for the page's last record finds the page's own entry |
| `IndexTree.IndexTree.ParentFor` | src/core/BranchPage.cpp:241-262 | the parent of a page that is split is the one it has, or a new root if it has none, and the slot found in it is the page's own |
| `IndexTree.IndexTree.DivideLeaf` | src/core/LeafPage.cpp:523-651 | from the cut positions to the queued pages: the pieces hold the chunks, the parent and all pieces are queued, the tree is sound |
| `IndexTree.IndexTree.DivideBranch` | src/core/BranchPage.cpp:293-390 | from the cut positions to the queued pages: the pieces hold the chunks, the parent and all pieces are queued, the tree is sound, the ranges follow |
| `ForcedSplits.OneLevelUp` | src/core/BranchPage.cpp:398-404 | a forced split of the parent works one level nearer to the root, although the tree has changed in between |
| `ForcedSplits.ApartShort` | src/core/LeafPage.cpp:423-663 | after the split of a leaf no leaf is past the threshold that was not before |
| `ForcedSplits.BranchDivided` | src/core/BranchPage.cpp:293-404 | when the pieces of a branch page are in place only its parent can be past the threshold, and a new root is not looked at |
| `ForcedSplits.LeafDivided` | src/core/LeafPage.cpp:523-657 | when the pieces of a leaf are in place only its parent can be past the threshold, and not if the leaf was not cut |
| `LeafLevel.PieceIsChunk` | src/core/LeafPage.cpp:453-521 | a page a split has made is one greedy chunk of its own records |
| `LeafLevel.ChunkCutAgain` | src/core/IndexTree.cpp:423-430 | a page that is one chunk, and still counts as overlong, gets the same records and lengths when the pass comes to it |
| `LeafLevel.LeafStop` | src/core/IndexTree.cpp:423-430 | a stop at an overlong leaf cuts that leaf up and leaves what the walk has made of the others |
| `LeafLevel.OtherStop` | src/core/IndexTree.cpp:423-430 | a stop at a branch page leaves what the walk has made of the leaves |
| `TreeState.SoundLeafSplit` | src/core/LeafPage.cpp:423-663 | the page table a leaf split builds is a sound tree with the same stored records, and the pieces hold the chunks |
| `TreeState.SoundBranchSplit` | src/core/BranchPage.cpp:233-408 | the page table a branch split builds is a sound tree with the same stored records and the adjusted ranges |
| `TreeState.SoundGrow` | src/core/IndexTree.h:294-305 | a new root above the old one keeps the tree, the chain and the ranges sound |
| `TreeState.RangesSplit` | src/core/BranchPage.cpp:364-380 | replacing a page of a range by the pieces of its split keeps the ranges cutting the level in order |
| `TreeState.OncePerLevel` | src/core/BranchPage.cpp:366-374 | each page of the split level stands in one range at one place, so the search for `this` in the range vector meets the right one |
| `TreeState.StoredSorted` | src/core/LeafPage.cpp:313-341 | the stored records are strictly sorted: the index holds no key twice |
| `TreeUpdate.PutStored` | src/core/LeafPage.cpp:256-299 | putting a record into its leaf adds it to the stored records and removes only the one with its key |
| `SettleOrder.LevelUp` | src/core/IndexTree.cpp:423-430 | when the walk goes up a level, the leaf level is left for good, or the number of pages below shrinks, or the root has stayed where it was: the pass cannot climb forever |
| `SettleOrder.SameLevel` | src/core/IndexTree.cpp:423-430 | each stop on a level strictly reduces the items or the queued pages still ahead |
| `SettleOrder.LevelShrinks` | src/core/BranchPage.cpp:266-291 | a level has no more pages than the one below it, and fewer as soon as one of its pages has two children |
| `SettleOrder.FirstHoldsTwo` | src/core/BranchPage.cpp:266-291 | after the split of an overlong branch page the page itself holds at least two entries |
| `SettleOrder.LeafEffect` | src/core/LeafPage.cpp:423-663 | a leaf split changes its own level only by handing parts of the leaf to it and to new pages that fit |
| `SettleOrder.BranchEffect` | src/core/BranchPage.cpp:233-408 | a branch split changes its own level only by handing parts of the page to it and to new pages that fit, and leaves the levels below alone |
| `SettleOrder.EffectThen` | src/core/BranchPage.cpp:398-404 | the forced split of the parent adds nothing to the effect of a split on its own level and below |
| `SettleOrder.ItemsShrink` | src/core/IndexTree.cpp:423-430 | the items a split page keeps leave the items ahead of the walk, and what it hands on was ahead before |
| `SettleOrder.SettledStep` | src/core/IndexTree.cpp:423-430 | a split at the current position leaves every page up to it within its limit, also when new pages take lower ids |
| `SettleOrder.NextSettled` | src/core/IndexTree.cpp:423-430 | pages between two stops of the walk are not overlong |
| `SettleOrder.QueueKeyOrders` | src/core/CachePage.h:140-146 | the queue key (level << 32) + id orders pages by level, then by id, when ids have 32 bits |
| `SettleOrder.UncutIff` | src/core/BranchPage.cpp:293-316 | an overlong branch page is cut into one piece exactly when its length equals the limit and its last entry takes it past the load limit; on the last page of a level the source then takes the last of no pages |
| `SettleOrder.UncutExists` | src/core/BranchPage.cpp:293-316 | such a page exists |
| `SettleOrder.NoPieceIff` | src/core/LeafPage.cpp:516-524 | a leaf is cut into nothing exactly when no record stays; the source then reads the first of no lengths |
| `SettleOrder.FullIsOverlong` | src/core/IndexTree.cpp:444-462 | a page that fits counts as overlong exactly when a length equals the limit, against the assertions after the pass |
| `SettleOrder.FullChunks` | src/core/IndexTree.cpp:444-462 | leaf and branch splits produce such pages |
| `GreedySplit.BranchCuts` | src/core/BranchPage.cpp:262-291 | the cut loop ends and cuts the entries greedily: non-empty chunks in order that fit the page, each but the last closed because it is past the load limit or the next entry would overflow it; the recorded lengths are those of the chunks |
| `GreedySplit.CutsEndIff` | src/core/BranchPage.cpp:266-291 | for entries of any length the loop ends exactly when every entry fits a page; it never gets past one that does not |
| `GreedySplit.CutsIncrease` | src/core/BranchPage.cpp:266-291 | the cut positions increase strictly from above zero to the end |
| `GreedySplit.GreedyUnique` | src/core/BranchPage.cpp:266-291 | no other sequence of cuts is greedy |
| `GreedySplit.OneChunkIff` | src/core/BranchPage.cpp:266-291 | one chunk suffices exactly when all entries fit a page and all but the last stay within the load limit |
| `GreedySplit.ClosedIsFull` | src/core/BranchPage.cpp:266-291 | every chunk but the last is past the load limit or within one entry of the page capacity |
| `LeafCuts.LeafCuts` | src/core/LeafPage.cpp:449-521 | the leaf loop drops exactly the released records, cuts the others greedily by committed and temporary length at once, and ends although it steps back |
| `LeafCuts.LeafCutsWritten` | src/core/LeafPage.cpp:482-514 | the loop as written goes through a null pointer exactly when a record without a finished version steps back; else it makes the same cuts, and records for a chunk the temporary length plus what the record that stepped back counts more in its newest version than in its finished one |
| `LeafCuts.WrittenIff` | src/core/LeafPage.cpp:503-506 | the recorded temporary lengths are right exactly when every record that steps back counts as much in both versions |
| `LeafCuts.StepBackExamples` | src/core/LeafPage.cpp:503-506 | two records of the largest size for which it goes through the null pointer, and two for which it records a wrong length |
| `Search.SlotForRecord` | src/core/BranchPage.cpp:149-175 | the first separator that is not below the record, or the last slot |
| `Search.SlotForKey` | src/core/BranchPage.cpp:177-207 | the first separator that is not below the key, also when separators repeat the key, or the last slot |
| `TreeInv.SameLevelApart` | src/core/IndexTree.cpp:390-420 | two pages of one level cover ranges that do not overlap |
| `TreeInv.TargetUnique` | src/core/IndexTree.cpp:354-420 | at each level at most one page covers a probe |
| `TreeInv.OwnSlot` | src/core/LeafPage.cpp:438-443 | a search in the parent for anything a page covers ends at the page's own entry |
| `TreeSplit.ReplacedInv` | src/core/LeafPage.cpp:548-651 | replacing a page by pieces that share its range keeps the invariant of every page of the tree, parent links and levels included |
| `TreeSplit.GrowInv` | src/core/IndexTree.h:294-305 | a new root above the old one keeps the invariant of every page |
| `TreePieces.PieceEntries` | src/core/LeafPage.cpp:567-585 | the separators of the pieces increase within the range of the split page, and the last one stays the separator the parent held when the range is bounded |
| `TreePieces.PieceIn` | src/core/LeafPage.cpp:548-585 | every record or entry of a piece lies in the range its separators give the piece |
| `TreePieces.BranchPieceKids` | src/core/BranchPage.cpp:341-355 | the children of a piece keep their ranges and point at the piece as parent |
| `LeafChain.ChainSplit` | src/core/LeafPage.cpp:587-637 | after a leaf split the next links visit the leaves in range order from the first to the last, the prev links are the inverse, and every leaf is on the chain |
| `LeafChain.SplitContents` | src/core/LeafPage.cpp:453-559 | a leaf split only drops the records that were to be dropped |
| `LeafChain.GlobalLowerBound` | src/core/IndexTree.cpp:354-388 | the lower bound in the leaf that covers a probe is the lower bound in the sequence of all records |
| `LeafChain.ContentsSorted` | src/core/LeafPage.cpp:587-637 | the records in chain order are strictly sorted |
| `Ranges.TilesSearchable` | src/core/IndexTree.cpp:33-102 | the last separators of the pages of a range are sorted, so the range can be searched by halving |
| `Ranges.TopTargets` | src/core/IndexTree.cpp:33-102 | the page GetTopPage picks in the right range covers the probe |
| `Ranges.OwnRange` | src/core/BranchPage.cpp:365-374 | the range found for a page's last record holds the page |
| `Ranges.DealtOk` | src/table/TableTaskMgr.cpp:238-272 | ranges dealt from the children of the root cut the level in order |
| `SplitBuild.PieceEntriesFor` | src/core/LeafPage.cpp:561-585 | each piece gets the key and length of its last record, and the last piece the entry held before if that reaches further |
| `SplitBuild.ReplaceEntry` | src/core/BranchPage.cpp:107-131 | deleting the old entry and inserting the new ones one by one splices them into the parent and keeps its length |
| `SplitBuild.BuildLeafSplit` | src/core/LeafPage.cpp:536-651 | the page table after a leaf split, page by page: contents, lengths, parent, neighbours and end mark |
| `SplitBuild.BuildBranchSplit` | src/core/BranchPage.cpp:297-362 | the page table after a branch split, page by page: contents, lengths, end mark, parent, and the new parent of each child that moved |
| `SplitTables.LeafSplitTable` | src/core/LeafPage.cpp:523-651 | the built table is that of a leaf split and its entries fit the parent |
| `SplitTables.BranchSplitTable` | src/core/BranchPage.cpp:293-362 | the built table is that of a branch split and its entries fit the parent |
| `SplitSound.LeafSplitInv` | src/core/LeafPage.cpp:423-663 | the tree after a leaf split satisfies the invariant |
| `SplitSound.BranchSplitInv` | src/core/BranchPage.cpp:233-408 | the tree after a branch split satisfies the invariant |
| `KeyOrder.BytesCompare` | src/utils/BytesFuncs.h:326-358 | comparing eight bytes at a time as swapped words has the sign of the dictionary order |
| `KeyOrder.RankOrders` | src/utils/BytesFuncs.h:326-358 | byte strings embed into the numbers with their order, so the tree may be modelled over ranks |
| `KeyOrder.ConcatIsKeyThenValue` | src/core/LeafRecord.h:271-279 | comparing key and value bytes run together is comparing key first and value second exactly when neither key is a proper prefix of the other |
| `GarbageOwner.GarbageOwner.ApplyOvfPage` | src/core/GarbageOwner.cpp:100-129 | a run is found exactly when the counter is large enough, the lock is free and some range is long enough; it is the front of a smallest such range, the rest of it stays free, and the counter keeps counting |
| `GarbageOwner.GarbageOwner.ApplyIndexPages` | src/core/GarbageOwner.cpp:131-161 | ids are found exactly when the lock is free, the counter is not zero and some range is long enough, and then they are the front of a smallest such range; the counter stays right exactly when ids are found or nothing is deducted |
| `GarbageOwner.NothingFoundExample` | src/core/GarbageOwner.cpp:141-158 | two free ranges of which none is long enough |
| `GarbageOwner.GarbageOwner.InsertPage` | src/core/GarbageOwner.cpp:218-221 | a new range enters both indexes |
| `GarbageOwner.GarbageOwner.ErasePage` | src/core/GarbageOwner.cpp:223-230 | a range leaves both indexes, and a size without ranges disappears |
| `GarbageOwner.TakenCoalescedIff` | src/core/GarbageOwner.cpp:116-121 | taking the front of a range leaves the ranges coalesced exactly when the rest is empty, touches nothing, or is still too long to be joined |
| `GarbageOwner.TakenNotCoalesced` | src/core/GarbageOwner.cpp:116-121 | such a rest exists |
| `PageSpace.PageSpace.ApplyIndexPages` | src/core/IndexTree.cpp:279-291 | the requested number of ids, all different and owned by nobody before: from the front of a smallest range of free ids exactly when the number, the lock, the counter of free pages and the ranges allow it, and else the next ones of the page counter, which grows by exactly what is missing; every id below the page counter keeps exactly one owner |
| `PageSpace.PageSpace.ApplyOvfPage` | src/core/IndexTree.cpp:318-326 | a run of ids owned by nobody before becomes a live overflow run: the front of a smallest range of free ids exactly when one is found, and else the next ids of the page counter |
| `PageSpace.PageSpace.RecyclePageId` | src/core/IndexTree.h:223-225 | the ids of a live run become free and every id keeps exactly one owner |
| `RecordVersions.LeafRecord.ReadListValue` | src/core/LeafRecord.cpp:314-384 | a read without lock takes none and returns what was committed and released last or reports a lock or a deletion; a read for writing is refused exactly when another transaction holds a lock, and otherwise leaves the reader as only holder, so that UpdateRecord may follow; a shared read is refused exactly by another transaction's exclusive lock; a locking read that is not refused finds a deletion exactly when the newest version is deleted; the older versions stay, and the lock keeps its type and statement unless it is new or a shared one that becomes a write lock |
| `RecordVersions.LeafRecord.UpdateRecord` | src/core/LeafRecord.cpp:243-302 | the new version goes on top, locked by the transaction, and the older versions stay; only this transaction holds locks |
| `RecordVersions.LeafRecord.SubmitStatement` | src/core/LeafRecord.cpp:657-681 | ends one lock of one statement and touches no other version |
| `RecordVersions.LeafRecord.ReleaseLock` | src/core/LeafRecord.cpp:549-637 | leaves the newest version not rolled back, alone after a commit; what later plain reads see changes only by a commit; reports a dropped record exactly when nothing survives or a DELETE was committed |
| `RecordVersions.SharedMeansRead` | src/core/LeafRecord.h:400-411 | in every reachable state two transactions hold locks on a record only by sharing a read lock on its only version |
| `RecordVersions.ReleasedIsKeptIff` | src/core/LeafRecord.h:215-227 | release restores exactly the surviving version, unless that goes back to an older or unfinished version whose delete flag differs from the one on top |
| `RecordVersions.RolledBackDeleteStays` | src/core/LeafRecord.h:215-227 | a rolled back DELETE leaves the restored record marked deleted |
| `RecordVersions.ConflictIff` | src/core/LeafRecord.h:355-373 | on a record that needs no release the conflict test says exactly whether another transaction holds a lock that does not go together with the action |
| `RecordVersions.ConflictMissed` | src/core/LeafRecord.h:355-373 | before the release it can miss an unfinished version below a rolled back one |
| `CachePool.CachePool.Pop` | src/cache/CachePool.cpp:93-105 | the address is in no user's hands in any class; it is the only change for users; it is the last one of the thread's cache, which is filled first only if it is empty; every element keeps exactly one place, caches stay within their capacity, no buffer is kept that has only free elements, and the memory counters stay exact |
| `CachePool.CachePool.Push` | src/cache/CachePool.cpp:80-91 | the address leaves the user's hands; it is the only change for users; the address is the last one of the thread's cache, which goes down to a quarter first only if it is full; ownership, capacity and counters are kept |
| `CachePool.CachePool.BatchApply` | src/cache/BufferPool.cpp:92-110 | fills the cache to three quarters and ends; new buffers are allocated only when the old ones are used up, and no more than needed; users and counters do not change |
| `CachePool.CachePool.BatchRelease` | src/cache/BufferPool.cpp:112-130 | brings the cache down to a quarter or to nothing and ends; a buffer that has only free elements leaves the pool; users, counters and the caches of other classes do not change |
| `CachePool.CachePool.BufferApply` | src/cache/BufferPool.cpp:57-66 | moves elements from this buffer into the cache until the cache is filled or the buffer is used up |
| `CachePool.CachePool.BufferRelease` | src/cache/BufferPool.cpp:68-82 | moves elements of this buffer from the cache back until the cache is down to the size asked for or holds none of them |
| `CachePool.CachePool.AllocateBuffer` | src/cache/CachePool.cpp:159-172 | the last free block, or a new one if there is none, becomes a buffer of the class with all elements free |
| `CachePool.CachePool.RecycleBuffer` | src/cache/CachePool.cpp:174-183 | a buffer with all elements free leaves its class; its block is kept if there is room among the free ones, and else given back; the allocated bytes stay those of the blocks |
| `CachePool.CachePool.StartThread` | src/cache/CachePool.cpp:58-65 | a new thread starts with empty caches |
| `CachePool.CachePool.StopThread` | src/cache/CachePool.cpp:67-78 | a thread gives back all it caches; what users hold and the used memory stay |
| `CachePool.CachePool.GetMemoryUsed` | src/cache/CachePool.cpp:137-148 | the total of the counters is exactly the class sizes of the elements in users' hands |
| `CachePool.CachePool.Apply` | src/cache/CachePool.h:121-128 | an address nobody holds, of a class at least as large as asked for |
| `CachePool.CachePool.Release` | src/cache/CachePool.h:141-151 | the address goes back to the class it came from |
| `CachePool.NoOverlap` | src/cache/BufferPool.cpp:57-66 | elements outside the free lists never overlap in memory, whatever their classes |
| `Slab.ClassFits` | src/cache/CachePool.h:154-167 | the class of a size is the smallest that holds it, and the size it really has belongs to the same class |
| `Slab.CapacityFits` | src/cache/CachePool.cpp:58-61 | a thread keeps as many elements of a class as fit 16 KB, but at least 32 |
| `Slab.TakeOne` | src/cache/BufferPool.cpp:57-66 | taking the last free number hands out an element that was not out |
| `Slab.PutOne` | src/cache/BufferPool.cpp:68-82 | block and number computed from an address give back exactly that element |
| `Slab.WrittenBlockTest` | src/cache/BufferPool.cpp:72-73 | the block test as written accepts the addresses of the block and exactly one more, the first one of the buddy block |
| `Slab.MisplacedIsHandedOutTwice` | src/cache/BufferPool.cpp:72-77 | an element of another block that the written test accepts is that one, and makes the next element handed out one that is in use |
| `WhereSplit.ExprWhere.Preprocess` | src/expr/ExprStatement.cpp:28-70 | unless the search goes through a null pointer, for every row and parameters index condition and residual filter together accept exactly what the original condition accepts, and give the same answer where no conjunct fails; every picked conjunct is an original one that can use the reported index; an index is used whenever a conjunct can use one; of an AND it is the lowest one met before the scan ends, the conjuncts picked are all that use it there, turned around, and the filter keeps the others |
| `WhereSplit.PickFromAnd` | src/expr/ExprLogic.h:415-470 | picked and remaining conjuncts are together the original ones, up to operands turned around; they are the ones the scan finds, last one first; all picked ones use one index, the lowest when there is no OR, and then all that use it are picked |
| `WhereSplit.ScanAnd` | src/expr/ExprLogic.h:425-457 | the scan ends at the first OR whose index no conjunct before it undercuts; it finds all conjuncts before that use the lowest index, and the OR only if it alone uses it; all it has come to are turned around |
| `WhereSplit.PickOr` | src/expr/ExprLogic.h:499-517 | all alternatives have to use one index; the alternatives tried are left turned around |
| `WhereSplit.PickIndexCondition` | src/expr/ExprLogic.h:106-128 | which index a condition can use, whether the search goes through a null pointer, and how the condition is left behind |
| `WhereSplit.IndexMeans` | src/expr/ExprLogic.h:105-128 | an index is found exactly when the condition compares a field it starts with to constants, in every alternative, and there is at most one |
| `WhereSplit.TurnedSame` | src/expr/ExprLogic.h:80-103 | turning comparisons around, anywhere and whether or not the search succeeds, changes no result |
| `WhereSplit.AndMeans` | src/expr/ExprLogic.h:396-404 | a conjunction is true exactly when all conjuncts are, in any order, without errors false exactly when one is, and else answers as the first conjunct that is not true |
| `WhereSplit.OrMeans` | src/expr/ExprLogic.h:479-488 | a disjunction is false exactly when all alternatives are, without errors true exactly when one is, and else answers as the first alternative that is not false |
| `WhereSplit.NotMeans` | src/expr/ExprLogic.h:369-374 | NOT turns true and false around and keeps errors: AND and OR are each other's opposites, errors included |
| `WhereSplit.CompMeans` | src/expr/ExprLogic.h:25-69 | the six comparisons are those of one total order with NULL first; they fail exactly on a failing operand or values of two groups |
| `WhereSplit.BetweenMeans` | src/expr/ExprLogic.h:263-292 | BETWEEN is true exactly when both of its comparisons are, and fails exactly when one of them does |
| `WhereSplit.InMeans` | src/expr/ExprLogic.h:162-170 | IN is the disjunction of equations, and NOT IN its opposite |
| `WhereSplit.OperandsMean` | src/expr/ExprLogic.h:25-69 | a comparison of a field with a constant or parameter says how that field of the row stands to it |
| `WhereSplit.ConstForAllRows` | src/expr/ExprLogic.h:105-128 | what counts as a constant has the same value for every row |
| `WhereSplit.EndsHereIff` | src/expr/ExprLogic.h:447-453 | the scan ends at the OR the shape of the conjuncts says |
| `WhereSplit.SplitMeans` | src/expr/ExprStatement.cpp:44-62 | two parts of the conjuncts together are true exactly when the whole is |
| `WhereSplit.NullIff` | src/expr/ExprLogic.h:463-517 | below the top the search goes through a null pointer exactly in an AND that holds a condition on an index, in an alternative of an OR when all alternatives before it use one index, and, as written, at a BETWEEN of a field and constants |
| `WhereSplit.SafeIff` | src/expr/ExprLogic.h:425-457 | a condition is safe exactly when the scan of its conjuncts ends, at an OR whose index none before it undercuts, before every conjunct that would take it through a null pointer |
| `WhereSplit.NullExamples` | src/expr/ExprLogic.h:463-466 | an OR over an AND with an index condition, and a BETWEEN |
| `WhereSplit.WrittenSame` | src/expr/ExprLogic.h:301-310 | without a BETWEEN of a field and constants the code as written finds what the code that looks the child up finds |
| `RowCodec.RoundTrip` | src/core/LeafRecord.cpp:386-434 | for any columns and row, writing and reading gives the row back exactly when no cell is empty without being NULL |
| `RowCodec.FillValueBuff` | src/core/LeafRecord.cpp:482-502 | the bitmap, the length table and the cells of the row are in the buffer, and no byte outside changes |
| `RowCodec.ReadListValue` | src/core/LeafRecord.cpp:386-440 | reads every column, or the mapped ones and the record stamp to their places, of a written row |
| `RowCodec.FillRecord` | src/core/LeafRecord.cpp:458-480 | header, key and value are all in the buffer, none over another; a DELETE version has no value |
| `RowCodec.CalcValueLength` | src/core/LeafRecord.cpp:504-517 | the computed length is that of the bitmap, the length table and the cells, or nothing for a DELETE |
| `RowCodec.UpdateLenIff` | src/core/LeafRecord.cpp:262-281 | the buffer of an updated record is right exactly when the old and the new version agree on having an overflow page, and too small exactly when the new one goes back from one |
| `LeafSave.SaveThenLoad` | src/core/LeafPage.cpp:61-168 | a leaf page saved while transactions run and loaded again holds exactly what was committed of its records, in order: no change of a running or rolled back transaction is on disk and nothing committed is missing; it is written exactly when the committed records fit the page |
| `LeafSave.SaveRecords` | src/core/LeafPage.cpp:61-168 | the image holds what was selected, the gone records leave the page, and the page counts as clean exactly when no record is unfinished; a page that is too long is not written |
| `LeafSave.SelectRecords` | src/core/LeafPage.cpp:74-125 | the loop that erases while it walks releases every record once, keeps exactly the records that are not gone, selects one finished version of each at most, and computes both lengths |
| `LeafSave.SaveRecord` | src/core/LeafPage.cpp:77-125 | release, then the newest version that is finished |
| `LeafSave.SavedIsCurrentIff` | src/core/LeafPage.cpp:77-125 | a record is saved as it was committed unless a DELETE on it was rolled back: then the committed record is erased |
| `LeafSave.FirstStableIff` | src/core/LeafPage.cpp:101-113 | the walk down the older versions ends at the version before the transaction exactly when none of its older statements has ended on its own |
| `LeafSave.EndedStatementSaved` | src/core/LeafPage.cpp:101-113 | otherwise the value of a statement that was rolled back can be saved |
| `PageCodec.PageRoundTrip` | src/core/LeafPage.cpp:49-145 | saving and loading a page gives back the same records in the same order |
| `PageCodec.SaveRecords` | src/core/LeafPage.cpp:125-142 | each slot points at its record and nothing is written outside the data area |
| `PageCodec.LoadRecords` | src/core/LeafPage.cpp:49-59 | the records the slots point at, with the length they carry |
| `PageCodec.Layout` | src/core/LeafPage.cpp:125-142 | slots and records lie apart and in order, and end before the checksum exactly when the data length fits |
| `PageCodec.SaveToBuffer` | src/core/HeadPage.cpp:48-87 | reading the head page gives back every field, although page numbers are stored with eight bytes over slots of four, and no other byte changes |
| `Counters.Counter.Apply` | src/core/IndexTree.cpp:657-692 | no number is issued twice, with one task or several, whatever the step; it is the next one of the range's stock or of the counter, and with step 1 no number is lost |
| `Counters.Counter.MoveRange` | src/core/IndexTree.cpp:13-31 | a moved range has nothing in stock, the other ranges are as they were, and nothing issued becomes available again |
| `Counters.Counter.SetTasks` | src/table/TableTaskMgr.cpp:225-226 | the ranges of a new number of tasks have nothing in stock, and nothing issued becomes available again |
| `TableCache.TableManager.FindTable` | src/manager/TableManager.cpp:138-170 | the cached search answers as a lookup in the register, and caches a table it had to look up if its bucket has a place left |
| `TableCache.TableManager.AddTable` | src/manager/TableManager.cpp:98-110 | a new name is registered, a known one refused; a new table is cached in an empty place or instead of the one visited least recently, and the cache stays sound |
| `TableCache.TableManager.RemoveTable` | src/manager/TableManager.cpp:112-136 | the name is gone from the register and clearing one cache place was enough |

## Left out

- Disk files, asynchronous reads and writes, checksums, page status polling: pages are resident and valid.
- Threads and memory orderings: each operation is one atomic step; a lock that cannot be taken is an arbitrary
  choice where the code has a fallback for it (page ids), and splits above the split level always get theirs.
- Each index range's own write queue: there is one queue for all tasks.
- IndexTree.IndexTree.DivideLeaf: the previous-page link of a leaf at a range border is set at once, not by a
  message to the next task (`PrevPageAction`).
- IndexTree.IndexTree.AllotRanges: the begin and end pages of a range are not recorded.
- TreeRuns.Run: a transaction commits its versions of one record at once; locks of readers stand in runs only as
  conflicts; a statement in place is one on a single key.  A rolled back DELETE that is released inside a split
  stays in its page with two bytes until the next visit (LeafPage.cpp:463-471), where the model drops it at
  once.
- Tables.ErasedForgotten: a record that is erased may still be one its statement points at, which ends it later
  through freed memory; statements identify records by key here.
- TreeUpdate.Wrapped: page lengths wrap around below zero, but not above 32 bits.
- `MAX_ENTRY`: records with an overflow page, for which a branch entry copies the length of a value that is not
  in the record, and may exceed a page.
- IndexTree.IndexTree.SaveUpdatedPages: leaves the page images to LeafSave, and keeps saved pages in the queue.
- IndexTree.IndexTree.SplitBranchPage: always gets the page lock; the source returns without splitting when it
  does not.
- IndexTree.IndexTree.NewRoot: gives the new root a provisional entry that the split replaces, where the source
  inserts into an empty page.
- Pages, entries and records of the tree are values in the page table, not objects that share record pointers;
  aliasing between pages is not captured.
- RecordVersions.LeafRecord.SubmitStatement: identifies a statement's record by its place in the version chain,
  not by pointer; after a rollback the source's statements may point at freed versions, which the model does not
  show.
- RecordVersions.LeafRecord.UpdateRecord: needs a record whose finished versions have been released, as its
  callers do.
- RecordVersions.LeafRecord.ReleaseLock: freeing the older versions and their overflow pages is not modelled.
- `SecondaryReadLock`, gap locks and upgrading an own shared lock through it.
- CachePool.CachePool.Apply: sizes above 16384, which the source serves as large blocks.
- CachePool.CachePool.BufferRelease: takes the block test as it is meant; `Slab.WrittenBlockTest` has the one
  written.
- LeafCuts.LeafCuts: steps back by what the record added; `LeafCuts.LeafCutsWritten` has lines 503-506 as they
  are.
- GreedySplit.BranchCuts: needs entries that fit a page; `GreedySplit.CutsEndIff` says what happens without.
- CachePool.CachePool.Release: large blocks, result blocks and the single-element entry points of the buffer
  pool, which have no callers, are not modelled.
- WhereSplit.SplitMeans: a comparison both of whose operands fail is an error, where ExprLogic.h:29-34 goes
  through a null pointer.
- WhereSplit.ExprWhere.Preprocess: resolving column names and the point query after the split, whose loop does
  not advance; LIKE and functions.
- RowCodec.RoundTrip: records with an overflow page and column templates that are not NULL.
- TableCache.TableManager.FindTable: loading a table that is not initialised.
- LeafSave.SaveRecords: the early returns for a page that is not valid, is too long already or has no changed
  record, overflow pages, the fields of the page header, and the assertion that a saved record carries no lock,
  which a record under a read lock does.
- Counters.Counter.Apply: 64-bit wrap-around.
- `AppendRecord` bulk load, unfinished in the source; loading missing children and siblings.
- `GarbageOwner::SavePage` and reading it back, which do not agree on what the stored number counts.
- Floating-point values, data types, the SQL parser, sessions, binary log and console.
