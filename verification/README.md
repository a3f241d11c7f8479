# A verified model of the storage engine

This project models the three in-memory engines of a small relational database and proves what they
keep, over all inputs and all runs:

* the **B+ tree index** (`src/tree`): preemptive splits, lazy borrowing and merging, root growth and
  collapse, the leaf chain, page allocation with a free list, range scans;
* the **free space map** (`src/freespace`): a tree of pages, each a truncated binary max-tree in an
  array, addressed by a closed-form preorder numbering;
* **heap pages, rows and tables** (`src/data`, `src/schema`, `src/database`): slots that tile the record
  area, the byte formats, the hash join, and indexes that agree with the heap.

## How it is built

Code that works in place is modelled in place: `NodePage`, `NodePager`, `BTreeStore`, `BinaryTree`, `Fsm`,
`Page`, `RecordIterator` and `TableAccess` are classes whose methods have the loops and branches of the
source. Files are maps from page ids to pages, or to page bytes for heap pages.

* `Entries`, `Tree`, `TreeSplit`, `TreeInsert`, `TreeDelete`, `TreeStore`: the index as a function on trees of
  pages. A tree is what can be reached from the root; its pages are persisted images.
* `TreePages`: which pages stay reachable. `TreeFacts`: height, and runs that need no guard. `TreeRuns`: runs
  from an empty store on which the code departs from a map.
* `LeafLinks`, `FreeLink`, `LinkRuns`: the leaf chain once a leaf was split into a page of the free list.
* `StoredTrees`, `PageStore`, `BTreeIndex`: how a tree lies in its pages, and the classes over the page store,
  proved to compute exactly those functions.
* `FsmTree`, `FsmAddress`, `Fsm`: one page of the free space map, the addresses, the whole map.
* `PageSlots`, `PageCodec`, `SlottedPage`, `RecordScan`, `PageFacts`: heap pages, as slots and as bytes.
* `NodeCodec`, `Rows`, `HashJoin`: the remaining byte formats, and the join.
* `PageLayout`, `Bytes`, `Wrappers`: page sizes, big-endian numbers, options and results.
* `TableRows`, `TableIndexes`, `TablePages`, `TableSearch`, `TableAccess`: heap file, free space map and indexes
  together. The indexes of a table are kept as the states that `BTreeIndex` proves the store to go through.
* `TableRuns`: runs of a table against a map from places to rows. `TableFacts`: tables that refuse a row, panic,
  or hold a key without its row.

## Where the code departs from a map, a page or a table

The model follows the code. Where a property one would expect fails, there is a concrete input, and the
exact condition under which it holds.

* **Separators** (`src/tree/node.rs:443`): a key equal to the separator that a split of the last child
  promotes goes left, while lookups go right. `DuplicateIsStoredTwice` and `FreshKeyIsLost` are runs from an
  empty store that show it.
* **Reused pages** (`src/tree/store.rs:398-406`, `src/tree/node.rs:361`): a page from the free list comes back
  unchanged, so the right half of a split is never written. `ReuseDropsHalf` is such a run. Together with the
  separators this is the guard `SafeInsert`. `InsertIsRightExactlyWhenSafe` and `MapIsRightExactlyWhenSafe`
  prove it exact, for the sorted pairs and for the map.
* **Leaf links of reused pages** (`src/tree/node.rs:115-123`): nor is its link to the next leaf written, so the
  leaf that was split links to a page that links to wherever it did when it was released. `ChainAfterReuse` says
  where the chain leads then, and that it ends if and only if that link was none or led behind the leaf that was
  split. `ChainTurnsBack` is a run after which it does not, and a scan for greater keys goes round forever.
  `ChainAfterwards` is the same for any stored tree and any link that leads to stored pages.
* **What the guard costs**: as soon as a page is on the free list, a guarded insertion splits nothing, so a
  guarded run neither uses a page again nor splits one after its first deletion that releases a page
  (`GuardedRunReusesNothing`). `RunRefinesMap` says nothing about runs that do. `FreshRunFromEmpty` needs no guard
  on insertions: keys never inserted before, with lookups and deletions that release no page in between, and then anything but
  insertions. `LoadThenDrainFromEmpty` is the case without deletions in between, where nothing has to be known
  of the state.
* **Lost pages** (`src/tree/store.rs:385-390`): the link of a released page is not stored. `DeletionLosesPages`
  says which pages a deletion makes unreachable, and counts them before the deletion; `RunKeepsBooks` does so
  over runs. `DeletionLosesAPage` is a run after which page 1 is gone for good.
* **Degree 4** is accepted but loses the last key of an internal page (`DegreeFourEmptiesAPage`, a run of a
  store of degree 4); from 6 on every property holds. Deletion repairs a child only below the minimum
  (`src/tree/node.rs:571`), so pages below the root may hold one key less than the minimum.
* **Duplicates** below a leaf root are answered with success (`src/tree/node.rs:469`).
* **Free space map** (`src/freespace/fsm.rs:149`): every level gets the page's own category, not the maximum
  of the page below. Upper levels never promise too much, so the descent never fails; but they may promise
  too little (`RoomIsHidden`), and a new page is allocated exactly when the root page promises too little.
* **Directory room** (`src/data/page.rs:446-474`): when only a fragment had space, the remainder slot may
  have no room in the directory. `Page.InsertRecord` states exactly when; `DirectoryRunsOverRecord` shows a
  record overwritten by it, and `SlotsKeepRecordsExactlyWhen` says which slots are safe whatever the bytes are.
  At the level of a table the computation of free space then underflows, which is modelled as the error
  `Panic`. `TableAccess.Insert` says exactly when, of the page chosen before the call; `RestWithoutSlot` is a
  table on which it happens.
* **Short pages** (`src/database/table_access.rs:581`, `src/data/page.rs:373`): the map is asked for the bytes of
  a row, the page also wants those of a slot. A valid row with good keys is refused exactly when the chosen
  page offers the first and not the second and has no perfect fit (`FallsShort` in `TableAccess.Insert`);
  `ShortPage` is a table on which it happens.
* **Refused keys** (`src/database/table_access.rs:401-426`, `src/database/table_access.rs:575-601`): when an index
  refuses a key, the indexes before it have taken theirs, and the row is not stored. `TableAccess.Insert` says
  which, and that the table stays in order exactly if they had these keys already. `KeyWithoutRow` is a table
  with two indexes on which they had not.
* **Keys in use** are refused only by an index that is a single leaf; else the row is stored and the table is
  out of order. `TableAccess.Insert` proves it in order after an insertion if and only if the keys were fresh
  and safe.
* **Deleting by an indexed column** (`src/database/table_access.rs:360-399`): the row found is reported in slot 0.
  `TableAccess.DeleteWhere` removes exactly the rows with the cell, and leaves the table in order, if and only if
  that is where it lies.
* **Slot numbers** (`src/data/page.rs:183-198`): records of selected slots are numbered by their position in
  the selection. `NumberIsRightExactlyWhen` and `ReportedPlaceIsRightExactlyWhen` say when that is right.
* **Sentinels** (`src/tree/store.rs:20`): a field that holds the smallest 32-bit number is read as absent;
  `ReadAfterWriteIsExactWhen`.

Two modelling choices: an arithmetic underflow or a slice out of range is a panic, stated as a
precondition or as the error `Panic`; the record counter of a page wraps at 65536.

## Model

| member | source | states |
|---|---|---|
| PageNodes.BinarySearch | src/tree/node.rs:14-48 | the answer says where the key stands among sorted keys: equal to one, before the first greater one, or behind the last |
| BTreeSplit.HalvesJoin | src/tree/node.rs:331-369 | splitting a page is undone by joining its halves around the promoted key; the left half has half of the keys, rounded down |
| BTreeSplit.HalvesOrdered | src/tree/node.rs:331-369 | the halves keep the search order on both sides of the promoted key |
| BTreeSplit.SplitKidWhole | src/tree/node.rs:431-462 | splitting a child into a fresh page moves boundaries only: same pairs, same leaf chain, one page more |
| BTreeInsert.FindIsGet | src/tree/node.rs:502-541 | a lookup in an ordered tree finds exactly the pair stored under the key |
| BTreeInsert.InsertRefines | src/tree/node.rs:405-476 | under the guard, insertion adds an absent pair to the sorted pairs, changes nothing for a present key, and keeps the search order |
| BTreeInsert.InsertFilled | src/tree/node.rs:405-476 | insertion keeps every page below the root within its bounds on keys |
| BTreeInsert.InsertChained | src/tree/node.rs:355-359 | insertion keeps the leaf chain whole and its start where it was |
| BTreeInsert.InsertBag | src/tree/store.rs:395-427 | a guarded insertion adds exactly the pages it allocates, each once |
| BTreeInsert.ReuseLoses | src/tree/store.rs:398-406 | an insertion that splits into a page of the free list loses pairs, whatever the tree |
| BTreeInsert.SeparatorBreaksOrder | src/tree/node.rs:443 | an insertion that meets its own separator destroys the search order, whatever the tree |
| BTreeInsert.SeparatorHidesPair | src/tree/node.rs:443 | the pair stored by such an insertion cannot be found again |
| BTreeInsert.InsertRefinesExactlyWhenSafe | src/tree/node.rs:405-476 | below a root, insertion refines insertion into the sorted pairs if and only if the guard holds |
| BTreeDelete.LendRightJoin | src/tree/node.rs:590-629 | borrowing from the left only moves the separator: the joined pages are the same before and after |
| BTreeDelete.LendLeftJoin | src/tree/node.rs:630-658 | borrowing from the right only moves the separator |
| BTreeDelete.RepairOrdered | src/tree/node.rs:568-732 | borrowing and merging keep the search order |
| BTreeDelete.RepairCovers | src/tree/node.rs:568-732 | after the repair the child descended into still covers the key |
| BTreeDelete.RepairLeaves | src/tree/node.rs:568-732 | borrowing and merging keep the pairs and the leaf chain, and release exactly the pages that leave the tree |
| BTreeDelete.RepairFilled | src/tree/node.rs:571 | after the repair the child has a key to spare and no other page left its bounds |
| BTreeDelete.RepairTouches | src/tree/node.rs:568-733 | which neighbour gives a key or merges, by the numbers of keys: left before right, borrowing before merging; the other children stay, and a merge releases the right page of the two |
| BTreeDelete.DeleteRefines | src/tree/node.rs:543-737 | deletion removes exactly the key from the sorted pairs, returns the old value, and keeps the search order |
| BTreeDelete.DeleteFilled | src/tree/node.rs:543-737 | deletion keeps every page below the root between d/2-2 and d-1 keys |
| BTreeDelete.DeleteChained | src/tree/node.rs:676-707 | deletion keeps the leaf chain whole |
| BTreeDelete.DeleteBag | src/tree/node.rs:666-733 | the pages released are exactly those that leave the tree |
| BTreeStates.NextPageIsUnused | src/tree/store.rs:395-427 | allocation never hands out a page of the tree, and keeps every page held once |
| BTreeStates.LookupIsMapLookup | src/tree/store.rs:634-638 | find is lookup in the map |
| BTreeStates.SafeInsertRefinesMap | src/tree/store.rs:640-669 | through root growth, a guarded insertion keeps the whole shape and adds exactly an absent binding; an error means the key was present |
| BTreeStates.InsertIsRightExactlyWhenSafe | src/tree/store.rs:640-669 | the guard is exact: the pairs and the search order are right after an insertion if and only if it holds |
| BTreeStates.MapIsRightExactlyWhenSafe | src/tree/store.rs:640-669 | the store is in order and its map is the right one after an insertion if and only if the guard holds |
| BTreeStates.MapIsKeptExactlyWhenPresent | src/tree/store.rs:640-669 | an insertion leaves the map as it was, in a store in order, if and only if the key was there and the guard holds |
| BTreeStates.UnsafeInsertLoses | src/tree/node.rs:405-476 | without the guard an insertion loses the search order or pairs |
| BTreeStates.RefusedExactlyWhen | src/tree/node.rs:405-476 | an insertion is refused exactly where the root is a leaf with room that holds the key, and then changes nothing |
| BTreeStates.DeleteRefinesMap | src/tree/store.rs:671-696 | through root collapse, deletion keeps the whole shape, removes exactly the key and returns its old value |
| BTreeStates.RunRefinesMap | src/tree/store.rs:634-696 | every guarded run answers as a finite map does and keeps the invariant |
| BTreeStates.SafeRunFromEmpty | src/tree/store.rs:634-696 | the same for every guarded run from an empty store |
| BTreePages.ReleasesAreFreed | src/tree/node.rs:568-733 | the merges on the way to the key and the collapse of the root, counted before a deletion, are the number of pages it gives back |
| BTreePages.DeletionLosesPages | src/tree/store.rs:378-393 | tree, free list and lost pages are every page ever handed out, before and after a deletion; how many it loses is known before, and none if and only if it gives back none, or one to an empty free list |
| BTreePages.InsertionLosesNothing | src/tree/store.rs:395-427 | a guarded insertion keeps these books and loses no page |
| BTreePages.RunKeepsBooks | src/tree/store.rs:378-427 | so does every guarded run; it loses no page if and only if none of its deletions gives back too many |
| BTreePages.GuardedRunReusesNothing | src/tree/store.rs:395-427 | once a page is on the free list, a guarded run neither hands out a new page nor empties the list |
| BTreePages.RunFromEmptyKeepsBooks | src/tree/store.rs:378-427 | the same for every guarded run from an empty store |
| BTreeFacts.TreeHolds | src/tree/node.rs:177-183 | a tree of h+1 levels holds at least 2(d/2-1)^(h-1)(d/2-2) pairs: height is logarithmic |
| BTreeFacts.FreshRunFromEmpty | src/tree/store.rs:634-696 | from an empty store, keys never inserted before, with deletions that release no page and lookups in between, and then anything but insertions, refine a map with no guard on insertions |
| BTreeFacts.LoadThenDrainFromEmpty | src/tree/store.rs:634-696 | from an empty store, fresh insertions and lookups followed by anything but insertions refine a map with no guard at all |
| BTreeRuns.DuplicateIsStoredTwice | src/tree/node.rs:443 | a run from an empty store at whose end a duplicate is stored a second time |
| BTreeRuns.FreshKeyIsLost | src/tree/node.rs:443 | a run from an empty store in which a fresh key is inserted with success and not found |
| BTreeRuns.ReuseDropsHalf | src/tree/node.rs:361 | a run from an empty store whose last insertion splits into a reused page and drops the right half |
| BTreeRuns.DeletionLosesAPage | src/tree/store.rs:378-393 | a guarded run from an empty store that loses page 1 |
| BTreeRuns.DegreeFourEmptiesAPage | src/tree/store.rs:449-453 | a run of an empty store of degree 4 that leaves an internal page below the root without a key |
| PageNodes.NodePage.Split | src/tree/node.rs:331-369 | the in-place split writes exactly the pages the specification gives, including the missing right half of a reused page |
| PageNodes.NodePage.Insert | src/tree/node.rs:405-476 | the recursive insertion over pages computes the specified tree, and touches no page outside it |
| PageNodes.NodePage.Delete | src/tree/node.rs:543-737 | the recursive deletion over pages computes the specified tree and value, and releases the specified pages |
| PageNodes.NodePage.RepairLacking | src/tree/node.rs:571-732 | the borrow and merge branches leave in the pages what the specification gives |
| PageNodes.NodePage.FindValue | src/tree/node.rs:524-541 | the descent over pages returns the specified value |
| PageNodes.NodePager.WritePage | src/tree/store.rs:278-352 | a page is written only if it is marked as changed; negative ids and deleted pages are refused |
| PageNodes.NodePager.AllocateNewPage | src/tree/store.rs:395-427 | a page of the free list comes first and keeps the leaf link it was last written with; else the next fresh page, without a link; what is handed out is persisted |
| PageNodes.NodePager.DeletePage | src/tree/store.rs:378-393 | the released page becomes the head of the free list and its stored image stays as it was |
| BTreeIndex.BTreeStore.Insert | src/tree/store.rs:640-669 | the state becomes what the specification computes; under the guard it is insertion into the map; where a leaf is split into the page of the free list, that leaf links to it and no other stored link changes |
| BTreeIndex.BTreeStore.Delete | src/tree/store.rs:671-696 | deletion removes exactly the key from the map, returns its value and keeps the store valid |
| BTreeIndex.BTreeStore.Find | src/tree/store.rs:634-638 | find returns the map's value and changes nothing in it |
| BTreeIndex.BTreeStore.FindSmallerThan | src/tree/store.rs:557-584 | for a stored key, the values of an ascending list of keys that are exactly the smaller ones, and the key itself if asked for; for any other key nothing |
| BTreeIndex.BTreeStore.FindGreaterThan | src/tree/store.rs:586-612 | for a stored key, the values of an ascending list of keys that are exactly the greater ones, and the key itself if asked for; for any other key nothing |
| BTreeIndex.BTreeStore.Create | src/tree/store.rs:448-459 | degrees below 4 and odd degrees are refused, all others accepted |
| BTreeScan.LeavesApart | src/tree/store.rs:395-427 | no two leaves of a reachable tree share a page |
| BTreeLinks.SplitLeafLinks | src/tree/store.rs:398-406 | an insertion that splits a leaf into the page of the free list puts that page behind the leaf, with the link it was released with |
| BTreeLinks.EndsExactlyWhen | src/tree/node.rs:355-361 | once a page links to the free page, the way goes on along the link that page kept, and ends if and only if that link led to an end without meeting the page that links to it now |
| BTreeLinks.ChainAfterwards | src/tree/store.rs:586-612 | where the chain of any stored tree leads after such a split, page by page, and from which leaves it ends |
| BTreeLinks.EndsBehind | src/tree/store.rs:586-612 | a link to a leaf of the tree leads to an end without meeting another leaf if and only if it lies behind that one |
| BTreeFreeLink.DeletionNexts | src/tree/node.rs:666-733 | the link kept by the last page a deletion releases is none, or still that of a page of the tree; a deletion that releases nothing keeps all links |
| BTreeFreeLink.FreePageLinksToLeaf | src/tree/node.rs:115-123 | after every guarded run the page of the free list has no link, or one to a leaf of the tree |
| BTreeFreeLink.ChainAfterReuse | src/tree/store.rs:586-612 | after every guarded run and an insertion that splits a leaf into the free page: where the chain leads; it ends if and only if the free page had no link or one behind the leaf that was split |
| BTreeLinkRuns.ChainTurnsBack | src/tree/node.rs:361 | a run from an empty store after which the leaves lie in pages 0, 3, 4 and 1 and page 1 links back to page 3, so that a scan from key 7 never ends |
| FsmTree.RootIsMaximum | src/freespace/binary_tree.rs:133-178 | the root of a page is the maximum over all its leaves, and attained |
| FsmTree.LeavesDetermine | src/freespace/binary_tree.rs:133-178 | the slots determine the whole array |
| FsmTree.StepDown | src/freespace/binary_tree.rs:104-120 | the descent never reads outside the truncated array and leaves only too small slots to its left |
| FsmTree.BinaryTree.FindAvailable | src/freespace/binary_tree.rs:97-131 | the smallest slot with enough space, and None exactly when no slot has enough; the reported value is read at the slot number |
| FsmTree.BinaryTree.SetAvailableSpace | src/freespace/binary_tree.rs:133-178 | exactly one slot changes and all maxima are restored, despite both early exits |
| FsmAddresses.ParentUndoesChild | src/freespace/fsm.rs:232-255 | the parent of a child is the page and the slot it came from |
| FsmAddresses.ChildUndoesParent | src/freespace/fsm.rs:232-255 | the child at the parent's slot is the page itself |
| FsmAddresses.HeapPageRoundTrip | src/freespace/fsm.rs:299-331 | a heap page id survives the way to its slot and back |
| FsmAddresses.SlotRoundTrip | src/freespace/fsm.rs:299-331 | a slot survives the way to its heap page id and back |
| FsmAddresses.CountIsPageId | src/freespace/fsm.rs:333-363 | the counting loops compute the closed form of the page number |
| FsmAddresses.LogicalAddressToPageId | src/freespace/fsm.rs:333-363 | the loops return that number, cast to 32 bits |
| FsmAddresses.Preorder | src/freespace/fsm.rs:334-338 | pages are numbered in preorder: a page, then its subtrees one after the other |
| FsmAddresses.ParentComesFirst | src/freespace/fsm.rs:133-143 | a parent is numbered before its child, so allocating up to a leaf creates the whole path |
| FsmAddresses.EveryIdIsAPage | src/freespace/fsm.rs:333-363 | every positive number is the number of a page |
| FsmAddresses.LocateUndoesPageId | src/freespace/fsm.rs:333-363 | different pages have different numbers |
| FsmAddresses.HeapPageUnderRoot | src/freespace/fsm.rs:92-97 | a heap page climbs to root node 0 exactly when its id is at most slots^depth |
| FsmAddresses.EveryHeapPageFits | src/freespace/fsm.rs:92-102 | every 31-bit heap page id finds its place if and only if pages have at least 512 bytes |
| FsmAddresses.PageIdFits | src/freespace/fsm.rs:333-363 | the number of every leaf page stays within 32 bits |
| FreeSpaceMap.CategoryIsEnough | src/freespace/fsm.rs:265-296 | a page whose category covers a request has the bytes, or the room of an empty page |
| FreeSpaceMap.CategoryIsExact | src/freespace/fsm.rs:265-282 | the category recorded for a page, by the numbers of the page size: 255 exactly for the room of an empty page, else it reaches c exactly if c steps are free |
| FreeSpaceMap.RequestIsLeast | src/freespace/fsm.rs:284-296 | the category asked for is the least that covers the need |
| FreeSpaceMap.EnoughExactlyWhen | src/freespace/fsm.rs:265-296 | a recorded page covers a request if and only if it has the room of an empty page or a whole number of steps lies between the need and its space |
| FreeSpaceMap.OneStepMoreIsEnough | src/freespace/fsm.rs:265-296 | a step more than the need is always enough, as far as 254 steps go |
| FreeSpaceMap.CategoryGrows | src/freespace/fsm.rs:265-282 | more room never lowers the category |
| FreeSpaceMap.SetChangesOne | src/freespace/fsm.rs:145-153 | setting a slot of one FSM page changes one value of the whole map |
| FreeSpaceMap.SetMovesDoubtUp | src/freespace/fsm.rs:145-158 | a slot set to no more than the page below offers puts its link in order and leaves only the one above in doubt |
| FreeSpaceMap.RecordedIsBounded | src/freespace/fsm.rs:126-161 | recording keeps every recorded category at most the page's own |
| FreeSpaceMap.Fsm.New | src/freespace/fsm.rs:81-116 | page sizes below 256 are refused |
| FreeSpaceMap.Fsm.Update | src/freespace/fsm.rs:126-161 | on every level exactly the ancestor slot of the page gets the page's category; the whole invariant is kept |
| FreeSpaceMap.Fsm.Descend | src/freespace/fsm.rs:189-221 | the descent never fails once the root page offers enough, and ends, over the first promising slot of every page on its way, at a heap page whose category covers the request |
| FreeSpaceMap.Fsm.FindAvailablePage | src/freespace/fsm.rs:166-229 | the page that the first promising slots of the map lead to, and it has the bytes asked for, up to the largest record; where the root promises too little a new page, and an error only if the 31-bit ids are used up |
| FreeSpaceMap.WayIsTarget | src/freespace/fsm.rs:189-221 | the descent over first promising slots leads to one heap page only |
| FreeSpaceMap.Fsm.ChosenPageExists | src/freespace/fsm.rs:189-229 | where the root promises enough, the page the map leads to is one of the heap |
| FreeSpaceMap.Fsm.WritePage | src/store/file_store.rs:144-161 | writing a page with no less space than before keeps the map in order without an update |
| FreeSpaceMap.Fsm.Run | src/database/table_access.rs:575-601 | over every run of requests, writes and updates no request fails and every page has what was asked for |
| FreeSpaceMap.RoomIsHidden | src/freespace/fsm.rs:149 | a run after which a recorded page with room is not found |
| PageSlots.TilesAreApart | src/data/page.rs:127-131 | no position of the record area belongs to two slots |
| PageSlots.TiledAfterCut | src/data/page.rs:451-461 | a slot cut in two covers what it covered |
| PageSlots.OthersKeepTheirBytes | src/data/page.rs:446-449 | writing inside one slot touches the bytes of no other |
| PageSlots.RoomAtTheEnd | src/data/page.rs:356-376 | if a record is accepted and no deleted slot is long enough, there is contiguous room for it |
| PageSlots.AcceptsExactlyWhen | src/data/page.rs:340-376 | a record is accepted if and only if a deleted slot has its length, or seven bytes more than that or longer, or the gap before the records has seven bytes more |
| SlottedPages.Page.ReadSlot | src/data/page.rs:333-338 | the record of a live slot, nothing for a deleted or unknown one |
| SlottedPages.Page.MaxAvailableSpace | src/data/page.rs:340-354 | the larger of the contiguous space and the longest deleted slot |
| SlottedPages.Page.FindFreeSlotIndex | src/data/page.rs:378-398 | the first perfect fit, else the first deleted slot that is long enough, else none |
| SlottedPages.Page.CanInsert | src/data/page.rs:356-376 | a record is accepted exactly for a perfect fit or for its length and a slot within the available space |
| SlottedPages.Page.WriteRecord | src/data/page.rs:402-421 | exactly one record is replaced, and only by one of the same length in 16 bits |
| SlottedPages.Page.InsertRecord | src/data/page.rs:424-479 | the record is read back under its number, every other record and number stays, the slots tile the record area; the directory stays clear of it if and only if no remainder slot lacks room |
| SlottedPages.Page.DeleteRecord | src/data/page.rs:492-502 | exactly one record goes, and the slots still tile the record area |
| SlottedPages.Page.Serialize | src/data/page.rs:508-551 | the bytes are the header and the data with the directory over its start |
| SlottedPages.Page.Deserialize | src/data/page.rs:553-600 | the fields are those the bytes describe |
| PageCodec.DirectoryRoundTrip | src/data/page.rs:529-548 | the slot directory is read back as it was written |
| PageCodec.PageBytesLie | src/data/page.rs:508-551 | where every field of a page stands among its bytes, and in which order its bytes do |
| PageCodec.PageFromLies | src/data/page.rs:553-600 | the fields read back are the numbers that stand in these places, slot by slot |
| PageCodec.PageRoundTrip | src/data/page.rs:508-600 | a page read back has the same header and slots, and its data with the directory over it |
| PageCodec.RecordsSurviveExactlyWhen | src/data/page.rs:525-548 | every record is read back as it was if and only if the directory changes no byte of a live one |
| PageCodec.SlotsKeepRecordsExactlyWhen | src/data/page.rs:525-548 | slots keep every record, whatever the bytes are, if and only if no live record begins below the end of the directory |
| PageCodec.RecordsSurvive | src/data/page.rs:508-600 | on a well-formed page every record is read back as it was |
| PageFacts.Reload | src/data/page.rs:508-600 | writing and reading a valid page gives a valid page with the same header, slots and records |
| PageFacts.DirectoryRunsOverRecord | src/data/page.rs:446-474 | a page on which an accepted record is overwritten by the directory |
| RecordScan.ScanIsExact | src/data/page.rs:219-241 | iterating gives each live slot's record under its own number, and nothing else |
| RecordScan.ScanAscends | src/data/page.rs:219-241 | records come in slot order, each once |
| RecordScan.NumberIsRightExactlyWhen | src/data/page.rs:183-198 | the k-th record of a selection is reported under its own slot number if and only if every slot up to it was selected |
| RecordScan.SingleSlotIsNumberedZero | src/data/page.rs:183-198 | a single selected slot is kept alone, and so numbered 0 |
| RecordScan.RecordIterator.FromSlots | src/data/page.rs:183-198 | the selection keeps exactly the selected slots, in order |
| RecordScan.RecordIterator.Next | src/data/page.rs:219-241 | each call yields the next live record, until none is left |
| Bytes.I32RoundTrip | src/tree/store.rs:101-106 | a 32-bit number is read back from its big-endian bytes |
| Bytes.I32BytesUnique | src/tree/store.rs:101-106 | four bytes are the big-endian bytes of the number they give |
| Bytes.I32BytesHold | src/tree/store.rs:101-106 | byte i of a 32-bit number is n / 256^(3-i) modulo 256 |
| NodeCodec.TryFrom | src/tree/store.rs:162-239 | reading a page field by field gives what its bytes mean, or the error of the first missing field |
| NodeCodec.SerializeNode | src/tree/store.rs:286-350 | writing a live page gives every array filled up with sentinels; sentinel ids and deleted pages are refused |
| NodeCodec.NodeBytesLie | src/tree/store.rs:286-350 | where every field, key, child and pair of a page of degree d stands among its bytes, with sentinels where there is none |
| NodeCodec.NodeFromLies | src/tree/store.rs:162-239 | the fields read are the numbers that stand in these places, every list up to its first sentinel |
| NodeCodec.NodeIsReadExactlyWhen | src/tree/store.rs:162-239 | a page is read if and only if all its bytes are there and its id is no sentinel; else the error says which |
| NodeCodec.ReadAfterWrite | src/tree/store.rs:162-350 | a page read back has every list up to its first sentinel |
| NodeCodec.ReadAfterWriteIsExactWhen | src/tree/store.rs:162-350 | a page is read back as it was written if and only if no field holds the sentinel |
| Rows.Validate | src/schema/table.rs:90-122 | a row is accepted exactly when every cell fits its column; else the first misfit is named |
| Rows.ValidatesExactlyWhen | src/schema/table.rs:90-122 | a row validates if and only if it has a cell of the right type for every column, and no text longer than its column allows |
| Rows.CharLengthIsExact | src/schema/table.rs:246 | bytes are taken for a character if and only if they are those of a Unicode scalar value |
| Rows.Serialize | src/schema/table.rs:60-67 | the bytes of the cells, one after the other |
| Rows.CellBytesLie | src/schema/table.rs:192-203 | a number in four bytes, a text behind its length in two, a byte as it is |
| Rows.RowBytesLie | src/schema/table.rs:60-67 | every cell stands behind those before it and in front of those after it |
| Rows.Deserialize | src/schema/table.rs:69-88 | the cells column by column, or the first failing column |
| Rows.ErrorNamesTheColumn | src/schema/table.rs:69-88 | the error names the first column that cannot be read |
| Rows.ReadRowIsValid | src/schema/table.rs:209-259 | a row that was read validates, and its bytes are those that were read |
| Rows.ValidRowIsRead | src/schema/table.rs:69-88 | a valid row is read from any bytes that start with its own |
| Rows.RowFromIsInverse | src/schema/table.rs:60-88 | bytes give a row if and only if it validates and they start with its bytes |
| Rows.RoundTripIsExactWhen | src/schema/table.rs:60-122 | a row survives its bytes, whatever follows, if and only if it validates |
| Rows.BytesTellRowsApart | src/schema/table.rs:60-67 | no valid row's bytes are a prefix of another's of the same schema |
| HashJoins.FindColumnForQuery | src/database/table_access.rs:245-264 | the first column of the trimmed name, or an error if there is none |
| HashJoins.TrimIsMiddle | src/database/table_access.rs:245-264 | trimming takes white space off both ends, and all of it |
| HashJoins.BuildTable | src/database/table_access.rs:192-201 | the table holds for every key the inner rows at exactly the positions that hold the key, in ascending order |
| HashJoins.HashJoin | src/database/table_access.rs:171-242 | the joined rows come from a strictly ascending list of pairs of an outer and an inner position that holds exactly the pairs that agree, with every outer error in its place; missing columns, differing types and inner errors are reported |
| HashJoins.JoinOn | src/database/table_access.rs:180-241 | the same for two given columns |
| HashJoins.NestedLoopsInOrder | src/database/table_access.rs:203-226 | the join by nested loops has exactly these rows in this order |
| HashJoins.JoinedRowsAgree | src/database/table_access.rs:203-226 | a row is among rows so joined if and only if it is an outer and an inner row that agree on the join cells |
| HashJoins.JoinedRowsValidate | src/database/table_access.rs:228-236 | joined rows validate against the joined schema |
| TableRows.OneIndexAgrees | src/database/table_access.rs:401-426 | the rows of a heap determine the index that agrees with them |
| TableRows.AgreesAfterInsert | src/database/table_access.rs:401-426 | after a new row an index agrees if and only if the key was fresh and its place is the only change |
| TableRows.AgreesAfterRemoval | src/database/table_access.rs:401-426 | after rows and keys were removed an index agrees if and only if the keys are those of the places |
| TableRows.ScanFindsLiveRows | src/store/mod.rs:165-178 | the sequential scan gives exactly the live rows, each with its place |
| TableRows.ScanAscendsByPlace | src/store/mod.rs:165-178 | the places of the sequential scan ascend strictly, by page and then by slot |
| TableRows.ScanIsInOrder | src/store/mod.rs:165-178 | the scan gives exactly the live rows, in the order of their places |
| TableRows.FilterIsInOrder | src/database/table_access.rs:352-356 | the filtered scan gives exactly the live rows with the cell, in the order of their places |
| TableRows.HitsAreTheFilter | src/database/table_access.rs:352-356 | there is one list of the live rows with a cell in the order of their places |
| TableRows.ScanIsIndexLookup | src/database/table_access.rs:319-358 | the filtered scan for an indexed cell is the one row the index points to, or nothing |
| TableRows.ReportedPlaceIsRightExactlyWhen | src/data/page.rs:183-198 | the place reported for a row found through an index is right if and only if its slot is 0 |
| TableIndexes.AgreesAfterTaking | src/database/table_access.rs:401-426 | an index that took a new row's key agrees if and only if the key was fresh and the guard held |
| TableIndexes.AgreeAfterInsert | src/database/table_access.rs:603-621 | all indexes agree with the heap after an insertion if and only if all keys were fresh and safe |
| TableIndexes.AgreeAfterRefusal | src/database/table_access.rs:407-422 | after an index refused its key all indexes agree if and only if those before it had their keys already |
| TableIndexes.AgreeAfterDelete | src/database/table_access.rs:360-399 | all indexes agree after a deletion if and only if keys and places belonged together |
| TableIndexes.LiveKeysMatchPlaces | src/database/table_access.rs:360-399 | keys and places of rows that lie where they were found belong together |
| TableAccesses.TableAccess.UpdateIndex | src/database/table_access.rs:401-426 | every index goes through exactly its command; if one refuses, exactly those up to the first that does |
| TableAccesses.TableAccess.RawInsert | src/database/table_access.rs:575-601 | the record goes to the page and the slot determined before the call, or fails for exactly the stated reason; every index gets its command; heap file and map stay in order |
| TableAccesses.TableAccess.Insert | src/database/table_access.rs:603-621 | succeeds or fails for exactly the reason read off the state before; the row is stored in a free place of the chosen page and no other row changes; the table stays in order if and only if the keys were fresh and safe; refused rows are nowhere, and what a refused key leaves behind is stated |
| TableAccesses.TableAccess.Delete | src/database/table_access.rs:360-399 | exactly the rows in the given places and exactly the given keys go, in any table; it stays in order if and only if they belonged together |
| TableAccesses.TableAccess.DeleteWhere | src/database/table_access.rs:360-399 | answered exactly for searches whose hits have keys; removes exactly the rows with the cell, and keeps the table in order, if and only if the hits lie where the search reports them |
| TableSearches.DeletedFound | src/database/table_access.rs:360-399 | the same for deleting what any search found |
| TableAccesses.TableAccess.FindAll | src/database/table_access.rs:314-317 | exactly the live rows, in the order of their pages and slots |
| TableAccesses.TableAccess.Find | src/database/table_access.rs:319-358 | a search yields exactly the live rows with the cell, in the order of their places, or the one the index points to in slot 0; unknown columns and misfitting cells are refused, each with its error |
| TableAccesses.TableAccess.FindByIndex | src/database/table_access.rs:325-351 | a lookup in the index yields the rows of the filtered scan |
| TableAccesses.TableAccess.IndexedRow | src/store/mod.rs:81-147 | the row an index points to, reported in slot 0 |
| TableRuns.StepAnswers | src/database/table_access.rs:314-621 | on a table in order, a guarded insertion, deletion or search is one on the map of its rows, with an answer the map allows, and leaves the table in order |
| TableRuns.RunsAsRows | src/database/table_access.rs:314-621 | over every guarded run a table answers as the map of its rows does and stays in order; a row of the schema with a key for every index is refused as a row only by a page that falls short |
| TableRuns.Apply | src/database/table_access.rs:314-621 | every operation of the table is such a step |
| TableRuns.GuardedByItself | src/database/table_access.rs:314-621 | with fresh keys first and deletions by scan last, every step meets the guard by itself and none panics |
| TableRuns.Run | src/database/table_access.rs:314-621 | every run from an empty table that first inserts rows with fresh keys and then deletes by scans, with searches throughout, answers as the map of its rows does, with no guard on any state |
| TableFacts.ShortPage | src/database/table_access.rs:581-587 | a table whose chosen page has the bytes of a row and not those of its slot: the row is refused |
| TableFacts.RestWithoutSlot | src/data/page.rs:446-474 | a table on which an insertion after a deletion panics |
| TableFacts.KeyWithoutRow | src/database/table_access.rs:401-426 | a table with two indexes: the second refuses its key, and the first keeps its own for a row that is not stored |

## Left out

- BTreeStates.SafeInsertRefinesMap: holds under the guard `SafeInsert`, because without it the code loses pairs; `InsertIsRightExactlyWhenSafe` proves the guard exact.
- BTreeStates.RunRefinesMap: is about runs whose insertions meet the guard, so about no run that splits or allocates after its first released page; `FreshRunFromEmpty` and `LoadThenDrainFromEmpty` need no guard.
- BTreeStates.SafeRunFromEmpty: the same.
- PageNodes.NodePage.Insert: page ids are unbounded; running out of 31-bit ids is not modelled.
- PageNodes.NodePager.AllocateNewPage: the same; its refusal of ids above 31 bits is not modelled.
- FreeSpaceMap.Fsm.WritePage: keeps the free space of a page and not its bytes; the bytes are kept by `TableAccess`.
- FreeSpaceMap.Fsm.FindAvailablePage: category arithmetic is exact integer division, which the floating-point division by a power of two agrees with.
- NodeCodec.SerializeNode: requires a degree of at most 8192, beyond which the 16-bit size computations overflow.
- SlottedPages.Page.InsertRecord: the record counter wraps at 65536 instead of panicking.
- TableAccesses.TableAccess.Insert: hash map order is fixed, commands reach the indexes in their order; indexes are kept as the states proved for `BTreeStore`, not as objects over their own page stores; after a panic nothing is promised about the table.
- TableAccesses.TableAccess.Delete: rows are deleted in the order given and not grouped by page in a hash map; what its contract says does not depend on the order. Pages of the rows have to exist, as they do for the rows of any query.
- TableRuns.RunsAsRows: asks for fresh and safe keys, no panic, and deletions of rows that lie where they are reported; each of these is shown necessary for one step by the contracts of `TableAccess`.
- TableAccesses.TableAccess.FindByIndex: looks up one place, as the unique index gives it; the general grouping of places by page is modelled only by the iterator over selected slots.
- HashJoins.HashJoin: takes query results as sequences; laziness is not modelled.
- `TableAccess::update`: rows that move leave their index entries behind, so it does not keep heap and indexes in agreement.
- Files, seeks, buffering, flushing, I/O errors and the persisted index metadata: a page store is a map.
- The time-based page cache and the changed flag shared by clones of a page: a read gives the last write.
- Catalog tables, table creation and drop, sequences: plumbing over table access with easy claims.
- Error messages, display, the benchmark in `main.rs`, and crashes between two writes.
- Completeness of the free space map (no allocation while some page has room): false of the code, see `RoomIsHidden`.
