# The versioned copy-on-write heap, verified

A Dafny model of the allocator in `src/alloc.c` (with the structs of `src/alloc.h`) and of
the transaction protocol that `src/driver/evaler.c` runs on it. The heap keeps every
generation of the interpreter's memory: pages are nodes of a tree of generations, a page
that stands at its own `real_addr` is *home* and is what the interpreter sees, committed
home pages are read-only during a mutation, and the first write to one is trapped, which
gives the old contents a copy and the page to the working generation. Checking out a
generation swaps the selected versions home.

## How the model is built

| files | what they model |
|---|---|
| `Layout`, `Maps`, `Carving`, `Layers`, `Table`, `Protection` | the protection table (`Tables.Table`, an array edited in place), `merge_in_map` and `merge_in_table` (`Protections.Protection`), and the protection that the process really has, which only the `mprotect` calls change; the bytes that leak, which the process can write although the table calls them read-only |
| `Pages` | one page: segment tiling, `page_can_fit`, `page_new_segment`, offsetting of segment pointers |
| `VersionStore`, `History`, `LinearHistory`, `Swaps` | the heap as versions: which page versions exist in tree order and what stands at every location; its steps; what runs of steps keep |
| `Trees`, `Forest`, `Pointers`, `Walks`, `Selection`, `Callbacks` | the tree of generations, the slots in memory that represent it, `walk_nodes`, and what every walk of the allocator finds |
| `Placement`, `Guards` | the two frontiers and the growth of the heap; what the table says of pages |
| `Shields`, `Breaches` | the read-only set along a run: when a mutation begins with all committed pages trapped, and heaps on which one does not |
| `HeapStates`, `Evolution`, `Sights`, `Sessions` | the heap as one value; what the interpreter sees of it; what operations and sessions do to both |
| `Heap`, `Allocator`, `Evaluator`, `Transactions`, `Bootstrap`, `Driver` | the class `Heaps.Heap` with the header's fields and the nodes in memory, changed in place by the methods for the C functions, up to `server_loop` |

An `assert` that fails, an `exit` and an address that the allocator cannot reach are values
of `Layout.Stop`; a claim about a state after a call holds for calls that return (`Going`).
The heap starts as it is after the first commit, with any pages in generation 0
(`Bootstrap.Boot`).

Every method of `Heap`, `Allocator`, `Evaluator`, `Transactions`, `Bootstrap` and `Driver` is proved against the value
`HeapStates.State` of the heap and, through `HeapStates.View`, against the steps of
`VersionStore`. `Heap.Valid` is the whole-system invariant: placement, table and write
barrier, the tree and its slots, header pointers and commit bits, segment tiling.

## Main results

- **Exact rollback.** If every write of a query into a committed page was trapped, a query that
  fails or only reads restores every page of its parent byte for byte if and only if the heap
  was coherent for the parent before it. In any case it is coherent for the parent afterwards,
  and the same node is committed (`History.Rollback`; for the methods `Driver.RunQuery`).
- **Time travel.** However a run of trapped writes goes on, arriving at a state in which the
  versions selected for k stand home restores k exactly if k was coherent
  (`History.TimeTravel`); on histories whose mutations begin at the newest generation it always
  is (`LinearHistory.LinearTimeTravel`).
- **Isolation.** No trapped write, and no other step, changes a committed version
  (`History.RunFrozen`); over any run a committed version changes only if a write into its page
  was not trapped (`History.RunConfined`). From agreement a mutation begins with every committed page
  trapped if and only if no merge of `snap_begin_mut` is silent, which the pages, their order and the
  read-only set tell before it begins (`Shields.Quiet`, `Transactions.BeginMut`); the read-only
  set in turn is a function of the run (`Shields.RoEnd`).
- **Straight sessions.** From the first commit on, a session whose queries all work from the
  newest generation has no silent and no aborted merge: every write into a committed page is
  trapped, no committed version changes, and whenever the first generation is committed again
  its pages are as they were (`Shields.SettledQuiet`, `Driver.ServerLoop`).
- **What a session does.** Every operation of the interpreter has exactly its effect on the pages
  at home: one byte, one flag, one new segment (`Sights.Performs`). The operations of a query take effect
  in order (`Evaluator.Evaluate`), a query that neither fails nor only reads leaves what they have done
  (`Driver.RunQuery`), and a session of such queries takes the interpreter through all operations
  (`Driver.ServerLoop`, `Sessions.SessionPerforms`). A call that does not return has a reason that its
  caller can check before: a pointer that is none, a segment freed twice, a payload in the misfit window or
  larger than half the heap, or more pages than the table of maps has room for (`Sights.Stuck`,
  `Sessions.SessionRoom`).
- **Where a generation hangs.** It is the last child of the first generation in preorder at or below the
  committed one that has a free slot, and on any history, branching ones included, its pages stand together in the
  version order behind all pages of that one (`Transactions.BeginMut`, `Sessions.WorkLands`).
- **Protection.** `merge_in_map` is the pointwise override, defined and in agreement with the
  process's protection under exact conditions; during a mutation a byte is read-only in the
  table iff it lies in a committed page at home.
- **Selection, placement, segments, allocation.** One version per page, the last in preorder,
  within the counted size; disjoint placement; tiling; payloads that never overlap.

## Where the code does not do what one would expect

These are properties of the code as it is, each with an input that shows the failure and
with the exact condition.

- **Branching histories.** `pages_up_to_gen` filters by generation id and not by ancestry.
  `LinearHistory.FailedQueryIsSelected` is a run of three queries whose second rollback
  brings back a byte that a failed query wrote. Rollback is exact iff the heap is coherent
  for the parent. The project's README.md:116 says that on error the generation is abandoned;
  the code commits it and then checks the parent out (src/driver/evaler.c:147-161), so it
  stays in the tree and can be selected later. The model follows the code.
- **Silent merges.** A merge over an odd run of three or more maps whose outer ones have the new
  protection changes the table without a call of `mprotect`. It happens exactly when the first and the
  last byte of the range have the new protection and some byte between them does not
  (`Carving.SilentPointwise`), and agreement with the process is lost exactly then
  (`Carving.AgreementExact`; for the whole of `merge_in_table` `Layers.ListAgreement`). The bytes
  that leak afterwards are those of the open pages inside silent merges (`Layers.ShutLeaves`).
- **Untrapped writes.** `Breaches.RollbackFails` is a run from the first commit: one query allocates
  three adjacent pages, a second one writes the middle one and is rolled back. The heap is coherent,
  but the next mutation does not trap writes into the middle page, and a query that writes there
  and is rolled back leaves what it wrote. So isolation and rollback do not hold of the code without
  a condition on how mutations begin. On any heap on which the parent's versions stand home, a failing
  query that stores a byte which is left bare is not undone (`Driver.FailedStore`).
- **Aborted merges.** `assert(lptr->len != 0)` fires exactly when the first byte of the range changes
  while the byte before it and the last byte have the new protection
  (`Carving.EmptyLeftPointwise`). `Breaches.BeginAborts` is a run from the first commit to a heap on
  which the next `snap_begin_mut` fires it: after three adjacent pages were allocated, one query
  writes the first of them, and another one the middle one and is rolled back.
- **Growth.** An address m bytes behind the end is inside after growing iff `2m <= size` or the
  rounded `2m` exceeds `size + m` (`Placement.GrowthExact`). `new_gen` never meets the other case
  (`Placement.GenReaches`), `new_page` only for a page of more than half the heap (`Placement.PageReaches`).
- **Fresh pages.** A fresh page fits the segment it was made for iff the headers do not reach
  into the next physical page (`Pages.FreshFits`).

## Model

| member | source | states |
|---|---|---|
| Tables.Table.InsertMap | src/alloc.c:100-115 | the array holds the old maps with the new one at the index; the unsigned countdown ends because index 0 is passed only for an empty table |
| Tables.Table.RemoveMap | src/alloc.c:117-126 | the array holds the old maps without the one at the index |
| Tables.Table.Overlaps | src/alloc.c:128-140 | exactly the contiguous run of maps that share a byte with the new one is collected, in order |
| Tables.Table.MapIndex | src/alloc.c:142-150 | the first map with the start and length, or none |
| Carving.MergeOverrides | src/alloc.c:210-449 | whenever a merge returns, the table is well-formed (contiguous, alternating, no empty map), covers the same range, and says of every byte the new protection inside the range and the old one outside; it has at most two more maps |
| Protections.Protection.CullHits | src/alloc.c:228-242 | the cull loop terminates and leaves one or two hits that cover what the run covered, in both tables |
| Protections.Protection.MergeInMap | src/alloc.c:210-449 | for any number of overlapped maps the in-place merge ends in the stop, table and process protection of the specification, which overrides pointwise |
| Carving.DefinedExactly | src/alloc.c:258-431 | strictly inside the table a merge returns unless the run is even, starts exactly at the new map and has the opposite protection; none of the other asserts can fire |
| Carving.EmptyLeftPointwise | src/alloc.c:420-431 | the same condition told from three bytes, both directions |
| Carving.EmptyLeftExists | src/alloc.c:427 | a concrete table and range strictly inside it for which the assert fires |
| Carving.AgreementExact | src/alloc.c:228-433 | from agreement, table and process protection agree after a merge if and only if it was not silent |
| Carving.SilentPointwise | src/alloc.c:228-250 | a merge is silent iff first and last byte have the new protection already and some byte between does not |
| Carving.SilentMergeExists | src/alloc.c:228-250 | a concrete silent merge |
| Layers.CoalescedPaints | src/alloc.c:467-490 | coalescing a list first and overriding with the result equals overriding with each listed map in order, byte by byte |
| Protections.Protection.MergeInTable | src/alloc.c:451-498 | for a returning call the table is the naive fold of the listed maps over the old one, and the protection of the process is told byte by byte by the merges that call mprotect; for maps that share no byte table and process agree afterwards iff no merge of the coalesced list was silent; strictly inside the table the call is aborted only if one of the merges aborts and returns only if none does; it runs out of room only if the table with two more maps per merge would exceed MAX_MAPS |
| Layers.ListAgreement | src/alloc.c:451-498 | the same for tables and lists as values: from agreement, and for maps that share no byte, table and process agree after the list iff no merge was silent, judged on the bytes as laid so far |
| Layers.ShutLeaves | src/alloc.c:451-498 | after making a list read-only exactly the bytes left bare (writable before, inside a silent merge) leak, and of the others only some that leaked before |
| Protections.Protection.GrowLast | src/alloc.c:806-822 | growing the last map leaves every byte of the old range as it was, keeps what leaks, and what the table calls writable stays writable |
| Pages.FitExact | src/alloc.c:1355-1371 | on a tiled page the cast comparison never wraps: it is true iff the segment leaves a strictly positive gap |
| Pages.FreshFits | src/alloc.c:1457-1464 | a fresh page of size/PAGE_SIZE + 1 physical pages fits iff size % PAGE_SIZE plus the headers stays below a page |
| Pages.NewSegmentTiled | src/alloc.c:1373-1390 | a segment that fits keeps the tiling and the gap, and moves and resizes no other segment |
| Pages.SegmentInPage | src/alloc.c:1565-1586 | every segment lies behind the pointer array and inside its page |
| Pages.SegmentUnique | src/alloc.c:538-562 | every byte of a segment is found in that segment and in no other |
| Pages.SegmentsDisjoint | src/alloc.c:1373-1390 | two segments of a page share no byte |
| Pages.OffsetPointers | src/alloc.c:873-885 | the loop over the segment pointers moves each by the distance |
| Pages.MovedLogical | src/alloc.c:888-936 | copying or swapping a page with its pointers offset changes nothing of what it holds relative to its location |
| Pages.MovedTiled | src/alloc.c:873-936 | and keeps the tiling |
| Placement.NewSizeExact | src/alloc.c:784-790 | the new size: exactly twice the old one if 2m <= size, and otherwise the least multiple of the page size that is at least 2m |
| Placement.GrowthExact | src/alloc.c:784-837 | after growing the address is inside iff 2m <= size or round_page_up(2m) > size + m; the size grows and stays aligned |
| Placement.GrowthFails | src/alloc.c:829-837 | the failing window is not empty |
| Placement.NextPageFresh | src/alloc.c:839-851 | new_page's address is aligned, behind every page and every physical page of a generation |
| Placement.NewPagePlaced | src/alloc.c:839-863 | new_page keeps all nodes disjoint, inside the heap, pages aligned, and no generation on a physical page of a page node or of the header |
| Placement.NextGenFresh | src/alloc.c:938-966 | new_gen's address is behind every generation and on no page's physical page; the sanity assert on a jump holds |
| Placement.NewGenPlaced | src/alloc.c:938-979 | new_gen keeps the placement |
| Placement.GenReaches | src/alloc.c:938-979 | growing for a generation always reaches its end: new_gen never stops |
| Placement.PageReaches | src/alloc.c:829-851 | growing for a page that takes at most half the heap reaches its end |
| Guards.BarrierBytes | src/alloc.c:759-782 | during a mutation a byte is read-only in the table iff it lies in a committed page standing at its own real_addr |
| Guards.EdgesWritable | src/alloc.c:258-307 | the first and the last map of the table are always writable |
| Guards.PageUniform | src/alloc.c:829-863 | every page lies strictly between the ends of the table and has one protection |
| Guards.TableBound | src/alloc.c:759-782 | the table has at most twice as many maps as there are read-only pages, and one more |
| Guards.ReadySteady | src/alloc.c:1034-1046 | making one page writable, or a page and its home, never aborts and is never silent |
| Guards.ReadyCloses | src/alloc.c:1347-1350 | whatever table the home list paints, exactly the committed pages at home are read-only in it, and all listed maps lie strictly inside |
| Guards.OpenBetweenShut | src/alloc.c:228-250 | three adjacent pages, the outer two read-only and the middle one opened: their merge is silent and the middle page stays writable for the process although the table says otherwise (Breaches.RollbackFails reaches such a heap) |
| Guards.ShownUnshut | src/alloc.c:228-431 | which bytes the home list leaves bare, and whether a merge of it aborts, depends on the read-only pages only |
| Walks.WalkFinds | src/alloc.c:506-531 | a walk that exits at a hit returns the first hit in preorder |
| Walks.WalkSelects | src/alloc.c:1188-1218 | skipping generations above k takes exactly the pages of generations up to k, in preorder, because ids never decrease along a path |
| Selection.SelectionExact | src/alloc.c:1183-1218 | the second pass leaves one entry per distinct real_addr, the last in preorder, and no more entries than the first pass counted |
| Selection.CountExact | src/alloc.c:1255-1263 | the first pass counts the entries of generations up to k |
| Transactions.PickPages | src/alloc.c:1255-1269 | the two walks return one location per page, that of its last version up to k, and the number of entries of generations up to k, which bounds the selection |
| Pointers.OneSlot | src/alloc.c:722-736 | no two slots of the tree hold the same node: a node has at most one parent slot |
| Pointers.HasParent | src/alloc.c:722-736 | and it has one: a generation of the tree with a slot that holds it |
| Callbacks.ParentHit | src/alloc.c:722-736 | find_parent finds it |
| Callbacks.FreeSlotHit | src/alloc.c:742-757 | first_free_slot finds the slot right behind the children of a node, of the start node if it has room; none is found only if that is full |
| Callbacks.FreeSlotFirst | src/alloc.c:742-757 | the node it finds is the first generation in preorder with a free slot, and nothing is found iff every generation there is full |
| Callbacks.TipSlot | src/alloc.c:1063-1075 | below the newest generation only its outermost node can have a free slot |
| Callbacks.GenHit | src/alloc.c:1224-1236 | first_gen_for_id finds the node that was once working for the id, and nothing for any other id |
| Callbacks.PageSearch | src/alloc.c:538-562 | find_page finds the one page that has the address behind its header, wherever it is in the tree, and the first segment that has it; nothing if there is none |
| Callbacks.VerdictAt | src/alloc.c:538-562 | every byte of every segment is found in its page and its segment, so a store to a payload never ends in a failing assert of the handler but for the commit bit |
| Callbacks.VerdictTells | src/alloc.c:998-1047 | how the handler's checks end, told without a search: no page iff none has the address behind its header, no segment iff a page has it but none of its segments, otherwise by the commit bit of the page whose segment has it |
| Callbacks.FitHit | src/alloc.c:1413-1424 | first_page_fit finds an uncommitted page with room if there is one |
| Callbacks.NoMismatch | src/alloc.c:1396-1407 | all_gen_match finds no other id below the working generation |
| Callbacks.NodesGathered | src/alloc.c:865-871 | set_committed's walk visits exactly the nodes of the subtree |
| Forest.BetweenKept | src/alloc.c:983-996 | new_gen_between keeps unique nodes, ids that never decrease along a path, and the outermost node of every id |
| Forest.BetweenOrder | src/alloc.c:983-996 | it keeps the preorder page sequence, with ids |
| Forest.AddGenKept | src/alloc.c:1325-1343 | a generation with the next id keeps the tree's invariant |
| Forest.AddLeafOrder | src/alloc.c:1062-1091 | a page added behind a generation's children is inserted at one place of the version order |
| Forest.SubSet | src/alloc.c:1319-1346 | a change below a node is a change in the subtree of every node above it; with it the new generation is placed below the committed one |
| Callbacks.CommitBits | src/alloc.c:1588-1607 | during a mutation the uncommitted nodes, generations and pages, are exactly those of the working subtree; between mutations there are none |
| HeapStates.WorkingPage | src/alloc.c:865-871 | a page is uncommitted iff it lies below the working generation |
| HeapStates.BetweenSane | src/alloc.c:983-996 | new_gen_between makes room, keeps the whole heap sane and leaves all versions and their order as they are |
| HeapStates.TrapSane | src/alloc.c:1017-1091 | the slot writes of handle_segv make a trap step of the version store and keep the heap sane |
| HeapStates.CommitSane | src/alloc.c:1157-1181 | flagging the working subtree commits exactly the versions of the working generation |
| HeapStates.SwapSane | src/alloc.c:1276-1306 | exchanging the two slots and the two pages is a swap step and keeps the heap sane |
| VersionStore.StepKeeps | src/alloc.c:998-1353 | every step, an untrapped write included, keeps the invariant of the versions: homes, one version of a page per generation, commit bits, tiling |
| History.StepFrozen | src/alloc.c:998-1309 | no step of the allocator or the interpreter other than an untrapped write changes a version of a committed generation, nor their order |
| History.RunFrozen | src/alloc.c:998-1353 | nor does any run in which all writes into committed pages are trapped |
| History.RunConfined | src/alloc.c:998-1353 | over any run the committed versions keep their order and their pages, and one of them changes only if a write into its page, standing at home, was not trapped |
| History.SwapHomeHeld | src/alloc.c:888-936 | a swap leaves every slot's logical page unchanged |
| History.TimeTravel | src/alloc.c:1238-1309 | when writes were trapped: arriving where the versions selected for k stand home restores every page of k byte for byte iff k was coherent |
| History.Rollback | src/driver/evaler.c:141-161 | begin, any evaluation, commit, checkout of the parent: coherent after, and the parent is committed; if the writes of the evaluation were trapped, restored iff coherent before |
| LinearHistory.LinearKeeps | src/alloc.c:998-1353 | when mutations begin at the newest generation, what the interpreter sees is always the generation it works on |
| LinearHistory.LinearTimeTravel | src/alloc.c:1238-1353 | then, if writes were trapped, after any back-and-forth of checkouts every page that existed when k was committed is as it was |
| LinearHistory.FailedQueryIsSelected | src/alloc.c:1188-1218 | a concrete branching run whose rollback does not restore |
| Swaps.PassNext | src/alloc.c:1275-1304 | swaps for different real_addrs do not interfere: passed versions stay home, the others have not moved |
| Swaps.SwapsStand | src/alloc.c:1275-1304 | after the loop every version selected for k stands at its real_addr |
| Evolution.PayloadsApart | src/alloc.c:1373-1390 | any two payloads of pages at home are the same or share no byte |
| Evolution.AllocationsApart | src/alloc.c:1426-1562 | two payloads returned at different times of the current line, with any allocations, frees, stores and commits between, share no byte |
| Evolution.RunKeepsLive | src/alloc.c:1426-1562 | over any run of the current line, across commits, an allocated payload stays allocated where it is |
| Heaps.Heap.constructor | src/alloc.c:688-705 | the heap of new_db after its first commit: the whole invariant holds, nothing leaks or is read-only, and the history is linear |
| Heaps.Heap.MaybeGrow | src/alloc.c:784-837 | an address inside changes nothing; for one m bytes behind the end the size is exactly doubled if 2m <= size, and else becomes the least multiple of the page size that is at least 2m; returns iff the address is inside then; table and placement stay in order |
| Heaps.Heap.NewPage | src/alloc.c:839-863 | a fresh uncommitted page behind all others; stops exactly if growing for the end of the page fails |
| Heaps.Heap.NewGen | src/alloc.c:938-979 | a fresh empty generation at the determined address; it always returns |
| Heaps.Heap.WalkNodes | src/alloc.c:506-531 | the recursive walk over slots in memory computes the walk over the tree they represent |
| Heaps.Heap.NewGenBetween | src/alloc.c:983-996 | the loop over the slots makes room and keeps every version; it always returns |
| Heaps.Heap.PageCopy | src/alloc.c:873-885 | the copy, at the address of a fresh page, holds what the page holds and the heap stays sane; stops exactly if a fresh page of that size would |
| Heaps.Heap.FindFault | src/alloc.c:998-1047 | the exit or the failing assert is told exactly by the address, the pages and segments that have it and their commit bit, and by whether something is being mutated; otherwise the page is found |
| Heaps.Heap.HandleSegv | src/alloc.c:998-1097 | for every address that the process cannot write: ends as FindFault says, and never at an uncommitted page; for a committed page it runs out of the table of maps only if there are too many pages, stops otherwise exactly if a fresh page of that size would, and else is one trap step on that page, after which the whole invariant, the write barrier included, holds again and nothing new leaks |
| Allocator.FaultsIfCommitted | src/alloc.c:998-1047 | a store faults iff its page is committed, except at the bytes that leak |
| Allocator.StoreByte | src/alloc.c:998-1097 | that byte of the payload is v, and no other byte of any payload, no flag, no size and no place changes at any location; it is one write after one trap on its page if the process cannot write the byte, and one write alone if it can; it returns if the process can write the byte, and otherwise as the trap does; a write that is not trapped hits a page with a byte that leaks |
| Allocator.FindFit | src/alloc.c:1437-1462 | the first page of the working generation with room, and a fresh page exactly if none has; stops exactly if no page fits and either the heap cannot grow for the fresh one (or before it for a generation) or the fresh one is in the misfit window |
| Allocator.Malloc | src/alloc.c:1426-1472 | no bytes give NULL and no change; otherwise a payload that shares no byte with any other, cut from that page right below its last segment, and nothing else at home changes; how it stops is told exactly by the size, the mutation state and FindFit, and for want of growth only if the payload's page takes more than half the heap |
| Allocator.Free | src/alloc.c:1474-1494 | clears the used flag of that segment and nothing else; stops exactly for a segment that is not used, or outside a mutation, or as the trap on its page does |
| Allocator.Realloc | src/alloc.c:1525-1562 | the new payload is cut from the page that snap_malloc takes and starts with the first min(old, new) bytes of the old one, which is free now; no other segment of any page changes; the cases of NULL and of size 0; every way to stop has its condition on the heap before |
| Transactions.BeginMut | src/alloc.c:1311-1353 | one begin step with the next id; the new generation is the last child of the first generation in preorder at or below the committed one with a free slot, for which room is made if there is none, and the place of its pages in the version order is behind all pages of that one; no page changes; the write barrier holds in the table; the bytes left bare leak and nothing else does that did not before, so from agreement table and process agree iff the begin is quiet; it returns only if no merge aborts, is aborted only if one does, and runs out of the table of maps only if there are too many pages |
| Shields.SettledQuiet | src/alloc.c:1311-1353 | when the newest generation is committed, stands home and comes last in the tree, and just its pages are open, the next mutation begins quietly and no merge aborts |
| Shields.SettledCheckout | src/alloc.c:1238-1309 | checking out the newest generation or the one before it opens only pages of which the newest has a version, and keeps the heap so |
| Shields.WorkSettles | src/alloc.c:998-1353 | so does a whole transaction that begins at the newest generation |
| Shields.WorkRo | src/alloc.c:998-1353 | after a transaction the read-only pages are the committed ones at home before its commit, and it is quiet iff its begin is |
| Breaches.BaredPage | src/alloc.c:1347-1350 | a byte left bare lies in a committed page at home that was open, and the whole page is left bare |
| Breaches.LeakSurvives | src/driver/evaler.c:141-161 | for every heap: a write that is not trapped survives the rollback of its query, although the heap was coherent |
| Breaches.RollbackFails | src/driver/evaler.c:141-161 | a concrete run of trapped writes from the first commit to a coherent heap on which the next mutation leaves a page bare, and a query whose rollback does not restore |
| Breaches.BeginAborts | src/alloc.c:420-431 | a concrete run from the first commit to a heap on which snap_begin_mut is aborted |
| Transactions.CommitWork | src/alloc.c:1157-1181 | one commit step, returning the working generation's id |
| Transactions.SwapPage | src/alloc.c:888-936 | one swap step of the version store, which keeps the whole invariant; the page and its home are open afterwards and nothing new leaks; it stops only if there are too many pages |
| Transactions.CheckoutGen | src/alloc.c:1238-1309 | stops for an id iff no generation has it, and otherwise only if there are too many pages; else one checkout step: exactly the selected pages that were away are swapped, all selected versions stand home, the node that once worked for the id is committed, and the read-only pages are those before without the swapped ones |
| Evolution.RunSplices | src/alloc.c:998-1097 | the versions that an evaluation adds stand together in the order, from the place behind the working generation's on, and all others keep their order, homes and ids |
| Sights.TrapUnseen | src/alloc.c:1017-1091 | a trap changes nothing that the interpreter sees |
| Sights.PerformedJoin | src/driver/evaler.c:145 | effects of operations compose: those of two sequences one after the other are those of their concatenation |
| Sessions.RepliesIncrease | src/driver/evaler.c:141-170 | result generations increase one by one; a query's parent is the one asked for, or the last result, or the last parent after an error or a read-only query |
| Sessions.WorkUndone | src/driver/evaler.c:141-161 | the transaction of a query that was rolled back: coherent after, and if writes were trapped restored iff coherent before |
| Sessions.WorkLands | src/alloc.c:1319-1343 | on any history, the versions of a transaction go behind those of the first generation at or below the committed one that has a free slot; the other versions keep their order |
| Sessions.SessionPerforms | src/driver/evaler.c:83-175 | a session of queries that neither fail, nor only read, nor name a generation takes what the interpreter sees through all their operations in order |
| Sessions.SessionRoom | src/alloc.c:467-498 | a session runs out of the table of maps only if its pages and two per operation are too many |
| Sessions.SessionRan | src/driver/evaler.c:83-175 | a session changes a version committed before it only where a write was not trapped; if all were trapped and every mutation began at the newest generation, it restores pages whenever its first generation is committed again |
| Sessions.FirstTip | src/alloc.c:688-705 | the heap after the first commit is a linear history whose newest generation is what the interpreter sees, and it is settled |
| Bootstrap.LoadPage | src/alloc.c:1444-1458 | one more page of the bootstrap at new_page's address, with the given segments, flags and relative pointers: the heap keeps the whole invariant, stays linear and settled, and the page is the last of the order; stops only for a page of more than half the heap |
| Bootstrap.Boot | src/driver/evaler.c:214-225 | new_db, a bootstrap that fills any number of pages, and the first commit: a session can begin, and the pages hold those segments at those offsets |
| Evaluator.Act | src/alloc.c:1426-1562 | one operation has its effect on what the interpreter sees and no other: a store one byte, a release one flag, an allocation one new segment, a resize a new segment with the old bytes and the flag of the old one; if it does not return, the pointer is none, the segment free, the payload a misfit, the heap too small to grow or the table too small for its pages |
| Evaluator.Evaluate | src/driver/evaler.c:145 | any sequence of operations takes effect in order, and nothing else happens; it keeps the whole invariant and is a run of trap, write, new-page and leak steps; leak steps only where a byte leaked before, and nothing new leaks; if it does not return, some operation, after those before it have taken effect, ends for its own reason |
| Driver.RunQuery | src/driver/evaler.c:141-166 | its operations take effect, in a new generation that hangs where BeginMut says; on error or read-only the same node is committed afterwards as before and its versions are checked out, else the new generation with what the operations left; it is one transaction, undone as WorkUndone says; the read-only set and whether it begins quietly are told by its steps; an untrapped write hits a page that leaked or was left bare, so from no leaks and a quiet begin all writes are trapped; it stops only if a merge of the begin aborts, an operation fails or there are too many pages; from the newest generation it keeps the heap settled |
| Driver.FailedStore | src/driver/evaler.c:141-161 | a query that stores one byte that is left bare when it begins, and fails: the heap was coherent for the parent, the parent is committed again, and the page keeps the byte |
| Driver.ServerLoop | src/driver/evaler.c:83-175 | the replies are those of the protocol for the lines of input, the ids used up are counted by them; the heap goes through the lines one by one, each checkout and each query with its effect, and stops only at a line for a reason of that line, after the replies to those before it; the session has the effect of SessionRan; from no leaks and if every mutation begins quietly all writes are trapped; from a settled heap and with all queries from the newest generation that is so, and no merge aborts |

## Left out

- `mmap`, `mremap`, `mprotect` and `ftruncate` always succeed; their effect on sizes and on the process's protection is modelled.
- The size of the heap and the addresses of new nodes over whole evaluations: `BeginMut`, `HandleSegv`, `Malloc` and `LoadPage` tell them exactly, `Evaluate` and the queries do not carry them on.
- Signal delivery: a store to a byte that the process cannot write calls the handler, and the store is then made; a fault inside the handler is not modelled.
- `open_db` and the recovery of an uncommitted heap; generation 0 before its first commit: the bootstrap's pages are added as the first commit leaves them.
- Pointer alignment and 64-bit overflow; event logging, printing and `full_verify` (its checks are part of the invariant).
- The contents of memory outside page headers, segment pointers and segments, and the header field `user_ptr`: swapping and copying is modelled for the pages' headers, pointers and segments.
- Nodes in memory are values in maps from addresses, so that a struct is replaced as a whole; segment pointers and tree slots are addresses as in the C code. `to_swap` is a sequence of addresses whose length the proof bounds by the count.
- The store of `page_new_segment` into a page of the working generation is made without asking for a fault: the process can always write what the table calls writable (`Carving.Lenient`, part of `Heap.Ready`).
- `memcpy` in `snap_realloc` reads past the end of a smaller payload: those bytes are arbitrary, and a copy past the end of the heap is a stop; overlapping copies are not modelled otherwise.
- The checks that `full_verify` makes at the start of `snap_begin_mut`, `snap_commit` and `snap_checkout`, of whether something is being mutated, are their preconditions.
- Pointers that no allocation returned, and stores outside payloads: `Evaluator.Act` stops at them.
- Lua and Duktape: an evaluation is an arbitrary sequence of operations, and its status is an input. An evaluation that returns no result at all is not modelled.
- JSON parsing: a line of input is one of the three kinds that `server_loop` tells apart. `from_eval_arg` runs the same protocol once.
- The gateway, bolt storage, HTTP, clients, web UI, option parsers, `memgraph` and `memtest`.
- Sessions.Straight: excludes queries that name an older generation, also where the generations after it own no page, which takes queries that neither allocate nor store.
- Driver.ServerLoop: that no mutation is aborted and every write trapped is shown without a condition on the steps for sessions whose queries work from the newest generation; for others the condition is `Shields.Quietly`, and rollback is exact only where the heap is coherent.
