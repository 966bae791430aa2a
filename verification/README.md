# Verified models of a small x86-64 kernel

This project models the hardest data structures and protocols of a hobby x86-64 kernel, its boot
loader and its image tool, and proves what they are for. Code that works on values is modelled by
datatypes and functions, code that changes things in place by classes, arrays and loops, each
method being proved against a specification.

- **Addresses and alignment** (`Base`). The bit trick of the align macro in 64 bits, powers of two
  and remainders.
- **Interval tree on a red-black tree** (`RbModel`, `ChainModel`, `IntervalModel`, `DeleteModel`,
  `SearchModel`, `GapModel`, `IntervalTree`, `IntervalRuns`). Nodes live in a store of records, as
  the C code has them behind pointers; a ghost tree and a path into it say what the records mean
  at every moment of a rotation, an insert or a delete. On that stand order, colours, black
  heights, the list of nodes, stale maxima, logarithmic search and the search for free gaps.
- **Recursive mutex** (`Mutex`). A state machine over single loads, compare-exchanges and plain
  writes, with any number of threads and mutexes; safety of every reachable state.
- **Kernel heap** (`Queue`, `HeapModel`, `Heap`, `HeapRuns`). Chunks and holes tile the heap, and
  over any run of calls memory in use never overlaps, up to the first address that wraps.
- **Boot page tables and memory map** (`PageTables`, `MemoryMap`). The processor's walk of the
  finished tables, at every address, and exactly when it says what the list of the kernel's pieces
  says; and the one list of the memory described with nothing left to merge.
- **Page cache and file views** (`PgCacheModel`, `PgCache`, `PgVisit`, `FileViews`). A radix tree
  that is a map, a walk with an explicit stack that is a recursion, and split files that read as
  the unsplit one.
- **Bit runs, dates, numbers as text** (`Bitmap`, `Calendar`, `Strtol`, `Ntoa`).
- **Initrd images** (`PathText`, `Mkinitrd`, `InitrdData`, `InitrdImage`, `InitrdMount`). What the
  image tool writes is what the kernel mounts, down to the bytes of files and the targets of links,
  and exactly when; and what the kernel makes of any image.
- **Channel** (`Channel`). A ring that is a bounded queue; every value is in one place.

Integers are unbounded, and machine widths are written out where they matter: alignment and sums
that wrap at 2^64, the 32-bit shift of the page cache walk, the 32-bit padding length, the `int`
count of a thread's locks, the `int` sums of a year, the clamp of `strtol`, the 16-bit size of an
image's metadata. Addresses of nodes and chunks are natural numbers, with 0 for null and for the
tree's sentinel. Memory that the source takes from an allocator is a parameter (a fresh address);
so are what a page read would fetch, the files that the build host has, and the threads' schedule.
A failed assertion or a panic stops the kernel: it is a result, proved not to come up or to come up
exactly then, and a precondition only where the source demands something of its caller without a
test. Where the source goes on wrongly without noticing, the result says `astray`; it is proved
exactly when, and nothing is promised after.

Where the code does not do what it seems meant to do, the model follows the code, shows the failing
input and proves when the property holds:

- Freeing a page cache shifts slot numbers as 32-bit integers. It frees every node and drops every
  page up to order 6 (`FreesAll`), and from order 7 on there is a page that it misses (`LeakOnePage`,
  `MissesPage`); `FreeExact` says which.
- `posix2tm` finds the right date but stores the day of the month as the day of the year, so that
  `tm2posix` undoes it only in January (`NaiveRoundTrip`, `FebruaryFails`). With the days of the
  earlier months added back it does exactly up to 299 years before the last that an `int` holds
  (`RoundTrip`): from there on the sums of `tm2posix` leave an `int` (`LostIff`).
- The image tool sorts a path that is a regular file on the build host before the directory that
  holds it. The kernel then finds no parent, and does so exactly then (`WriterReader`,
  `HostFileFails`, `HostFileMount`).
- The image tool writes images with any amount of metadata and links of any length. The kernel panics
  exactly when header, metadata and padding take more than 64 KiB or it comes to a link longer than
  the heap has chunks for (`WriteAndMount`, `LongPathPanics`, `LongTargetPanics`); in images of other
  origin, also on a link of size 0 (`ReadTree`).
- The image tool writes one zero too few after a link, and writes again what its first pass kept only
  once. Its entries point at their data exactly when the two even out (`Drift`, `PointsIff`,
  `AllPointIff`), as they do in a list without repeats whose links come last (`TidyPoints`). Of two
  links to one-letter targets the second is mounted as one to a null (`SecondLinkMisread`,
  `MisreadLink`).
- The red-black tree tells its sentinel from a node by the sentinel's parent link, which a delete
  overwrites. What a lookup returns is right all the same, since the sentinel holds null
  (`FindData`). Deleting a missing key is right exactly while that link is untouched (`Delete`); after
  two inserts and a delete it is not (`DeleteAstray`). The file table takes files out on the same
  test (kernel/vfs/file.c:177-187). Present keys are not affected.
- Deletes leave maxima as they were: after two inserts and a delete a node records an end beyond all
  that are left (`StaleMax`). Searches stay right (`OverlapStep`).
- The search for a free gap finds the least one whenever one fits. When none does it returns what
  the last interval leaves, which may overlap (`FindFreeGap`, `NothingFits`).
- The heap aligns in 64 bits. A request that nothing free serves goes astray exactly when the
  aligned address and the size pass 2^64 (`Kmalloc`); where the kernel has its heap every alignment
  from 2^39 on does that (`KernelHeapWraps`, `KernelHeapAstray`).
- The list of descriptors gives every piece of the kernel an address, but the page tables are filled
  in the order of the list. Both agree on a piece exactly when it is as far from the first as the
  pages before it take and does not leave the last entry of the kernel's PDT, or is just what the
  identity map makes of it (`AgreesIff`, `InPlaceIff`, `PastTable`); with a gap of one page the walk
  faults where the list has a page (`GapFaults`). A kernel in that last entry also finds a page table
  where nothing should be, and one under the first PML4 entry has no identity map (`KernelMap`).
- The list of the memory described is right exactly when no run of it is as long as the address
  space (`StoredIff`, `WholeSpace`).
- What `_ntoa` writes `strtol` reads back, except binary numbers with their prefix, of which it reads
  the 0 (`RoundTrip`); and `_ntoa` itself goes astray exactly on the least `long` and on binary
  numbers of more than 31 digits (`Ntoa`).
- A bitmap can hand out bits past its end exactly when its size is no multiple of 64: a map of whole
  words has none (`WholeWords`), and of any other, taking bits one by one comes to the one after the
  last (`PastEnd`), as do some runs (`RunPastEnd`).
- `chan_recv` does not wait, the wait being commented out: on an open channel without data its
  assertion fails (`Receive`).

## Model

| member | source | states |
|---|---|---|
| RbModel.RotLInorder | lib/rb_tree.c:38-60 | a left rotation keeps the in-order sequence of nodes |
| RbModel.RotRInorder | lib/rb_tree.c:61-83 | a right rotation keeps the in-order sequence of nodes |
| RbModel.RotatedLFocus | lib/rb_tree.c:38-60 | the pointer writes of a left rotation, anywhere in a tree, leave records that link up the rotated tree and everything around it |
| RbModel.RotatedRFocus | lib/rb_tree.c:61-83 | the pointer writes of a right rotation leave records that link up the rotated tree and everything around it |
| RbModel.RBPlug | lib/rb_tree.c:99-143 | a tree put in at the end of a path that misses nothing satisfies the red-black rules as a whole |
| RbModel.RecolorUp | lib/rb_tree.c:99-143 | the recolouring case moves the one red-red edge two levels up and breaks no other rule |
| RbModel.OuterTurn | lib/rb_tree.c:99-143 | the rotation case leaves no red-red edge and breaks no other rule |
| RbModel.RedSibling | lib/rb_tree.c:217-281 | the red-sibling case of the delete fix-up keeps the one missing black node where it is, beside a black sibling |
| RbModel.BlackNephews | lib/rb_tree.c:217-281 | with black nephews the missing black node moves one level up |
| RbModel.FarNephew | lib/rb_tree.c:217-281 | with a red far nephew the rotation restores the black heights |
| ChainModel.LinkedIn | lib/rb_tree.c:175-212 | the list writes of an insert make the list of the nodes with the new one at its place |
| ChainModel.LinkedOut | lib/rb_tree.c:283-327 | the list writes of a delete make the list of the nodes without the deleted one |
| IntervalModel.RotLPending | lib/interval_tree.c:60-69 | after a rotation in which the new top takes over the old one's data, everything recorded is right but at the node turned down and on the path above it, which the climb then goes over |
| DeleteModel.SpineLower | lib/interval_tree.c:76-89 | bounds recorded above a subtree stay bounds when the subtree shrinks, though its maxima may go stale |
| DeleteModel.AugSpliced | lib/rb_tree.c:84-95 | a child put in its parent's place, with the parent's data or its own, keeps recorded bounds right |
| DeleteModel.AtTaken | lib/rb_tree.c:283-327 | the successor put in a node's place, with its data, keeps links, order and recorded bounds |
| SearchModel.LogHeight | lib/rb_tree.c:447-461 | a red-black tree of n nodes has height at most 2 log2(n + 1), stated as 2^height <= (n + 1)^2 |
| SearchModel.OverlapStep | lib/interval_tree.c:120-134 | going left when the left maximum passes the query's start, and right otherwise, loses no overlapping interval, although maxima may be stale |
| SearchModel.KeyStep | lib/rb_tree.c:447-461 | one step down loses no node with the key sought |
| SearchModel.ExactData | lib/interval_tree.c:52-59 | when nothing was deleted, a node's max and min are attained by intervals of its subtree and bound them all |
| Base.AlignUpLeast | include/kernel/base.h:64-64 | aligning gives the least multiple not below a value |
| Base.AlignMacro | include/kernel/base.h:64-64 | for powers of two the macro's masked sum is the aligned value, modulo 2^64 |
| GapModel.GapTaken | lib/interval_tree.c:158-269 | the first gap that passes the test holds the least aligned start of a free range, and the list is split there |
| GapModel.NextGap | lib/interval_tree.c:158-269 | a gap that fails the test holds no free aligned range, so the least one lies further on |
| IntervalTrees.IntervalTree.RotateLeft | lib/rb_tree.c:38-60 | the store holds the rotated tree, its data recomputed, with the same order of nodes and the same sentinel |
| IntervalTrees.IntervalTree.RotateRight | lib/rb_tree.c:61-83 | the mirror image |
| IntervalTrees.IntervalTree.InsertFixup | lib/rb_tree.c:99-143 | a tree with one red-red edge becomes a red-black tree with a black root, in the same order |
| IntervalTrees.IntervalTree.DeleteFixup | lib/rb_tree.c:217-281 | a tree that misses one black node becomes a red-black tree with a black root, in the same order, the sentinel's parent link serving on the way |
| IntervalTrees.IntervalTree.RecalculateMinMax | lib/interval_tree.c:52-59 | the data of a node whose children's are right become right |
| IntervalTrees.IntervalTree.Minimum | lib/rb_tree.c:22-27 | finds the node of a subtree with nothing on its left |
| IntervalTrees.IntervalTree.InsertNode | lib/rb_tree.c:145-215 | a disjoint interval is added: order, colours, links, list, recorded data and count all hold for the nodes with the new one |
| IntervalTrees.IntervalTree.Insert | lib/interval_tree.c:271-276 | the contents gain exactly the interval and its value; exact data stay exact |
| IntervalTrees.IntervalTree.DeleteNode | lib/rb_tree.c:283-334 | a present node is taken out of tree and list, and everything else holds |
| IntervalTrees.IntervalTree.DeletePresent | lib/rb_tree.c:476-495 | the contents lose exactly that interval, its value is returned, the count stays twice the number of nodes, the ends of the list are right, and taking out a node without children leaves its parent as the sentinel's |
| IntervalTrees.IntervalTree.Delete | lib/interval_tree.c:278-280 | the interval with that start is taken out; with none, nothing changes, or the source goes astray, which it does exactly when the sentinel has a parent |
| IntervalTrees.IntervalTree.FindNode | lib/rb_tree.c:447-461 | finds the key exactly when it is there, within 2 log2(n + 1) steps |
| IntervalTrees.IntervalTree.Lookup | lib/rb_tree.c:518-523 | finds the node exactly when the key is there; the test for the sentinel that follows lets pass a missing key exactly when the sentinel has a parent |
| IntervalTrees.IntervalTree.FindData | lib/rb_tree.c:499-505 | returns what the key's node holds, and null for a missing key, whatever became of the sentinel |
| IntervalRuns.SentinelHung | lib/rb_tree.c:84-95 | two inserts and a delete leave a valid tree whose sentinel has a parent |
| IntervalRuns.DeleteAstray | lib/rb_tree.c:518-524 | deleting a start that nothing has then goes astray, while looking it up finds nothing |
| IntervalRuns.StaleMax | lib/interval_tree.c:76-89 | after two inserts and a delete the node that is left records the end of the one deleted, beyond its own |
| IntervalTrees.IntervalTree.Find | lib/interval_tree.c:120-134 | returns a stored interval that overlaps the query exactly when there is one, within 2 log2(n + 1) steps |
| IntervalTrees.IntervalTree.GetPoint | lib/interval_tree.c:136-156 | returns the value of an interval that holds the point exactly when there is one |
| IntervalTrees.IntervalTree.FirstFrom | lib/interval_tree.c:158-205 | finds the first interval, in order, that starts at or after a point |
| IntervalTrees.IntervalTree.FindFreeGap | lib/interval_tree.c:158-269 | returns the least aligned range of the size, at or above the start, that overlaps nothing, and the interval just before it, whenever there is such a range; and else the aligned range after the interval it names |
| IntervalTrees.NothingFits | lib/interval_tree.c:158-269 | when nothing fits the range returned may overlap what is stored |
| IntervalTrees.IntervalTree.Exact | lib/interval_tree.c:52-89 | before the first delete every node's max and min are those of the intervals below it |
| IntervalRuns.Run | lib/interval_tree.c:271-280 | any legal run of inserts and deletes of disjoint intervals leaves a valid tree that stores just what the run says; with inserts only its data are exact |
| Mutex.HeldWord | kernel/mutex.c:13-24 | the lock word keeps owner and flag apart |
| Mutex.FlagsMeaning | kernel/mutex.c:58-71 | each lock-object flag is set exactly for the options that call for it |
| Mutex.StepInv | kernel/mutex.c:209-301 | any single load, compare-exchange or write by any thread keeps the invariant |
| Mutex.ReachableInv | kernel/mutex.c:209-301 | every state of every interleaving satisfies the invariant |
| Mutex.InvSafe | kernel/mutex.c:209-301 | at most one thread owns a mutex, no assertion fails, each thread's count is what an `int` keeps of the sum of its depths and so the sum exactly while that is an `int`, a free word means no owner |
| Mutex.InvExact | kernel/mutex.c:209-301 | the owner's plain writes are never lost, and between calls the recursion flag is set exactly at depth two or more |
| Mutex.MutexSafety | kernel/mutex.c:209-301 | all of these in every state of every run of any number of threads on any number of mutexes |
| Mutex.RunsOn | kernel/mutex.c:209-301 | every run can go on with the next step of any thread |
| Mutex.AtRestInitial | kernel/mutex.c:75-80 | free mutexes and threads at rest are where runs start |
| Queue.AddIsAppend | include/kernel/queue.h:41-58 | adding to a list puts the element at its end |
| Queue.AddFrontIsPrepend | include/kernel/queue.h:59-76 | adding at the front puts the element first and leaves all other links |
| Queue.RemoveIsRemove | include/kernel/queue.h:107-131 | removing an element leaves the list of the others and unlinks it |
| HeapModel.LiveApart | kernel/mm/heap.c:126-249 | blocks handed out are in the heap and a header apart from each other |
| HeapModel.LiveInside | kernel/mm/heap.c:126-249 | every block handed out lies within the used heap |
| HeapModel.GrownAll | kernel/mm/heap.c:186-248 | a new chunk, with the hole or free chunk before it, keeps the tiling, the free list and all blocks, and adds one |
| Heaps.Heap.BestFit | kernel/mm/heap.c:146-167 | finds the first of the smallest aligned free chunks that are big enough, if there is one |
| Heaps.Heap.GetNextChunk | kernel/mm/heap.c:50-70 | the chunk that follows, directly or past one hole, and null at the end; the bad-magic panic does not come up |
| Heaps.Heap.Kmalloc | kernel/mm/heap.c:126-249 | a new aligned block of the size asked for and no other change of blocks, from a smallest fitting free chunk if there is one and else at the end; it panics exactly on a bad alignment, a size too big or a full heap, and goes astray exactly when the new block would pass 2^64 |
| Heaps.Heap.Extend | kernel/mm/heap.c:186-248 | a chunk at the end of the used heap, a panic exactly when it does not fit, or astray exactly when it would pass 2^64 |
| Heaps.Heap.Kfree | kernel/mm/heap.c:267-299 | the block is given back and heads the free list; null, free chunks and what is no chunk change nothing; no panic comes up; it goes astray exactly on what is no chunk and yet has a chunk's magic before it |
| HeapRuns.Run | kernel/mm/heap.c:126-299 | over any run, with blocks freed once, twice or never, every block is aligned and clear of memory in use, memory in use never overlaps, and at the end it is what was asked for and not given back; with modest alignments nothing goes astray |
| HeapRuns.KernelHeapWraps | include/kernel/mm_types.h:228-228 | above the start of the kernel's heap every alignment from 2^39 on wraps to 0 |
| HeapRuns.KernelHeapAstray | kernel/mm/heap.c:190-215 | a new heap there goes astray on any request aligned to 2^39 |
| HeapRuns.CoversDisjoint | kernel/mm/heap.c:126-299 | memory asked for and not given back lies in the heap without overlap |
| PageTables.EntryFields | boot/Memory.c:27-28 | an entry of an aligned address and flags gives both back |
| PageTables.EntryFlags | boot/Memory.c:315-327 | an entry is writable, or a leaf, exactly when the descriptor's flags say so |
| PageTables.EntryAt | boot/Memory.c:87-105 | the entry at a page's place in the list holds the address and permission that the list gives its addresses |
| PageTables.LowerWalk | boot/Memory.c:374-386 | below 512 GiB the walk maps 4 KiB to 4 GiB to themselves, and nothing else |
| PageTables.WindowWalk | boot/Memory.c:387-420 | under the kernel's PML4 entry the walk ends in the two last tables, wherever the kernel lies, or nowhere |
| PageTables.PageWalk | boot/Memory.c:387-420 | each of the kernel's pages that its PDT entries reach is found at its address |
| PageTables.UpperWalk | boot/Memory.c:387-420 | under the kernel's PML4 entry the walk maps just the kernel's pages, and a page table where a kernel in the last entry of its PDT has written past it |
| PageTables.KernelMap | boot/Memory.c:351-423 | at every canonical address, for pieces that follow on each other, the walk finds the kernel's page that the descriptors give it, writable as they say, or the stray table, or the identity map unless the kernel is under its PML4 entry, or nothing |
| PageTables.AgreesIff | boot/Memory.c:351-423 | the walk finds every page of a piece where the list puts it, with its permission, exactly when the piece is in its place within reach of the PDT entries, or is what the identity map makes of it |
| PageTables.InPlaceIff | boot/Memory.c:395-420 | all pieces are in their places exactly when they follow on each other and do not leave the last entry of the PDT |
| PageTables.PastTable | boot/Memory.c:388-391 | the page past the last entry of the PDT is not found |
| PageTables.GapFaults | boot/Memory.c:395-420 | a list with a gap that the source accepts, and a page of it at which the walk faults |
| PageTables.ConvertVirtToPhys | boot/Memory.c:87-105 | the address that the first descriptor holding it gives it |
| PageTables.FillTable | boot/Memory.c:329-349 | the slots hold consecutive entries and the others are as before |
| PageTables.SetupKernelPageTables | boot/Memory.c:351-423 | every slot of the eight tables is as the walk needs it; or there were no pages to be had, an assertion failed or the source left its tables, each exactly when the list says so |
| PageTables.FilledIff | boot/Memory.c:398-402 | the pass over the descriptors ends well exactly when all are of small pages and start before, and the last ends by, the end of the two tables |
| PageTables.FillDescriptor | boot/Memory.c:400-420 | the pages of a descriptor follow those before it, across the end of a table; it leaves the tables exactly when they do not fit |
| MemoryMap.MergedOk | boot/Memory.c:213-269 | the list holds the same pages, of the same kinds and in the same order, as the firmware's map, and no two neighbours could be one |
| MemoryMap.TightUnique | boot/Memory.c:238-263 | there is only one such list of given pages |
| MemoryMap.StoredGrows | boot/Memory.c:238-263 | more descriptors never make a shorter list |
| MemoryMap.Append | boot/Memory.c:231-262 | one descriptor makes a longer last entry, a new one, none, or does not fit |
| MemoryMap.ConvertMap | boot/Memory.c:213-269 | succeeds exactly when the list, with sizes of 64 bits, fits the buffer, and then writes it, its size and the 64-bit total |
| MemoryMap.StoredIff | boot/Memory.c:238-263 | the list written holds the firmware's pages exactly when no run is as long as the address space, and is then the merged list |
| MemoryMap.WholeSpace | boot/Memory.c:248-262 | a run over the whole address space is written with size 0 |
| MemoryMap.TotalOf | boot/Memory.c:262-268 | the total is the size of the pages described |
| PgCacheModel.NumberOfDigits | kernel/mm/pgcache.c:102-134 | the digits of a page number give it back, so that no two page numbers share a path |
| PgCacheModel.DigitsOfNumber | kernel/mm/pgcache.c:102-134 | every path of digits is that of a page number |
| PgCacheModel.GrownShape | kernel/mm/pgcache.c:117-127 | a new node keeps the shape of the tree |
| PgCacheModel.GrownPages | kernel/mm/pgcache.c:117-127 | a new node changes no page |
| PgCacheModel.SetPages | kernel/mm/pgcache.c:180-199 | writing the slot of a page number changes that page and no other |
| PgCaches.PageQuotient | kernel/mm/pgcache.c:110-110 | for page sizes that are powers of two, shifting out the bits within a page divides by the size |
| PgCaches.PgCache.LookupLeaf | kernel/mm/pgcache.c:102-134 | finds the leaf and slot of an offset, makes the nodes missing when inserting, and changes no page |
| PgCaches.PgCache.Lookup | kernel/mm/pgcache.c:167-178 | returns the page of the offset, null when there is none or the offset is past the end |
| PgCaches.PgCache.Insert | kernel/mm/pgcache.c:180-199 | the map of pages is updated at that page number only, and the old page returned; nothing past the end |
| PgCaches.PgCache.Remove | kernel/mm/pgcache.c:201-220 | the map of pages loses that page number only, and the page is returned |
| PgVisits.LooksIff | kernel/mm/pgcache.c:80-86 | the range test of a whole walk leaves out just the slots whose 32-bit shift overflows |
| PgVisits.LooksAll | kernel/mm/pgcache.c:80-86 | so every slot is looked at exactly for orders up to 6 |
| PgVisits.VisitPages | kernel/mm/pgcache.c:32-100 | the loop ends, having done what the recursion over the tree does, and its stack is never higher than one frame a level |
| PgVisits.EventsOnce | kernel/mm/pgcache.c:32-100 | each node is freed, and each page visited, at most once, and exactly those that the walk comes to |
| PgVisits.FreeExact | kernel/mm/pgcache.c:155-161 | a node is freed, or a page dropped, exactly when the digits on its way fit the shift |
| PgVisits.FreesAll | kernel/mm/pgcache.c:155-161 | up to order 6 every node is freed once and every page dropped once |
| PgVisits.LeakOnePage | kernel/mm/pgcache.c:80-86 | for every order from 7 on, a cache with one page whose freeing does not drop it |
| PgVisits.MissesPage | kernel/mm/pgcache.c:80-86 | a cache that holds such a page does not drop it |
| PgVisits.FreeCache | kernel/mm/pgcache.c:155-161 | freeing a cache does each thing due once, and nothing else |
| FileViews.OneOwner | kernel/mm/file.c:110-138 | every offset of a file belongs to exactly one of its views |
| FileViews.SplitTiles | kernel/mm/file.c:110-128 | a split view and its rest cover what it covered |
| FileViews.MergeTiles | kernel/mm/file.c:130-138 | a merged view covers what both covered |
| FileViews.FetchedOnce | kernel/mm/file.c:81-95 | a page that fits in the cache is fetched at most once, and later reads get that page |
| FileViews.VmFile.GetPage | kernel/mm/file.c:81-95 | the cached page, or the one fetched, which is cached when there is room; null past the view's end |
| FileViews.VmFile.Split | kernel/mm/file.c:110-128 | the view keeps what lies before the offset and the new one has the rest; none past the end |
| FileViews.VmFile.Merge | kernel/mm/file.c:130-138 | the view takes in the one that follows |
| FileViews.Run | kernel/mm/file.c:81-138 | over any run of splits, merges and reads, every read answers as the unsplit file would, and the views go on covering it |
| Bitmaps.RunCount | lib/bitmap.c:321-325 | a word with a run has at least as many free bits as the run is long, so the count skips no usable word |
| Bitmaps.FindRun | lib/bitmap.c:333-349 | the shifting loop ends with the lowest run of a word, or finds that there is none |
| Bitmaps.Bitmap.GetSetRun | lib/bitmap.c:308-349 | the lowest run of clear bits within a word is set and nothing else; -1 exactly when there is none or too few bits are counted free |
| Bitmaps.Bitmap.GetSetFree | lib/bitmap.c:200-222 | the lowest clear bit is set and nothing else; -1 exactly when there is none or none is counted free |
| Bitmaps.WholeWords | lib/bitmap.c:44-54 | a map of a multiple of 64 bits has no others, so none is handed out |
| Bitmaps.PastEnd | lib/bitmap.c:200-222 | of any other map, taking one bit more than it has hands out the bit after its last |
| Bitmaps.RunPastEnd | lib/bitmap.c:308-349 | of 100 bits, after a run of 60, a run of 40 is bits 64 to 103 |
| Calendar.YearFormula | include/kernel/time.h:12-23 | the closed form of POSIX.1-2017, section 4.16 of the Base Definitions, counts the true lengths of the years |
| Calendar.LostIff | include/kernel/time.h:12-23 | the `int` sums of tm2posix count the true lengths of the years exactly up to 299 years before the last that an `int` holds |
| Calendar.FallsOnce | include/kernel/time.h:25-79 | a day falls on one year, month and day of the month only |
| Calendar.TakeYears | include/kernel/time.h:29-42 | the loop over years finds the year the day falls in |
| Calendar.TakeMonths | include/kernel/time.h:44-79 | the loop over months finds the month the day falls in |
| Calendar.FromPosix | include/kernel/time.h:25-93 | the year, month, day of the month, time and weekday of any epoch, as far as an `int` holds the year, and what the other fields hold instead |
| Calendar.RoundTrip | include/kernel/time.h:12-93 | with the days of the earlier months added back tm2posix returns the epoch exactly up to 299 years before the last that an `int` holds |
| Calendar.NaiveRoundTrip | include/kernel/time.h:81-93 | as stored, the fields give the epoch back exactly in January of those years |
| Calendar.FebruaryFails | include/kernel/time.h:81-93 | the first second of February 1970 does not come back |
| Strtols.CutOff | kernel/string.c:234-256 | the test against the cut-off is the test of the product against the limit |
| Strtols.Accumulate | kernel/string.c:236-258 | the loop takes the longest run of digits, and tells its value or that it passes the limit |
| Strtols.Strtol | kernel/string.c:187-272 | the value of the longest run of digits, with its sign, clamped to the range of a long, and where it ends |
| Ntoas.NumeralVal | lib/format.c:123-156 | the digits written stand for the number |
| Ntoas.ReversedDigits | lib/format.c:123-156 | reversed, the digits of the loop are the numeral |
| Ntoas.WriteDigits | lib/format.c:123-156 | the loop writes the numeral backwards, and leaves the buffer exactly on binary numbers of more than 31 digits |
| Ntoas.Reverse | kernel/string.c:136-143 | the text is reversed in place |
| Ntoas.Ntoa | lib/format.c:196-259 | the text is padding, prefix, zeros, numeral and padding as the flags say; the source goes astray exactly on the least `long` and on binary numbers of more than 31 digits |
| Ntoas.RoundTrip | lib/format.c:158-259 | strtol reads back what _ntoa wrote, to the last digit, for bases 2, 8, 10 and 16, every width and every combination of flags, exactly when it is not a binary number with a prefix |
| PathText.DirnameNormal | kernel/vfs/path.c:217-238 | the image tool and the kernel name the directory of a path alike |
| PathText.HolderOrder | scripts/mkinitrd.py:247-263 | a directory sorts before what it holds, except a file that the build host has too, which sorts before it |
| Mkinitrds.Intermediates | scripts/mkinitrd.py:230-244 | the directories on the way to a path, from the outermost in |
| Mkinitrds.FirstPass | scripts/mkinitrd.py:319-345 | the two loops collect the paths, with missing directories, sizes and offsets, of which the next four rows say what they are |
| Mkinitrds.FirstKept | scripts/mkinitrd.py:321-345 | the first directive for a path is kept, with its kind, operand and size |
| Mkinitrds.PlannedSourced | scripts/mkinitrd.py:321-345 | every path collected is that of a directive whose data it has, or of a directory on the way to one |
| Mkinitrds.PlannedRanges | scripts/mkinitrd.py:332-345 | the places reserved are whole pages below the end; a source file has one place however often it is named, and different ones never overlap |
| InitrdDatas.WriteData | scripts/mkinitrd.py:374-382 | the last loop writes every directive's data and zeros, one too few after a link |
| InitrdDatas.Drift | scripts/mkinitrd.py:321-382 | what is written, and the zeros that links lack, is as much as what was reserved and what is written again |
| InitrdDatas.OriginOf | scripts/mkinitrd.py:332-345 | every path with data has one directive that they come with, and is recorded at what was reserved before that |
| InitrdDatas.PointsIff | scripts/mkinitrd.py:332-382 | an entry points at its data exactly when what is written again before them is as much as the zeros that links before them lack |
| InitrdDatas.AllPointIff | scripts/mkinitrd.py:332-382 | all entries point at their data exactly when that holds before every new directive |
| InitrdDatas.TidyPoints | scripts/mkinitrd.py:332-382 | so they do in a list without repeats whose links come last |
| InitrdDatas.PointsReads | scripts/mkinitrd.py:374-382 | where an entry points at its data, its bytes are those of the source file, or the link's target and a null |
| InitrdDatas.SecondLinkMisread | scripts/mkinitrd.py:380-382 | the second of two links is written a byte before its place, and a null is read there |
| Mkinitrds.PlannedRooted | scripts/mkinitrd.py:319-345 | every path collected is unique, of the right kind and held by a directory that is collected too |
| Mkinitrds.OrderedOk | scripts/mkinitrd.py:247-263 | the sorted paths are the paths, in order |
| Mkinitrds.OrderIff | scripts/mkinitrd.py:247-263 | directories precede what they hold exactly when no path below one is that of a file on the build host |
| InitrdImages.FormattedAt | scripts/mkinitrd.py:140-146 | the fields read from a formatted entry are those it was made of |
| InitrdImages.ImageEntry | scripts/mkinitrd.py:363-367 | each entry of an image lies where the reader comes to it |
| InitrdImages.ImageHeader | scripts/mkinitrd.py:131-137 | the header gives back where the data start and how many entries there are |
| InitrdMounts.Mount | fs/initrd/initrd_vfsops.c:38-165 | of any bytes: fails exactly on a short or unsigned image, panics on more than 64 KiB of metadata, and else makes of the entries what ReadTree does |
| InitrdMounts.ReadTree | fs/initrd/initrd_vfsops.c:60-165 | builds a node for each entry under the directory that holds it, the cached directory being that of the map, with a file's place, a link's text, or nothing; panics exactly when it comes to a link of size 0 or one that the heap has no chunk for, fails exactly on a missing parent before that, stops at an entry of unknown kind, and leaves the metadata exactly at an entry that does not lie in them |
| InitrdMounts.ImageRead | scripts/mkinitrd.py:347-373 | the entries read from a written image are those it was written from |
| InitrdMounts.KnownIff | fs/initrd/initrd_vfsops.c:77-98 | the reader finds an entry's parent exactly when its directory came before |
| InitrdMounts.WriterReader | scripts/mkinitrd.py:319-369 | no parent is missing exactly when no path below a directory is that of a file on the build host |
| InitrdMounts.HostFileFails | scripts/mkinitrd.py:247-263 | an image that the tool writes and whose only fault is a missing parent |
| InitrdMounts.HostFileMount | fs/initrd/initrd_vfsops.c:84-95 | writing that image and mounting it fails on the missing parent |
| InitrdMounts.MakeImage | scripts/mkinitrd.py:347-373 | writes the image of the entries, unless a field has no room |
| InitrdMounts.WriteAndMount | fs/initrd/initrd_vfsops.c:38-165 | mounting an image just written recovers kind, name, offset, size, link text and place of every entry, or fails exactly as WriterReader says, or panics exactly when header, metadata and padding take more than 64 KiB or the reader comes to a link that is too long |
| InitrdMounts.LongPathPanics | fs/initrd/initrd_vfsops.c:58-58 | a link with a long path makes an image that the tool writes and that panics |
| InitrdMounts.LongTargetPanics | fs/initrd/initrd_vfsops.c:134-136 | a link with a long target makes an image with short metadata that the tool writes and that panics |
| InitrdMounts.OverloadsIff | fs/initrd/initrd_vfsops.c:134-136 | when no parent is missing, a link is too long for the reader exactly when one that was collected is |
| InitrdMounts.SpellsPath | fs/initrd/initrd_vfsops.c:77-133 | walking up from a mounted node to the root spells the path of its entry |
| InitrdMounts.MountedData | fs/initrd/initrd_vfsops.c:121-147 | where nothing drifted, a mounted link has the target it was given, and a mounted file is read as its source |
| InitrdMounts.MisreadLink | fs/initrd/initrd_vfsops.c:134-147 | the second of two links is mounted as one to a null |
| Channels.StepConserved | kernel/chan.c:89-310 | each operation keeps what was sent equal to what was taken followed by the queue |
| Channels.OnePlace | kernel/chan.c:89-310 | over any run each value sent is received, dropped or queued, in one place only, and received in the order sent |
| Channels.Channel.Send | kernel/chan.c:89-135 | the queue is the newest size - 1 of the old queue and the new value, and what falls out is dropped |
| Channels.Channel.Receive | kernel/chan.c:156-197 | the head of the queue is taken, received or dropped; nothing of a closed channel; a panic exactly on an open channel without data |
| Channels.Channel.ReceiveNoblock | kernel/chan.c:199-233 | the same, but for nothing and -2 on an open channel without data |
| Channels.Channel.CloseChannel | kernel/chan.c:286-310 | all that is queued is dropped, in order |
| Channels.Channel.Free | kernel/chan.c:61-80 | an open channel is refused; a closed one has nothing left to drop, and all that was sent was received or dropped |
| Channels.Run | kernel/chan.c:35-310 | any run of calls does to the ring what the steps do to the queue, up to a receive of an open channel without data |

## Left out

- IntervalTrees.IntervalTree.Delete: what deleting the sentinel does to the tree, once the source has gone astray, is not modelled.
- IntervalTrees.IntervalTree.FindFreeGap: alignments are powers of two, as the macro needs; an empty range, one that does not fit and a search of an empty tree, which returns its input unaligned, are answered as the source does, of which only the formula is stated.
- Mutex.MutexSafety: spin mutexes, the lists of lock claims and sleeping in the scheduler are not modelled; a thread that waits spins.
- Heaps.Heap.Kmalloc: the heap's lock, its statistics and the distance to the previous chunk, which only an unused function reads, are not modelled, nor what a heap that has gone astray holds.
- Heaps.Heap.Kfree: what freeing memory that is no chunk's does, once the source has gone astray, is not modelled.
- PageTables.SetupKernelPageTables: what the source writes to once it has left its two tables is not modelled.
- PageTables.KernelMap: no-execute is not modelled, since the source does not set it.
- PageTables.AgreesIff: of lists with no empty piece, whose pieces start on pages and share no address, virtual or physical, with each other or the tables, as the loader makes them.
- PgCaches.PgCache.Insert: reference counts, the list of leaves and the count kept in leaves are not modelled; the count rises also when a page is replaced. Page sizes are powers of two, as the shift needs, and the capacity stays below 2^63.
- PgVisits.VisitPages: only the walk over the whole range; the range test of part of a cache orders digits the other way round than lookups do.
- FileViews.Run: vnodes and reference counts are not modelled, nor the visit of a part of a file.
- Bitmaps.Bitmap.GetSetRun: requests of no bits or of more than 64 are not modelled, nor that the counters agree with the bits, which they do not: the counter of used bits is not raised when a word was wholly free.
- Bitmaps.Bitmap.GetSetFree: the counters are left as they were, as in the source.
- Ntoas.Ntoa: the four bases that the source passes to it; what it writes once it has gone astray is not modelled.
- InitrdMounts.Mount: the device is a ramdisk, whose reads stop at its end; what the source finds past the end of the metadata is not modelled, nor running out of heap for the nodes, nor paths with a null in them, which the source's map compares up to the null.
- InitrdMounts.MakeImage: directives name normal paths, and those of directories end in a slash; link targets are ASCII text, and source files keep their size from the first pass to the last.
- Mkinitrds.PlannedRanges: a source file has the same size each time it is named.
- Channels.Channel.Receive: each call is one step, and the callback that frees dropped values is not modelled.
- Copying a red-black tree, changing an interval in place, iterators and range updates.
- The scheduler, turnstiles, read-write locks and condition variables.
- The virtual file system, virtual memory areas, loading of programs, drivers and the console.
- Hash tables, sorting, and formatted printing beyond integers: nothing in the rest of the model depends on them.
