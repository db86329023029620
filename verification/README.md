# A verified model of the kernel's memory, file system and process table

This project models the parts of a small i386 teaching kernel that carry the most state, and
proves what they keep over whole runs.

**Memory** (`Paging.dfy`, `HeapLayout.dfy`, `Liballoc.dfy`, `KernelMemory.dfy`, `BestBet.dfy`,
`Requests.dfy`, `DeadHeaders.dfy`).  A frame bitmap
and a two-level page table hand out 1024 pages; liballoc keeps a linked list of one-page majors,
each with an address-ordered linked list of minors.  The classes `PageAllocator` and `Allocator`
update arrays and linked headers in place, as the source does.  `HeapLayout` says on values what
the lists spell, which gap malloc takes and what free leaves; every method is proved against it.
`KernelMemory` puts the layers together, with other users of pages (process stacks) beside the
heap, and proves separation, accounting and the absence of leaks for every sequence of calls.  A
run has no result (`Undefined`) from a request of 2^32 - 48 bytes or more on, and from a free that
takes data of another owner for a header, because it spells the magic.
`BestBet` is about the cached start block, `Requests` about sizes near 2^32, `DeadHeaders` about
freeing twice.  Headers are objects that know their address.  Reading memory as a header is a
look-up in the map `headers`; where no header is, the word that `free` finds is a parameter, and
reading an address that the page tables do not map is a page fault, which halts the machine.

**File system** (`StaticVector.dfy`, `PathNames.dfy`, `FsTree.dfy`, `FileFind.dfy`,
`DiskSteps.dfy`, `FileCalls.dfy`, `FileSystem.dfy`).  The disk is an array of 100 tagged blocks.  `FsTree` says
when such an array spells a directory tree, and proves that it spells at most one; `DiskSteps`
says what the writes of create, mkdir, rename and rmdir make of the tree; `FileCalls` says when
each is made, and what holds after any run of calls; the class `FileSystem` performs them.  Paths are
lists of names.  `file_t::find` has no return at its end, and in a file it takes data blocks for
file blocks; so its result here is a block, "missing", "strayed" for the inputs on which the
language defines none, or "forged" where the bytes of a data block spell the name.

**Processes** (`Stacks.dfy`, `Processes.dfy`, `ProcessTable.dfy`).  Eight slots, the timer's
schedule, spawn, fork and taskend as atomic steps, with the new stacks on pages of the page
layer.  The class `Machine` (`Machine.dfy`) joins the heap and the process table over one page
layer: each keeps the other valid, and both take the steps of `KernelMemory`.

**Console and numbers** (`Console.dfy`, `Itoa.dfy`).  The scrolling 80x25 window against a
terminal that never scrolls, and itoa in its buffer.

## What the source does not keep

Some properties one would expect fail on particular inputs.  For each there is the exact
condition under which it holds, or the exact outcome.

- The one-page guard of `liballoc_alloc` is meant to refuse requests that do not fit a page.  It
  does so exactly for sizes below 2^32 - 48; above, adding the headers wraps around
  (`Liballoc.GuardProtectsIff`), and from 2^32 - 24 on the comparisons of malloc wrap as well.
  What malloc accepts lies in its page if and only if the size is below 2^32 - 48, and all larger
  requests are accepted (`Requests.StaysInPageIff`).
- `l_bestBet` is documented as the major with the most free memory.  `free` keeps that.  malloc
  keeps it under the condition of `BestBet.MallocKeepsBetIff` (with a best bet) or
  `BestBet.MallocFindsBetIff` (without); malloc(3000) and malloc(2000) from boot break it
  (`BestBet.BetFallsBehindInRun`).  The search is complete wherever it starts, so nothing else
  relies on it.
- A second `free` of a pointer meant to be found out by the magic has four outcomes, whatever was
  called in between: it faults if the header's page is given back; it frees the payload of the new
  owner if malloc has handed the place out again; it does what is not modelled if data of another
  owner there spells the magic; otherwise it counts an error and changes nothing
  (`DeadHeaders.SecondFree`).  The header that the first free left is still the one read if and only
  if that call kept its page and no later call overwrote the header, or a later call freed the
  place once more with nothing overwriting it since (`DeadHeaders.DeadAtEndIff`); it then is found
  out.  Freed twice in a row, a pointer is found out exactly when the first free kept the page, and
  faults otherwise (`DeadHeaders.FreeTwice`).  That fault needs a processor without an old
  translation of the page: `alloc_page` drops it (mm/paging.cpp:195), `free_page` does not, so an
  immediate second free may still read the dead header there.
- `free_page` keeps the invariant if and only if the address faults (from 8 MB on) or lies in a
  live page of the heap.  On a heap page that is not mapped it clears the bit of frame 0; in the
  first 4 MB it takes away a page of the kernel (`Paging.PageAllocator.FreePage`).
- `find` reaches its end without a return if and only if the walk loses a name that is not the last
  in a directory or file that is not empty (`FileFind.StrayedIffStrays`).  It goes by the bytes of a
  data block if and only if it looks for a name in a file whose data spells it
  (`FileFind.ForgedIffForges`).
- The four calls of the file system have a defined reply exactly under the conditions of
  `FileCalls.CreateDefinedIff`, `MkdirDefinedIff`, `RenameDefinedIff` and `RmdirDefinedIff`.
- `sfs_rename` checks neither that the new parent was found, nor that it is a directory, nor that
  it stays behind, as it does not when the root is moved.  Whenever it writes, the disk is sure to
  spell a tree afterwards if and only if all three hold (`FileCalls.RenameSafeIff`).
- `sfs_mkdir` checks neither that it is not to make the root nor that the parent is a directory.
  Over all calls whose walk is not lost, the disk spells the tree asked for if and only if the call
  is refused or both hold (`FileCalls.MkdirSafeIff`).
- `sfs_rmdir` does not check that it is not to remove the root.  Whenever it goes ahead, the disk
  spells a tree afterwards if and only if it is not (`FileCalls.RmdirSafeIff`).
  `FileCalls.FailingCalls` has an input for each of these missing checks.
- `HDD::search` looks for free blocks among the first ten of the hundred only, so at most four
  files and directories ever exist (`FileCalls.AtMostFour`).
- The range form of `erase` takes out what its name says only for ranges of at most one element
  (`StaticVectors.RangeErasedIsExact`).

## Model

| member | source | states |
|---|---|---|
| PageEntry.SetBitLaw | mm/paging.cpp:8-11 | writing one flag of an entry changes that flag and no other |
| PageEntry.MappingLaw | mm/paging.cpp:185-189 | the setter calls made for a mapping give an entry that is present, writable, supervisor, and names its frame |
| Paging.MaskLaw | mm/paging.cpp:133-153 | setting or clearing a bitmap bit changes that bit and no other |
| Paging.AddressDecodes | mm/paging.cpp:118-191 | the address alloc_page builds leads free_page to directory entry 1 and the same table entry, at every offset in the page |
| Paging.UsedUpTogether | mm/paging.cpp:162-184 | frames and table entries run out together, at 1024 live pages and not before, so a free frame always comes with an empty entry |
| Paging.AfterAllocOk | mm/paging.cpp:138-198 | the page and the frame taken were both free, and the map of pages to frames stays injective |
| Paging.AfterFreeOk | mm/paging.cpp:118-135 | giving a page back frees exactly its frame and keeps the map injective |
| Paging.AllocThenFree | mm/paging.cpp:118-198 | free_page undoes alloc_page |
| Paging.TranslateInjective | mm/paging.cpp:221-263 | no two mapped virtual bytes share a physical byte; kernel bytes stay below 4 MB and heap bytes above |
| Paging.PageAllocator.WalkIsTranslate | mm/paging.cpp:118-135 | for every 32-bit address, the two-level walk of section 4.3 of the Intel SDM volume 3A over the real tables gives the translation |
| Paging.PageAllocator.AllocPage | mm/paging.cpp:138-198 | panics "out of memory" exactly when 1024 pages are live; otherwise maps the least free frame at the least empty entry; bitmap and table keep agreeing and the two other panics are never reached |
| Paging.PageAllocator.FindFrame | mm/paging.cpp:142-161 | finds the lowest clear bit of the first byte that is not full, or finds all full |
| Paging.PageAllocator.FindEmptyEntry | mm/paging.cpp:171-184 | with fewer than 1024 live pages it always finds the least entry that is not present |
| Paging.PageAllocator.FreePage | mm/paging.cpp:118-135 | for every 32-bit address: keeps the invariant if and only if it faults or frees a live heap page, which it then unmaps exactly; otherwise what it clears |
| Paging.IdentityMap | mm/paging.cpp:254-263 | page 0 stays unmapped, every other page of the first 4 MB maps to itself |
| Paging.InitPaging | mm/paging.cpp:221-271 | panics exactly when kernel and tables exceed 4 MB; otherwise starts with no heap page and the kernel's frames reserved |
| HeapLayout.GapsAddUp | mm/liballoc.cpp:281-295 | the gaps of a major add up to size minus usage |
| HeapLayout.NoGapExceedsFree | mm/liballoc.cpp:295-323 | no gap is larger than the free bytes, so the first filter skips no major that has room |
| HeapLayout.SearchComplete | mm/liballoc.cpp:264-523 | a page is asked for if and only if no gap of any major takes the request, wherever the search started |
| HeapLayout.ResumeStep | mm/liballoc.cpp:279-523 | one turn of the loop continues the search: next major, root once more, or the end |
| HeapLayout.TargetIs | mm/liballoc.cpp:264-523 | the major malloc takes is, with a best bet of more than size + 24 free bytes, the first with a large enough gap from the bet on, and if there is none the first of all; otherwise the first of all |
| HeapLayout.PlacedAt | mm/liballoc.cpp:328-491 | in that major the new header goes to the start of the first gap that is large enough, right behind the payload before it or the major's header; no other major changes, and a new page is appended with the header in front |
| HeapLayout.MallocKeepsHeap | mm/liballoc.cpp:192-539 | malloc keeps minors ordered, disjoint and inside their page, majors distinct and not empty, and the best bet null or a live major |
| HeapLayout.MallocAddsOne | mm/liballoc.cpp:192-539 | malloc adds exactly one live payload, of the size asked for, and leaves every other live with its size |
| HeapLayout.FreeKeepsHeap | mm/liballoc.cpp:541-658 | free of a live payload keeps the heap well formed |
| HeapLayout.FreeRemovesOne | mm/liballoc.cpp:541-658 | free removes exactly the payload given and leaves every other live with its size |
| HeapLayout.LiveRegionsDisjoint | mm/liballoc.cpp:192-658 | live payloads with their headers are pairwise disjoint and hold no byte of a major's header |
| HeapLayout.PointerFindsChunk | mm/liballoc.cpp:561-614 | every minor is found again from its payload pointer, and its bytes lie inside its page behind both headers |
| HeapLayout.FreeUndoesMalloc | mm/liballoc.cpp:192-658 | freeing what malloc just returned restores every list |
| HeapLayout.MallocTotals | mm/liballoc.cpp:142-539 | the payload total grows by the size, the page total by one page exactly when one was needed |
| HeapLayout.FreeTotals | mm/liballoc.cpp:614-650 | the payload total shrinks by the size freed |
| HeapLayout.NothingLiveNothingHeld | mm/liballoc.cpp:629-640 | with nothing live there is no major, no best bet and a zero total |
| BestBet.FreeKeepsBet | mm/liballoc.cpp:629-650 | free keeps the best bet, if any, the major with the most free bytes |
| BestBet.FreedBlocks | mm/liballoc.cpp:614-640 | free takes a major out exactly if the payload was its last one, and changes no other |
| BestBet.FreedBet | mm/liballoc.cpp:629-650 | the best bet after free, on every heap: none if there was none or its page goes, the payload's major if that then has more free bytes, else the old one |
| BestBet.BetAfterMalloc | mm/liballoc.cpp:264-323 | the best bet after malloc, on every heap: the appended page if the loop looks at it; else, of the majors looked at from the start of the search, round the list, to its target, the first with the most free bytes if that beats the old bet; else the old bet |
| BestBet.MallocKeepsBetIff | mm/liballoc.cpp:264-323 | from such a bet, malloc leaves one if and only if: the target is the bet and still has most; or is another major; or what is left of the new page compares right with the old bet, one way if the page is looked at and the other if not |
| BestBet.MallocFindsBetIff | mm/liballoc.cpp:264-323 | the same from no bet, where the search ends with the first of the largest majors up to the target |
| BestBet.BetFallsBehindInRun | mm/liballoc.cpp:309-323 | malloc(3000) and malloc(2000) from boot leave a bet that is not the most |
| Liballoc.OnePageGuard | mm/liballoc.cpp:147-161 | the guard lets a request through exactly when it fits a page with both headers or wraps around |
| Liballoc.GuardProtectsIff | mm/liballoc_link.cpp:22-29 | what passes the guard fits a fresh page if and only if the size is below 2^32 - 48 |
| Requests.SmallRequests | mm/liballoc.cpp:192-539 | malloc in 32-bit arithmetic is malloc as specified for every size below 2^32 - 48 |
| Requests.StaysInPageIff | mm/liballoc.cpp:192-539 | on every heap, what malloc accepts lies in its page without overlap if and only if the size is below 2^32 - 48; all larger sizes are accepted |
| Requests.LargeRequestsGo | mm/liballoc.cpp:192-539 | what each request from 2^32 - 48 bytes on makes of the majors: up to 2^32 - 24 it gets a page, a second one on an empty heap; from there on it goes where size - 2^32 bytes would go |
| Requests.LargestRequest | mm/liballoc.cpp:295-295 | 0xffff_ffff bytes go into the first gap of 23 bytes, without asking the guard, if there is one |
| Liballoc.PutFirst | mm/liballoc.cpp:330-357 | case 2 writes and links the first header of a page |
| Liballoc.PutFront | mm/liballoc.cpp:363-393 | case 3 links a header in front: list, back pointers, usage and order stay right |
| Liballoc.PutAfter | mm/liballoc.cpp:407-488 | cases 4.1 and 4.2 link a header behind another: list, back pointers, usage and order stay right |
| Liballoc.Unlink | mm/liballoc.cpp:614-626 | unlinking leaves exactly the list without that header, usage reduced, the magic dead |
| Liballoc.UnlinkMajor | mm/liballoc.cpp:632-635 | the majors without one of them are again a doubly linked list from the root |
| Liballoc.Allocator.LiballocAlloc | mm/liballoc_link.cpp:22-29 | panics above one page, and on exhaustion; otherwise returns the next page |
| Liballoc.Allocator.AllocateNewPage | mm/liballoc.cpp:142-190 | a fresh major on a page of its own, or a panic, for every 32-bit size by what the guard sees of it |
| Liballoc.Allocator.FindRoom | mm/liballoc.cpp:400-491 | finds the first gap behind a minor that takes the request, or that there is none; a live header always has its magic |
| Liballoc.Allocator.MallocSize | mm/liballoc.cpp:226-523 | the loop ends by the measure (started at the bet, page not yet appended, majors left), and returns what the search on values says (which major and which gap: `TargetIs`, `PlacedAt`), with all links, totals and pages right and no counter changed |
| Liballoc.Allocator.Malloc | mm/liballoc.cpp:192-539 | for a size of 0, counted as a warning, as for 1: the new heap, pointer and page map are those of the specification; it panics only when a page is needed and cannot be had, and never returns null |
| Liballoc.Allocator.DropMajor | mm/liballoc.cpp:629-636 | an empty major leaves the list, the best bet and the total |
| Liballoc.Allocator.ReadMagic | mm/liballoc.cpp:561-563 | reading the magic faults exactly if its four bytes are not all mapped; a live header has the magic |
| Liballoc.Allocator.Free | mm/liballoc.cpp:541-658 | a live pointer is freed, its page given back exactly when it was the last; an unmapped header faults; anything else that does not spell the magic only counts a warning, an error or a possible overrun |
| KernelMemory.MallocIsStep | mm/liballoc.cpp:192-539 | the method on linked headers takes the step of the run model |
| KernelMemory.FreeIsStep | mm/liballoc.cpp:541-658 | likewise for free |
| KernelMemory.RunKeepsMemory | mm/liballoc.cpp:142-658 | after any sequence of malloc, free and stack pages, every mapped page belongs to exactly one major or is exactly one stack; as in all rows on runs, no request in it is of 2^32 - 48 bytes or more and no free meets data of another owner that spells the magic |
| KernelMemory.Separation | mm/liballoc_link.cpp:22-39 | after any such run from boot, distinct live bytes lie at distinct physical addresses in the second 4 MB, and none on a stack page |
| KernelMemory.StepLeavesPayload | mm/liballoc.cpp:192-658 | no such step changes the place, size or physical addresses of a payload it is not told to free |
| KernelMemory.StepWritesNoPayload | mm/liballoc.cpp:332-478 | no byte of a header linked before or after such a step lies in a payload, in virtual or physical memory, so writing headers writes no payload |
| KernelMemory.MallocOutcome | mm/liballoc.cpp:226-523 | below 2^32 - 48 bytes: too-big panic if and only if above 4048 bytes; out of memory if and only if no gap fits and all 1024 pages are live; never null |
| KernelMemory.PageCount | mm/liballoc.cpp:142-190 | mapped pages are the majors plus the stacks |
| KernelMemory.FreeAllReturnsAll | mm/liballoc.cpp:614-640 | from any reachable state, freeing every live payload in any order leaves no major, no best bet, zero totals and no page but the stacks |
| KernelMemory.FreeUndoesMallocStep | mm/liballoc.cpp:192-658 | malloc and then free also restores the page map |
| DeadHeaders.RunKeepsWords | mm/liballoc.cpp:614-619 | over every run that frees no data spelling the magic, live headers hold the magic and every other magic word that still stands is dead, mapped and in a gap |
| DeadHeaders.WordsAfterRun | mm/liballoc.cpp:541-658 | so after any such run from boot |
| DeadHeaders.DeadWordIsRead | mm/liballoc.cpp:561-606 | a free whose header is such a word reads it and changes nothing |
| DeadHeaders.DeadWordIsApart | mm/liballoc.cpp:561-606 | no payload and no header shares a byte with a dead word |
| DeadHeaders.DeadAfterStep | mm/liballoc.cpp:561-606 | a header is dead after a step if and only if it was and the step did not overwrite or unmap it, or the step freed its payload and kept the page |
| DeadHeaders.DeadAtEndIff | mm/liballoc.cpp:561-640 | a header is dead after a run if and only if it was before and no call overwrote it, or some call freed its payload, keeping the page, and no later one overwrote it |
| DeadHeaders.LiveAgain | mm/liballoc.cpp:192-539 | a pointer that was not live is live after a run only if some malloc of the run returned it |
| DeadHeaders.SecondFree | mm/liballoc.cpp:541-658 | every outcome of freeing a pointer again after any calls: a fault exactly if the header is not mapped; the new owner's payload freed exactly if malloc returned the place since and it is live; else an error and no change, unless data there spells the magic; a header still dead is always found out |
| DeadHeaders.FreeTwice | mm/liballoc.cpp:561-640 | freeing twice in a row is found out exactly when the first call kept the page, and otherwise faults by the page tables |
| DeadHeaders.DoubleFree | mm/liballoc.cpp:561-606 | with any calls in between, a header that was dead and that none of them overwrote is read as dead, and the free changes nothing |
| Machines.Machine.Malloc | mm/liballoc.cpp:192-539 | on the linked headers and the page tables, with processes beside them, malloc takes the step of the run model and keeps the process table valid |
| Machines.Machine.Free | mm/liballoc.cpp:541-658 | likewise for free |
| Machines.Machine.Spawn | kernel/fork.cpp:194-244 | spawn takes the step of a stack page and keeps the heap valid |
| Machines.Machine.Fork | kernel/fork.cpp:246-299 | likewise for fork |
| Machines.Machine.Of | mm/liballoc_link.cpp:22-39 | any heap and process table over one page layer form such a machine |
| StaticVectors.StaticVector.PushBack | include/stl/bits/static_vector.hh:358-363 | appends, or drops the value when full |
| StaticVectors.StaticVector.Erase | include/stl/bits/static_vector.hh:245-261 | removes one element in place and keeps the others in order |
| StaticVectors.StaticVector.EraseRange | include/stl/bits/static_vector.hh:229-244 | what the loop of single erasures leaves |
| StaticVectors.RangeErasedIsExact | include/stl/bits/static_vector.hh:229-244 | on distinct elements, the range form removes its range if and only if that has at most one element |
| PathNames.Split | fs/file_t.cpp:36-62 | the parts are the maximal runs without delimiter, the first ten of them |
| PathNames.WordsAreNames | fs/file_t.cpp:50-57 | parts are not empty and hold no delimiter |
| PathNames.WordsAreRuns | fs/file_t.cpp:36-62 | each part is a whole run, from the start or a delimiter to a delimiter or the end |
| PathNames.WordsKeepLetters | fs/file_t.cpp:36-62 | no letter of the path is lost or moved |
| PathNames.SplitJoined | fs/file_t.cpp:36-62 | splitting a joined path gives its names back |
| FsTree.OneTree | include/file_t.h:58-111 | a disk spells at most one tree |
| FsTree.LookupAttach | fs/file_t.cpp:146-156 | adding an entry shows it and what is below it at its path and changes no other path |
| FsTree.LookupRemove | fs/rmdir.cpp:63-69 | removing an entry hides its path and all below it and changes no other path |
| FsTree.RenameReRoots | fs/rename.cpp:4-48 | for every suffix s, new/s afterwards is old/s before; old/s is gone; paths outside lead where they led |
| FsTree.AttachOnDisk | fs/file_t.cpp:146-156 | appending to an inode's list attaches the entry to the tree on the disk |
| FsTree.RemoveOnDisk | fs/rename.cpp:31-34 | striking a block off its parent's list removes the entry from the tree on the disk |
| FsTree.ListsNeverFill | include/file_t.h:62-62 | no directory reaches the 94 entries of its list on a disk of 100 blocks, so no name is dropped silently |
| FileFind.FindRefinesLookup | fs/file_t.cpp:68-135 | find returns a block if and only if walking the tree reaches it |
| FileFind.StrayedIffStrays | fs/file_t.cpp:103-135 | find falls off its end if and only if it loses a name before the last in a directory or file that is not empty, and no data block of the file spells that name |
| FileFind.ForgedIffForges | fs/file_t.cpp:103-135 | find takes a data block for a file block of that name if and only if it looks for a name in a file one of whose data blocks has the bytes of it where a file block has its name |
| FileFind.FindInDirectory | fs/file_t.cpp:88-135 | with an existing parent directory the result is defined: the block, or -1 when only the last name is missing |
| FileFind.FindThroughParent | fs/file_t.cpp:88-135 | below an entry that exists the walk always returns, and goes by data bytes exactly if that is a file whose data spells the last name |
| FileFind.MissingParent | fs/file_t.cpp:88-135 | when a walk ends with -1, the walk to its parent returns by no data bytes, and finds it exactly if it is there |
| DiskSteps.NewEntryJoins | fs/create.cpp:48-59 | create and mkdir add exactly one node, take exactly two blocks, and free and used blocks again partition the disk |
| DiskSteps.FindAfterNew | fs/mkdir.cpp:29-45 | find then sees the new name, nothing below it, and everything else as before |
| DiskSteps.NewInFile | fs/mkdir.cpp:17-45 | a directory made in a file, empty or with data, its list full or not, leaves a disk that spells no tree |
| DiskSteps.RemovalFreesSubtree | fs/rmdir.cpp:41-76 | the blocks in use are those from before less exactly the subtree's, and the tree is the old one without it |
| DiskSteps.FindAfterRemoval | fs/rmdir.cpp:41-76 | find then sees nothing at the path or below it, and everything else as before |
| DiskSteps.RemovalUndoesNew | fs/rmdir.cpp:41-76 | mkdir and then rmdir restores the tree and all 100 blocks |
| DiskSteps.RenameMovesTree | fs/rename.cpp:20-38 | a sound rename leaves the moved tree on the disk, in the same blocks |
| DiskSteps.FindAfterRename | fs/rename.cpp:4-48 | what find sees: to/s where from/s was, nothing at from, everything else as before |
| DiskSteps.RenameIntoNowhere | fs/rename.cpp:18-38 | with a new parent that does not exist the old entry is lost, even if the stray write does no harm |
| DiskSteps.RenameKeepsTreeIffSound | fs/rename.cpp:12-38 | in every situation in which rename writes, the root as old path and files with data as new parent included, the disk is sure to spell a tree afterwards if and only if the new parent exists, is a directory and is outside the moved subtree; with an unsound existing parent it never does |
| FileCalls.RoomIffTwoFree | fs/file_t.cpp:178-207 | there is room if and only if two of the first ten blocks are free, and the two lowest are taken |
| FileCalls.RepliesInDirectory | fs/create.cpp:6-47 | in an existing directory the replies of create and mkdir depend only on whether the name is there and on room; the two report an existing name with different signs |
| FileCalls.RenameInDirectories | fs/rename.cpp:7-19 | between existing directories rename goes ahead if and only if the old name is there and the new one is not |
| FileCalls.CreateReplies | fs/create.cpp:6-47 | every reply of create for every path, by its code: -2 for the root, an existing name or no room, -4 for a parent that is a file, undefined for a missing parent or data that spells the name, else 0 |
| FileCalls.MkdirReplies | fs/mkdir.cpp:12-28 | every reply of mkdir: undefined if the walk is lost, 2 for an existing name, -3 for a missing parent, -2 for no room, else 0, for the root as well |
| FileCalls.RenameReplies | fs/rename.cpp:7-19 | every reply of rename: undefined if a walk that is made is lost, -3 for a missing old name, 2 for an existing new one, else 0 |
| FileCalls.RmdirReplies | fs/rmdir.cpp:41-76 | rmdir returns 0 if and only if the path leads somewhere and not to a file with data, whether what is there has children or not; -3 if and only if a walk that is not lost leads nowhere |
| FileCalls.CreateDefinedIff | fs/create.cpp:10-33 | create has a defined reply if and only if the path is the root, or its parent exists and none of its data blocks spells the name |
| FileCalls.MkdirDefinedIff | fs/mkdir.cpp:12-19 | mkdir has one if and only if its walk neither strays nor goes by data bytes |
| FileCalls.RenameDefinedIff | fs/rename.cpp:7-19 | rename has one, for the root too, if and only if the walk to the old path is not lost in either way, nor the one to the new path if it is taken |
| FileCalls.RmdirDefinedIff | fs/rmdir.cpp:41-60 | rmdir has one, for the root too, if and only if its walk is not lost in either way and does not end at a file with data |
| FileCalls.RenameSafeIff | fs/rename.cpp:7-38 | over all calls that get to the writes, whatever a stray write does, a tree is sure to be left if and only if the new parent exists, is a directory and does not move along |
| FileCalls.MkdirSafeIff | fs/mkdir.cpp:12-46 | over all calls whose walk is not lost, the disk spells the tree asked for if and only if the call is refused, or the path is not the root and its parent is a directory |
| FileCalls.RmdirSafeIff | fs/rmdir.cpp:41-76 | over all calls that get to the writes, a tree is left if and only if the path is not the root |
| FileCalls.FailingCalls | fs/rename.cpp:12-38 | on one disk, a failing input for each missing check: four renames, two mkdirs and one rmdir that return 0 |
| FileCalls.RunKeepsState | fs/rename.cpp:4-48 | after any run of calls with defined replies that get past no missing check, the disk spells a tree, all other blocks are free, and every block taken is one of the first ten |
| FileCalls.AtMostFour | fs/file_t.cpp:184-204 | so no such run from an empty file system ever holds more than four files and directories |
| FileSystem.FileSystem.FindFrom | fs/file_t.cpp:88-135 | the loop and recursion over blocks compute the walk over the tree; in a file they compare the name with what the bytes of each data block spell |
| FileSystem.FileSystem.Find | fs/file_t.cpp:68-86 | find from the root, block 0 for the root itself |
| FileSystem.FileSystem.Search | fs/file_t.cpp:178-207 | the lowest free blocks among the first ten, as many as wanted |
| FileSystem.FileSystem.AddTo | fs/file_t.cpp:146-156 | appends a block to the list of a file, dropping it at 94 |
| FileSystem.FileSystem.Create | fs/create.cpp:6-68 | every return code with its condition; on success the exact disk and tree, on an error code nothing changed; nothing promised when the reply is undefined |
| FileSystem.FileSystem.Mkdir | fs/mkdir.cpp:4-46 | likewise, with the entry that mkdir of the root adds under whatever name it reads; in a file, with data or without, it leaves no tree |
| FileSystem.FileSystem.Rename | fs/rename.cpp:4-48 | likewise, for the root too, with the stray write for a missing new parent; a valid moved tree when sound, and no tree when the new parent exists and it is not |
| FileSystem.FileSystem.RemoveData | fs/rmdir.cpp:4-10 | frees exactly the listed blocks |
| FileSystem.FileSystem.RmdirRec | fs/rmdir.cpp:11-36 | terminates, and frees exactly the blocks of the listed subtrees |
| FileSystem.FileSystem.Rmdir | fs/rmdir.cpp:41-76 | every return code, 0 for everything that exists but files with data; on success the subtree's blocks are free, its name is off the parent's list, and no other block changed, and after the removal of the root no tree is left; nothing promised when the reply is undefined |
| Stacks.ChainIsDistinct | kernel/fork.cpp:269-280 | a frame-pointer chain that ends visits no word twice |
| Stacks.ForkStack | kernel/fork.cpp:264-287 | the loop ends, and the child's words are the parent's except the moved links and the second frame with its return address |
| Stacks.ChildUnwinds | kernel/fork.cpp:282-287 | unwinding the child visits exactly the parent's first two frames, on the child's stack, with taskend as second return address |
| Stacks.SpawnStack | kernel/fork.cpp:216-229 | the last seven words of a spawned process's page |
| Processes.SearchEnds | kernel/fork.cpp:82-88 | the slot search ends if and only if some process is running or some slot is live |
| Processes.NextIsNearest | kernel/fork.cpp:82-88 | the process chosen is live or the running one, and no live process is nearer in cyclic order |
| Processes.StepWritesOwnSlot | kernel/fork.cpp:102-134 | no step writes the slot of a live process other than the running one |
| Processes.NoSlotIffAllLive | kernel/fork.cpp:197-205 | spawn and fork find no slot if and only if all eight are live |
| Processes.RunKeepsSched | kernel/fork.cpp:70-134 | in every run the index stays in range, and once ticks schedule before a first switch there is a live process, so the search ends |
| Processes.ContextPreserved | kernel/fork.cpp:102-134 | in every run from boot, a process is resumed with the frame saved when it last left the processor or with the one it was made with |
| Processes.ResumedAsLeft | kernel/fork.cpp:102-134 | traced back to the calls: the registers a process resumes with are those of the very tick that interrupted it last, or those that its spawn or fork made of the caller's, and nothing happened to it since |
| Processes.Fairness | kernel/fork.cpp:82-134 | in any mix of steps a process that stays live is dispatched within eight switching ticks |
| Processes.SwitchesIff | kernel/fork.cpp:70-132 | a tick switches if and only if ticks schedule, it did not interrupt a low stack while a process runs, and another process is live |
| Processes.TickMeans | kernel/fork.cpp:70-134 | a tick that switches saves the running process, if it is live, with exactly the registers interrupted, changes no other slot, and resumes the next one with what its slot holds; any other tick changes nothing |
| Processes.CreationMeans | kernel/fork.cpp:194-299 | spawn and fork fill the lowest free slot and no other: a child of spawn has its entry point, its slot number + 1 in eax, zeros and a stack in its page; a child of fork has its parent's registers but for that eax and the two stack pointers; spawn starts scheduling |
| Processes.StartedIffSpawned | kernel/fork.cpp:310-326 | ticks schedule after a run if and only if they did before or it has a spawn |
| Processes.FirstDispatch | kernel/fork.cpp:82-136 | from boot, one spawn and one tick run the process at its entry point, on a stack in its own page |
| Processes.OwnStackPassesGuard | kernel/fork.cpp:72-80 | every stack pointer in a page of the page layer passes the stack guard |
| Processes.FirstStore | kernel/fork.cpp:136-136 | the store into a stack on a first resumption lands in the process's own page, for a spawned process where its entry point stands |
| ProcessTables.ProcessTable.Schedule | kernel/fork.cpp:70-136 | the table, the index, the frame installed and the word stored in its stack are those of the step; the old process's slot holds the interrupted registers, the new one was live |
| ProcessTables.ProcessTable.FindNext | kernel/fork.cpp:82-88 | the search loop ends at the process the specification names |
| ProcessTables.ProcessTable.Spawn | kernel/fork.cpp:194-244 | -1 exactly when all slots are live, a panic exactly when pages have run out; else the lowest free slot, with each register of its frame, on a page of its own; scheduling has started |
| ProcessTables.ProcessTable.ForkHandler | kernel/fork.cpp:246-299 | likewise, with the child's stack moved to its page, slot + 1 in its eax where the parent gets 0, and each other register the parent's |
| ProcessTables.ProcessTable.Taskend | kernel/fork.cpp:179-192 | the running process's slot is no longer live and nothing else changes |
| Console.PutShows | console/console.cpp:58-118 | a character keeps the window equal to the last 25 rows of the terminal and the cursor inside |
| Console.ScreenShowsTerminal | console/console.cpp:19-118 | so after any sequence of characters |
| Console.HistoryStays | console/console.cpp:19-39 | what scrolled away or lies above the cursor's row is never written again |
| Console.TypedText | console/console.cpp:58-105 | text that fits the row stands in it from the cursor on, each character in its own cell and color, gray for 0, with the cursor behind it; no other cell changes |
| Console.LastColumnWraps | console/console.cpp:108-112 | a character in column 79 is written there and moves the cursor to the start of the next row, which comes in blank if it is new |
| Console.ControlCharacters | console/console.cpp:70-112 | a tab goes to the next multiple of 8 or the next row, backspace one column back but not beyond the first, return and newline to the start of this row and of the next; no other control character does anything, and none writes a cell |
| Console.BackspaceUndoes | console/console.cpp:70-74 | after a character, backspace puts the cursor back on it |
| Console.Tty.Putchar | console/console.cpp:58-118 | the window in place follows the specification, every cell write inside it |
| Console.Tty.Scroll | console/console.cpp:19-39 | the row moves and the fill are one scroll |
| Console.Tty.Cls | console/console.cpp:197-209 | all 2000 cells are 0x0700 and the cursor is at the origin |
| Itoa.RoundTrip | lib/string.cpp:7-48 | for every 32-bit value and base letter, reading the output gives the value: for d and i in decimal with a minus sign exactly for negative ones, for x and p the machine word in hexadecimal, for the others in decimal; only digits of the base, no leading zero; at most 12 bytes with the terminator |
| Itoa.SixteenDigits | lib/string.cpp:30-30 | the digits are 0 to 9 and a to f, in this order |
| Itoa.ProperDigits | lib/string.cpp:27-34 | only digits below the base are used |
| Itoa.WriteBackwards | lib/string.cpp:27-34 | the division loop writes the digits, last one first |
| Itoa.ReverseBetween | lib/string.cpp:39-47 | the swap loop reverses its part of the buffer and nothing else |
| Itoa.Convert | lib/string.cpp:7-48 | the buffer holds the rendering and its terminator, the rest is untouched |

## Left out

- Liballoc.Allocator.Malloc: on linked headers, requests of 2^32 - 48 bytes and more, which do not fit their page; what they make of the blocks is stated by `Requests`.
- Liballoc.Allocator.Free: promises nothing when data in front of a pointer that is not live spells the magic, as free then takes it for a header.
- Machines.Machine.Free: likewise.
- Liballoc.Allocator.MallocSize: requests of 2^32 - 48 bytes and more, as for Malloc.
- Machines.Machine.Malloc: likewise.
- KernelMemory.RunKeepsMemory: and all results on runs stop at a request of 2^32 - 48 bytes or more, and at a free of a pointer that is not live where data of another owner spells the magic.
- DeadHeaders.FreeTwice: the address cache, in which a page given back may still be found until `alloc_page` drops its entry.
- FileSystem.FileSystem.Create: promises nothing when find strays, when the parent is missing, as sector -1 is then taken for it, or when the parent is a file whose data spells the name.
- FileSystem.FileSystem.Rename: promises nothing when a walk strays or goes by data bytes; that an unsound rename leaves no tree is stated for names without a slash, which are all that split paths hold.
- FileCalls.RenameSafeIff: likewise stated for names without a slash.
- FileSystem.FileSystem.Rmdir: promises nothing for a file with data, whose data the source reads as file blocks and frees what they name.
- FileSystem.FileSystem.FindFrom: once the bytes of a data block spell the name, what is then read as a file block is not followed.
- ProcessTables.ProcessTable.ForkHandler: callers whose frame-pointer chain does not end inside the 500 copied words, or has one frame only; the source then writes outside the copy or does not stop.
- Stacks.ForkStack: likewise.
- Machines.Machine.Fork: likewise.
- ProcessTables.ProcessTable.Schedule: the interrupt return in assembly, and the memory that the stored word goes to.
- ProcessTables.ProcessTable.Taskend: the finalizers that run when process 0 ends.
- Processes.ContextPreserved: spawn, fork and the end of a task are steps of a live process, or of the kernel before the first switch; a process that has ended only waits for the next tick, as taskend does.
- PathNames.Split: names longer than 20 characters and paths longer than 128, which overflow the fixed strings; dirname, basename and the other C-string helpers, so the file-system calls take split paths.
- The semaphore around malloc and free: the model is sequential and claims nothing about concurrent entry.
- Payload bytes themselves: memory is modelled as headers and address ranges; that nobody writes a payload follows from the ranges being disjoint.
- Permissions, owners, time stamps, symbolic and hard links, unlink, read, write and truncate.
- The disk image: a fresh file system has the root in block 0 and its empty inode in block 1; the tagged union of a block is a datatype, so nothing is said about stale bytes under another tag.
- Hardware: disk and timer ports, video flush and hardware cursor, the address cache, boot and descriptor tables.
- `setExtra`, the cache and access flags, the monitor shell, keyboard and format parsing.
