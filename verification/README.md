# TextOS2: a verified model of the kernel's algorithmic cores

TextOS2 is a kernel written in C. This project restates the parts of it that are more than
device handling as Dafny classes, methods and functions, and proves what they keep over every
run. A method that updates structures in place in C updates fields or arrays here, branch for
branch; it is proved against a specification function or predicate, and the lemmas beside it say
what that specification means. A failing `assert` or a `panic` is a result `false` or `None`,
after which nothing is promised; where the source asserts something that cannot fail, that it
cannot fail is proved.

| files | what they model | main results |
|---|---|---|
| OrderedArray, Tiling, HeapMemory, HeapSteps, Heap, HeapClient | the kernel heap and its two indexes | areas tile the heap after every allocation and release; runs of a client do what their requests ask and never lose or overlap a byte |
| FrameAllocator | the bitmap of physical frames | the hinted search returns the lowest free frame; runs are free before they are marked |
| AddressSpaces, Spaces, VirtualMemory, VirtualMemoryClient | areas, page maps, break, stack guard, clone and destroy | any run does what it does to address spaces without frames, and beneath every user frame has exactly one mapping; destroy undoes clone |
| AesTables, Aes, Cbc, AesCbc, Words, InitrdImage, ImageWriter, Initrd, InitrdRoundTrip | AES-CBC, the tools that write the initial ram disk, and the kernel that reads it | the inverse cipher undoes the cipher; a file read in any pieces is the file that was packed |
| HostTree, InitrdListing, InitrdLookup, InitrdTree | the walk that numbers the files of a directory tree, and the kernel's search for a path | entry k has number k and its directory stands before it; what is read from a path is what the tree has there |
| BlockSplit, Sha256, Sha256Stream, Md5 | the streaming hashes | any split of a message gives the digest of the padded message |
| Ext2 | inodes and the block tree of the ext2 file system | block k of a file is the one the tree names |
| LinkedList, Scheduler | the kernel's list and the round-robin scheduler on it | a runnable task waits at most as many calls as it is places behind |
| Descriptors, OpenFiles | descriptor tables, dup, pipes, fork and exit | a file's count is the number of slots that name it, after every sound step and after no other |
| PacketHandler | the buffers between the network interrupt and its handler | every accepted packet is delivered exactly once and unchanged, in every interleaving |
| Calendar | broken-down time to seconds | the loops compute the closed formula, and the exact error when a field is out of range |
| CStrings, Paths | path joining and normalisation on NUL-terminated buffers | collapsing computes the normal form of the walk |
| Options | an optional result | |

Where the code does not do what its comments or callers expect, the model follows the code and
the exact condition is proved:

- Releasing an area right after it was carved restores the heap if and only if the page-alignment lead was 0 or more
  than 20 bytes, since a shorter one stays with the neighbour, and the last area was not free with 0x18_0000 bytes or
  more, which the release makes shorter (`Heaps.ReleaseUndoesAlloc`).
- A heap that has reached its maximum address still grows for a small request (`Heaps.GrowthPastMax`).
- The child of a fork starts with a break of 0, which is no heap of its parent's. What any sbrk call does to it is proved
  (`VirtualMemoryClient.ChildBreak`, `VirtualMemoryClient.ForkThenBreaks`): the first request for more panics, until a
  decrement of a page or more wraps the break around (`VirtualMemoryClient.ChildIsStuck`, `VirtualMemoryClient.WrappedHeap`).
  Its stack never grows (`VirtualMemoryClient.ChildStackIsStuck`).
- Taking pages with sbrk and giving them back restores everything if and only if the break was at
  least a page above its start (`VirtualMemoryClient.GrowThenShrink`).
- Releasing the last area of the heap goes wrong if and only if the words behind the heap's end pass for a free area whose
  footer the release does not overwrite (`Heaps.Heap.HeapFree`), which takes an owner who stored the magic number there before
  the heap shrank; from a new heap five stores, two allocations and two releases lead to it (`Heaps.MisledInput`).
- SHA-256 pads as the standard does if and only if the message is shorter than 2^29 bytes (`Sha256Stream.PaddingStandard`).
- A missing list of a doubly or triply indirect block leaves no room for its blocks: what is read is what the tree
  names if and only if no missing list comes before a present one (`Ext2.PackedReads`, `Ext2.ReadsTree`, `Ext2.HoleHarms`).
- The root of the ram disk is its own parent, so its length counts itself (`HostTree.ChildrenCounted`).
- A sleep has the asked length if and only if it ends before the tick counter wraps (`Scheduler.SleepLength`).
- fork and task exit keep the counts of open files if and only if the slot past MAX_OPEN_FILES is
  empty; new_filp uses that slot once all others are taken. dup2 keeps them unless it copies a
  file's last descriptor onto itself (`OpenFiles.Take`, `OpenFiles.PastTheLimit`, `OpenFiles.OntoItself`).
- kern_mktime is right if and only if second, minute and hour are not above their ranges; gettimeofday
  adds an hour and is a whole day ahead in the last hour of every day (`Calendar.Time.KernMktime`, `Calendar.Time.TimeOfDay`).
- Joining paths cuts off the last character, and reports success, exactly when the result would have
  PATH_MAX characters (`Paths.CutUnreported`); collapsing passes over components of more than 255
  characters, and the exact condition for that to do no harm is proved for all paths (`Paths.CollapsedExactly`, `Paths.OverlongPath`).
- Joining to a path that fills its buffer and does not end in a slash writes behind the buffer, if and only if a component
  comes to be joined before any is taken off (`Paths.OverrunExactly`).

## Model

| member | source | states |
|---|---|---|
| `OrderedArrays.OrderedArray.Insert` | src/kernel/ordered_array.c:46-76 | a full array is refused; otherwise the contents become the old ones with the item before the first element that is not less |
| `OrderedArrays.InsertionSorts` | src/kernel/ordered_array.c:46-76 | under a strict weak order, inserting into a sorted sequence keeps it sorted |
| `OrderedArrays.OrderedArray.IndexOf` | src/kernel/ordered_array.c:78-88 | the first place of the item, or -1 exactly when it is absent |
| `OrderedArrays.OrderedArray.RemoveAt` | src/kernel/ordered_array.c:101-110 | the element at the place goes, the others keep their order |
| `OrderedArrays.OrderedArray.RemoveItem` | src/kernel/ordered_array.c:112-120 | only the first occurrence goes; an absent item changes nothing |
| `HeapMemory.ShiftedMagicDiffers` | src/kernel/heap.c:604-633 | in bytes that have the little-endian magic number at an address, no address up to three bytes away has it too |
| `HeapMemory.StoreHolds` | src/kernel/heap.c:211-245 | a store that makes the words it overlaps unreadable stays true of the bytes of memory |
| `HeapMemory.SearchInBytes` | src/kernel/heap.c:604-633 | whatever bytes hold the words, the search for the magic number up to three bytes back succeeds at the header and at no address before it |
| `Tiling.CarvedSettled` | src/kernel/heap.c:482-570 | carving a request out of a free area, with lead and remainder, never leaves two adjacent free areas |
| `Tiling.CoalescedSettled` | src/kernel/heap.c:664-755 | releasing an area and uniting it with its free neighbours never leaves two adjacent free areas |
| `Tiling.GrownTwice` | src/kernel/heap.c:424-480 | two expansions in a row have the effect of one by their sum |
| `Tiling.ReleaseUndoesCarve` | src/kernel/heap.c:482-755 | uniting what was just carved with its free neighbours gives the row of areas back if and only if the lead was 0 or long enough to become an area |
| `Heaps.ReleaseUndoesAlloc` | src/kernel/heap.c:482-797 | releasing what was just carved, contraction of the heap included, gives the row back if and only if the lead was 0 or long enough to become an area and the last area was not free with 0x18_0000 bytes or more |
| `Tiling.FreeAreasFew` | src/kernel/heap.c:635-798 | there is at most one free area more than there are used ones |
| `HeapSteps.SpliceConsistent` | src/kernel/heap.c:211-245 | replacing a segment of the row with its memory keeps headers, footers, indexes and stored data consistent everywhere else |
| `HeapSteps.WasteStep` | src/kernel/heap.c:505-510 | splitting off the page-alignment lead as a free area keeps the heap consistent |
| `HeapSteps.DonateStep` | src/kernel/heap.c:511-531 | giving a lead of at most 20 bytes to the left neighbour keeps the heap consistent |
| `HeapSteps.SplitStep` | src/kernel/heap.c:547-559 | splitting off the remainder keeps the heap consistent |
| `HeapSteps.MergeStep` | src/kernel/heap.c:681-752 | uniting two neighbours keeps the heap consistent and no stale magic number stands where a live one is expected |
| `HeapSteps.ResizeStep` | src/kernel/heap.c:443-459 | lengthening or shortening the last free area keeps the heap consistent |
| `HeapSteps.AppendStep` | src/kernel/heap.c:439-476 | a new free area behind the last one keeps the heap consistent |
| `HeapSteps.PayloadStep` | src/kernel/heap.c:572-579 | an owner's write of any word inside its payload touches no header or footer; the magic number, where it can later be read behind the heap's end, is remembered as stray |
| `Heaps.Heap.constructor` | src/kernel/heap.c:800-869 | one free area spans the initial heap behind the index arrays, and the invariant holds |
| `Heaps.Heap.CreateArea` | src/kernel/heap.c:172-245 | header and footer are written, nothing else, and the rightmost pointer moves only up; the collision assertions hold for all callers |
| `Heaps.Heap.FindSmallestHole` | src/kernel/heap.c:248-291 | the first entry in index order whose area fits, alignment included, or none |
| `Heaps.Heap.Expand` | src/kernel/heap.c:294-345 | exactly when it succeeds, and the new page-aligned end |
| `Heaps.GrowthBelowMax` | src/kernel/heap.c:294-345 | the new end is below the maximum exactly when the rounded request fits or is too large to be limited |
| `Heaps.GrowthPastMax` | src/kernel/heap.c:294-345 | a heap at its maximum address still grows past it |
| `Heaps.Heap.AddSpace` | src/kernel/heap.c:439-476 | new space lengthens a free last area or becomes one, and the invariant holds again |
| `Heaps.Heap.LeadToWaste` | src/kernel/heap.c:505-510 | a long lead becomes a free area in front of the request, entered in the free index |
| `Heaps.Heap.LeadToNeighbour` | src/kernel/heap.c:511-531 | a lead of at most 20 bytes lengthens the used area on the left |
| `Heaps.Heap.SplitHole` | src/kernel/heap.c:547-563 | the remainder becomes a free area behind the request |
| `Heaps.Heap.UseHole` | src/kernel/heap.c:566-570 | the area is used, listed in the used index, and the rightmost pointer names the last area |
| `Heaps.Heap.CarveHole` | src/kernel/heap.c:482-579 | a fitting hole is carved into lead, allocation and remainder; it fails only for full indexes |
| `Heaps.Heap.HeapAlloc` | src/kernel/heap.c:411-602 | the recursion ends; the result is carved from the heap grown as often as needed and by exactly so much, first from the first fitting hole; unless an index is full it succeeds if and only if some free area fits at once or after expansions that succeed, with room after at most two, and without growth nothing above the heap's end changes |
| `Heaps.AmpleStep` | src/kernel/heap.c:424-480 | with room for n expansions the next one succeeds and leaves room for n - 1 |
| `Heaps.AllocatedDeeper` | src/kernel/heap.c:424-480 | an allocation found after an expansion is one of the heap before it |
| `Heaps.Heap.FindHeader` | src/kernel/heap.c:604-633 | the backward scan from a pointer finds exactly the header of the used area the pointer was handed out for, in words and in whatever bytes hold them |
| `Heaps.Heap.UnifyLeft` | src/kernel/heap.c:681-714 | unites with the area on the left exactly when that one is free |
| `Heaps.Heap.UnifyRight` | src/kernel/heap.c:716-752 | unites with the area on the right exactly when that one is free; behind the last area it is misled exactly when the words there pass for a free area, which takes an owner that once stored the magic number |
| `Heaps.MisledInput` | src/kernel/heap.c:716-752 | from a new heap: get, store a forged area, put, get the whole heap, and the put of that is misled |
| `Heaps.StillMisleading` | src/kernel/heap.c:664-722 | what passes for a free area once the release has overwritten some words passed for one before, and no such word is part of its footer; the reverse holds too |
| `Heaps.FooterBehind` | src/kernel/heap.c:716-722 | a forged footer behind the heap's end is overwritten by no release |
| `Heaps.NoMagicAtEnd` | src/kernel/heap.c:716-722 | a magic number behind the heap's end is one that an owner stored |
| `Heaps.Heap.WritePayload` | src/kernel/heap.c:572-579 | an owner may store any word anywhere in its payload, and the invariant holds with it |
| `Heaps.Heap.CheckUsed` | src/kernel/heap.c:348-399 | the panic over a used area past the new end is unreachable |
| `Heaps.Heap.Contract` | src/kernel/heap.c:348-399 | how far the end moves back, and that only memory past the page behind the new end is lost |
| `Heaps.Heap.TrimLast` | src/kernel/heap.c:757-795 | a last free area that wastes too many frames is shortened to the new end, and the invariant holds; in the areas below and the page behind the new end no word changes |
| `Heaps.Heap.Reclaim` | src/kernel/heap.c:664-755 | releasing gives exactly the coalesced row, and the other owners' data stay; it is misled if and only if the area is the last one, the words behind the end passed for a free area before the call, and the release overwrites nothing of that area's footer |
| `Heaps.Heap.HeapFree` | src/kernel/heap.c:635-798 | a null or foreign pointer changes nothing; a live one gives the coalesced, then trimmed row, with the invariant kept, and the payload's words stay where the heap keeps their page; it is misled if and only if the area is the last one, the words behind the end passed for a free area before the call, and the release overwrites nothing of that area's footer |
| `Heaps.Heap.UsedBytes` | src/kernel/heap.c:41-54 | the used bytes over the index are those of the used areas, and with the free ones make up the whole heap |
| `Heaps.SizeSumIs` | src/kernel/heap.c:41-54 | whatever its order, an index that lists the areas of one kind adds up to their bytes |
| `Heaps.TotalsOf` | src/kernel/heap.c:41-54 | the areas' sizes add up to the heap's extent |
| `HeapClient.GrantsDisjoint` | src/kernel/heap.c:566-579 | two live allocations never share a byte |
| `HeapClient.NewPointer` | src/kernel/heap.c:566-579 | a new pointer differs from all live ones |
| `HeapClient.AllocatedKept` | src/kernel/heap.c:411-602 | an allocation keeps all earlier ones and what is stored in them; a page-aligned one is on a page boundary |
| `HeapClient.KeptAfterPut` | src/kernel/heap.c:635-798 | a release drops one allocation and its data and keeps all others |
| `HeapClient.Run` | src/kernel/heap.c:411-798 | over any run of allocations, writes of any words and releases each step does what its request asks, the invariant holds, live payloads are disjoint, and memory has what their owners wrote; a run stops only at an allocation the heap cannot serve or at a release that is misled, which takes an owner that stored the magic number, and at the first such |
| `HeapClient.Step` | src/kernel/heap.c:411-798 | one request: what is held, what is stored and the row of areas afterwards; with room in the indexes an allocation fails exactly when the heap cannot serve it, and a release goes wrong exactly when it is misled |
| `FrameAllocators.SetBit` | src/kernel/pmm.c:27-36 | or with the mask sets one bit and no other |
| `FrameAllocators.ClearBit` | src/kernel/pmm.c:38-47 | and with the inverted mask clears one bit and no other |
| `FrameAllocators.FrameAllocator.SetFrame` | src/kernel/pmm.c:27-36 | marks a free frame; fails exactly on a used one or one outside the bitmap |
| `FrameAllocators.FrameAllocator.TestFrame` | src/kernel/pmm.c:49-59 | whether the frame is in the used set |
| `FrameAllocators.FullBelow` | src/kernel/pmm.c:221-246 | when every frame below one is used, every word below its word is full |
| `FrameAllocators.FrameAllocator.FirstFreeFrame` | src/kernel/pmm.c:221-246 | the first free frame from a word before the start on, or none |
| `FrameAllocators.FrameAllocator.Alloc` | src/kernel/pmm.c:250-267 | the lowest free frame of all, whatever the hint; none exactly when none is free |
| `FrameAllocators.FrameAllocator.FirstUsed` | src/kernel/pmm.c:269-312 | the first used frame of a candidate run behind its start, or the whole length |
| `FrameAllocators.FrameAllocator.AllocContinuous` | src/kernel/pmm.c:269-312 | when it returns, it marked exactly a run of that many frames that were all free |
| `FrameAllocators.FrameAllocator.Free` | src/kernel/pmm.c:314-319 | releases a used frame and drops the hint; fails exactly on one that is not in use |
| `FrameAllocators.FrameAllocator.BytesFree` | src/kernel/pmm.c:323-349 | a page for every free frame, shortcuts included |
| `FrameAllocators.FrameAllocator.BytesUsed` | src/kernel/pmm.c:351-376 | free and used bytes always add up to the same total |
| `FrameAllocators.FreeBelowIsSize` | src/kernel/pmm.c:323-376 | the running count of free frames is the size of the set of them |
| `FrameAllocators.PlainWordCounts` | src/kernel/pmm.c:323-376 | an empty word adds 32 free frames and a full one none |
| `AddressSpaces.StoredGrants` | src/kernel/vmm.c:67-107 | storing an area over vacant pages grants exactly those pages in addition, and areas stay apart, also when it is merged with a neighbour |
| `AddressSpaces.StoredAt` | src/kernel/vmm.c:67-107 | the list changes at one place only |
| `AddressSpaces.VacantApart` | src/kernel/vmm.c:67-107 | over vacant pages the overlap test never fires |
| `AddressSpaces.CutGrants` | src/kernel/vmm.c:109-141 | cutting an area short takes away exactly its pages from the new end on |
| `AddressSpaces.HeapGrows` | src/kernel/vmm.c:459-519 | growth at the break keeps the heap one writable area |
| `AddressSpaces.HeapShrinks` | src/kernel/vmm.c:109-141 | the area that resizing finds from the start of the heap is the heap's, and it stays one area up to the new break |
| `AddressSpaces.StackGrows` | src/kernel/vmm.c:757-777 | storing the new pages keeps the stack one contiguous area whose lowest page is the new guard page |
| `VirtualMemory.OwnerMaps` | src/kernel/vmm.c:352-376 | entering a frame nobody owns keeps every frame with one mapping |
| `VirtualMemory.OwnerUnmaps` | src/kernel/vmm.c:299-303 | taking a mapping away takes exactly its frame from the owned ones |
| `VirtualMemory.OwnersDetermined` | src/kernel/vmm.c:352-376 | the page maps determine who owns which frame |
| `VirtualMemory.OwnerDrops` | src/kernel/vmm.c:165-184 | dropping an emptied address space leaves the others' frames |
| `VirtualMemory.Machine.StoreArea` | src/kernel/vmm.c:67-107 | its panic over overlapping areas is unreachable, and the list becomes the stored one |
| `VirtualMemory.Machine.ResizeArea` | src/kernel/vmm.c:109-141 | a shorter area loses exactly the pages behind its new end; which area it is, what is refused, and the invariant in every branch, for every address space |
| `VirtualMemory.Machine.AllocUser` | src/kernel/vmm.c:144-163 | succeeds exactly for a page-aligned user range of unmapped pages with enough free frames; then they are there, zeroed, and the areas are those with the range stored |
| `VirtualMemory.Machine.MapPage` | src/kernel/vmm.c:352-376 | one zeroed frame that nobody owns for one empty entry; fails exactly on a mapped page, an address that is not a user's, or no free frame |
| `VirtualMemory.Machine.Destroy` | src/kernel/vmm.c:165-184 | frees exactly the frames of the address space and cannot fail |
| `VirtualMemory.Machine.Clone` | src/kernel/vmm.c:188-257 | succeeds exactly when there are frames enough; the child has the parent's areas, flags and contents on fresh frames, and its break, its least break and its guard page are 0 |
| `VirtualMemory.Machine.FreeIs` | src/kernel/pmm.c:323-376 | the free frames are those there are less those that the page maps own |
| `VirtualMemory.CopiedAll` | src/kernel/vmm.c:188-236 | after the copy every page of the parent has its copy and the child's pages match its areas |
| `VirtualMemory.Machine.UnmapPage` | src/kernel/vmm.c:299-303 | the entry is empty and its frame free |
| `VirtualMemory.Machine.SetGuard` | src/kernel/vmm.c:317-329 | a page changes between present and guard, and only from the state it must have |
| `VirtualMemory.Machine.CreateUser` | src/kernel/vmm.c:429-448 | exactly when it succeeds; a new address space is exactly a stack with its guard page |
| `VirtualMemory.Machine.Sbrk` | src/kernel/vmm.c:459-519 | for every address space and every change, wrap-around included: exactly when it panics, and the pages, areas and break afterwards; it returns the old break and keeps the invariant |
| `VirtualMemory.GrowChecks` | src/kernel/vmm.c:459-519 | the 32-bit sums and the checks of the allocation amount to one condition on break, size and free frames |
| `VirtualMemory.Machine.GrowStack` | src/kernel/vmm.c:749-779 | for every address space: exactly when a user fault on the guard page finds room and frames, and the pages, areas and guard afterwards |
| `VirtualMemory.StackChecks` | src/kernel/vmm.c:749-779 | the handler's 32-bit arithmetic is exact and the pages it asks for are vacant |
| `VirtualMemory.AboveBreak` | src/kernel/vmm.c:459-519 | nothing is mapped between the break and the stack |
| `VirtualMemory.Machine.LoadSegment` | src/kernel/elf.c:291-310 | exactly when a segment can be loaded; its pages are mapped and the break moves behind it |
| `VirtualMemory.LoadedRegular` | src/kernel/elf.c:291-310 | loading below the stack's region keeps heap and stack as the later calls need them |
| `VirtualMemory.Machine.ExtendBreak` | src/kernel/elf.c:127-358 | exactly when it can allocate at the break; it moves break and start together; the least break moves along for the C library's state and stays for the arguments |
| `VirtualMemory.Machine.Store` | src/kernel/vmm.c:352-376 | exactly the present writable pages take a write, and no other page of any address space changes |
| `VirtualMemoryClient.FramesApart` | src/kernel/vmm.c:352-376 | two mappings share a frame only if they are the same; mapped frames are marked used and are not the kernel's |
| `VirtualMemoryClient.EveryFrameAccounted` | src/kernel/vmm.c:352-376 | a used frame is the kernel's or mapped by some address space |
| `VirtualMemoryClient.FramesCounted` | src/kernel/vmm.c:144-163 | there are as many owned frames as mapped pages in all address spaces together |
| `VirtualMemoryClient.CloneThenDestroy` | src/kernel/vmm.c:165-257 | destroying a clone restores exactly the earlier set of used frames, and no other memory changed |
| `VirtualMemoryClient.WriteAfterClone` | src/kernel/vmm.c:188-257 | the child reads what the parent had, and the parent's later write does not reach it |
| `VirtualMemoryClient.GrowThenShrink` | src/kernel/vmm.c:459-519 | giving back what was taken restores pages and frames, if and only if the break was a page above its start |
| `VirtualMemoryClient.ChildBreak` | src/kernel/vmm.c:459-519 | any sbrk of a child of a fork: exactly when it panics, and what it changes; a decrement frees nothing and moves the break in 32 bits |
| `VirtualMemoryClient.ChildIsStuck` | src/kernel/vmm.c:459-519 | as long as no decrement of a page or more comes, the first positive request of such a child panics, and the others change nothing |
| `VirtualMemoryClient.WrappedHeap` | src/kernel/vmm.c:506-515 | a decrement that wraps the break around to 0x9000_0000 lets it grow from there |
| `VirtualMemoryClient.ForkThenBreaks` | src/kernel/vmm.c:188-519 | a fork, and then any sbrk calls of the child, do what those say, and nothing to any other address space |
| `VirtualMemoryClient.ChildStackIsStuck` | src/kernel/vmm.c:749-779 | the stack of such a child never grows |
| `VirtualMemoryClient.FreeIsLeft` | src/kernel/pmm.c:323-376 | the free frames are those the address spaces alive do not take |
| `VirtualMemoryClient.Run` | src/kernel/vmm.c:67-777 | any run on any number of address spaces does to each of them what it does to address spaces without frames, and panics exactly where that stops; every used frame is reserved or has exactly one mapping, and the counts add up |
| `VirtualMemoryClient.Step` | src/kernel/vmm.c:67-777 | one operation refines its effect on address spaces without frames, and panics exactly when it has none |
| `AesTables.SBoxInverse` | src/kernel/crypto/aes.c:80-117 | the second table undoes the first, for every byte |
| `Aes.MultiplyLinear` | src/kernel/crypto/aes.c:295-340 | multiplication by the factors in use distributes over xor |
| `Aes.MixedMatrix` | src/kernel/crypto/aes.c:301-318 | the in-place sums compute the row 02, 03, 01, 01 of section 5.1.3 of FIPS 197 |
| `Aes.ColumnInverse` | src/kernel/crypto/aes.c:351-369 | unmixing a mixed column gives its bytes back |
| `Aes.ShiftRowsAt` | src/kernel/crypto/aes.c:267-293 | byte (row, column) comes from column + row, as section 5.1.2 of FIPS 197 has it, and the inverse goes back |
| `Aes.CipherInverse` | src/kernel/crypto/aes.c:414-463 | the inverse cipher undoes the cipher for every state, every number of rounds and all round keys |
| `AesCbc.KeyExpansion` | src/kernel/crypto/aes.c:147-214 | every word of the round keys satisfies the recurrence of section 5.2 of FIPS 197, for keys of 4, 6 and 8 words |
| `AesCbc.ShiftRows` | src/kernel/crypto/aes.c:267-293 | in place, the rotated rows; the bytes around the state stay |
| `AesCbc.MixColumns` | src/kernel/crypto/aes.c:301-318 | in place, every column mixed from its bytes as they were |
| `AesCbc.InvMixColumns` | src/kernel/crypto/aes.c:351-369 | in place, every column unmixed |
| `AesCbc.InvShiftRows` | src/kernel/crypto/aes.c:384-411 | in place, the rows rotated back |
| `AesCbc.Cipher` | src/kernel/crypto/aes.c:414-438 | in place, the cipher of the state; the bytes around it stay |
| `AesCbc.InvCipher` | src/kernel/crypto/aes.c:440-463 | in place, the inverse cipher of the state |
| `AesCbc.AesContext.EncryptBuffer` | src/kernel/crypto/aes.c:502-514 | in place, the CBC encryption of all whole and part blocks; the vector becomes the last block written |
| `AesCbc.AesContext.DecryptBuffer` | src/kernel/crypto/aes.c:517-533 | in place, the CBC decryption; the vector becomes the last ciphertext block |
| `Cbc.CbcInverse` | src/kernel/crypto/aes.c:502-533 | decrypting with the same vector gives the data back |
| `Cbc.EncryptJoins` | src/kernel/crypto/aes.c:502-514 | two calls in a row encrypt as one over the joined data, through the vector |
| `Cbc.DecryptJoins` | src/kernel/crypto/aes.c:517-533 | two calls in a row decrypt as one over the joined data |
| `Cbc.CbcBlock` | src/kernel/crypto/aes.c:502-514 | each block is the cipher of data plus previous ciphertext, as section 6.2 of NIST SP 800-38A has it |
| `ImageWriter.CountChildren` | misc/create_initrd.py:61-66 | the length of a directory is the number of entries whose parent it is |
| `HostTree.WalkKept` | misc/create_initrd.py:115-143 | in the list of a tree every entry stands once, as child of the directory it is in, and nothing else has that parent |
| `HostTree.ParentsEarlier` | misc/create_initrd.py:103-125 | the two entries in front are their own parents; the parent of every other one is a directory that stands before it |
| `HostTree.ChildrenCounted` | misc/create_initrd.py:62-66 | what is counted for a directory is the number of its entries; the root, its own parent, counts itself on top |
| `InitrdListing.Listing.constructor` | misc/create_initrd.py:127-131 | the null entry, with number 0 |
| `InitrdListing.Listing.ParentInode` | misc/create_initrd.py:103-113 | 1 in the root, else the number of the first entry with the directory's path, or none exactly when no entry has it |
| `InitrdListing.Listing.AddEntry` | misc/create_initrd.py:115-125 | the entry gets the next number and the parent its path names; it fails exactly for a time out of range or without a parent |
| `InitrdListing.Listing.Walk` | misc/create_initrd.py:135-143 | for every tree a parent is always found, it is the directory being walked, and the entries are those of the tree in order |
| `InitrdListing.Collect` | misc/create_initrd.py:127-145 | the list is made exactly when all times are in range; entry k has number k and the parent the tree gives it |
| `InitrdListing.BuildImage` | misc/create_initrd.py:38-145 | from the tree to the image, exactly when the list can be made and written |
| `InitrdTree.DirectoryLength` | misc/create_initrd.py:62-66 | the length in a directory's header is the number of its entries, with the root counting itself |
| `ImageWriter.WriteHeaders` | misc/create_initrd.py:53-73 | the first pass lays files out one behind the other, and fails exactly when a header cannot be packed |
| `ImageWriter.WriteBody` | misc/create_initrd.py:75-91 | the assertions on the writing position hold exactly when the file's size is that of its data |
| `ImageWriter.CreateImage` | misc/create_initrd.py:38-95 | an image is written exactly for writable lists, and it is the specified one |
| `ImageWriter.Pad` | misc/encrypt_initrd.py:31-35 | padding fills up whole blocks by at least one byte and keeps the data in front |
| `InitrdImage.ImageHeader` | misc/create_initrd.py:38-95 | the count and every header stand at their places in the image |
| `InitrdImage.ImageBody` | misc/create_initrd.py:38-95 | the bytes of every file stand at the offset its header names |
| `Initrd.DecryptInitrd` | src/kernel/nucleus.c:175-197 | decrypts the payload in place with the key's round keys and returns the image's address |
| `Initrd.InitInitrd` | src/kernel/initrd.c:632-661 | adds the image's address to every offset but that of header 0, and changes nothing else |
| `Initrd.ReadCountRight` | src/kernel/initrd.c:162-168 | the count is the smaller of length and bytes left, and two reads in a row copy what one of their sum does |
| `Initrd.Read` | src/kernel/initrd.c:150-179 | a directory is refused; otherwise the bytes from the offset on are delivered and the offset moves by their number |
| `InitrdRoundTrip.ScheduleUnique` | src/kernel/crypto/aes.c:147-214 | the recurrence determines the round keys |
| `InitrdRoundTrip.PayloadParts` | misc/encrypt_initrd.py:73-80 | length, vector and ciphertext stand where the kernel looks for them |
| `InitrdRoundTrip.Decrypt` | src/kernel/nucleus.c:175-197 | decrypting a payload in memory leaves the image that was encrypted |
| `InitrdRoundTrip.RelocatedReadable` | src/kernel/initrd.c:632-661 | after relocation every file from header 1 on is readable where it is |
| `InitrdRoundTrip.ReadPieces` | src/kernel/initrd.c:150-179 | any sequence of reads delivers the file's bytes in order up to its end |
| `InitrdRoundTrip.TakeUpAndRead` | src/kernel/initrd.c:150-179 | decrypt, initialise, read in pieces: the bytes of the packed file |
| `InitrdRoundTrip.WriteAndRead` | misc/create_initrd.py:38-95 | write the image, encrypt, decrypt, initialise and read in any pieces: the file's bytes in order |
| `InitrdLookup.FindEntry` | src/kernel/initrd.c:315-327 | the first header from 1 on with this parent and name, or none |
| `InitrdLookup.FindDirectory` | src/kernel/initrd.c:308-330 | token by token from the root, through directories only |
| `InitrdLookup.FindFile` | src/kernel/initrd.c:221-279 | the file of the last name in the directory of the others |
| `InitrdLookup.HeadingBack` | misc/create_initrd.py:33-34 | parent, number, name and mode can be read back from a packed header, the name cut to 63 bytes |
| `InitrdLookup.MatchIsNamed` | src/kernel/initrd.c:315-327 | searching the headers for a parent and a name is searching that directory's entries for the name |
| `InitrdLookup.NamedShort` | misc/create_initrd.py:22-24 | where all names of a directory are short, cutting them keeps them apart |
| `InitrdLookup.FoundIsMeant` | src/kernel/initrd.c:308-330 | the kernel's search leads to the directory that the path leads to in the tree, or fails exactly when the path leads nowhere |
| `InitrdLookup.OpenedIsMeant` | src/kernel/initrd.c:221-279 | the header that open finds is that of the entry the path names in the tree, or none exactly when it names none |
| `InitrdLookup.ReadOnlyKind` | misc/create_initrd.py:25 | taking write permission away does not change what kind of file it is |
| `InitrdTree.HeadersDescribe` | src/kernel/initrd.c:632-661 | once the kernel has taken the image of a tree up, its headers describe that tree |
| `InitrdTree.TakeUpAndOpen` | src/kernel/initrd.c:150-330 | decrypt, initialise, look a path up and read in pieces: nothing for a path that names nothing, else the bytes of the file it names |
| `InitrdTree.BuildAndOpen` | misc/create_initrd.py:38-145 | for every tree, key and path: what a program reads there is what stands there in the tree, whatever the pieces |
| `Sha256.Schedule` | src/kernel/crypto/sha2.c:97-105 | the 64 words are the message schedule of section 6.2.2 of FIPS 180-2 |
| `Sha256.RoundInPlace` | src/kernel/crypto/sha2.c:111-123 | rotating the working variables in place is one round |
| `Sha256.Transf` | src/kernel/crypto/sha2.c:85-129 | folds the compression function over the blocks |
| `Sha256.FoldJoins` | src/kernel/crypto/sha2.c:85-129 | folding over joined blocks is folding over one part and then the other |
| `Sha256Stream.Sha256Context.Update` | src/kernel/crypto/sha2.c:151-183 | takes the message in whatever its length, unless the 32-bit sum of lengths wraps around to less than a block |
| `Sha256Stream.LongUpdate` | src/kernel/crypto/sha2.c:151-183 | buffer filled up, whole blocks from the message, and the rest together absorb the message |
| `Sha256Stream.Sha256Context.Final` | src/kernel/crypto/sha2.c:185-208 | the digest of the fold over the padded message |
| `Sha256Stream.PaddingStandard` | src/kernel/crypto/sha2.c:185-208 | the padding is that of section 5.1.1 of FIPS 180-2 if and only if the message is shorter than 2^29 bytes |
| `Sha256Stream.HashPieces` | src/kernel/crypto/sha2.c:140-208 | any split of a message under 2^29 bytes gives the standard's digest |
| `Md5.Step` | src/kernel/crypto/md5.c:143-184 | the loop is the four rounds of section 3.4 of RFC 1321 |
| `Md5.Md5Context.Update` | src/kernel/crypto/md5.c:76-104 | takes the bytes in, a step at every full buffer |
| `Md5.Md5Context.Final` | src/kernel/crypto/md5.c:109-138 | the digest of the fold over the padded message |
| `Md5.PaddedEnd` | src/kernel/crypto/md5.c:109-138 | what update and the last two words add is the padding of sections 3.1 and 3.2 of RFC 1321 |
| `Md5.HashPieces` | src/kernel/crypto/md5.c:61-138 | any split of a message gives the digest of the padded message |
| `BlockSplit.SplitUnique` | src/kernel/crypto/sha2.c:151-183 | whole blocks and a short rest are determined by the message |
| `Ext2.BlocksApart` | src/kernel/ext2.c:70-74 | different blocks are different sectors while the numbers fit 32 bits |
| `Ext2.InodePlace` | src/kernel/ext2.c:76-109 | the sector and offset address exactly the inode's 128 bytes, which never straddle a sector |
| `Ext2.ReadDirect` | src/kernel/ext2.c:111-129 | succeeds exactly when the list's entries allow it, and fills in their blocks or zeros |
| `Ext2.ReadSingly` | src/kernel/ext2.c:131-149 | the same through one list block, exactly when its pointer is not zero |
| `Ext2.ReadDoubly` | src/kernel/ext2.c:151-173 | succeeds exactly when the lists it comes to can be read; the lists whose pointer is not zero are read one behind the other, leaving no room for the missing ones |
| `Ext2.PackedReads` | src/kernel/ext2.c:151-196 | leaving no room for missing lists reads, at every one of n blocks, what the tree names there if and only if no missing list within them is followed by a present one |
| `Ext2.HoleHarms` | src/kernel/ext2.c:151-173 | a disk on which a hole is read as data that are not zero |
| `Ext2.ReadTriply` | src/kernel/ext2.c:175-196 | succeeds exactly when the doubly indirect blocks it comes to can be read; their lists are read one behind the other, leaving no room for missing ones |
| `Ext2.DoublyAt` | src/kernel/ext2.c:151-173 | block i * p + j is entry j of list i, or a hole when that list is missing |
| `Ext2.TriplyAt` | src/kernel/ext2.c:175-196 | block i * p * p + k is block k of the i-th doubly indirect tree, or a hole when that is missing |
| `Ext2.ReadsTree` | src/kernel/ext2.c:198-244 | the pointers a whole file is read through are those its tree names if and only if its doubly and triply indirect parts each have no missing list before a present one |
| `Ext2.ReadFile` | src/kernel/ext2.c:198-244 | succeeds exactly when the blocks it comes to can be read; then block k is the disk block that the tree names for k, or zeros, provided that no missing list comes before a present one |
| `LinkedList.List.Prepend` | src/kernel/list.c:59-110 | the links stay right and the data come first |
| `LinkedList.List.Copy` | src/kernel/list.c:133-165 | a fresh list with the function of each datum; the old one is unchanged |
| `LinkedList.List.Append` | src/kernel/list.c:167-220 | the links stay right and the data come last |
| `LinkedList.List.InsertBefore` | src/kernel/list.c:226-270 | the data come in front of the node, also at the head |
| `LinkedList.List.InsertAfter` | src/kernel/list.c:272-314 | the data come behind the node, also at the tail |
| `LinkedList.List.RemoveNode` | src/kernel/list.c:316-345 | exactly that node goes |
| `LinkedList.List.Validate` | src/kernel/list.c:17-46 | none of the assertions fails on a list the operations made |
| `LinkedList.List.FindFirst` | src/kernel/list.c:373-392 | the leftmost node with the data, or none |
| `LinkedList.List.FindLast` | src/kernel/list.c:394-413 | the rightmost node with the data, or none |
| `LinkedList.List.RemoveFirst` | src/kernel/list.c:415-430 | exactly the first occurrence goes |
| `LinkedList.List.FindNext` | src/kernel/list.c:449-475 | the first match in cyclic order behind the node, the node itself excluded, or none when there is none |
| `Scheduler.Ready.SwitchTask` | src/kernel/task.c:910-969 | refuses exactly a sleeping task; one that was waking up is awake |
| `Scheduler.Ready.Wake` | src/kernel/task.c:1010-1023 | wakes exactly the sleepers whose time has come |
| `Scheduler.Ready.FindBehind` | src/kernel/list.c:449-475 | the search along the links finds the place that the order of turns names |
| `Scheduler.Ready.TaskSwitch` | src/kernel/task.c:985-1069 | in every case who is current afterwards and in which state; a failing assertion only when the current task is off the queue and its head cannot run, so no sleeping task is switched to |
| `Scheduler.Nearer` | src/kernel/task.c:1036-1053 | a runnable task gets strictly nearer to its turn with every call |
| `Scheduler.ComesRound` | src/kernel/task.c:985-1069 | whatever the others do between the calls, a task runnable at each is current after at most as many calls as it is places behind |
| `Scheduler.WaitFor` | src/kernel/task.c:985-1069 | the same for the calls themselves, with every task's state rewritten at will in between; a sleeper counts from the call its time has come |
| `Scheduler.Ready.Sleep` | src/kernel/task.c:1082-1104 | when its assertions fail, and the tick that ends the sleep |
| `Scheduler.SleepLength` | src/kernel/task.c:1082-1104 | the sleep has the asked length if and only if it ends before the tick counter wraps around |
| `OpenFiles.Vfs.GetFilp` | src/kernel/vfs.c:16-20 | the slot's file, one slot past the limit included |
| `OpenFiles.Vfs.NewFilp` | src/kernel/vfs.c:40-54 | the lowest free slot, the one past the limit last; panics exactly when all are taken; the new file counts 0 |
| `OpenFiles.Vfs.Install` | src/kernel/initrd.c:253-272 | the end of an open: the count becomes 1 |
| `OpenFiles.Vfs.DestroyFilp` | src/kernel/vfs.c:56-63 | the reserved file is gone; its assertion fails exactly for the slot past the limit |
| `OpenFiles.Vfs.DoClose` | src/kernel/vfs.c:431-456 | -EBADF exactly for an empty slot or a file not open yet; otherwise the slot is empty, the count one lower, and the file gone with its last slot |
| `OpenFiles.Vfs.PipeClose` | src/kernel/pipe.c:248-282 | with an end's last descriptor its pointer becomes null, and with the last end the pipe is freed; the assertion holds |
| `OpenFiles.Vfs.Dup` | src/kernel/vfs.c:561-586 | -EBADF and -EMFILE exactly when due; otherwise the lowest free slot below the limit names the file too |
| `OpenFiles.Vfs.Dup2` | src/kernel/vfs.c:588-614 | what the slot names afterwards; counts are right if and only if it was not a file's last descriptor copied onto itself |
| `OpenFiles.Vfs.MakePipe` | src/kernel/pipe.c:17-69 | the two lowest free slots, two files that count 1 and a pipe between them; panics exactly when there are no two |
| `OpenFiles.Vfs.CreateTask` | src/kernel/task.c:516-550 | an empty table, or one with three files that count 1 |
| `OpenFiles.Vfs.Fork` | src/kernel/task.c:643-652 | the table is shared; counts are right if and only if the slot past the limit was empty |
| `OpenFiles.Vfs.Exit` | src/kernel/task.c:171-184 | every slot below the limit is closed and the table gone; counts are right if and only if the slot past the limit was empty |
| `Descriptors.FilesAreNamed` | src/kernel/vfs.c:431-456 | with right counts a file exists exactly while some slot names it |
| `Descriptors.EndNullIffUnnamed` | src/kernel/pipe.c:248-282 | an end's pointer is null exactly when no slot names that end, and a pipe exists only while one is named |
| `Descriptors.CloseStep` | src/kernel/vfs.c:431-456 | closing any slot keeps counts and pipes right |
| `Descriptors.PipeStep` | src/kernel/pipe.c:17-69 | two reserved files become the ends of a new pipe |
| `Descriptors.ForkStep` | src/kernel/task.c:643-652 | a copied table with the counts of its first slots raised is right if and only if the last slot is empty |
| `Descriptors.ExitStep` | src/kernel/task.c:171-184 | dropping a table without its first slots is right if and only if the last slot is empty |
| `OpenFiles.Take` | src/kernel/vfs.c:40-614 | whichever step any task takes, exactly when it panics and what the tables and files are afterwards; counts and pipes are then right if and only if the step is sound |
| `OpenFiles.Run` | src/kernel/vfs.c:40-614 | over any run of steps of any number of tasks, opens interrupted half-way included, the tables are what the steps make of them one by one and every count is the number of slots; it ends early only at a step that cannot come, is not sound, or panics |
| `OpenFiles.OntoItself` | src/kernel/vfs.c:588-614 | a new user task that copies descriptor 0 onto itself is left with a count that is wrong |
| `OpenFiles.PastTheLimit` | src/kernel/vfs.c:40-54 | so is a task that opens a file in every slot, the one past the limit included, and then forks or exits |
| `PacketHandler.Worker.constructor` | src/kernel/net/nethandler.c:24-42 | eight empty, cleared buffers |
| `PacketHandler.Worker.AddPacket` | src/kernel/net/nethandler.c:45-70 | an empty packet fails an assertion, one longer than a buffer overruns it if one is empty; any other goes into the first empty buffer or, when there is none, is dropped, and nothing else changes |
| `PacketHandler.Worker.TaskStep` | src/kernel/net/nethandler.c:72-100 | exactly which step comes next and what it does; it keeps the invariant, delivers in order of finishing, leaves undelivered packets' bytes alone, and unless idle comes nearer to being done |
| `PacketHandler.AcceptedMore` | src/kernel/net/nethandler.c:45-70 | accepting keeps every packet in one buffer or delivered once |
| `PacketHandler.DeliveredMore` | src/kernel/net/nethandler.c:94-99 | delivering moves a packet from its buffer to the deliveries, and no other |
| `PacketHandler.EachOnce` | src/kernel/net/nethandler.c:45-100 | deliveries and buffers together have every accepted packet exactly once, with its bytes |
| `PacketHandler.Run` | src/kernel/net/nethandler.c:45-100 | every interleaving of interrupts and steps has the outcome of its events one by one and fails exactly where that does, at a packet that is empty or, with a buffer for it, too long; deliveries and buffers together have each accepted packet exactly once, unchanged |
| `PacketHandler.Drain` | src/kernel/net/nethandler.c:72-100 | once the interrupts pause, a bounded number of steps delivers every accepted packet |
| `Calendar.YearLength` | src/kernel/time.c:238-239 | the closed formula of section 4.16 of POSIX.1-2017 grows by exactly the length of a year as the source's leap-year test has it |
| `Calendar.MonthLength` | src/kernel/time.c:230-236 | the two tables of months agree, leap years included |
| `Calendar.NumberedInOrder` | src/kernel/time.c:287-322 | the day numbers start at the epoch and go up by one from each day to the next |
| `Calendar.DatesOrdered` | src/kernel/time.c:287-322 | a later date has a larger day number |
| `Calendar.SecondsOrdered` | src/kernel/time.c:287-322 | valid times are ordered exactly as their seconds are |
| `Calendar.Excess` | src/kernel/time.c:245-262 | the error of the carried fields is never negative, and zero exactly when no field is above its range |
| `Calendar.Time.CarryDays` | src/kernel/time.c:270-284 | the loop ends with the day within its month and keeps the day number |
| `Calendar.Time.ValidateStructure` | src/kernel/time.c:241-285 | the time denoted changes by exactly the error of the carried fields; its tables are read outside exactly for months that are not there |
| `Calendar.Time.DaysOfYears` | src/kernel/time.c:305-316 | the loops over the years, before and after 1970, compute the closed formula |
| `Calendar.Time.KernMktime` | src/kernel/time.c:287-322 | for every year and day and exactly the months 0 to 11, the seconds of the closed formula plus the error of out-of-range fields |
| `Calendar.Time.TimeOfDay` | src/kernel/time.c:324-341 | an hour ahead, and in the last hour of a day a day more |
| `CStrings.StrSpn` | src/lib/string.c:219-235 | the longest prefix of characters among, or not among, the delimiters |
| `CStrings.StrRChr` | src/lib/string.c:68-81 | the last place of the character, or none exactly when it is absent |
| `CStrings.StrLCpy` | src/lib/string.c:178-199 | as much of the string as fits, always terminated |
| `CStrings.StrLCat` | src/lib/string.c:205-217 | as much as fits behind the string that is there |
| `CStrings.StrTokR` | src/lib/string.c:237-256 | the next token stands cut off at its place, and the rest of the tokens come from the string behind it; none exactly when there are none |
| `CStrings.TokensProper` | src/lib/string.c:237-256 | tokens are not empty and have no delimiter in them |
| `Paths.PathJoinOne` | src/lib/path.c:5-34 | in place, one component more, cut where the buffer's limit is; what it returns; it writes behind the buffer exactly when that is full, has no slash at its end, and a component is put behind it |
| `Paths.OverrunExactly` | src/lib/path.c:36-47 | joining components writes behind the buffer exactly when that is full, has no slash at its end, and a component comes to be joined before any is taken off |
| `Paths.CutUnreported` | src/lib/path.c:26-33 | the whole path is there exactly when it is shorter than PATH_MAX, and a cut is not reported exactly at PATH_MAX |
| `Paths.PathJoin` | src/lib/path.c:36-47 | component by component, until one is refused or overruns the buffer |
| `Paths.JoinRendered` | src/lib/path.c:5-34 | joining a component to a normal form is one step of the walk, less the last character when it fills the buffer |
| `Paths.PathCollapseDots` | src/lib/path.c:51-68 | refuses exactly paths that are not absolute; otherwise the buffer has the normal form of the components of at most 255 characters, less its last character when it fills the buffer |
| `Paths.CollapsedIsNormal` | src/lib/path.c:51-68 | with components of at most 255 characters it is the normal form of the walk |
| `Paths.CollapsedExactly` | src/lib/path.c:51-68 | it is the normal form of the walk if and only if, read from its end, the path has no name that stays and is too long, nor one that stays and is taken away by a ".." of an overlong one |
| `Paths.HarmlessAhead` | src/lib/path.c:51-68 | without "..", that is so if and only if no component has more than 255 characters |
| `Paths.OverlongHarms` | src/lib/path.c:51-68 | a name, an overlong component and ".." collapse to the root in place of the name |
| `Paths.OverlongPath` | src/lib/path.c:51-68 | so does the path that is written with them: its collapsed form is "/" where the walk gives the name |
| `Paths.CollapsedAgain` | src/lib/path.c:51-68 | no empty component, "." or ".." is left, and collapsing again changes nothing |
| `Paths.CollapsedShorter` | src/lib/path.c:65-66 | the result is never longer than the path |
| `Paths.TokensOfRender` | src/lib/path.c:51-68 | a normal form's tokens are its names |
| `Paths.PathDirname` | src/lib/path.c:70-83 | in place, the path up to its last slash, or the root |
| `Paths.PathBasename` | src/lib/path.c:85-100 | in place, the last name, at most 255 characters of it; it reads outside the path exactly when there is no slash but at its end |
| `Paths.DirnameOfRender` | src/lib/path.c:70-83 | the directory of a normal form is the normal form without the last name |
| `Paths.DirectoryAndName` | src/lib/path.c:70-100 | directory and last name of a normal path other than the root join to that path |

## Left out

- Interrupt flags, mutexes and debug output in all files; the disk, the clock and the network card are parameters.
- heap.c: leak tracing, heaps other than the kernel's, krealloc, heap_destroy, failure of the page-frame
  allocator while the heap grows, and a magic number that is in no single store but arises from overlapping stores at
  different alignments.
- Heaps.Heap.Expand: takes the page frames for the new pages to be available.
- Heaps.Heap.HeapFree: promises nothing about the heap once a release has been misled.
- Heaps.Heap.HeapAlloc: does not say whether it succeeds while an index is full or has one entry left, or when size and
  overhead are at most 20 bytes in 32 bits, which depends on the order of the free index.
- HeapClient.Run: for such an allocation neither.
- vmm.c, pmm.c: page tables and other kernel allocations, the present, dirty and accessed bits, pmm_init's reading
  of the memory map (the frames in use at the start are a parameter; frame 0 is one of them).
- FrameAllocators.FrameAllocator.FirstUsed: is stated, like the search it is part of, for memory that does not end in the last
  128 KiB below 4 GiB.
- FrameAllocators.FrameAllocator.AllocContinuous: is stated for memory that does not end in the last 128 KiB below 4 GiB, where
  the search's own addresses wrap around; it promises nothing about which run is found, because the source tests
  the restart place only when it marks it.
- VirtualMemory.Machine.MapPage: refuses every address that is not a user's, where the source fills an empty entry of an
  existing kernel page table.
- VirtualMemory.Machine.AllocUser: refuses every range that reaches a kernel address, for the same reason.
- aes.c: counter mode, ECB entry points and the choice of key size at compile time (it is a parameter).
- The image tools: how the host lists a directory (the tree is a parameter, names as a file system gives them, links to
  directories as empty ones), broken links, base64, the hash that makes a key of the password.
- InitrdListing.Collect: the root entry stands for "/" of the host and not for the directory that is walked, because that is
  the path the tool joins; what os.stat says of it is a parameter.
- initrd.c: listing directories, seeking, stat, and mounting. Paths come to InitrdLookup.FindFile as their components; header 0
  is the null entry, which the kernel neither relocates nor searches, and the root is header 1.
- Initrd.Read: returns the count as it is; from 2^31 on the source's int is negative.
- InitrdTree.BuildAndOpen: says nothing about the bytes of device files and sockets that the tool takes for directories.
- Ext2.ReadFile: the buffer counts in blocks, and the number of blocks comes from the inode's sector count, which includes
  the blocks of pointers, so a file may need a pointer that is absent and fail the source's assertion; exactly when it does
  is the condition Ext2.FileOk.
- ext2.c: the superblock, directories, symbolic links, reading at an offset.
- list.c: list_remove_last and list_destroy.
- task.c: creating and killing tasks beyond their descriptors, wait, I/O waits, page directories and floating-point state on a switch.
- Scheduler.WaitFor: leaves out calls cut short by next_task or did_execve; what those do is in Scheduler.Ready.TaskSwitch.
- Scheduler.Ready.Sleep: ends before the yield; the tick comes in as a parameter.
- vfs.c, pipe.c: what is read and written through descriptors, mount points and paths of open. Open files and pipes
  are numbered addresses in maps, so that two tables naming one file is visible in the state; memory handed out is a parameter that
  is not in use. A count is never negative.
- OpenFiles.Vfs.Dup2: a copy onto a file's last descriptor is modelled as leaving the slot with the freed file's address; the
  write to the freed memory itself is not.
- nethandler.c: what the worker's function does with a packet beyond reading it from front to back.
- PacketHandler.Worker.AddPacket: a packet longer than its buffer is a failure, and what it overwrites is not modelled.
- Calendar.Time.KernMktime: results beyond the range of time_t.
- time.c: reading the clock chip and the time zone.
- Paths.PathJoinOne: promises nothing about the memory once it has written behind the buffer.
- Paths.PathJoin: neither.
- path.c, string.c: null pointers, and empty paths, where the source reads in front of the string.
- ata.c, fat.c, the console, shell, drivers and user programs.
