# Verification of the xrlinux boot loader and of two pieces of its toolchain

The boot loader of xrlinux brings up a 32-bit XR/17032 machine: it manages the memory the firmware left free, reads an
ext2 partition through a small block cache, builds a flattened device tree, loads a kernel image behind page tables, and
lets the other processors go. The patches to GCC, binutils and glibc add byte and halfword atomics and lazy binding.
This project models that machinery in Dafny, keeps the shape of the code (intrusive lists in memory, buffers and tables
updated in place, loops with the same tests), and proves what each part is for.

| files | what they model |
|---|---|
| `Lists` | `bootloader/list.h`: intrusive doubly linked lists, as words in a flat memory |
| `HeapSpec`, `HeapSafety`, `HeapRuns`, `HeapTheorems` | `bootloader/memory.c` as a state machine on ranges, its invariant, and its theorems over runs |
| `HeapServes` | what callers get from it: room that is there is found, blocks are no larger than asked for, freed bytes are free |
| `HeapMemory`, `HeapHeaders`, `HeapPayloads`, `HeapCut`, `Heap` | the same operations on in-band headers threaded on two lists, as class `Heap`, and what they leave alone in memory; `HeapCut` follows the writes of an allocation one after another |
| `HeapLimits` | inputs with which the heap is not sound afterwards, and where the border lies |
| `Basics`, `Buffers` | 32-bit words, optional values; byte buffers |
| `DtSpec`, `DtTree`, `DtParse`, `DtWalk` | the device tree, its size accounting, a reader written from section 5.4 of the Devicetree Specification, and the walk |
| `DtEdit` | what the builder's calls do to the tree itself, and what its values and paths read back as |
| `DtStrings`, `DtTable` | the interning hash table, as class `StringTable` |
| `DtWriter`, `DtBlob`, `DeviceTree`, `DtBuilder` | the builder and its blob, as class `Builder` |
| `CacheSpec`, `Cache` | `bootloader/partition.c`, as classes `BlockCache` and `Partition` |
| `Ext2Spec`, `Ext2Map`, `Ext2Wide`, `Ext2` | `bootloader/filesystem.c`, as class `FileSystem`; `Ext2Wide` compares what it sees with the file system that is there |
| `Ext2Layout` | the structures of ext2 as they are on the disk, the places of the blocks of a file, and where paths lead, stated without the loader's decoders and searches |
| `Paging`, `Loader` | `bootloader/paging.c`, `BiLoadKernel` of `bootloader/main.c` and the mapping of the blob in `bootloader/dt.c`, as classes `PageTables` and `KernelLoader` |
| `Rendezvous` | the LL/SC rendezvous of `bootloader/a4x/a4x.c`, for any number of processors and every interleaving |
| `Subword`, `SubwordRuns` | GCC's byte and halfword atomics, their bit arithmetic and their interleavings |
| `Xr17032`, `Plt`, `PltLink` | the instructions of the procedure linkage table, run together with glibc's trampoline; who writes the table and who prepares it |

Conventions. `BlCrash` does not return, so a method that may crash returns `crashed`; its contract says what holds when
it did not, and for what reasons it can crash. Functions of a value only (`Allocate`, `Resolve`, `TreeOf`, ...) are the
specifications; the methods of the classes are proved to compute them, and the lemmas prove what they mean. Integers of
the C code are unbounded here and every place where the code can wrap, or checks that it did not, writes the wrap out.

## What the code does against its intent

Where the code does not keep a promise for all inputs, the model follows the code, a lemma names an input that shows it,
and the exact condition is proved.

- `BlAddHeapRange` looks at the next range only if there is a previous one. The heap stays sound exactly when regions
  arrive in ascending order (`AddExact`); `DescendingOverlaps` gives a second region that overlaps the first.
- `BlResizeHeap` shrinks by placing the new header at the old end, and grows without checking that the free range behind
  the block is large enough. It is right exactly when less than a header is given up, or when the range suffices
  (`ResizeInPlaceExact`); `ShrinkBreaks` and `GrowBreaks` are inputs of either kind. Both callers grow by one element of
  at most a header's size.
- `BlAllocateHeap` splits a header off behind the block before it takes the old header off the lists. A permanent block
  has no header of its own, so the two can overlap. Where the new header only covers the end and the flag of the old one,
  which are not read any more, nothing is lost; the lists come out as they should exactly when the block ends at least
  16 bytes, the length of the links, behind the start of the range, or too little is left for a header (`CutExact`,
  `SplitExact`). Every request of more than 12 bytes is fine (`LargeIsClear`). An initrd of 4 bytes turns both lists into
  circles if the first range that fits starts on a page (`SmallPermanentCircles`, `PageStays`).
- The loader computes the place of a block pointer in 32 bits (`PointerAddress`), so it takes pointers from the wrong
  place exactly when a pointer block it meets starts at 4 GiB or above (`PlacesExact`); `HighPointer` is such a file.
  Otherwise it sees the blocks and bytes that are there (`BlockTrue`, `BytesTrue`), and a path leads where it should if
  the directories and links that it goes through are in reach (`ResolveTrue`); other files do not matter. In a partition
  of at most 4 GiB with its pointers inside everything is in reach (`SmallPartition`, `SmallPartitionFile`, `SmallPaths`).
- `BlFsFileRead` computes `position - fileSize`, so it does not look at the end of a request: it reads whatever starts
  inside the file (`ReadsFileExact`, `ReadsBeyondEnd`).
- `end`, the rounded end of a kernel in `BiLoadKernel`, wraps to zero if the image does not fit below the last page of the
  address space (`EndExact`). Such a kernel is accepted, and behind the pages of its file nothing is mapped: the whole
  image is mapped exactly if it fits (`TopExact`); `LateKernel` is one that does not.
- The check that the device tree window does not overlap the kernel compares addresses, not pages. Mapping the window
  leaves the kernel's pages alone exactly when the blob does not end in the kernel's first page (`WindowExact`); with a
  page-aligned kernel it never does (`AlignedWindow`), otherwise it can (`UnalignedWindow`).
- `bootloader/PROTOCOL.md` lets a kernel start at any address. Pages that lie inside the file are read around the cache,
  which needs whole sectors. With a good header, a readable file and enough pages the loader crashes exactly if the
  kernel does not start on a sector boundary and the first or the last byte of such a page is in a block on the disk
  (`LoadKernel`); `TornKernel` is an accepted kernel of that kind.
- The same document allows `MaxDtbEnd` to equal the rounded `DtbAddress`; the code refuses exactly that (`AreaExact`,
  `AreaOfOneByte`). The end of the blob is computed in 32 bits: the area is refused when it should be exactly if that
  does not wrap, or what is left is beyond the limit as well (`RefusalExact`, `WrappedEnd`).
- The rendezvous leaves safely exactly when it waits for at least as many responses as it kicks processors, or kicks
  nobody (`SafeExactly`); the device tree code counts them so (`CountedCpus`).

## Model

| member | source | states |
|---|---|---|
| Lists.InsertBefore | bootloader/list.h:28-41 | on words in memory, the node is in the list just before the anchor (or last), every other node stays in order, and only link words of this list are written |
| Lists.InsertAfter | bootloader/list.h:43-56 | the same behind the anchor, or first |
| Lists.Remove | bootloader/list.h:58-64 | the list without that node; the removed node keeps its stale links, which callers follow |
| Lists.NullAtEnd | bootloader/list.h:20-21 | the pointer a traversal holds is null exactly behind the last node |
| HeapSafety.AlignUpFacts | bootloader/compiler.h:9-19 | rounding up in 32 bits gives the next multiple or wraps to zero, for every power of two |
| HeapSafety.TryFitSound | bootloader/memory.c:74-80 | the unchecked 32-bit sums take a range only if the aligned block with its header really lies inside it |
| HeapServes.AlignUpLowest | bootloader/compiler.h:9-14 | rounding up gives the lowest multiple at or above an address, whenever there is one in the address space |
| HeapServes.AllocateExact | bootloader/memory.c:65-112 | an allocation succeeds if and only if some free range holds an address that is a multiple of four and of the alignment, with a header's room in front of it unless permanent, and with the size and one more byte behind it |
| HeapServes.AllocatesFirst | bootloader/memory.c:73-80 | it takes the first range on the free list that has room, at the lowest address that will do |
| HeapServes.AllocateTakes | bootloader/memory.c:82-107 | the block is as large as asked for, less than a header is lost on either side, and all other free bytes stay free |
| HeapServes.FreeReturns | bootloader/memory.c:169-200 | the free bytes after freeing a block are those before and the block's, its header included |
| HeapServes.AddGives | bootloader/memory.c:18-63 | adding memory frees bytes of the region only, and every aligned stretch of at least a header that is clear of all ranges and has none between it and the region's start |
| HeapServes.ResizeCrashes | bootloader/memory.c:114-167 | resizing crashes if and only if there is no block yet or the block has to move, and no free range has room |
| HeapServes.ResizeServes | bootloader/memory.c:114-167 | a block moves only if it is too small and no free range starts at its end; it then holds the size, takes no more bytes than that needs, is aligned if it moved, and its old bytes are free |
| HeapRuns.AddExact | bootloader/memory.c:18-63 | adding a region keeps the heap sound if and only if it comes behind some range, or ends before all of them without touching a free one, or is too small to be taken |
| HeapRuns.DescendingOverlaps | bootloader/memory.c:30-34 | a concrete region added below a free range gives the two overlapping ranges 1024 to 5120 and 4096 to 8192 |
| HeapRuns.ResizeInPlaceExact | bootloader/memory.c:122-161 | resizing in place keeps the heap sound if and only if the block shrinks by less than a header or the free range behind it is large enough |
| HeapSafety.ShrinkExact | bootloader/memory.c:127-140 | the shrink branch is right exactly when it changes nothing |
| HeapSafety.GrowExact | bootloader/memory.c:144-161 | the grow branch is right exactly when the free range behind the block reaches the new end |
| HeapLimits.ShrinkBreaks | bootloader/memory.c:127-140 | shrinking a block of a page to 64 bytes puts a header behind the memory of the heap and loses the bytes given up |
| HeapLimits.GrowBreaks | bootloader/memory.c:144-161 | growing a block by more than the free range behind it gives a block that ends beyond that range, and a free range that ends before it starts |
| HeapCut.CutExact | bootloader/memory.c:82-107 | whatever the range, the block and the neighbours: the writes, one after another, leave both lists in memory as the specification has them if and only if the new header does not reach into the links of the old one |
| HeapLimits.SplitExact | bootloader/memory.c:65-112 | the same for a request: the writes of an allocation that finds a range are right if and only if the request is clear |
| HeapLimits.LargeIsClear | bootloader/memory.c:65-112 | every request of more than 12 bytes is clear |
| HeapLimits.SmallPermanentCircles | bootloader/memory.c:82-97 | four permanent bytes at the start of the only range, with any alignment that lets them stay there: the writes leave both lists going round for ever |
| HeapLimits.PageStays | bootloader/main.c:150-151 | the alignment of an initrd lets them stay there |
| HeapRuns.RunInv | bootloader/memory.c:18-200 | every run of legal add, allocate, resize and free requests keeps the invariant that ties both lists to the address layout |
| HeapTheorems.HeapSafe | bootloader/memory.c:18-200 | after every run from the empty heap: ranges aligned, sorted, disjoint and at least a header long, free ranges never touch, the free list holds exactly the free ranges, once each |
| HeapTheorems.EveryByteOnce | bootloader/memory.c:65-112 | conservation after every run: each donated byte is in exactly one free range, live block, permanent block or gap smaller than a header, and no other byte is in any |
| HeapTheorems.AllocationIsFresh | bootloader/memory.c:65-112 | an allocation is aligned, lies with its header inside one range that was free, and every block in use stays |
| HeapTheorems.FreeKeepsOthers | bootloader/memory.c:169-200 | freeing a block leaves every other block in use where it is |
| HeapTheorems.StepLeaves | bootloader/memory.c:18-200 | whatever the request, every block in use that it does not name stays in the list where it is, also when memory is added or a neighbour grows |
| HeapTheorems.MaximalRangesUnique | bootloader/memory.c:177-195 | free ranges that never touch are determined by the bytes they cover |
| HeapTheorems.FreeingEverythingRestores | bootloader/memory.c:65-200 | if no request was permanent or over-aligned, then once all blocks are free again, in whatever order, the ranges are those from before |
| HeapHeaders.InvIsSound | bootloader/memory.c:18-200 | under the invariant no two headers overlap and the free list names each free header once, so list operations do not interfere |
| HeapPayloads.HeaderWritesUntouched | bootloader/memory.c:18-200 | an operation that writes only headers keeps every block in use, every permanent block and all memory that is not the heap's |
| HeapPayloads.PayloadsKept | bootloader/memory.c:18-200 | over every run of requests and stores: a block that no request names and no store hits is still in use at the end, with the contents it had |
| HeapPayloads.PermanentKept | bootloader/memory.c:92-111 | over every run: a byte of a permanent block, or of a gap, changes only by a store to itself |
| HeapAllocator.Heap.AddHeapRange | bootloader/memory.c:18-63 | on headers in memory: the lists become those of the specification; all blocks stay with their contents, permanent ones too, and nothing outside of the heap is written |
| HeapAllocator.Heap.FindPlace | bootloader/memory.c:23-30 | finds the last range below the region; without one the next range is null as well |
| HeapAllocator.Heap.FindFit | bootloader/memory.c:73-80 | the loop stops at the first range of the free list that fits, or at its end |
| HeapAllocator.Heap.AllocateHeap | bootloader/memory.c:65-112 | crashes exactly when no free range has room, in the words of AllocateExact; otherwise both lists, the split-off ranges and the returned address are those of the specification, and all blocks, permanent ones too, stay with their contents |
| HeapAllocator.Heap.FreeHeap | bootloader/memory.c:169-200 | the four ways of merging give the specified lists, and all other blocks, permanent ones too, stay with their contents |
| HeapAllocator.Heap.ResizeHeap | bootloader/memory.c:114-167 | crashes exactly when ResizeCrashes says so; null, free, grow and move paths give the specified lists; all other blocks, permanent ones too, stay with their contents, and the payload is at the returned address |
| HeapAllocator.Heap.MoveBlock | bootloader/memory.c:163-166 | allocating, copying and freeing moves the payload and touches no other block, permanent or not |
| DtStrings.LowBitsIsMod | bootloader/dt.c:75 | masking with capacity minus one is the remainder by a power of two |
| DtStrings.InternedInBucket | bootloader/dt.c:74-82 | a string is in the table if and only if it is in the chain of its own bucket |
| DtStrings.InsertKeepsBuckets | bootloader/dt.c:105-109 | linking an entry in front of its bucket keeps every bucket exact and touches no other list |
| DtStrings.FlatPermutes | bootloader/dt.c:330-331 | going through the buckets meets every entry exactly once |
| DtTable.StringTable.GetString | bootloader/dt.c:71-114 | equal strings get the same entry; a new string gets the new one; no entry is lost or moved across growth; the table stays at most three quarters full with a power-of-two capacity |
| DtTable.StringTable.Grow | bootloader/dt.c:84-103 | doubling the table keeps the set of entries, each in the bucket of its hash |
| DtTable.StringTable.AddEntry | bootloader/dt.c:105-113 | appends one entry and accounts for its bytes |
| DtTable.BlockHolds | bootloader/dt.c:328-342 | the strings lie one behind the other at their offsets, each with its NUL |
| DtTable.StringTable.WriteStrings | bootloader/dt.c:328-342 | writes that block, gives each entry its offset, and fills exactly the accounted size, so its assertions hold |
| DtTree.CreateSize | bootloader/dt.c:134-135 | creating a node adds exactly the node's bytes to the structure size |
| DtTree.AddSize | bootloader/dt.c:143-149 | adding a property adds exactly the property's bytes |
| DtTree.CreateSpanning | bootloader/dt.c:124-138 | walking down from the root meets every node exactly once, whatever the nodes weigh, also after creating a node anywhere |
| DtTree.StructureSizeExact | bootloader/dt.c:50 | the accounted structure size is the length of the structure block that will be written |
| DtTree.RunInv | bootloader/dt.c:124-150 | every run of create-node and add-property calls keeps the tree invariant |
| DtEdit.CallEdits | bootloader/dt.c:124-150 | whatever the nodes are called inside, a call adds one childless node behind the children, or one property behind the properties, of the node it names, found by child numbers from the root, and leaves the rest of the tree as it was |
| DtParse.NodeRoundTrip | bootloader/dt.c:349-376 | reading what is written for a tree, wherever it is in a block, gives the tree back and stops right behind it |
| DtParse.StructureRoundTrip | bootloader/dt.c:344-379 | a reader written from section 5.4 of the Devicetree Specification, with the token values of that section (1, 2, 3, 4 and 9) and its own padding, gets the tree back: names, property order and bytes, child order |
| DeviceTree.RunRoundTrip | bootloader/dt.c:124-183 | the same for the tree of any run of calls, together with the exact size |
| DtWalk.EnterStep | bootloader/dt.c:350-362 | what remains when a node is met is its opening and then what follows its first zero children |
| DtWalk.DownStep | bootloader/dt.c:367-370 | going down or sideways, what remains is the next child, then what follows it |
| DtWalk.UpStep | bootloader/dt.c:371-375 | without a further child, what remains is the end token, then what follows at the parent |
| DeviceTree.WalkTest | bootloader/dt.c:350 | comparing the previous node with the parent tells a node that is opened from one that is come back to |
| DtWriter.AddToken | bootloader/dt.c:269-277 | appends a big-endian word within the block; the assertion in the code is the precondition that the callers are proved to meet |
| DtWriter.AddDataAndAlign | bootloader/dt.c:257-267 | appends the data and zeros up to a word boundary |
| DtBuilder.Builder.CreateNode | bootloader/dt.c:124-138 | the new node is the last child of its parent in memory, the size is exact, and the rest of the tree is as before |
| DtBuilder.Builder.DoAddProperty | bootloader/dt.c:140-150 | the property is the last one of its node, its name is interned, and the size is exact |
| DtBuilder.Builder.AddPropertyU32s | bootloader/dt.c:158-166 | the value is the words in big-endian order |
| DtBuilder.Builder.AddPropertyStrings | bootloader/dt.c:168-183 | the value is the strings one after another, each with its NUL |
| DtEdit.WordsRead | bootloader/dt.c:158-166 | each number is read back as the big-endian word at its place |
| DtEdit.StringsRead | bootloader/dt.c:168-183 | splitting the value at its NULs gives the strings back |
| DtBuilder.Builder.NodePath | bootloader/dt.c:201-223 | the path is the names from the root down, each behind a slash; the backward fill ends at index 0 |
| DtEdit.PathRead | bootloader/dt.c:201-223 | the components of the path are the names from below the root down to the node |
| DtBuilder.Builder.WriteProps | bootloader/dt.c:354-360 | writes the properties in order, with the offsets of their names |
| DtBuilder.Builder.WalkOn | bootloader/dt.c:349-376 | one round of the stackless walk: what is written and what remains make up the structure block, and the remainder shrinks or the walk turns to the next child |
| DtBuilder.Builder.WriteStructure | bootloader/dt.c:344-379 | the parent-pointer walk terminates and writes exactly the recursive serialisation, within its block |
| DtBlob.BlobRead | bootloader/dt.c:304-317 | a blob with header, reservation terminator, structure and strings in these places reads back as its tree |
| DtBuilder.Builder.BuildBlob | bootloader/dt.c:279-382 | a reader that expects the magic number 0xd00dfeed, version 17 and compatible version 16 in their places gets exactly the tree that was built out of the finished blob, and the number of the booting processor |
| CacheSpec.RecentByLastUse | bootloader/partition.c:30-62 | the recency list holds exactly the blocks ever used, ordered by when each was last used |
| CacheSpec.UseHit | bootloader/partition.c:31-37 | a hit at position k of the first n moves that block to the front of them |
| CacheSpec.UseMiss | bootloader/partition.c:41-48 | a miss puts the block in front and drops the last of n |
| Cache.BlockCache.Find | bootloader/partition.c:31-32 | finds a cached block, and misses only what is not cached |
| Cache.BlockCache.MoveToFront | bootloader/partition.c:33-35 | a hit: the entry is first, all others keep their order and buffers |
| Cache.BlockCache.Claim | bootloader/partition.c:41-48 | an unused entry, or the one used least recently, taken off the list; buffers stay distinct |
| Cache.BlockCache.Fill | bootloader/partition.c:50-61 | crashes exactly when the sectors cannot be read; otherwise the buffer shows the block and the entry is first |
| Cache.BlockCache.GetEntry | bootloader/partition.c:30-62 | after any history the list is the first 16 of the most recently used blocks, and the returned buffer shows the block on disk; it crashes exactly when the block is not cached and cannot be read |
| Cache.TouchedBlocks | bootloader/partition.c:72-84 | the blocks a read uses are those from the one with its first byte to the one with its last, each once and in order |
| Cache.BlockCache.ReadCached | bootloader/partition.c:72-84 | the chunk loop terminates and delivers exactly the requested disk bytes, using each touched block once and in order; it crashes only for a touched block that cannot be read |
| Cache.BlockCache.ReadFromDisk | bootloader/partition.c:64-85 | both paths deliver the disk bytes; around the cache parts of sectors crash, and the cache stays as it was |
| Cache.PathsAgree | bootloader/partition.c:64-85 | where both succeed, cached and bypassing reads deliver the same bytes |
| Cache.Partition.Read | bootloader/partition.c:145-150 | delivers exactly that slice of the partition; crashes beyond its bounds, even if the end wraps around 64 bits, and otherwise only on an unreadable disk or parts of sectors around the cache |
| Ext2Map.SlotPathsDistinct | bootloader/filesystem.c:162-187 | two logical blocks have the same path through the block map if and only if they are the same |
| Ext2Layout.SingleIndirect | bootloader/filesystem.c:162-187 | behind the twelve direct blocks come the blocks of the pointers in the first indirect block, in their order; a pointer is the little-endian word at four times its index |
| Ext2Layout.DoubleIndirect | bootloader/filesystem.c:162-187 | then those behind two pointers, for every pair of indices, the second counting fastest |
| Ext2Layout.TripleIndirect | bootloader/filesystem.c:162-187 | then those behind three pointers |
| Ext2Layout.BeyondMap | bootloader/filesystem.c:166-175 | exactly the blocks behind these are beyond the map |
| Ext2Layout.FileByteIs | bootloader/filesystem.c:189-207 | a byte of a file is in the block of its position divided by the block size, at the remainder, or zero in a hole |
| Ext2Layout.InodeRoundTrip | bootloader/filesystem.c:82-104 | the 128 bytes of an inode, field by field in the order on the disk, read back as that inode, whatever is in the unused fields |
| Ext2Layout.SizeIs | bootloader/filesystem.c:209-217 | the two halves of the size of a large file make up its size; a directory has only the lower one |
| Ext2Layout.InodesInOrder | bootloader/filesystem.c:126-142 | inodes are numbered from 1 through the tables of the groups, one behind the other; the table is at the block in the third word of the group's 32-byte descriptor |
| Ext2Layout.DirectoryRead | bootloader/filesystem.c:106-111 | a directory made of any encoded entries is well-formed, and a name leads to the first used entry with that name, or to none if there is none |
| Ext2Layout.TypesAre | bootloader/filesystem.c:16-19 | directories, regular files and links have the modes from 0x4000, 0x8000 and 0xa000 on |
| Ext2Layout.NameLeads | bootloader/filesystem.c:297-347 | a name leads from a directory to the inode of its entry, or where the text of a link leads from that same directory, unless that is the fifth nested path |
| Ext2Layout.AbsolutePath | bootloader/filesystem.c:300 | a path that starts with a slash leads from everywhere where its rest leads from the root |
| Ext2Layout.PathSplit | bootloader/filesystem.c:304-344 | a longer path leads where its last part leads from the directory that the part before leads to; a slash at the end asks for a directory |
| Ext2Layout.FileFound | bootloader/filesystem.c:349-359 | a file is found exactly if its path leads from the root to a regular file |
| Ext2Map.WidenIsReach | bootloader/filesystem.c:166-173 | the 32-bit block counts of the level search do not wrap while they matter |
| Ext2Map.PointerAddress | bootloader/filesystem.c:156-160 | the 32-bit address of a pointer is right exactly when its block starts below 4 GiB |
| Ext2Map.DescendIsSlot | bootloader/filesystem.c:177-186 | the walk along digits finds the slot of the recursive radix tree, with pointer places in 32 bits as well as without that limit |
| Ext2Wide.PlacesExact | bootloader/filesystem.c:156-160 | the walk takes its pointers from where they are if and only if every pointer block it meets starts in the first 4 GiB |
| Ext2Wide.HighPointer | bootloader/filesystem.c:156-160 | a pointer block at 4 GiB: the first of its pointers is taken from the start of the partition, and a block of the file is taken for a hole |
| Ext2Wide.BlockTrue | bootloader/filesystem.c:162-187 | without such a pointer block the loader finds the volume block of the file that is there |
| Ext2Wide.SmallPartition | bootloader/filesystem.c:162-187 | in a partition of at most 4 GiB a block whose pointers lie inside is found |
| Ext2Wide.BytesTrue | bootloader/filesystem.c:189-207 | the same for any slice of a file |
| Ext2Wide.InsideTrue | bootloader/filesystem.c:189-207 | a slice that lies inside the partition does so as the loader sees it, so it is not refused as out of bounds |
| Ext2Wide.SmallPartitionFile | bootloader/filesystem.c:189-207 | in a partition of at most 4 GiB every slice of a file with its pointers inside is read as it is |
| Ext2Wide.LookUpTrue | bootloader/filesystem.c:219-247 | in a well-formed directory that is in reach, every name is found as it is |
| Ext2Wide.ResolveTrue | bootloader/filesystem.c:297-347 | a path leads where it does in the file system that is there, if the directories and links it goes through there are in reach, and whatever other files are |
| Ext2Wide.SmallPaths | bootloader/filesystem.c:297-347 | in a partition of at most 4 GiB whose directories and links lie inside, that is so for every path |
| Ext2Wide.SmallLooksFine | bootloader/filesystem.c:297-347 | and if the file system that is there is well-formed, it is so for the loader |
| Ext2.FileSystem.ReadFromPointerBlock | bootloader/filesystem.c:156-160 | reads the little-endian pointer at that index |
| Ext2.FileSystem.FindLevel | bootloader/filesystem.c:166-175 | finds the level and the index below it for every block, or that it is beyond the map |
| Ext2.FileSystem.GetInodeBlockBase | bootloader/filesystem.c:162-187 | the volume block of a logical block, zero for holes, as the loader sees the map, and as it is unless a pointer block lies too high; crashes beyond the map, and otherwise only if a pointer lies outside the partition or cannot be read |
| Ext2.FileSystem.ReadFromInode | bootloader/filesystem.c:189-207 | fills the buffer with exactly that slice of the file, holes as zeros, and touches nothing else; the slice is that of the true file unless a pointer block lies too high; on a file inside a readable partition it crashes exactly if it is to read parts of sectors around the cache, at either end |
| Ext2.FileSystem.ReadInode | bootloader/filesystem.c:126-154 | decodes the inode at its place in the table of its group; no 64-bit sum wraps |
| Ext2.FileSystem.FindEntryInDirectory | bootloader/filesystem.c:219-247 | the number of the first used record with that name in a well-formed directory, in the true one if the directory is in reach, and it terminates |
| Ext2.FileSystem.FindInode | bootloader/filesystem.c:297-347 | terminates even with cyclic links, finds exactly what component-by-component resolution with at most four nested links finds, in the true file system if the directories and links on the way are in reach, and does not crash on an intact file system |
| Ext2.FileSystem.Find | bootloader/filesystem.c:349-359 | the regular file at a path from the root, or nothing; in the true file system if what is on the way is in reach, and always in a small partition |
| Ext2.TakeComponent | bootloader/filesystem.c:310-318 | skipping slashes and measuring the component splits the path as the declarative resolution does |
| Ext2Map.ReadsFileExact | bootloader/filesystem.c:365-375 | the check lets through exactly non-empty requests that start inside the file; it agrees with the intended check if and only if the request does not run over the end |
| Ext2Map.ReadsBeyondEnd | bootloader/filesystem.c:371-372 | four bytes of a one-byte file are let through |
| Ext2.FileSystem.FileRead | bootloader/filesystem.c:365-375 | either the checks refuse and nothing changes, or exactly the slice of the file is read, under the same conditions |
| Paging.DecodeCreated | bootloader/paging.c:23-29 | decoding an entry gives back the frame, for every physical address |
| Paging.PteBits | bootloader/paging.c:23-33 | the shifts and masks of the code are the arithmetic used here |
| Paging.TableAdded | bootloader/paging.c:44-48 | a fresh second-level table changes no mapping and is shared with none |
| Paging.EntryStored | bootloader/paging.c:57-59 | storing an entry changes one mapping and no other |
| Paging.Translates | bootloader/PROTOCOL.md:77-80 | a processor that takes bits 22 to 31 and 12 to 21 of an address as indices translates exactly the mapped addresses, to the mapped frame and the offset in the page; every entry it meets is zero, or has V, W, G and K set, and N and the available bits clear |
| Paging.PageTables.GetTable | bootloader/paging.c:35-55 | the second-level table of an address; created only from a free page, missing otherwise |
| Paging.PageTables.MapPage | bootloader/paging.c:57-59 | the tables refine the map with that page added; they fail only when no page is free |
| Paging.PageTables.GetMapping | bootloader/paging.c:61-65 | the frame mapped last plus the offset in the page; crashes exactly for unmapped pages |
| Paging.LastMappingCounts | bootloader/paging.c:57-65 | after any run of mappings a page is mapped exactly if some call mapped it, and then to the frame of the last one |
| Loader.EndExact | bootloader/main.c:72 | rounding the end up to pages is right exactly when it does not wrap |
| Loader.WindowExact | bootloader/main.c:49-64 | after the overlap check, no page belongs to kernel and device tree if and only if the blob does not end in the kernel's first page |
| Loader.AlignedWindow | bootloader/main.c:56-63 | with a page-aligned kernel that is always so |
| Loader.UnalignedWindow | bootloader/main.c:19-21 | a kernel in the middle of a page shares it with a blob that the check lets through |
| Loader.KernelLoader.LoadHead | bootloader/main.c:74-89 | the first page holds zeros, the start of the file, and zeros |
| Loader.KernelLoader.LoadInner | bootloader/main.c:91-96 | a page inside the file holds its bytes; with a readable file and enough pages it crashes if and only if the page is torn: no sector boundary at its ends, and one end in a block on the disk |
| Loader.KernelLoader.LoadLast | bootloader/main.c:98-108 | the last file page holds the rest of the file and zeros |
| Loader.KernelLoader.ReadHeader | bootloader/main.c:29-42 | the header fields are the little-endian words of the first 32 bytes of the file, read through the cache; they stay zero if the file is empty |
| Loader.HeaderRoundTrip | bootloader/PROTOCOL.md:7-17 | the 32 bytes of a header, field by field as the document has them, are read back, whatever the minor version and the other flags |
| Loader.AcceptedExact | bootloader/main.c:29-64 | for an image and an area that do not wrap, a header passes the checks if and only if the magic number is 0x584c5258, the major version is 2, the entry point is in the image, and the area for the device tree is more than a byte and shares no address with the image |
| Loader.AreaExact | bootloader/main.c:49-54 | an area for the device tree that the document allows is refused if and only if it ends where it starts |
| Loader.AreaOfOneByte | bootloader/main.c:49-54 | a header that meets all other checks and is refused for its area of one byte, and accepted with two |
| Loader.TornIsRagged | bootloader/main.c:91-96 | a page inside the file takes parts of sectors from the disk if and only if the image is not sector-aligned and the first or last byte of the page is in a block on the disk |
| Loader.TornKernel | bootloader/main.c:91-96 | a file with the header of a kernel of two pages at 0x1010 and its first block on the disk: the header is accepted, and a page is torn |
| Loader.TopExact | bootloader/main.c:72-114 | the pages that are mapped reach the end of the image if and only if it fits below the last page; they always reach the end of the file |
| Loader.LateKernel | bootloader/main.c:72-114 | an accepted kernel of the last two pages of the address space with one page of file: its end wraps to zero, and its last page is not mapped |
| Loader.KernelLoader.LoadKernel | bootloader/main.c:29-115 | if it returns, all pages from the rounded-down start to the rounded-up end, or to that of the file if the end wraps, hold zeros, the file and zeros, each mapped once and in order, the true file unless a pointer block lies too high; it refuses exactly the headers that fail a check; with a good header, a readable file and enough pages it crashes if and only if some page inside the file is torn |
| Loader.ImageReads | bootloader/main.c:66-115 | every address of the image reads, through the page table, the file byte that belongs there, or zero |
| Loader.RangeOnce | bootloader/main.c:87-114 | the list of mapped pages names each page of the image once |
| Loader.PagesAre | bootloader/main.c:87-114 | the number of pages of the loops is that from the first page to the one with the last byte |
| Loader.KernelLoader.MapWindow | bootloader/dt.c:296-302 | the loop maps consecutive pages to consecutive frames and leaves all other mappings; new tables are neither pages of the kernel nor of the blob; it fails only for want of pages |
| Loader.KernelLoader.MapBlob | bootloader/dt.c:286-302 | a blob that does not fit its area is refused before anything is mapped, and otherwise only want of pages stops it |
| Loader.RefusalExact | bootloader/dt.c:289-291 | the 32-bit test refuses the same blobs as the exact one if and only if the end does not wrap, or the wrapped end is beyond the limit too |
| Loader.WrappedEnd | bootloader/dt.c:289-291 | two pages in the last page of the address space pass the test |
| Loader.WindowKeepsImage | bootloader/dt.c:296-302 | a window that shares no page with the kernel leaves the image readable as before |
| Rendezvous.ReachableInv | bootloader/a4x/a4x.c:33-74 | in every reachable state of any number of CPUs the counter is the number of handlers past their successful store: no update is lost |
| Rendezvous.LeavesSafely | bootloader/a4x/a4x.c:71-73 | when the boot CPU leaves, every kicked CPU has its copies and none will touch the stack record again |
| Rendezvous.CountedCpus | bootloader/a4x/main.c:103-120 | counting the present processors makes the awaited responses equal to the kicked CPUs |
| Rendezvous.SafeExactly | bootloader/a4x/a4x.c:56-74 | all runs leave safely if and only if nobody is waited for or at least as many responses are awaited as CPUs are kicked |
| Rendezvous.LeavesEarly | bootloader/a4x/a4x.c:71 | with fewer awaited responses there is a run in which the record dies while a CPU needs it |
| Subword.AddIsModular | patches/gcc/jinx-working-patch.patch:510-511 | the ripple-carry sum of bits is the sum of the numbers modulo two to the number of bits |
| Subword.SubIsDifference | patches/gcc/jinx-working-patch.patch:891 | the ripple-borrow difference of bits is the difference of the numbers modulo two to the number of bits |
| Subword.SubIsZero | patches/gcc/jinx-working-patch.patch:891-892 | it is zero exactly when the operands are equal |
| Subword.BitwiseSums | patches/gcc/jinx-working-patch.patch:510-514 | or and and of two words add up to the sum of the words, and so do exclusive or and twice the and |
| Subword.NotIsRest | patches/gcc/jinx-working-patch.patch:512-514 | a word and its complement add up to all ones |
| Subword.FieldIsLane | patches/gcc/jinx-working-patch.patch:3180-3208 | the field of a byte or halfword is that byte or halfword of the word's value, the lowest byte at the lowest address |
| Subword.FieldUpdated | patches/gcc/jinx-working-patch.patch:495-518 | the stored word has the new value in its own field: a modular operation on as many bits as the field has, carries kept out |
| Subword.NeighboursKept | patches/gcc/jinx-working-patch.patch:512-514 | every bit outside the field is stored as it was loaded |
| Subword.MismatchIs | patches/gcc/jinx-working-patch.patch:890-892 | the branch behind the subtraction of the masked words is taken exactly when the field differs from the expected value |
| Subword.ResultIsField | patches/gcc/jinx-working-patch.patch:869-871 | shifting the loaded word down and taking its low part is the field |
| Subword.NewWordIs | patches/gcc/jinx-working-patch.patch:875-898 | a successful sequence writes the old word with just its field updated |
| Subword.OtherFields | patches/gcc/jinx-working-patch.patch:3180-3208 | updating one field leaves every field that shares no byte with it |
| SubwordRuns.Linearizable | patches/gcc/jinx-working-patch.patch:495-518 | in every run of any number of CPUs, memory and all results are those of some order of calls that run alone, each CPU's calls in its own order |
| SubwordRuns.SequentialBytes | patches/gcc/jinx-working-patch.patch:495-518 | a call that runs alone changes exactly the bytes at its address, to the result of the operation on what they held |
| SubwordRuns.EffectWithin | patches/gcc/jinx-working-patch.patch:495-518 | between its start and its return every call takes effect exactly once, and returns what that effect says |
| SubwordRuns.RealTime | patches/gcc/jinx-working-patch.patch:495-518 | a call that returned before another one started comes before it in that order |
| Xr17032.EncodersAreSums | patches/binutils/jinx-working-patch.patch:6276-6289 | shifted and masked fields do not overlap: the encoders with bitwise or are sums |
| Xr17032.REncoderIsSum | patches/binutils/jinx-working-patch.patch:6302-6304 | the same for three-register instructions |
| Xr17032.EncodeDecode | patches/binutils/jinx-working-patch.patch:6101-6131 | every instruction whose operands fit is read back from its word by a processor with the numbers of the instruction set |
| Xr17032.RunsThrough | patches/binutils/jinx-working-patch.patch:3604-3646 | code that lies in memory and is not overwritten runs from its first state to its last |
| Plt.PcRelative | patches/binutils/jinx-working-patch.patch:6133-6134 | upper and lower part of a distance, added to the place of the code, reach the target for every distance modulo 2^32 |
| Plt.EntryRuns | patches/binutils/jinx-working-patch.patch:3631-3646 | an entry jumps to wherever its slot points, with its own address plus 12 in t1 |
| Plt.HeaderRuns | patches/binutils/jinx-working-patch.patch:3604-3627 | the header reaches the resolver with the link map in t0 and four times the entry's index in t1 |
| Plt.LazyCall | patches/binutils/jinx-working-patch.patch:3604-3646 | for every index, calling through an unresolved entry reaches the resolver with both, and changes nothing but t0 to t3 |
| Plt.ResolvedCall | patches/binutils/jinx-working-patch.patch:3631-3646 | once its slot holds a function's address, the entry goes straight there |
| Plt.FixupCalled | patches/glibc/jinx-working-patch.patch:2079-2092 | the trampoline saves return address and arguments below the stack pointer and calls the fixup function with the link map and three times t1 |
| Plt.FixupArguments | patches/glibc/jinx-working-patch.patch:2088-2092 | for every index the fixup function gets twelve times the index: the byte offset of the entry's relocation |
| Plt.CallIsTransparent | patches/glibc/jinx-working-patch.patch:2093-2105 | whatever the fixup function returns gets control with the stack, the return address, the arguments and the saved registers of the original call |
| PltLink.Linker.AllocateDynRelocs | patches/binutils/jinx-working-patch.patch:2016-2032 | sizes of the three sections grow by one entry, slot and relocation; the offset is that of the new entry |
| PltLink.Linker.MakePltEntry | patches/binutils/jinx-working-patch.patch:3631-3646 | the words are those of the entry's four instructions: 0x130 plus the upper half of the distance, 0x212b plus a quarter of the lower half above bit 16, 0x20b8 and 0x3c |
| PltLink.Linker.MakePltHeader | patches/binutils/jinx-working-patch.patch:3604-3627 | the words are those of the header's seven instructions, 0xf0, 0x600410b9, 0x192b, 0x2810b4, 0x744200b9, 0x186b and 0x2038, with the halves of the distance in the first, third and sixth |
| PltLink.Linker.FinishDynamicSymbol | patches/binutils/jinx-working-patch.patch:3695-3757 | writes the entry, a slot that leads to the header, and a JUMP_SLOT relocation at the same index, and nothing else |
| PltLink.Linker.FinishDynamicSections | patches/binutils/jinx-working-patch.patch:4008-4041 | writes the header and the two reserved words, and nothing else |
| PltLink.Linker.Link | patches/binutils/jinx-working-patch.patch:1985-2032 | sizing and writing for any number of symbols leaves complete sections |
| PltLink.LinkMap.RuntimeSetup | patches/glibc/jinx-working-patch.patch:1944-1990 | puts resolver, or profiling resolver, and link map into the reserved words, and finds a prelinked address first |
| PltLink.LinkMap.LazyRel | patches/glibc/jinx-working-patch.patch:1910-1938 | moves the slot by the load address, or resets it to the prelinked header; gives an indirect function its address; refuses exactly the other types and then writes nothing |
| PltLink.LinkMap.Prepare | patches/glibc/jinx-working-patch.patch:1910-1990 | setup and all relocations leave every slot at the loaded header, prelinked or not, and touch only .got.plt |
| PltLink.LoadedIsBound | patches/binutils/jinx-working-patch.patch:3604-3757 | what was linked at one address runs when it is loaded at another |
| PltLink.LazyBinding | patches/glibc/jinx-working-patch.patch:2079-2092 | for every entry of a linked, loaded and prepared object, a call enters the fixup function with that object's link map and the byte offset of a JUMP_SLOT relocation that names the entry's symbol and the slot it jumps through |

## Left out

- HeapAllocator.Heap.AllocateHeap: permanent requests of at most 12 bytes for which a link would be lost are excluded, as SplitExact explains; the loader allocates an initrd of any size in that way.
- HeapAllocator.Heap.ResizeHeap: requests that ResizeInPlaceExact shows to break the heap are excluded; for them only the exact condition and the broken result are stated.
- HeapAllocator.Heap.AddHeapRange: regions that AddExact shows to break the heap are excluded.
- HeapTheorems.EveryByteOnce: which bytes are permanent blocks or gaps is known to a ledger of the model; the code keeps no such record.
- Loader.KernelLoader.MapBlob: a blob whose end wraps in 32 bits is excluded; RefusalExact says what the test does with it.
- DtBuilder.Builder.BuildBlob: the mapping of the blob is in MapBlob; no memory reservation entries besides the terminator; nothing in the repository adds one, and they would be written in native byte order.
- DtBuilder.Builder.CreateNode: memory for nodes, strings and properties comes from the caller as fresh addresses instead of the heap, and a list node counts as the structure it is in.
- Cache.BlockCache.ReadFromDisk: the test that a buffer is sector-aligned is not modelled, because buffers are arrays without addresses.
- Ext2.FileSystem.FindInode: the freeing of inodes is not modelled; inodes are values here. The code frees the starting inode of a relative link twice. Links are read through the block map, as the code does; the ext2 form that keeps short links in the inode is not understood by the code.
- Ext2.FileSystem.GetInodeBlockBase: block sizes above 4096 bytes, for which the block counts wrap, are excluded.
- Ext2.FileSystem.FindEntryInDirectory: directories with zero or overlong records are excluded.
- Paging.PageTables.MapPage: pages come from a list of free pages instead of the heap model.
- Loader.KernelLoader.LoadKernel: the file is found beforehand; a file whose own end does not fit below the last page is excluded.
- Rendezvous.ReachableInv: memory is sequentially consistent; barriers, caches and the firmware's way of starting a CPU are not modelled.
- SubwordRuns.Linearizable: the nand and 32-bit exchange templates are not modelled (the first combines a register that was never set, the second stores a stale value on its second try), nor are fences.
- PltLink.Linker.FinishDynamicSymbol: not for static executables, whose tables have no header, nor for indirect functions, whose relocation is IRELATIVE.
- PltLink.Linker.FinishDynamicSections: the entries of the dynamic section that name the tables, entry sizes and the error for a discarded output section are not modelled.
- PltLink.LinkMap.LazyRel: the function that picks the address of an indirect function is any function of numbers.
- PltLink.Linker.Link: indirect functions, static executables and symbols resolved at link time are not modelled; sections are words, not bytes.
- PltLink.LinkMap.Prepare: setup with profiling and the generic loop of the C library that visits the relocations are not part of this model; the loop is written out.
- Plt.CallIsTransparent: the fixup function itself is any function that keeps the calling convention.
- Superblock and partition table parsing read the geometry that the model is given. Configuration parses options, and logging prints; the rest of device population fills the tree with constants of the machine. The remaining back ends of GCC, binutils and glibc translate and relocate ordinary code.
