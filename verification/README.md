# Verified models of dsOS

dsOS is a hobby kernel for x86-64. This project models the parts of it whose correctness rests on an
argument and proves the argument: paging and frame allocation, the kernel heap, the prime search behind
hash tables, SHA-1, the ELF writer, an LRU cache, a recursive lock, sector devices, `snprintf` and path
simplification. `dafny verify dfyconfig.toml` checks everything.

Code that updates state in place is modelled by classes and methods over arrays and fields, each tied by its
contract to a specification on values; the promises themselves are lemmas about those specifications.

## What is in it

- **Paging.** `FrameBitmap` reads allocation bitmaps as sets of frames, for 32-bit and for 64-bit words.
  `PageTables` says what a virtual page translates to in an array of 512-entry frames (section 4.5 of the Intel
  SDM, volume 3A) and which writes keep the tree well formed; `PagerSteps` turns that into steps that any pager
  can take. `PageMeta` is the running kernel's pager, `BootPaging` the one that builds the first address space,
  `FrameRuns` what holds over any sequence of allocations and releases. Tables are frames of one array, so the
  kernel's physical-memory window and the boot code's identity access are the same read. A halt is the result
  `None` or `false`.
- **Heap.** `HeapSpec` is the allocator on lists of blocks; `Heap` is the one that keeps its list inside the
  memory it manages, over an array of 64-bit words.
- **Primes.** `Division` and `Primes` hold the number theory, `NextPrime` the search. `PrimeCertificate` proves a
  number prime from powers of a base and a factor of its predecessor (the method of Pocklington), and
  `LargestPrime` does so for 2 to the 64 minus 59, the limit in the code.
- **SHA-1.** `Sha1Spec` follows sections 5.1.1, 5.2.1 and 6.1.2 of FIPS 180-4; `Sha1` is the streaming class.
- **ELF writer.** `ElfSymbols` (local symbols first), `ElfOrder` (order of segments), `ElfFile` (what the steps
  of the layout do to sections, segments and positions), `ElfRoom` (how far a file can grow), `ElfAbort` (when the
  layout gives up), `ElfLayout` (the writer), with `Permutations` for lists without repetition.
- **LRU cache.** `Recency` is about histories of touches, `LruCache` about the map and the list.
- **Lock.** `RecursiveMutex` interleaves threads one shared-memory access at a time.
- **Sector devices.** `Sectors` is the flat byte array, `Ide` and `Ahci` the drivers over it.
- **Formatter.** `PrintfSpec` (numbers and fields), `PrintfFormat` (directives), `PrintfHead` (what flags, width,
  precision and length mean), `PrintfPrefix` (the alternate form), `PrintfText` (what a directive shows, and where in
  its field), `Printf` (the bounded printer).
- **Paths.** `Paths`.

Inputs that the code gets from outside are parameters: memory sizes and kernel end for the pagers, the bounds of
the heap, the contents and faults of drives, the arguments of a format, which thread runs next.

## Where the code differs from what it suggests

Each of these follows the code, and the rows named below say exactly when the expected behaviour holds.

- `RecursiveMutex::lock` tests `!locked && owner == me` at Mutex.h:42. A free lock has owner 0, so the branch is
  never taken, and a thread that holds the lock and calls `lock` again never comes back (`LockNeverReenters`,
  `StuckForever`; `LocksTwice` is a run in which it happens).
  `try_unlock` returns true only when it gives back the last acquisition (`FieldsMean`).
- `IDE::writeBytes` passes the number of sectors of an aligned request through 8 bits, so 256 sectors and more are
  cut to the remainder modulo 256 while success is reported (`AllStoredIff`, `PartIsEnough`; `AllBytesLost`: of
  256 sectors nothing is stored).
- `IDE::readBytes` and `IDE::writeBytes` keep the sector number of an offset in 32 bits, so they work from the
  offset modulo 2 TiB on (`WrappedIs`): 512 bytes written at 2 to the 41 overwrite sector 0 while success is
  reported (`WriteFarAway`). A success is right exactly for empty requests and ranges that end below 2 TiB less a
  sector, which is as long as a drive can be, and for writes if also nothing was cut off (`ReadBytes`,
  `WriteBytes` with `Right`).
- `Port::writeBytes` passes the length of an aligned request through 32 bits, and of any other request it stores what
  is in its own buffer for every full block: the block it patched first, or zeros (`RightIff`; `BlockLost`: of 513
  bytes at offset 0 only the last is stored, and the write succeeds).
- `split` takes the room left for a new block as an `int`. The heap stays in order all the same, but from 2 GiB on
  the new block does not take all the room there is: the rest is in no block until the block before it is split
  (`RemainderFits`, `SplitLosesRoom`), and a room that truncates to 0 or less is not cut off at all.
- `CSHA1::Update` adds the length of the data to the position in its buffer in 32 bits; exactly when that sum
  wraps, everything is copied to the 64-byte buffer, past its end (`CopyOverflowsIff`).
- `is_subsequence_of` uses a merge that assumes sorted lists, and section lists are not kept sorted. Containers
  come first in every arrangement of the segments exactly when the merge recognises every containment among
  their lists (`ContainersFirstIff`). It misses one if either list is unsorted (`PartRecognisedIff`,
  `RecognisedIffSorted`), and then the order that the code returns can have the container second
  (`UnsortedContainerComesSecond`, `UnsortedPartComesFirst`).
- The test in `write_segment_data` that is meant to stop the layout before it seeks backwards compares 64-bit
  differences. A section whose address is below its segment's passes it with a huge gap, and is written before
  the segment, if need be over the file header, while success is reported (`PlacementWrapsIff`,
  `BelowIsWrittenBefore`, `HeaderOverwritten`). Without such sections, and with room for all parts below 2 to the
  64, no position wraps (`Writer.Layout` with `Fits`).
- The alignment of a fresh segment goes through a 64-bit sum; it is right exactly when that sum does not wrap
  (`ShiftIsCongruent`), which no power of two makes it do.
- A negative number whose padding fills the 32-character scratch buffer loses its sign (`SignShownIff`), as -1 does
  under `%033d` (`SignLostInFormat`), and binary output keeps only the low 32 digits (`DigitsFit`).
- With `#`, a number whose length equals its width gives up one or two leading digits for the prefix, zeros or not:
  `%#8x` of 0x12345678 prints 0x345678 (`DigitsLostInFormat`). The text reads as prefix and value exactly if
  padding has supplied those digits and the prefix fits the scratch buffer (`AlternateIff`, `AlternateShown`).
- The boot pager starts looking at word 1 of its bitmap, so the first 32 frames are never handed out
  (`FindFree`); `isFree` has the opposite sense of `findFree` and is not used by the single-frame path.
- A relocation can only be renamed if the new symbol index fits its info field (`InfoRoundTrip`); tables that are
  larger are outside `Tables.Valid`.

## Model

| member | source | states |
|---|---|---|
| FrameBitmap.MarkSets | src/arch/x86_64/PageMeta.cpp:161-176 | Marking a frame adds it to, or removes it from, the used set and the free set and changes no other frame |
| FrameBitmap.PopCountIsCard | src/arch/x86_64/PageMeta.cpp:396-404 | The population count of a word is the number of used frames it stands for |
| FrameBitmap.UsedSetGrows | src/arch/x86_64/PageMeta.cpp:396-404 | Each further word adds exactly its population count to the number of used frames |
| FrameBitmap.WidenKeepsUse | src/Kernel.cpp:85-92 | Reading the boot bitmap's 32-bit words as little-endian 64-bit words leaves the set of used frames as it was |
| FrameBitmap.JoinIsSum | src/Kernel.cpp:85-92 | Joining two words bit by bit is the little-endian value of the pair |
| PageTables.AddressToEntry | src/arch/x86_64/PageMeta.cpp:121-123 | An entry made from an address is present and writable and holds the address's frame |
| PageTables.PresentBit | include/arch/x86_64/PageMeta.h:48-50 | An entry is present exactly if bit 0 is set |
| PageTables.WithMeta | src/arch/x86_64/PageMeta.cpp:250-256 | Metadata bits below 4096 change neither the frame of an entry nor that it is present and writable; which bits it then has is in `MetaBits` |
| PageTables.MetaBits | src/arch/x86_64/PageMeta.cpp:250-256 | Of its low twelve bits an entry with metadata has exactly present, writable and those of the metadata |
| PageTables.NewEntry | src/arch/x86_64/PageMeta.cpp:250-256 | A page-aligned address can be read back from its entry, whose low twelve bits are present, writable and those of the metadata |
| PageTables.AddressIsPage | include/arch/x86_64/PageTableWrapper.h:33-43 | The four table indices of an address depend on its page number modulo 2 to the 36 alone |
| PageTables.PageToPath | include/arch/x86_64/PageTableWrapper.h:33-43 | A page number is recovered from its four indices |
| PageTables.PathToPage | include/arch/x86_64/PageTableWrapper.h:33-43 | Four indices are recovered from the page number they make: pages and index paths correspond one to one |
| PageTables.WriteLeaf | src/arch/x86_64/PageMeta.cpp:249-266 | Writing one page-table entry gives that page the new translation, changes no other page's, and keeps table frames pairwise distinct and out of the free set |
| PageTables.LinkTable | src/arch/x86_64/PageMeta.cpp:195-204 | Linking a zeroed free frame into an absent slot changes no translation, adds exactly one table, and keeps the tree well formed |
| PageTables.LinkedWalk | src/arch/x86_64/PageMeta.cpp:195-204 | After linking, the new path leads to the new table and every other walk goes where it went |
| PagerSteps.WalkStep | src/arch/x86_64/PageMeta.cpp:206-242 | Following a present entry stays inside the tree; an absent one means no page below is mapped |
| PagerSteps.LinkStep | src/arch/x86_64/PageMeta.cpp:195-204 | Allocating a table costs one free frame and leaves translations and bystander frames alone |
| PagerSteps.LeafStep | src/arch/x86_64/PageMeta.cpp:250-266 | Filling a leaf maps one page and leaves the contents of every frame that is neither table nor taken |
| PageMeta.PageMeta4K.FindFree | src/arch/x86_64/PageMeta.cpp:151-159 | The result is the least clear bit at or after the start word, among the full 64-bit words, and -1 exactly when there is none |
| PageMeta.PageMeta4K.Mark | src/arch/x86_64/PageMeta.cpp:161-176 | The used set gains or loses exactly the given frame; without a bitmap nothing changes |
| PageMeta.PageMeta4K.TakeFree | src/arch/x86_64/PageMeta.cpp:18-22 | Finding and marking a frame is exactly one legal call of the runs in `FrameRuns`: the least clear frame, or a refusal when there is none |
| PageMeta.PageMeta4K.AllocateFreePhysicalAddress | src/arch/x86_64/PageMeta.cpp:14-24 | Zero exactly when no frame is free; otherwise the lowest free frame, now used |
| PageMeta.PageMeta4K.Descend | src/arch/x86_64/PageMeta.cpp:195-212 | One level of the walk: the next table exists afterwards, a missing one costs one free frame, and no translation changes |
| PageMeta.PageMeta4K.EnsurePath | src/arch/x86_64/PageMeta.cpp:191-249 | All three lower tables exist afterwards, it halts only for lack of free frames, and no translation changes |
| PageMeta.PageMeta4K.FillEntry | src/arch/x86_64/PageMeta.cpp:250-266 | An empty leaf gets the given frame or a fresh zeroed one, with exactly the metadata bits asked for beside present and writable |
| PageMeta.PageMeta4K.Assign | src/arch/x86_64/PageMeta.cpp:178-267 | On an unmapped page exactly that page gains a translation, to the given frame or to a fresh zeroed one, with exactly the metadata bits asked for; on a mapped page nothing changes and 0 is returned; it halts only without enough free frames; the tree stays well formed |
| PageMeta.PageMeta4K.AssignAddress | src/arch/x86_64/PageMeta.cpp:43-62 | The same for a virtual address: true exactly when a translation was added, false when the page was mapped or the pager is not set up, and a halt only without enough free frames |
| PageMeta.PageMeta4K.ModifyEntry | src/arch/x86_64/PageMeta.cpp:68-98 | Found exactly when the page is mapped; then only that page's entry changes, to the modifier's result |
| PageMeta.PageMeta4K.FreeEntry | src/arch/x86_64/PageMeta.cpp:112-115 | The page is unmapped, every other translation stays, and no frame is released |
| PageMeta.PageMeta4K.PagesUsed | src/arch/x86_64/PageMeta.cpp:396-404 | The count is the number of used frames |
| BootPaging.Boot.FindFree | 32/paging.cpp:40-49 | The least clear bit at or after the start word among the full 32-bit words |
| BootPaging.Boot.MarkUsed | 32/paging.cpp:55-57 | Exactly the given frame joins the used set |
| BootPaging.Boot.AllocateFreePhysicalAddress | 32/paging.cpp:69-81 | Zero exactly when no frame from the second word on is free; otherwise the lowest such frame, now used |
| BootPaging.Boot.Allocate4KiB | 32/paging.cpp:125-164 | The page maps to the given frame afterwards, other pages keep their translations, and it halts only for lack of free frames |
| BootPaging.Boot.MapIdentity | 32/paging.cpp:205-207 | Every page below 1 GiB maps to itself, nothing else changes, at a known price in frames |
| BootPaging.Boot.MapPhysicalMemory | 32/paging.cpp:213-216 | Every page of the physical-memory window maps to its frame, up to and including the last byte of memory |
| BootPaging.Boot.MapStack | 32/paging.cpp:219-221 | The 512 stack pages map to frames that are pairwise distinct and are not page tables |
| BootPaging.Boot.SetupPaging | 32/paging.cpp:204-222 | After the whole run all three regions hold at once, whatever the memory size; with enough free frames it does not halt and every stack page has a frame |
| BootPaging.RunStep | 32/paging.cpp:205-216 | One more page mapped in order extends the mapped run and keeps the frame budget |
| BootPaging.RunHalts | 32/paging.cpp:205-216 | A halt in a mapping loop means that fewer frames were free than the loop's budget |
| BootPaging.BudgetStep | 32/paging.cpp:131-162 | Mapping the next page in order needs at most the new tables that its number calls for |
| BootPaging.StackStep | 32/paging.cpp:219-221 | One more stack page keeps the stack frames distinct and apart from tables |
| BootPaging.SpacesCompose | 32/paging.cpp:204-222 | The three loops never overwrite each other's mappings |
| BootPaging.WindowAddress | 32/paging.cpp:213-216 | The window starts page-aligned, above the identity map and below the stack, for every memory size |
| FrameRuns.OneStep | src/arch/x86_64/PageMeta.cpp:14-24 | An allocation takes the least clear frame; a release gives one back; nothing else changes |
| FrameRuns.StaysUsed | src/arch/x86_64/PageMeta.cpp:14-24 | Over any run a used frame stays used until it is released |
| FrameRuns.NoDoubleIssue | src/arch/x86_64/PageMeta.cpp:14-24 | A frame handed out twice was released in between: outstanding frames are pairwise distinct |
| FrameRuns.BootFramesAreKept | src/Kernel.cpp:85-92 | A frame that the boot pager used is handed out by the kernel's pager only after an explicit release |
| FrameRuns.UsageIsConserved | src/arch/x86_64/PageMeta.cpp:396-404 | The number of used frames is the initial one plus allocations minus releases |
| HeapSpec.Realign | src/memory/Memory.cpp:23-31 | The least address from the given one on whose data pointer is 32-byte aligned |
| HeapSpec.FirstFit | src/memory/Memory.cpp:33-43 | The first free block that is large enough |
| HeapSpec.AllocationKeeps | src/memory/Memory.cpp:75-104 | Allocation keeps the heap, of any size, ordered, disjoint, aligned and without adjacent free blocks; the live blocks gain exactly one, of at least the requested size |
| HeapSpec.FitKeeps | src/memory/Memory.cpp:96-99 | The same when a free block is split and taken |
| HeapSpec.AllocationIsTight | src/memory/Memory.cpp:106-139 | A block is only handed out whole if it is at most 56 bytes larger than asked for, or reaches past 2 GiB; else it has exactly the size asked for |
| HeapSpec.RemainderFits | src/memory/Memory.cpp:110-137 | The block that a split makes ends at or before the next one, and exactly there if and only if the room for it is below 2 GiB |
| HeapSpec.SplitLosesRoom | src/memory/Memory.cpp:110-137 | A free block of 4 GiB and 200 bytes that is split for 64: the new block has 104 bytes |
| HeapSpec.MergedKeeps | src/memory/Memory.cpp:161-177 | Merging leaves no two adjacent free blocks and exactly the same live blocks |
| HeapSpec.MergedConserves | src/memory/Memory.cpp:161-177 | Merging loses no byte: sizes and headers of all blocks add up to what they did |
| HeapSpec.FreeKeeps | src/memory/Memory.cpp:148-159 | Freeing keeps the heap invariant and removes exactly one live block |
| HeapSpec.FreeConserves | src/memory/Memory.cpp:148-159 | Nor does freeing |
| HeapSpec.AccountsBalance | src/memory/Memory.cpp:102-103 | The sum of size and header over live blocks grows by that of the returned block |
| HeapSpec.FreeBalances | src/memory/Memory.cpp:156-158 | It shrinks by that of the freed block |
| HeapSpec.AllFreed | src/memory/Memory.cpp:148-177 | When everything has been freed, one block at most is left and nothing is accounted for |
| Heap.AppendEncodes | src/memory/Memory.cpp:49-72 | Linking a new header behind the last one encodes the longer list |
| Heap.InsertEncodes | src/memory/Memory.cpp:116-136 | The words written by a split encode the list with the remainder inserted |
| Heap.JoinEncodes | src/memory/Memory.cpp:168-171 | The two words written by a merge step encode the list with the pair joined |
| Heap.JoinStep | src/memory/Memory.cpp:167-174 | Joining one pair does not change what the whole merge comes to |
| Heap.ClientWriteKeeps | src/memory/Memory.cpp:103-103 | What the owner of a block writes to its data changes no header and no other block's data |
| Heap.Memory.FindFreeBlock | src/memory/Memory.cpp:33-43 | Walking the links in memory finds the first fit, and otherwise the last block |
| Heap.Memory.RequestSpace | src/memory/Memory.cpp:45-73 | The list in memory grows by one aligned block at the end, and no live byte changes |
| Heap.Memory.Split | src/memory/Memory.cpp:106-139 | The memory then encodes the split list, and no live byte changes |
| Heap.Memory.Allocate | src/memory/Memory.cpp:75-104 | Returns the data of the block that the list specification names, asks for new space only if no free block fits, keeps the counter equal to the live total, and changes no live byte |
| Heap.Memory.ClientWrite | src/memory/Memory.cpp:103-103 | So the heap stays valid between calls, whatever clients do with their blocks |
| Heap.Memory.Merge | src/memory/Memory.cpp:161-177 | Merging in place gives the merged list, counts the joins, loses no byte of any block, and changes no live byte |
| Heap.Memory.Free | src/memory/Memory.cpp:148-159 | Freeing a live block gives the specified list, keeps the counter equal to the live total, loses no byte of any block, and changes no byte of another live block; freeing null changes nothing |
| Primes.Euclid | src/lib/libcxx/hash.cpp:67-83 | There is a prime at or above every number, which ends the search |
| Primes.NoSmallDivisor | src/lib/libcxx/hash.cpp:84-90 | A number without a divisor below some i, and less than i squared, is prime |
| PrimeCertificate.LargeFactor | src/lib/libcxx/hash.cpp:62-64 | A base whose power n - 1 is 1 modulo n, and a prime factor of n - 1 above the square root of n at which it is not, prove n prime |
| PrimeCertificate.TwoFactors | src/lib/libcxx/hash.cpp:62-64 | So do two prime factors whose product is above the square root |
| LargestPrime.LargestIsPrime | src/lib/libcxx/hash.cpp:62-64 | The limit of the overflow test is a prime |
| LargestPrime.NoneAbove | src/lib/libcxx/hash.cpp:62-64 | No larger prime fits in 64 bits |
| NextPrime.LimitIsExact | src/lib/libcxx/hash.cpp:62-64 | The overflow test fails exactly on the requests that no 64-bit prime answers |
| NextPrime.TableEntry | src/lib/libcxx/hash.cpp:21-24 | The table of small primes lists primes only and leaves none out |
| NextPrime.WheelEntry | src/lib/libcxx/hash.cpp:26-32 | Stepping along the 48 increments of the wheel skips no number coprime to 210 |
| NextPrime.WheelStep | src/lib/libcxx/hash.cpp:100-442 | Trying only numbers coprime to 210 leaves out no divisor |
| NextPrime.TableStep | src/lib/libcxx/hash.cpp:91-98 | Trying only the primes of the table leaves out no divisor |
| NextPrime.StopIsPrime | src/lib/libcxx/hash.cpp:94-95 | Stopping when the quotient falls below the divisor proves the candidate prime |
| NextPrime.ExactIsComposite | src/lib/libcxx/hash.cpp:96-97 | An exact quotient proves it composite |
| NextPrime.StartOfSearch | src/lib/libcxx/hash.cpp:80-82 | No prime lies between the request and the first candidate |
| NextPrime.NextCandidate | src/lib/libcxx/hash.cpp:443-449 | No prime lies between one candidate and the next |
| NextPrime.TrialDivision | src/lib/libcxx/hash.cpp:84-442 | The body of the loop decides primality, and terminates |
| NextPrime.Search | src/lib/libcxx/hash.cpp:80-449 | Above the table the result is the least prime at or above the request |
| NextPrime.NextPrime | src/lib/libcxx/hash.cpp:67-450 | The least prime at or above the request, 0 for 0, never above 2 to the 64 minus 59; the overflow error exactly when no prime from the request on fits in 64 bits |
| Sha1.ChooseIsCh | src/SHA1.cpp:36-37 | The macro's choice function is the standard's Ch |
| Sha1.MajorityIsMaj | src/SHA1.cpp:39-39 | The macro's majority function is the standard's Maj |
| Sha1Spec.ConstantsAreRoots | src/SHA1.cpp:36-40 | The four round constants are the square roots of 2, 3, 5 and 10 at a scale of 2 to the 30, rounded down |
| Sha1Spec.RotationsRotate | src/SHA1.cpp:36-40 | The shifts and ors are rotations |
| Sha1Spec.PlusCounts | src/SHA1.cpp:97-101 | The final sums count up with their summands |
| Sha1Spec.SumOfFive | src/SHA1.cpp:36-40 | The five summands of a round are added one by one |
| Sha1Spec.InitialCounts | src/SHA1.cpp:59-63 | The initial value counts the hexadecimal digits up and down, byte by byte |
| Sha1Spec.WordBytesBack | src/SHA1.cpp:177-179 | The digest shows each word most significant byte first, as blocks are read |
| Sha1.FirstWord | src/SHA1.cpp:26-27 | Swapping a loaded word in place gives schedule word t for the first sixteen steps |
| Sha1.LaterWord | src/SHA1.cpp:32-33 | Overwriting slot i modulo 16 continues the 80-word schedule |
| Sha1.StepIsRound | src/SHA1.cpp:36-40 | A step with registers passed in rotated order is one round of the standard |
| Sha1.CSHA1.Step | src/SHA1.cpp:32-40 | The five macros: one round, with the schedule advanced in place |
| Sha1.CSHA1.Transform | src/SHA1.cpp:69-107 | The eighty steps compute the compression function of FIPS 180-4 on every state and block |
| Sha1.CountGrows | src/SHA1.cpp:112-115 | The two counter words hold the number of bits modulo 2 to the 64 across carries |
| Sha1.CountPosition | src/SHA1.cpp:110-110 | The position in the buffer can be read off the low counter word |
| Sha1.StreamFirst | src/SHA1.cpp:118-121 | Completing the buffer with new data hashes the next block of the concatenation |
| Sha1.StreamNext | src/SHA1.cpp:123-124 | Blocks taken straight from the data are the next blocks of the concatenation |
| Sha1.StreamLast | src/SHA1.cpp:126-130 | What is left over goes to the buffer, and state, buffer and counter are those of the concatenation |
| Sha1.StreamShort | src/SHA1.cpp:127-130 | The same when the buffer does not fill |
| Sha1.SplitDoesNotMatter | src/SHA1.cpp:109-131 | State, counter and used part of the buffer depend only on the bytes fed in, not on how they were split |
| Sha1.CountBytes | src/SHA1.cpp:165-168 | The eight bytes appended are the big-endian bit length |
| Sha1.CSHA1.TransformBlocks | src/SHA1.cpp:123-124 | The loop over whole blocks chains exactly the blocks that fit |
| Sha1.CopyOverflowsIff | src/SHA1.cpp:109-130 | The branch that copies data longer than the buffer is taken exactly when the 32-bit sum of position and length wraps |
| Sha1.CSHA1.Update | src/SHA1.cpp:109-131 | Feeding data appends it to the message that state, buffer and counter stand for, for every length at which that sum does not wrap |
| Sha1.CSHA1.AppendZeros | src/SHA1.cpp:172-173 | The padding loop appends exactly the zeros of the standard, and terminates |
| Sha1.CSHA1.Final | src/SHA1.cpp:162-189 | The digest is the SHA-1 of everything fed in, and the buffers are wiped |
| ElfSymbols.InfoRoundTrip | include/lib/elfio/elf_types.hpp:1248-1255 | Symbol and type are read back from an info word exactly when both fit their fields |
| ElfSymbols.EntryRoundTrip | include/lib/elfio/elfio_relocation.hpp:362-410 | Writing an entry with another symbol index and reading it back changes only that index |
| ElfSymbols.WrittenBack | include/lib/elfio/elfio_relocation.hpp:327-410 | Every entry whose parts fit is read back as it was written, with addend 0 where there is none |
| ElfSymbols.LocalIff | include/lib/elfio/elf_types.hpp:1215-1217 | A symbol added with a binding and a type counts as local if and only if the binding, kept in four bits, is 0 |
| ElfSymbols.Tables.SwapSymbols | include/lib/elfio/elfio_relocation.hpp:295-310 | Every relocation has the two symbol indices exchanged, and offset, type and addend kept |
| ElfSymbols.MeaningKept | include/lib/elfio/elfio_relocation.hpp:295-310 | A relocation that refers into the table refers to the same symbol record as before |
| ElfSymbols.SwapMoves | include/lib/elfio/elfio_symbols.hpp:531-536 | Swapping two records composes the permutation with a transposition |
| ElfSymbols.SwapRenames | include/lib/elfio/elfio_relocation.hpp:295-310 | The callback renames relocations by the same transposition |
| ElfSymbols.Tables.ArrangeLocalSymbols | include/lib/elfio/elfio_symbols.hpp:502-546 | Locals come before all others, the result and sh_info are the index of the first other, the table is permuted with entry 0 fixed, and relocations are renamed by the same permutation |
| Permutations.PermutationIsOnto | include/lib/elfio/elfio.hpp:676-719 | A permutation of the segments misses none |
| ElfOrder.IncludesIsSound | include/lib/elfio/elfio.hpp:660-673 | When the merge says contained, every section occurs in the other list as often |
| ElfOrder.IncludesIsComplete | include/lib/elfio/elfio.hpp:660-673 | On sorted lists containment is always recognised |
| ElfOrder.PartRecognisedIff | include/lib/elfio/elfio.hpp:660-673 | A part of a sorted list is recognised if and only if it is sorted itself |
| ElfOrder.RecognisedIffSorted | include/lib/elfio/elfio.hpp:660-673 | All sorted proper parts of a list are recognised if and only if the list is sorted, and then exactly the sorted ones are |
| ElfOrder.IncludesTransitive | include/lib/elfio/elfio.hpp:660-673 | What the merge recognises is transitive, also on unsorted lists |
| ElfOrder.StartsFirst | include/lib/elfio/elfio.hpp:685-697 | The first loop permutes the worklist so that no segment with a nonzero offset comes before one that starts the file |
| ElfOrder.Rotates | include/lib/elfio/elfio.hpp:699-716 | Rotating a contained segment to the back brings the longest section list closer to the front, which ends the loop |
| ElfOrder.Emit | include/lib/elfio/elfio.hpp:699-716 | Emitting a segment that nothing left contains keeps containers first |
| ElfOrder.Rotate | include/lib/elfio/elfio.hpp:699-716 | Rotating keeps what is still to be emitted |
| ElfOrder.DrainOrders | include/lib/elfio/elfio.hpp:699-716 | Draining a worklist gives a permutation in which none comes before one that is recognised to contain it |
| ElfOrder.OrderedSegments | include/lib/elfio/elfio.hpp:676-719 | Terminates with the order that the specification computes: a permutation of the segments in which none comes before one recognised to contain it |
| ElfOrder.ContainersComeFirst | include/lib/elfio/elfio.hpp:676-719 | On sorted lists a segment comes after every one whose section list strictly contains its own |
| ElfOrder.MissedComesSecond | include/lib/elfio/elfio.hpp:676-719 | A strict containment that is not recognised puts the container second in the order returned for some arrangement of the segments |
| ElfOrder.ContainersFirstIff | include/lib/elfio/elfio.hpp:676-719 | In every arrangement of the segments the order returned has all strict containers first, if and only if the merge recognises every strict containment among their section lists |
| ElfOrder.ContainersFirstIffSorted | include/lib/elfio/elfio.hpp:676-719 | If the containing lists are sorted: if and only if the contained ones are |
| ElfOrder.UnsortedContainerComesSecond | include/lib/elfio/elfio.hpp:676-719 | For lists 1 and 2, 1 the order returned has the container second |
| ElfOrder.UnsortedPartComesFirst | include/lib/elfio/elfio.hpp:676-719 | So it has for the unsorted list 2, 1 inside the sorted list 1, 2, 3 |
| ElfFile.ShiftIsCongruent | include/lib/elfio/elfio.hpp:789-797 | The shift makes offset and address congruent modulo the alignment if and only if the alignment plus their difference stays below 2 to the 64 |
| ElfFile.UsualAlignment | include/lib/elfio/elfio.hpp:789-797 | It always does for alignments up to 2 to the 63 |
| ElfFile.Padding | include/lib/elfio/elfio.hpp:883-889 | The padding is below the alignment and reaches a multiple of it |
| ElfFile.PlaceOne | include/lib/elfio/elfio.hpp:911-927 | A section put at the current position or later overlaps none that was put before |
| ElfFile.MovedInStep | include/lib/elfio/elfio.hpp:865-890 | A section that is stored or had no address is as far into the segment's file image as its address is into the segment, given or newly set |
| ElfFile.MovedAligned | include/lib/elfio/elfio.hpp:876-886 | A section without an address is put on its own alignment |
| ElfFile.CountedGrows | include/lib/elfio/elfio.hpp:897-909 | A section adds to the memory size beyond the file size exactly its own size if it is NOBITS and takes memory in this segment, and nothing if it takes both |
| ElfAbort.GapPasses | include/lib/elfio/elfio.hpp:857-875 | The layout aborts at a section exactly if it has an address and bytes, no place yet, and lies less far into its segment than the position; one that passes ends where its address says |
| ElfAbort.PassableNext | include/lib/elfio/elfio.hpp:848-928 | With ascending addresses the position never gets ahead of the sections still to come |
| ElfAbort.ClearStarts | include/lib/elfio/elfio.hpp:772-805 | Segments that share no section and do not start the file find all their sections still to be placed when their turn comes |
| ElfFile.GeneratedEnds | include/lib/elfio/elfio.hpp:891-895 | A section placed by an earlier segment ends the nested segment where the section itself ends |
| ElfLayout.Writer.Emit | include/lib/elfio/elfio.hpp:911-927 | Section and position move by the gap and the size, and a wrap is noticed |
| ElfLayout.Writer.PlaceSection | include/lib/elfio/elfio.hpp:848-928 | A new section goes after everything written, in step with its segment, and on its alignment if it had no address; an old one is not touched; file and memory size grow by the section and the gap before it, each only if the section takes up file or memory; it fails exactly if the section has an address and bytes and should be before the position |
| ElfLayout.Writer.WriteSegmentData | include/lib/elfio/elfio.hpp:842-931 | All sections of the segment then have places, those that had one kept it, and none overlaps; it succeeds if no section without a place has an address and bytes, or if the addresses ascend and the position is not past the first |
| ElfLayout.Writer.StartSegment | include/lib/elfio/elfio.hpp:773-804 | Where a segment starts in each of the five cases, congruent to its address if it is fresh |
| ElfLayout.Writer.LayoutSegment | include/lib/elfio/elfio.hpp:772-826 | One segment more is written and what was written before stays |
| ElfFile.StaysWritten | include/lib/elfio/elfio.hpp:772-826 | Nothing that holds of a written segment is undone by later ones |
| ElfFile.ImageFollows | include/lib/elfio/elfio.hpp:806-825 | The file image of a segment with only new sections holds the bodies of all of them |
| ElfFile.PositionFollows | include/lib/elfio/elfio.hpp:773-825 | Offset and sizes of a segment in the special cases: over the segment table, at the start of the file, and nested in an earlier one |
| ElfLayout.Writer.LayoutSegments | include/lib/elfio/elfio.hpp:763-829 | All of that for every segment, in the order containers first, within the sum of the segments' costs |
| ElfLayout.Writer.WithoutSegment | include/lib/elfio/elfio.hpp:645-657 | True exactly when no segment lists the section |
| ElfLayout.Writer.LayoutLoose | include/lib/elfio/elfio.hpp:722-747 | Every section outside all segments is placed once, on its own alignment, overlapping nothing |
| ElfFile.DoneIffListed | include/lib/elfio/elfio.hpp:645-657 | After the segments a section has a place exactly if some segment lists it, so each is placed exactly once |
| ElfLayout.Writer.LayoutSectionTable | include/lib/elfio/elfio.hpp:832-839 | The section table goes behind everything, on a multiple of four |
| ElfLayout.Writer.CalcAlignment | include/lib/elfio/elfio.hpp:750-760 | Each segment's alignment is raised to the largest of its sections' |
| ElfFile.PartsDisjoint | include/lib/elfio/elfio.hpp:210-243 | File header, segment table, section bodies and section table share no byte |
| ElfRoom.GapCost | include/lib/elfio/elfio.hpp:857-895 | The gap before a section whose address is not below its segment's is at most the alignment or the distance of the addresses |
| ElfRoom.PlacementWrapsIff | include/lib/elfio/elfio.hpp:857-872 | A section with an address makes the position wrap exactly when the segment's start plus the distance of the addresses does |
| ElfRoom.BelowIsWrittenBefore | include/lib/elfio/elfio.hpp:857-872 | A section below its segment that passes the abort test is written that far before the segment's start |
| ElfRoom.HeaderOverwritten | include/lib/elfio/elfio.hpp:857-872 | At the first position behind the header and one segment entry, 120, a section at address 890 of a segment at 1000 lands at byte 10, inside the file header |
| ElfRoom.InStepIff | include/lib/elfio/elfio.hpp:857-890 | A section in step with a segment is at or behind its start and below 2 to the 63 if and only if its address is not below the segment's and not too far above |
| ElfRoom.PlacedInRangeIff | include/lib/elfio/elfio.hpp:763-829 | So it is in every layout that succeeds, for each section that a segment was the first to place; one below its segment lies that far before it |
| ElfRoom.ListCostNext | include/lib/elfio/elfio.hpp:842-931 | Each section of a segment moves the position up by at most its cost |
| ElfRoom.SegmentStep | include/lib/elfio/elfio.hpp:772-826 | One more segment stays within its raised alignment and the costs of its sections |
| ElfRoom.RaisedIsMax | include/lib/elfio/elfio.hpp:750-760 | The raised alignment is the largest of the segment's and its sections' |
| ElfRoom.FitsAligned | include/lib/elfio/elfio.hpp:210-243 | Whether a file fits can be told before the alignments are raised |
| ElfLayout.Writer.Layout | include/lib/elfio/elfio.hpp:210-243 | On success: the order is the one of `ElfOrder`, all parts of the file are disjoint, fresh segments obey the p_align rule, sections are in step with their segments and on their alignments if they had no addresses, segments have their sizes in memory, and images hold their sections, unless a position wrapped; and none does if no section is below its segment and tables, segments with their alignments and gaps, loose sections and 3 bytes of padding together stay below 2 to the 64. It succeeds if each segment has no sections with address and bytes, or shares none, does not start the file and has ascending addresses |
| Recency.RecentSplit | include/Cache.h:32-37 | In a list of distinct keys by last touch, exactly the keys touched since a key's last touch come before it |
| Recency.HitRule | include/Cache.h:25-37 | A key is held exactly when fewer than the capacity of distinct keys have been touched since a touch of it |
| Recency.HeldCount | include/Cache.h:25-30 | The number of held keys is the smaller of the capacity and the number of distinct keys |
| Recency.TouchHeld | include/Cache.h:32-37 | Touching a held key moves it to the front of the most recent keys |
| Recency.TouchNew | include/Cache.h:47-60 | Touching a new key drops the least recent of a full cache |
| LruCache.FrontLinked | include/Cache.h:32-37 | Erasing a node and pushing it to the front keeps map and list in bijection, each stored iterator at its own node |
| LruCache.BackLinked | include/Cache.h:25-30 | Dropping the last entry from both keeps the bijection |
| LruCache.NewLinked | include/Cache.h:53-60 | A new entry at the front keeps it too |
| LruCache.Cache.EnsureSpace | include/Cache.h:25-30 | Only the least recent keys go, as many as needed |
| LruCache.Cache.MoveFront | include/Cache.h:32-37 | The key is moved to the front and nothing else changes |
| LruCache.Cache.Emplace | include/Cache.h:47-60 | The cache then holds the most recently touched keys in order, this one first with the new value; says whether it was new |
| LruCache.Cache.At | include/Cache.h:62-69 | Succeeds exactly on held keys, with the value last stored, and touches the key |
| LruCache.Cache.Index | include/Cache.h:76-84 | Returns the value last stored, or stores the default under a new key; either way the key is touched |
| LruCache.Cache.Store | include/Cache.h:76-84 | Writing through a returned reference changes that value and nothing else |
| RecursiveMutex.AccessKeepsView | include/Mutex.h:37-121 | Each single access keeps what the acting thread knows, and changes owner and depth only inside the inner lock |
| RecursiveMutex.OtherView | include/Mutex.h:37-121 | It also keeps what every other thread knows |
| RecursiveMutex.StepKeepsInv | include/Mutex.h:37-121 | Every step of every thread keeps the invariant |
| RecursiveMutex.RunKeepsInv | include/Mutex.h:37-121 | The invariant holds in every state of every interleaving |
| RecursiveMutex.MutualExclusion | include/Mutex.h:37-121 | At most one thread owns the lock, also between the exchange on it and the setting of the owner |
| RecursiveMutex.FieldsMean | include/Mutex.h:59-121 | A free lock has owner 0 and depth 0, the depth is acquisitions minus releases, no internal assertion fails, only a non-owner's unlock halts, and try_lock and try_unlock report exactly what they did |
| RecursiveMutex.LockNeverReenters | include/Mutex.h:42-46 | The re-entry branch of lock is never taken |
| RecursiveMutex.StaysStuck | include/Mutex.h:39-51 | No step of any thread lets an owner out that is on its way through lock to the waiting loop, or in it |
| RecursiveMutex.StuckForever | include/Mutex.h:39-51 | From the moment a thread that holds the lock calls lock again, in every later state of every run it is on its way to the waiting loop or in it |
| RecursiveMutex.LocksTwice | include/Mutex.h:39-57 | A run in which that happens: one thread alone locks, returns, and locks again |
| RecursiveMutex.HaltBlocks | include/Mutex.h:79-97 | After a failed assertion no other thread gets past the inner lock again |
| RecursiveMutex.LockAlone | include/Mutex.h:39-57 | Not interrupted, lock takes a free lock |
| RecursiveMutex.TryLockAlone | include/Mutex.h:59-77 | Not interrupted, try_lock takes a free lock, deepens the caller's own, and fails on another's without changing it |
| RecursiveMutex.UnlockAlone | include/Mutex.h:79-114 | Not interrupted, both releases give back one acquisition, the last of them the lock, which try_unlock alone reports |
| RecursiveMutex.UnlockOther | include/Mutex.h:79-114 | On a lock that the caller does not hold, try_unlock changes nothing and unlock halts |
| Sectors.StoreMore | src/hardware/IDE.cpp:93-110 | Storing the next bytes extends the stored prefix |
| Sectors.WritesMore | src/hardware/IDE.cpp:82-110 | Writing the next bytes at their place modulo the wrap changes only bytes of the range modulo the wrap |
| Sectors.PatchedSector | src/hardware/IDE.cpp:82-88 | A sector read, patched and written back changes only the patched bytes |
| Sectors.PartIsEnough | src/hardware/IDE.cpp:71-76 | Storing a prefix is as good as storing all if and only if the rest was already there |
| Sectors.WriteThenRead | src/hardware/IDE.cpp:50-112 | What was stored whole is what a later read of the range returns |
| Sectors.OutsideUntouched | src/hardware/IDE.cpp:71-112 | No byte outside the range changes |
| Sectors.FetchMore | src/hardware/IDE.cpp:57-66 | Copying the next bytes extends the fetched prefix |
| Ide.AllStoredIff | src/hardware/IDE.cpp:75-76 | A successful request stores all its bytes if and only if it is unaligned or has at most 255 sectors |
| Ide.AllBytesLost | src/hardware/IDE.cpp:75-76 | Writing 131072 bytes to the start of the drive stores none of them and succeeds |
| Ide.WrappedIs | src/hardware/IDE.cpp:52-53 | The offset that sector number and remainder stand for is the one asked for, modulo 2 TiB |
| Ide.BeyondReach | src/hardware/IDE.cpp:50-112 | On no drive can a range that is not empty and ends past 2 TiB less a sector have been stored or fetched right |
| Ide.RightIff | src/hardware/IDE.cpp:71-112 | A write that reports success did what was asked if and only if nothing was asked, or the range is addressable and what was cut off was on the drive already |
| Ide.SectorProgress | src/hardware/IDE.cpp:94-109 | One more sector of the loop keeps what has been stored, also across the wrap of the sector number |
| Ide.WriteFarAway | src/hardware/IDE.cpp:71-76 | A sector written at 2 to the 41 succeeds and overwrites sector 0 |
| Ide.Drive.ReadSectors | src/hardware/IDE.cpp:31-48 | Succeeds exactly if there is a drive, the 32-bit sum of sector and count is within its size and it reports no error; then the drive has the sectors and the buffer holds them; nothing beyond them is written, and nothing for a count of 0 |
| Ide.Drive.WriteSectors | src/hardware/IDE.cpp:114-130 | Succeeds exactly if there is a drive and the 32-bit sum of sector and count is within its size; then exactly those of the sectors that the drive has change, otherwise none |
| Ide.Drive.ReadBytes | src/hardware/IDE.cpp:50-69 | On success the buffer holds exactly the bytes of the disk from the wrapped offset on, which is what was asked for if and only if the request is empty or addressable; nothing beyond them is written; a request for bytes that the drive has fails only if the drive reports an error |
| Ide.Drive.PatchSector | src/hardware/IDE.cpp:82-88 | Reading, patching and writing a sector succeeds exactly if the range check passes and the drive reports no error, and then changes exactly the patched bytes; otherwise nothing |
| Ide.Drive.WriteBytes | src/hardware/IDE.cpp:71-112 | For every request, also one that fails midway, only bytes of the range modulo 2 TiB change, to the data's bytes; unless a range check wraps a prefix is stored from the wrapped offset on, on success the whole up to the cut of aligned requests; a success is right if and only if `Right`; aligned requests succeed exactly if the range check passes, and a write to bytes that the drive has fails only if the drive reports an error |
| Ahci.Port.TransferAll | src/hardware/AHCI.cpp:584-622 | A loop of transfers of 8, 2 or 1 blocks fetches the next bytes in order and leaves less than one such transfer |
| Ahci.Port.Read | src/hardware/AHCI.cpp:578-624 | Succeeds exactly if every transfer does; then the buffer holds exactly the requested bytes, whatever the mix of transfers, and nothing beyond is written |
| Ahci.Port.ReadBytes | src/hardware/AHCI.cpp:626-645 | The same for any byte range |
| Ahci.Port.Write | src/hardware/AHCI.cpp:647-664 | For whole blocks: succeeds exactly if every transfer does, and then the blocks are on the disk; nothing outside the range changes |
| Ahci.Port.Patch | src/hardware/AHCI.cpp:678-687 | Reading, patching and writing a block changes exactly the patched bytes and leaves the patched block in the write buffer |
| Ahci.Port.WriteAt | src/hardware/AHCI.cpp:666-715 | On success exactly the bytes of `Kept` are stored from the offset on |
| Ahci.Port.WriteRest | src/hardware/AHCI.cpp:690-708 | The loop stores the write buffer for every full block, and the data of the last part |
| Ahci.Port.WriteBytes | src/hardware/AHCI.cpp:666-715 | Succeeds exactly if every transfer does; on a range that the disk has, a success is right if and only if `Right`; nothing outside the blocks of the range changes |
| Ahci.RepeatedIff | src/hardware/AHCI.cpp:690-708 | Writing one block in place of every full block is right if and only if every full block is that block |
| Ahci.RightIff | src/hardware/AHCI.cpp:666-715 | A success has stored the data if and only if an aligned request is shorter than 2 to the 32 or its rest was on the disk already, and every full block behind the first part of another equals the block of that part, or is zeros if there is none |
| Ahci.BlockLost | src/hardware/AHCI.cpp:690-708 | Of 513 bytes at the start of the disk only the last is stored, behind 512 zeros |
| PrintfSpec.DigitsParseBack | src/lib/printf.cpp:293-299 | The digits of a value parse back to it, in every base from 2 to 16 |
| PrintfSpec.DigitsInOrder | src/lib/printf.cpp:294-295 | Digits are worth their places in 0123456789abcdef and in 0123456789ABCDEF |
| PrintfSpec.DigitsFit | src/lib/printf.cpp:283-299 | Every octal, decimal and hexadecimal value fits the 32-character scratch buffer; a binary one does exactly below 2 to the 32 |
| PrintfSpec.DigitsCut | src/lib/printf.cpp:293-299 | The digits that do fit are worth the value modulo that power of the base |
| PrintfSpec.ScratchFits | src/lib/printf.cpp:228-275 | Padding, prefix and sign never exceed the scratch buffer |
| PrintfSpec.PaddingKeepsValue | src/lib/printf.cpp:231-241 | Precision and zero padding do not change the value printed, which in binary is the low 32 bits |
| PrintfPrefix.AlternateIff | src/lib/printf.cpp:243-263 | A number in the alternate form reads as its prefix and its value if and only if the digits dropped for the prefix are zeros and the prefix fits the scratch buffer |
| PrintfPrefix.AlternateShown | src/lib/printf.cpp:231-263 | In terms of the request: if and only if padding has supplied the dropped digits and, with a letter, two places are left |
| PrintfSpec.PlainNumberParsesBack | src/lib/printf.cpp:282-302 | An unflagged number, as printed, parses back to its value, in binary to its low 32 bits |
| PrintfSpec.NegativeParsesBack | src/lib/printf.cpp:265-302 | A negative one prints a minus sign and digits that parse back to its magnitude |
| PrintfSpec.SignShownIff | src/lib/printf.cpp:265-275 | A negative decimal shows its sign if and only if padding has not filled the scratch buffer |
| PrintfSpec.NumberFillsField | src/lib/printf.cpp:200-225 | A field is at least as wide as asked, except that zero padding stops at the scratch buffer |
| PrintfFormat.PlainFormat | src/lib/printf.cpp:588-596 | A format without directives prints itself, up to its end or its first NUL |
| PrintfFormat.IntegerParsesBack | src/lib/printf.cpp:680-757 | An unflagged integer directive prints its argument, of either sign, read at the width its length modifier gives |
| PrintfText.NumberPrints | src/lib/printf.cpp:200-302 | Without the alternate form a number prints as its sign and its digits in the asked case, worth the value and with leading zeros only where precision or zero padding ask for them, next to spaces up to the width on the side asked for, unless sign or zero padding do not fit the scratch buffer |
| PrintfText.AlternatePrints | src/lib/printf.cpp:200-263 | A number in the alternate form stands on the side asked for too, and reads as prefix and value under the condition of `AlternateShown` |
| PrintfText.ValueTaken | src/lib/printf.cpp:718-757 | An integer argument is taken modulo 256, 65536, 2 to the 32 or 2 to the 64, as its length says, and signed for `d` and `i` alone |
| PrintfText.IntegerPrints | src/lib/printf.cpp:680-757 | An integer directive prints its argument so taken, in the base of its specifier, upper case for `X`, with a plus or space only for `d` and `i` and no zero padding beside a precision, and takes one argument |
| PrintfText.PointerPrints | src/lib/printf.cpp:823-838 | A pointer prints as a 64-bit number in upper-case hexadecimal padded to 16 places, whatever its width |
| PrintfText.StringPrints | src/lib/printf.cpp:797-820 | A string directive prints the string up to its end or its precision, next to spaces up to the width on the side asked for, and takes one argument |
| PrintfText.StringsInOrder | src/lib/printf.cpp:797-820 | Bare `%s` directives, however many, print their arguments one after the other |
| PrintfText.CharacterPrints | src/lib/printf.cpp:777-794 | A character directive prints the low byte of its argument in its field |
| PrintfText.OtherPrints | src/lib/printf.cpp:841-849 | Every other specifier, the percent sign among them, prints itself and takes no argument |
| PrintfHead.FlagsMean | src/lib/printf.cpp:602-613 | The longest run of flags is read, each flag is set exactly if its character occurs in it, and nothing else is set |
| PrintfFormat.TenDigits | src/lib/printf.cpp:181-184 | The characters taken for digits are the ten digits |
| PrintfHead.NumberMeans | src/lib/printf.cpp:189-196 | The longest run of digits is read, and the result is its decimal value modulo 2 to the 32 |
| PrintfHead.HeadRoundTrip | src/lib/printf.cpp:601-675 | Any flags, width, precision and length as a programmer writes them, before any specifier, are read as what they mean: star arguments are taken in order, a negative width is left alignment, a negative precision 0 |
| PrintfHead.SignLostInFormat | src/lib/printf.cpp:231-275 | `%033d` of -1 prints 31 zeros and a 1, without a sign |
| PrintfHead.DigitsLostInFormat | src/lib/printf.cpp:243-263 | `%#8x` of 0x12345678 prints 0x345678 |
| Printf.Sink.Out | src/lib/printf.cpp:134-139 | A character past the limit is counted but not stored |
| Printf.Sink.OutRev | src/lib/printf.cpp:200-225 | The buffer is printed backwards in its field |
| Printf.Sink.ZeroFill | src/lib/printf.cpp:235-240 | Zeros are appended up to the asked length as far as they fit |
| Printf.Sink.AppendPrefix | src/lib/printf.cpp:244-263 | The base prefix replaces padding where there is no room |
| Printf.Sink.NtoaFormat | src/lib/printf.cpp:228-278 | In-place padding, prefix and sign give the specified scratch text |
| Printf.Sink.WriteDigits | src/lib/printf.cpp:293-299 | The digit loop writes the digits, least significant first, up to the size of the scratch buffer |
| Printf.Sink.NtoaLong | src/lib/printf.cpp:282-302 | A number prints as specified |
| Printf.Sink.ReadFlags | src/lib/printf.cpp:602-613 | The loop stops at the first character that is not a flag; a flag is set exactly if its character was passed |
| Printf.Sink.ReadNumber | src/lib/printf.cpp:189-196 | The loop stops at the first character that is not a digit; the result is the decimal value of those passed, modulo 2 to the 32 |
| Printf.Sink.Convert | src/lib/printf.cpp:678-852 | One directive prints the text that `PrintfText` describes and takes its arguments |
| Printf.Sink.Vprintf | src/lib/printf.cpp:578-853 | The whole format prints its specified text, which the buffer plays no part in |
| Printf.Snprintf | src/lib/printf.cpp:914-920 | With a buffer of n, the first n - 1 characters at most of the text and a NUL; nothing past that is touched; the number returned is the length of the text as a 32-bit int, and does not depend on n |
| Paths.Split | include/ThornUtil.h:8-32 | The pieces between delimiters; condensing drops empty ones but never the first |
| Paths.Resolve | src/fs/Util.cpp:25-49 | Erasing in place while walking equals the fold that pushes names and pops at double dots |
| Paths.FoldIsNames | src/fs/Util.cpp:25-49 | What is left are real names only |
| Paths.PiecesOfJoined | src/fs/Util.cpp:51-60 | Splitting undoes joining |
| Paths.SimplifyPath | src/fs/Util.cpp:9-60 | The result is the path resolved from the directory, as `ResolvedFrom` says; an empty path gives the directory |
| Paths.SimplifyAbsolute | src/fs/Util.cpp:62-104 | The overload without a directory gives the normal form |
| Paths.NormalIsClean | src/fs/Util.cpp:9-60 | The result is absolute, and its components are neither empty nor dots |
| Paths.NormalIsIdempotent | src/fs/Util.cpp:9-60 | Simplifying twice changes nothing |
| Paths.ResolvedComposes | src/fs/Util.cpp:9-60 | Resolving a relative path from where a path leads is resolving the two joined |
| Paths.ResolvedFrom | src/fs/Util.cpp:16-21 | The directory plays no part for an absolute path; a relative one continues it, whether or not the directory ends in a slash |
| Paths.OneMore | src/fs/Util.cpp:25-60 | A further slash or dot changes nothing, and a further name is put behind |
| Paths.GoesUp | src/fs/Util.cpp:37-46 | A double dot takes back a name |
| Paths.StaysAtRoot | src/fs/Util.cpp:28-36 | A double dot at the root stays there |
| Paths.RootOverload | src/fs/Util.cpp:62-104 | The overload without a directory resolves from the root |

## Left out

- PageMeta.PageMeta4K.Assign: the root table is given by its frame, so the canonical test on the kernel's own pointer to it is not modelled; tables are 4-KiB ones, with no 2-MiB entries.
- PageMeta.PageMeta4K.AllocateFreePhysicalAddress: only one frame at a time; runs of frames use `isFree`, whose sense is reversed, and mark one frame only.
- PageMeta.PageMeta4K.ModifyEntry: the halt when there is no kernel object.
- BootPaging.Boot.SetupPaging: the memory size is a parameter below 2 to the 32, as the multiboot field times 1024 is; reading the multiboot tags and 2-MiB pages are left out.
- Heap.Memory.RequestSpace: mapping pages ahead of the end of the heap, and the upper bound, which the code never tests.
- Heap.Memory.Allocate: bounds are set before the first allocation, memory is large enough for what is requested, and freeing twice is excluded.
- NextPrime.NextPrime: the 48 unrolled divisions are one loop over the increments.
- Sha1.CSHA1.Transform: the eighty unrolled steps are written five to a loop turn, as the rotation of the registers repeats.
- Sha1.CSHA1.Update: what the code reads and writes once that sum has wrapped.
- ElfSymbols.Tables.ArrangeLocalSymbols: byte order conversion and the bounds tests of symbol and relocation access, which never fail here.
- ElfLayout.Writer.Layout: the 64-bit class only, as 32-bit headers cut off offsets; the bound on sizes suffices for no position to wrap, and is necessary only section by section; section 0 never gets an offset and is not counted as a body; writing the bytes out.
- ElfLayout.Writer.WriteSegmentData: the memory size is stated as a total unless a NOBITS section takes memory and has a place already, or is padded to its alignment, or a stored section takes no memory; then it is stated section by section.
- LruCache.Cache.Emplace: iterators are node identities and keys, so the invalidation of hash-map iterators by rehashing is not captured; `erase` hands the list a void pointer, which does not fit its type, and is not modelled.
- RecursiveMutex.FieldsMean: the depth is unbounded, so the overflow of a 32-bit count is not captured; thread 0, waiting times, fairness, and the `Lock` wrapper's moves and destructor are left out.
- Ide.Drive.ReadBytes: what the buffer holds after a failure.
- Ide.Drive.WriteBytes: how much has been stored when a range check wraps, beyond which bytes can have changed and how; the drive is taken to store what the port output sends it, since the code looks at no status after it. ATAPI drives, which fail writes and use larger sectors, are left out.
- Ahci.Port.Read: registers, command lists and timeouts; block numbers from 2 to the 48 on, of which the command keeps 48 bits; the device cache.
- Ahci.Port.Write: counts that are no multiple of a block, which no caller passes; a transfer that fails may have stored its block or not.
- Printf.Snprintf: floats, formats that end inside a directive, and arguments of the wrong kind give no result; the null buffer and the character and callback outputs are left out.
- Paths.SimplifyPath: an empty path returns the directory as it is, simplified or not.
- Interrupts, ports, device discovery, file systems, terminals, processes, ELF loading and compression are plumbing around the above.
- Byte-level helpers such as `memset`, `upalign` and the numeric parsers would only add easy members.
