# PXOS kernel data structures

PXOS is a small 32-bit x86 kernel. This project models the data structures its correctness rests on and
proves what every run of their operations keeps.

- **Kernel heap.** `BlockList` is the address-ordered list of blocks as a value, with what `kmalloc` and `kfree`
  do to it. `HeapTheorems` proves the laws of that list. `KernelHeap` holds the 20-byte headers in a 4 GB byte
  array, follows and rewrites their links in place, and proves that the bytes always spell out the list.
- **Page tables.** `PageTables` packs page entries into words in the same byte array and proves that the
  two-level directory is a flat map from pages to frames and rights.
- **Physical pages.** `PageBitmap` is the bitmap of 65536 pages at 5 MB of that array, scanned by words, as a set
  of page numbers.
- **Memory manager.** `MemoryManager` puts the three into one memory and proves that in runs mixing all their
  operations, and writes by the owners of blocks, none disturbs another.
- **File system.** `Names` has 8.3 names, `Directory` the root directory and its two lookups, `Fat12` the packed
  table, `FatChains` cluster chains. `FsModel`, `FsOwnership` and `FsRuns` have the file operations on values and
  the ownership of clusters over runs. `FsShortfalls` has real runs in which they fail. `FileSystem` has the same
  operations in place on the bytes of the FAT and the slots of the directory.
- **Processes.** `ProcessQueues` has the intrusive queues, `Scheduler` the abstract state and its runs,
  `ProcessTable` the pool, flags, links and counters changed in place. `ProcessShortfalls` has real runs in which
  they fail.
- **Keyboard.** `Keyboard` has what scan codes do to modifiers and which characters they type, and the ring buffer, with
  the interrupt allowed between any two statements of the reader.
- **Numbers.** `Numbers` has `itoa` and `atoi`, hexadecimal output and the shell's address parser. `Shell` joins
  them to the heap.

Operations that change state are methods on arrays and fields. Each is proved equal to a function on values, and
the theorems are about those functions. `Machine` has the byte memory and the two memory functions of the C library,
`DiskLayout` the sizes of the disk, `Sequences` what is needed about sequences without repetition.

## Where the code falls short of what it is for

Each of these is kept as the code has it. The lemmas named show the failing cases and, beside them, when the code
meets its purpose.

- Rounding a request above 0xFFFFFFFC wraps to zero (`WrappedRequestIsGranted`, `GrantHoldsRequestIff`).
- Once page 0 is freed no page can be allocated again (`RunFailsIff`).
- The bitmap reserves the first 6 MB only, so that physical pages handed out are page tables in use, or the page
  directory, for exactly the calls that `NthPageIsPaging` names.
- `fs_init` writes the two reserved FAT entries before the file system is marked initialised, so both stay 0; the
  comment beside them says they are marked. Freeing from a free cluster therefore goes round on cluster 0 for ever
  (`FreeingEndsIff`, `FreeingFreeClusterHangs`).
- A name whose first byte is 0xE5 is created as a deleted entry and its cluster is lost; exactly such names do it
  (`OpenKeepsOwnedIff`, `OpenLeaksFromFresh`).
- `fs_delete` looks up the stripped path but removes the unstripped one. It frees the chain and leaves the entry
  (`DeleteKeepsOwnedIff`, `KeysAgreeIff`), and does so for every ordinary file that was created
  (`CreatedFileCannotBeDeleted`). Where the two have the same key, deleting works (`RunKeepsOwned`,
  `DeleteUndoesCreate`).
- The size of a file is never written back to its entry, so that every file is empty when it is opened again
  (`SizesStayZero`, `ReopenedEmpty`).
- The two directory lookups disagree on some paths, and creating such a path makes them
  (`LookupsAgreeInRuns`, `OpenMakesLookupsDiffer`).
- A write counts the clusters it needs from the file's first one, one for each 512 bytes of that write alone,
  whatever the offset (`WriteExtends`, `WriteKeepsOwned`). One large write takes twice the clusters its bytes fill
  (`FreshFileLength`); many small ones hardly any (`SmallWritesKeepShort`, `PiecewiseFile`).
- A terminated process keeps its links but gives up its slot, so that a create after a terminate and a second
  terminate leave no consistent state (`CreateAfterTerminateBreaks`, `TerminateDeadBreaks`, and from start-up
  `CreateAfterTerminate`, `TerminateTwice`).
- A second terminate gives back the same stack again (`StackFreedTwice`), exactly for the pids already dead
  (`ReleasedIff`), and so takes a block from its next owner (`StackOfAnotherFreed`). Without one every stack is given
  back once (`StacksAddUp`).
- The ready queue is pushed and popped at the front. A comment calls this round-robin, but no process other than
  the idle one is ever switched to (`RescheduledIdles`, `OnlyIdleEverRuns`).
- A character accepted between load and store of the reader's decrement is missing from the count
  (`SplitDecrementIff`, `LostKey`).
- `itoa` of the least integer does not read back (`AtoiItoaIff`).

## Model

| member | source | states |
|---|---|---|
| Machine.Memset | lib/string.c:79-85 | The range holds the value and no other byte changes. |
| Machine.Memcpy | lib/string.c:88-95 | Exact result for every pair of ranges, overlapping ones included: a byte read after it was written over has its new value; nothing else changes. |
| Machine.LittleEndian | kernel/memory.h:38-59 | A word in memory is its four bytes, lowest first. |
| BlockList.RoundUp4 | kernel/memory.c:266-267 | The least multiple of 4 not below n, except that above 0xFFFFFFFC it wraps to 0. |
| BlockList.FirstFit | kernel/memory.c:301-312 | A free block large enough with none before it, or none at all. |
| HeapTheorems.CoalesceKeeps | kernel/memory.c:341-360 | Merging keeps the tiling and the blocks in use and leaves no two free neighbours. |
| HeapTheorems.CoalesceIdle | kernel/memory.c:341-360 | Merging changes nothing when there are no two free neighbours. |
| HeapTheorems.DeterminedByLive | kernel/memory.c:341-360 | A tiling without free neighbours is determined by its blocks in use. |
| HeapTheorems.MallocContract | kernel/memory.c:261-282 | Fails exactly for 0 or when no free block holds the rounded size; otherwise the lowest such block, 4-aligned, wasting at most a header. |
| HeapTheorems.MallocKeeps | kernel/memory.c:315-338 | Keeps tiling and no free neighbours; adds exactly the granted block, at an address no block in use has. |
| HeapTheorems.FreeKeeps | kernel/memory.c:285-298 | Keeps tiling and no free neighbours; exactly the block with that payload address leaves the blocks in use. |
| HeapTheorems.FreeUndoesMalloc | kernel/memory.c:261-298 | Freeing what kmalloc returned restores the very same block list. |
| HeapTheorems.SecondFreeTakesAnothersBlock | kernel/memory.c:261-298 | A freed block goes to the next request of its size, and a second free by its first owner takes it from the second. |
| HeapTheorems.FreeCommutes | kernel/memory.c:285-298 | The order of two frees does not matter. |
| HeapTheorems.RunKeepsHeapOk | kernel/memory.c:99-112 | In every state reachable from heap_init the blocks tile the heap and no two neighbours are free; a free of an address where no block in use starts counts as no change. |
| HeapTheorems.RunsWithSameLiveBlocksAgree | kernel/memory.c:261-298 | Two runs that leave the same blocks in use leave the same heap. |
| HeapTheorems.FreeEverything | kernel/memory.c:285-298 | Freeing all blocks in use, in any order, ends in one free block of 0x100000 - 20 bytes. |
| HeapTheorems.GrantHoldsRequestIff | kernel/memory.c:266-267 | The granted payload holds n bytes if and only if n is at most 0xFFFFFFFC. |
| HeapTheorems.WrappedRequestIsGranted | kernel/memory.c:266-267 | The failing case: 0xFFFFFFFD bytes are granted with an empty payload. |
| HeapTheorems.BytesAddUp | kernel/memory.c:363-376 | Used bytes, free bytes and headers add up to the covered range. |
| HeapTheorems.UsedIsLive | kernel/memory.c:363-376 | The used bytes are the payload sizes of the blocks in use, summed over them as a set. |
| HeapTheorems.MallocUses | kernel/memory.c:261-282 | A grant adds exactly its size to the used bytes. |
| HeapTheorems.FreeGivesBack | kernel/memory.c:285-298 | A free takes exactly the size of its block off the used bytes. |
| KernelHeap.HeaderWords | kernel/memory.h:38-44 | The five words at every block: payload address, size, 0 or 1 for free or allocated, address of the next and of the previous block or 0. |
| KernelHeap.Heap.constructor | kernel/memory.c:99-117 | The memory spells out one free block; nothing outside the heap changes. |
| KernelHeap.Heap.FindFreeBlock | kernel/memory.c:301-312 | Walking the links finds the block the first fit on the list names, or NULL. |
| KernelHeap.Heap.SplitBlock | kernel/memory.c:315-338 | The headers and links spell out the split list; no payload in use and nothing outside the heap changes. |
| KernelHeap.Heap.AbsorbNext | kernel/memory.c:345-355 | The headers and links spell out the list with two blocks made one. |
| KernelHeap.Heap.MergeAdjacentBlocks | kernel/memory.c:341-360 | The walk in place computes the recursive merge of the whole list; no payload in use changes. |
| KernelHeap.Heap.UpdateMemoryStats | kernel/memory.c:363-376 | Used and free bytes are those of the list, so that with the headers they make 0x100000. |
| KernelHeap.Heap.Kmalloc | kernel/memory.c:261-282 | Refines the allocation on lists; payloads in use and memory outside the heap keep their bytes. |
| KernelHeap.Heap.Kfree | kernel/memory.c:285-298 | Refines the free on lists; payloads that stay in use keep their bytes; the freed header no longer says allocated. |
| KernelHeap.Heap.Krealloc | kernel/memory.c:509-528 | All four cases; the first min(old payload, new size) bytes arrive although the copy may run past the old block, and no other payload changes; a failed call changes none. |
| PageTables.DecodeEncode | kernel/memory.h:47-59 | Packing the eleven bit-fields into a word and reading them loses nothing. |
| PageTables.EncodeIs | kernel/memory.h:47-59 | The word as a number: present has weight 1, writable 2, user 4 and so on up to global 256, available bits 512, frame 4096. |
| PageTables.EncodeDecode | kernel/memory.h:47-59 | Every 32-bit word is that of the fields read from it. |
| PageTables.WalkIsWord | kernel/memory.c:379-393 | In every well-formed state the two-level walk of a page is what its one word says: bit 0 whether mapped, bits 1, 2 and 8 the rights, the word divided by 4096 the frame. |
| PageTables.MappedWordBits | kernel/memory.c:213-221 | The word map_page stores has the frame of the physical address and bits 0, 1, 2 and 8 of the flags, as numbers. |
| PageTables.TablesBounded | kernel/memory.c:242-251 | At most 1024 tables, all in 0x700000..0xB00000, clear of the directory, distinct for distinct directory slots. |
| PageTables.EntrySet | kernel/memory.c:213-221 | Setting one table entry remaps exactly one page. |
| PageTables.TableAdded | kernel/memory.c:199-211 | Installing an empty table remaps no page. |
| PageTables.Paging.constructor | kernel/memory.c:50-69 | Page p of the first 4 MB has the word p * 4096 + 0x103, or + 0x003 in the kernel's 1 MB, so maps to itself, writable and for the kernel only; every other page has the word 0 and is not mapped. |
| PageTables.Paging.MapIdentity | kernel/memory.c:72-96 | Exactly the pages of the range map to themselves with the flags. |
| PageTables.Paging.CreatePageTable | kernel/memory.c:242-251 | The next page from the bump pointer, with every entry absent. |
| PageTables.Paging.MapPage | kernel/memory.c:194-224 | The word of the page gets frame and flags as MappedWordBits says, no other page's word changes; it so gets the frame and the effective rights, and every other page translates as before; only paging memory changes. |
| PageTables.Paging.UnmapPage | kernel/memory.c:227-239 | Exactly the lowest bit of that page's word is cleared and exactly that page is unmapped; true exactly if its table exists. |
| PageTables.Paging.GetPhysicalAddress | kernel/memory.c:379-393 | Frame and offset of the two-level walk, 0 if unmapped. |
| MemoryManager.PagingFrame | kernel/memory.c:379-393 | Translation depends on the paging areas only. |
| MemoryManager.HeapFrame | kernel/memory.c:301-312 | The block list depends on the heap only. |
| MemoryManager.RunKeepsOk | kernel/memory.c:139-298 | Every state of every run of kmalloc, kfree, krealloc, map_page, unmap_page, page allocation and freeing, and writes by owners has a well-formed heap and page tables; a free of an address where no block in use starts counts as no change. |
| MemoryManager.RunKeepsPayload | kernel/memory.c:139-298 | Over every such run a block that stays in use keeps its bytes unless its owner writes. |
| MemoryManager.RunTranslates | kernel/memory.c:194-239 | After every such run each page translates as the last call about it says. |
| MemoryManager.RunMarks | kernel/memory.c:139-157 | After every such run the bitmap holds what the calls about physical pages made of it, whatever came between them. |
| MemoryManager.NthPageIsPaging | kernel/memory.c:120-147 | The n-th physical page from start-up is a page table in use or the page directory if and only if n is 256 to 255 plus the number of tables, or 2560. |
| MemoryManager.Kernel.constructor | kernel/memory.c:29-47 | Bitmap, page tables and heap are new and all as they should be in one memory after start-up. |
| MemoryManager.Kernel.Kmalloc | kernel/memory.c:261-282 | Takes a step of the run model and answers the address granted. |
| MemoryManager.Kernel.Kfree | kernel/memory.c:285-298 | Takes a step of the run model. |
| MemoryManager.Kernel.Krealloc | kernel/memory.c:509-528 | Takes a step of the run model and answers the address granted, or NULL. |
| MemoryManager.Kernel.MapPage | kernel/memory.c:194-224 | Takes a step of the run model. |
| MemoryManager.Kernel.UnmapPage | kernel/memory.c:227-239 | Takes a step of the run model; true exactly if the page has a table. |
| MemoryManager.Kernel.AllocPhysicalPage | kernel/memory.c:139-147 | Takes a step of the run model and answers the least free page. |
| MemoryManager.Kernel.FreePhysicalPage | kernel/memory.c:150-157 | Takes a step of the run model. |
| PageBitmap.WithBitIs | kernel/memory.c:175-184 | Setting or clearing a bit adds or takes its weight and changes no other bit. |
| PageBitmap.OnesBit | kernel/memory.c:160-172 | A word of all ones has no clear bit, so skipping it misses nothing. |
| PageBitmap.MarkedBy | kernel/memory.c:187-191 | A page is in the set exactly if the word at 5 MB + 4 * (page / 32) has the binary digit of weight 2^(page % 32). |
| PageBitmap.AllocPageContract | kernel/memory.c:139-147 | Takes the least free page; fails exactly when all pages are taken or page 0 is free. |
| PageBitmap.FreeUndoesAlloc | kernel/memory.c:139-157 | Freeing the page just allocated restores the set. |
| PageBitmap.AllocTimesIs | kernel/memory.c:120-147 | From start-up exactly the 64000 unreserved pages can be had, in address order, once each. |
| PageBitmap.RunFailsIff | kernel/memory.c:139-157 | After every run allocation fails if and only if all pages are taken or page 0 was ever freed. |
| PageBitmap.BitmapFrame | kernel/memory.c:160-191 | The pages marked depend on the bitmap only. |
| PageBitmap.Bitmap.constructor | kernel/memory.c:120-136 | Exactly the first 1536 pages are marked, and no memory but the bitmap changes. |
| PageBitmap.Bitmap.SetBitmapBit | kernel/memory.c:175-184 | Adds or removes exactly one page. |
| PageBitmap.Bitmap.GetBitmapBit | kernel/memory.c:187-191 | Membership in the set. |
| PageBitmap.Bitmap.FindFreePhysicalPage | kernel/memory.c:160-172 | The scan that skips full words finds the least free page, and answers 0 if there is none. |
| PageBitmap.Bitmap.AllocPhysicalPage | kernel/memory.c:139-147 | Refines allocation on sets. |
| PageBitmap.Bitmap.FreePhysicalPage | kernel/memory.c:150-157 | Refines freeing on sets. |
| Names.Strchr | lib/string.c:181-194 | The first occurrence, or none. |
| Names.Strcasecmp | lib/string.c:21-42 | Zero if and only if the strings agree up to case; otherwise the difference at the first place they differ, of signed characters or with the end. |
| Names.Memcmp | lib/string.c:165-178 | Zero if and only if the bytes agree; otherwise the sign of the first difference. |
| Names.CaseIs | lib/string.c:21-42 | Exactly the bytes 0x61 to 0x7A are raised, by 0x20, and exactly 0x41 to 0x5A lowered. |
| Names.KeyIs | fs/filesystem.c:1019-1052 | The eleven bytes of a key, one by one: what is before and after the first dot, 0x61 to 0x7A less 0x20, then spaces. |
| Names.ConvertFilename | fs/filesystem.c:1019-1052 | The two buffers hold, byte by byte, base and extension, cut to 8 and 3, with 0x61 to 0x7A less 0x20, padded with spaces. |
| Names.ConvertFilenameBack | fs/filesystem.c:1055-1072 | Both fields up to the first space, with a dot if there is an extension. |
| Names.ShownKeyIff | fs/filesystem.c:1019-1072 | Decoding an encoded name gives its upper-case form if and only if it has no space, fits 8.3 and does not end in a dot. |
| Names.KeyShownIff | fs/filesystem.c:1019-1072 | Encoding a decoded key gives the same 11 bytes if and only if the key is padded at the ends, in upper case, with no dot in the base. |
| Directory.NameMatchesIff | fs/filesystem.c:1200-1233 | A slot with a well-formed key matches a name by decoding if and only if it matches by encoding and the name is canonical. |
| Directory.LookupsAgree | fs/filesystem.c:866-891 | On every well-formed directory, deleted slots included, find_entry and find_directory_entry find the same slot. |
| Directory.LookupsDiffer | fs/filesystem.c:1200-1233 | For every path outside the condition of LookupsAgree they differ on the directory with the one entry a create of it makes. |
| Directory.CanonicalPathAgrees | fs/filesystem.c:1019-1052 | Canonical names not starting with 0xE5 meet that condition. |
| Directory.CanonicalKey | fs/filesystem.c:1019-1052 | The key of a canonical name is padded at the ends, in upper case, with no dot in the base. |
| Fat12.ReadBack | fs/filesystem.c:764-807 | A written value reads back modulo 4096. |
| Fat12.EntryByBytes | fs/filesystem.c:764-786 | An even cluster is one byte and the low half of the next, an odd one the high half of a byte and the next, the first the lower. |
| Fat12.NeighbourKept | fs/filesystem.c:789-807 | The cluster that shares a byte keeps its value. |
| Fat12.StoreRefines | fs/filesystem.c:789-807 | The packed bytes behave as an array of 2880 values; a write changes exactly one. |
| FatChains.ChainAcyclic | fs/filesystem.c:844-863 | A chain that ends never visits a cluster twice. |
| FatChains.FreeFrom | fs/filesystem.c:810-822 | The first free cluster, with none free before it. |
| FatChains.FreeingEndsIff | fs/filesystem.c:844-863 | The freeing loop ends if and only if the table leads from the start out of the table. |
| FatChains.FreeingWalkEnds | fs/filesystem.c:844-863 | It then takes one iteration for each cluster and clears exactly those. |
| FatChains.FreeingFreeClusterHangs | fs/filesystem.c:844-863 | Started on a free cluster it never ends. |
| FatChains.ChainAppend | fs/filesystem.c:264-288 | Linking a free cluster to the last one gives the longer chain. |
| FsModel.ValidNameCanonicalIff | fs/filesystem.c:1075-1101 | Valid names without spaces and without trailing dot are exactly the canonical names with a base. |
| FsModel.ValidPathIff | fs/filesystem.c:1075-1129 | Exactly the paths accepted, byte by byte: the two dot names, the root, and a slash with 1 to 8 bytes before and at most 3 after the first dot, or at most 8 without one. |
| FsModel.CreateLookups | fs/filesystem.c:115-133 | A create succeeds exactly if there is a free cluster and a free slot; its key then finds the new slot, every other key finds what it did, and a failure changes nothing. |
| FsModel.CreateKeepsUnique | fs/filesystem.c:894-924 | No key is used twice after a create, whatever the name. |
| FsModel.OpenCreates | fs/filesystem.c:104-149 | Opening with CREATE: result code by what is full, a handle on a cluster that was free, which the path then names. |
| FsModel.OpenExisting | fs/filesystem.c:104-149 | Opening a path whose entry is there changes nothing and gives a handle on its cluster and size at offset 0, with or without CREATE; denied exactly for writing a read-only entry. |
| FsModel.OpenFailsIff | fs/filesystem.c:104-149 | InvalidPath exactly for invalid paths; NotFound exactly if no entry has the key and the mode has no CREATE. |
| FsModel.MkdirAnswers | fs/filesystem.c:332-383 | Result code by path, existing entry, full table and full directory; on success one unused slot becomes an entry with attribute 0x10 on a cluster that was free, and nothing else changes; otherwise nothing does. |
| FsModel.Seek | fs/filesystem.c:295-322 | A seek that succeeds ends within the size; one that fails changes nothing. |
| FsModel.SeekGoes | fs/filesystem.c:300-321 | A seek from the start, the offset or the end goes exactly to the place asked for if that is within the file and is refused beyond it; the places that wrap are named. |
| FsModel.SeekRefused | fs/filesystem.c:296-314 | An invalid handle and any other whence are refused. |
| FsOwnership.CreateKeepsOwned | fs/filesystem.c:115-133 | The new entry owns its one cluster and every other chain is as before. |
| FsOwnership.CreateLeaks | fs/filesystem.c:894-924 | A name starting with 0xE5 leaves a cluster that no entry owns, whatever the directory is taken to own. |
| FsOwnership.WriteExtends | fs/filesystem.c:236-289 | Every write only extends the chain it is on, by clusters that were free: exactly as many as the closed form gives for offset, count, sector and place on the chain; it fails exactly if there are fewer. |
| FsOwnership.WriteAdvances | fs/filesystem.c:222-292 | A write that succeeds moves offset and size by what was written, as 32-bit words. |
| FsOwnership.WriteKeepsOwned | fs/filesystem.c:222-292 | Disjoint ownership is kept; only the chain of the written file grows, at its tail, by max(0, (offset % 512 + count) / 512 - offset / 512 % 2 - (held - 1)) clusters; result code by whether there are as many. |
| FsOwnership.AnyWriteKeepsOwned | fs/filesystem.c:222-292 | A write from any data cluster keeps ownership: from a free one it changes nothing, otherwise it extends the chain of the present owner. |
| FsOwnership.FreshFileLength | fs/filesystem.c:222-292 | A new file written once with n bytes holds 1 + n / 512 clusters. |
| FsOwnership.SmallWritesStop | fs/filesystem.c:229-288 | Writes of at most 512 * m bytes never bring a file beyond m + 1 clusters, at any offset. |
| FsOwnership.DeleteKeepsOwnedIff | fs/filesystem.c:563-593 | Deleting keeps ownership if and only if the path and the stripped path have the same key. |
| FsOwnership.DeleteOrphans | fs/filesystem.c:563-593 | Otherwise the entry stays and its first cluster is free. |
| FsOwnership.DeletingTwiceHangs | fs/filesystem.c:563-593 | A second delete of that path then never ends. |
| FsOwnership.DeleteAnswers | fs/filesystem.c:563-593 | Every result code of a delete, by path, entry and attribute; a directory is refused and nothing changes. |
| FsOwnership.MadeDirectoryStays | fs/filesystem.c:332-593 | Deleting a directory just made answers AccessDenied and changes nothing. |
| FsOwnership.KeysAgreeIff | fs/filesystem.c:975-994 | For valid paths the keys agree exactly without a leading slash or when the base is eight slashes. |
| FsRuns.RunKeepsState | fs/filesystem.c:104-383 | Over every run of open, mkdir, write, seek and close on names not starting with 0xE5: every entry heads an acyclic chain, chains are disjoint, together they are exactly the clusters in use, and every handle is of an entry and in range. |
| FsRuns.RunKeepsUnique | fs/filesystem.c:104-383 | After every run, deletes included and on any names, no key is used twice. |
| FsRuns.RunKeepsText | fs/filesystem.c:894-924 | After every run on C strings, deletes included, no key in the directory holds a zero byte, as find_entry needs. |
| FsRuns.RunKeepsWellFormed | fs/filesystem.c:894-924 | After every run on names with well-formed keys, deletes included, the directory is well-formed, deleted slots too. |
| FsRuns.LookupsAgreeInRuns | fs/filesystem.c:866-891 | After every run on canonical names both lookups find the same slot, for every path they treat alike. |
| FsRuns.SmallWritesKeepShort | fs/filesystem.c:222-292 | Over every run whose writes are of at most 512 * m bytes, no file ever holds more than m + 1 clusters. |
| FsRuns.SizesStayZero | fs/filesystem.c:222-292 | After every run the size in every entry is 0. |
| FsRuns.ReopenedEmpty | fs/filesystem.c:104-149 | After every run every handle given out has size 0. |
| FsRuns.EntryPersists | fs/filesystem.c:104-593 | An entry stays as it is, in its slot, over every continuation of a run that does not delete its key. |
| FsRuns.NoneReadOnly | fs/filesystem.c:104-383 | After every run no entry is read-only. |
| FsRuns.OpensAgain | fs/filesystem.c:104-149 | A path once opened opens again in every mode, on the same cluster, after any further operations that do not delete it. |
| FsRuns.RunKeepsOwned | fs/filesystem.c:104-593 | Over every run that also deletes paths with the same key with and without slash, all clusters in use stay owned by disjoint acyclic chains, even if files are written through handles from before they were deleted. |
| FsRuns.DeletedHandleIff | fs/filesystem.c:563-593 | After such a delete a handle is of an entry if and only if it was before and is not of the deleted file. |
| FsRuns.DeleteUndoesCreate | fs/filesystem.c:563-593 | Such a delete right after the create restores the FAT and leaves one marked slot. |
| FsShortfalls.OpenKeepsOwnedIff | fs/filesystem.c:104-149 | From every good state with room, creating a file keeps all clusters owned if and only if its name does not start with 0xE5. |
| FsShortfalls.OpenLeaksFromFresh | fs/filesystem.c:104-149 | On a fresh file system one such open loses a cluster. |
| FsShortfalls.OpenMakesLookupsDiffer | fs/filesystem.c:104-149 | On a path the lookups do not treat alike, one open with CREATE makes them differ. |
| FsShortfalls.CreatedFileCannotBeDeleted | fs/filesystem.c:563-593 | From every good state, deleting an ordinary file just opened with CREATE leaves its entry on free clusters, and deleting it again never ends. |
| FsShortfalls.FreshFileCannotBeDeleted | fs/filesystem.c:563-593 | In particular the first file on a fresh file system. |
| FsShortfalls.PiecewiseFile | fs/filesystem.c:222-292 | A file written in n > 0 pieces of 512 bytes has size 512 * n and two clusters, for every n whose size fits 32 bits. |
| FileSystem.FatFileSystem.constructor | fs/filesystem.c:25-93 | An empty directory and an all-zero table, reserved clusters included. |
| FileSystem.FatFileSystem.ReadFat | fs/filesystem.c:764-786 | The value of the cluster, or an error outside the table. |
| FileSystem.FatFileSystem.WriteFat | fs/filesystem.c:789-807 | Changes one value of the table modulo 4096, or fails and changes nothing. |
| FileSystem.FatFileSystem.FindFreeCluster | fs/filesystem.c:810-822 | The first free data cluster, or -1. |
| FileSystem.FatFileSystem.AllocateCluster | fs/filesystem.c:825-841 | The first free cluster gets an end mark, or nothing changes. |
| FileSystem.FatFileSystem.FreeClusterChain | fs/filesystem.c:844-863 | From every start from which the loop ends: clears exactly the clusters on the way, success exactly if the way leaves through an end mark; an error before initialisation. |
| FileSystem.FatFileSystem.FindDirectoryEntry | fs/filesystem.c:866-891 | The first used slot with the key of the stripped path. |
| FileSystem.FatFileSystem.FindEntryByName | fs/filesystem.c:1200-1233 | The first slot shown under the name, which on well-formed directories and for paths treated alike is the slot FindDirectoryEntry returns. |
| FileSystem.FatFileSystem.AddDirectoryEntry | fs/filesystem.c:894-924 | The entry goes to the first unused slot, or nothing changes. |
| FileSystem.FatFileSystem.RemoveDirectoryEntry | fs/filesystem.c:975-994 | Marks the first used slot with the key of the name as given, with every error code. |
| FileSystem.FatFileSystem.CreateEntry | fs/filesystem.c:115-133 | Refines the create on values; a full directory gives the cluster back. |
| FileSystem.FatFileSystem.OpenFile | fs/filesystem.c:104-149 | Refines the open on values, which OpenCreates, OpenExisting and OpenFailsIff say in full. |
| FileSystem.FatFileSystem.MakeDirectory | fs/filesystem.c:332-383 | Refines the mkdir on values, which MkdirAnswers says in full. |
| FileSystem.FatFileSystem.NextCluster | fs/filesystem.c:264-288 | Along the chain, or a new cluster linked to its end, or an error. |
| FileSystem.FatFileSystem.WriteFile | fs/filesystem.c:222-292 | Refines the write on values, for FAT, handle, code and the number returned; an invalid handle is refused. |
| FileSystem.FatFileSystem.DeleteFile | fs/filesystem.c:563-593 | Refines the delete on values whenever the freeing loop ends. |
| FatChains.UndoAllocation | fs/filesystem.c:825-863 | Freeing the single cluster just allocated restores the table. |
| ProcessQueues.PushFrontQueue | kernel/process/process.c:83-92 | The well-linked queue with the new process in front. |
| ProcessQueues.PushFrontOther | kernel/process/process.c:83-92 | Queues with no common member stay as they are. |
| ProcessQueues.UnlinkQueue | kernel/process/process.c:95-110 | The well-linked queue without that member, in the same order. |
| ProcessQueues.UnlinkOther | kernel/process/process.c:95-110 | Queues with no common member stay as they are. |
| ProcessQueues.QueueUnique | kernel/process/process.c:113-122 | Head and links determine the queue. |
| Scheduler.RunOk | kernel/process/process.c:162-316 | Over every run in which no process is created after a terminate and no pid is terminated twice: running, ready and terminated slots are distinct, fill the pool from slot 0, and have distinct pids below next_pid. |
| Scheduler.FoundIff | kernel/process/process.c:319-338 | The slot found is the one running, ready or terminated slot with the pid; NULL exactly if there is none. |
| Scheduler.FoundAgain | kernel/process/process.c:206-243 | A process just terminated is found again in the same slot, with the same stack. |
| Scheduler.StacksAddUp | kernel/process/process.c:162-243 | Over every such run the stacks taken from kmalloc are those given back, each once, and those of live processes. |
| Scheduler.OnlyIdleEverRuns | kernel/process/process.c:206-316 | Over every run only the idle process runs, and once it is terminated nothing does. |
| ProcessTable.CreateKeepsInv | kernel/process/process.c:162-203 | With no process terminated, a create keeps links, flags, states and counters in step. |
| ProcessTable.CreateAfterTerminateBreaks | kernel/process/process.c:162-203 | After a terminate, a create always takes a slot still on the terminated queue and no reading of the links is consistent. |
| ProcessTable.TerminateRunningKeepsInv | kernel/process/process.c:206-243 | Terminating the running process keeps them in step; terminated slots say so. |
| ProcessTable.TerminateReadyKeepsInv | kernel/process/process.c:206-243 | Terminating a ready process keeps them in step; terminated slots say so. |
| ProcessTable.TerminateDeadBreaks | kernel/process/process.c:206-243 | Terminating a terminated process never does. |
| ProcessTable.PopUndoesPush | kernel/process/process.c:83-110 | Taking off the process just pushed restores pool and head exactly. |
| ProcessTable.RescheduledIdles | kernel/process/process.c:251-308 | A whole reschedule changes only the remaining slice of the running process. |
| ProcessTable.StackFreedTwice | kernel/process/process.c:206-233 | Terminating a live process leaves a consistent state in which its pid is found again in the same slot and a second call gives back the same stack. |
| ProcessTable.ReleasedIff | kernel/process/process.c:206-243 | The slot process_terminate finds has been released already if and only if the pid is dead. |
| ProcessShortfalls.CreateAfterTerminate | kernel/process/process.c:162-243 | From start-up, create, terminate and create leave no consistent state. |
| ProcessShortfalls.TerminateTwice | kernel/process/process.c:206-243 | From start-up, create and two terminates free one stack twice and leave no consistent state. |
| ProcessShortfalls.StackOfAnotherFreed | kernel/process/process.c:225-227 | The block of that stack has meanwhile been granted to the next owner, and the second terminate frees it. |
| ProcessTable.Manager.constructor | kernel/process/process.c:24-56 | A new pool in which the idle process, pid 0, runs in slot 0. |
| ProcessTable.Manager.AllocatePcb | kernel/process/process.c:59-68 | The first unused slot, cleared and marked, or NULL if all are used. |
| ProcessTable.Manager.DeallocatePcb | kernel/process/process.c:71-80 | Unmarks exactly that slot. |
| ProcessTable.Manager.AddToQueue | kernel/process/process.c:83-92 | Refines the push on values. |
| ProcessTable.Manager.RemoveFromQueue | kernel/process/process.c:95-110 | Refines the unlink on values. |
| ProcessTable.Manager.FindProcessInQueue | kernel/process/process.c:113-122 | The first member of the queue with the pid, or NULL. |
| ProcessTable.Manager.ProcessGetByPid | kernel/process/process.c:319-338 | The running, ready or terminated process with the pid, or NULL. |
| ProcessTable.Manager.ProcessCreate | kernel/process/process.c:162-203 | Every error code; queue full exactly at 64 processes, so the pool never fails; the new process has the stack given and a slice of 10; refines the create if nothing was terminated, and otherwise leaves no consistent state. |
| ProcessTable.Manager.ProcessTerminate | kernel/process/process.c:206-243 | Not found exactly if no process has the pid; gives back its stack, which its slot goes on naming; refines the terminate for a pid that is not dead, and otherwise leaves no consistent state. |
| ProcessTable.Manager.ScheduleNextProcess | kernel/process/process.c:270-287 | The head of the ready queue is taken off and runs; if that queue is empty, the process with pid 0 runs, wherever it is found. |
| ProcessTable.Manager.ProcessSwitch | kernel/process/process.c:290-308 | That process runs with a full slice, and no other changes. |
| ProcessTable.Manager.ProcessScheduler | kernel/process/process.c:251-267 | Leaves everything as it is, except that a used-up slice of the running process is full again. |
| ProcessTable.Manager.ProcessYield | kernel/process/process.c:311-316 | Leaves everything as it is, except that the slice of the running process is full again. |
| Keyboard.ShiftAndCapsCancel | drivers/keyboard/keyboard.c:139-166 | On every letter key shift and caps lock cancel each other. |
| Keyboard.FlagsFromCodes | drivers/keyboard/keyboard.c:73-136 | After any codes shift, ctrl and alt are on exactly if the last code about them is a press, caps lock exactly if it was pressed an odd number of times. |
| Keyboard.LetterTyped | drivers/keyboard/keyboard.c:139-166 | After any codes a letter key types its letter, a capital exactly if one of shift and caps lock is on. |
| Keyboard.OtherTyped | drivers/keyboard/keyboard.c:73-166 | What every other key types, with and without shift: Enter, Backspace, the number row, the signs and the space. |
| Keyboard.ReleaseTypesNothing | drivers/keyboard/keyboard.c:73-136 | A release types nothing. |
| Keyboard.RunFlags | drivers/keyboard/keyboard.c:73-136 | In every interleaving the modifiers are those the codes so far give, whatever the reader does. |
| Keyboard.RunTypes | drivers/keyboard/keyboard.c:73-136 | While the buffer has not been full the characters accepted are the text the codes so far type. |
| Keyboard.InterruptKeepsOk | drivers/keyboard/keyboard.c:73-136 | At any point of the reader an interrupt appends its character or drops it, and overwrites no unread slot. |
| Keyboard.StatementKeepsOk | drivers/keyboard/keyboard.c:185-195 | Each statement of the reader keeps buffer, indices and count in step. |
| Keyboard.ReturnsNext | drivers/keyboard/keyboard.c:185-195 | The character returned is the next one accepted. |
| Keyboard.RunOk | drivers/keyboard/keyboard.c:185-200 | Over every interleaving the characters returned are a prefix, in order, of those accepted. |
| Keyboard.DroppedWhen | drivers/keyboard/keyboard.c:128-134 | A typed character is dropped if and only if 256 characters have been accepted and not yet returned. |
| Keyboard.SplitDecrementIff | drivers/keyboard/keyboard.c:192-192 | With any interrupts between load and store of the decrement, the state stays consistent if and only if the buffer was full or nothing was typed; otherwise exactly the characters accepted meanwhile are missing from the count. |
| Keyboard.SplitDecrementFails | drivers/keyboard/keyboard.c:192-192 | One character typed in between breaks the state whenever the buffer has room. |
| Keyboard.LostKey | drivers/keyboard/keyboard.c:185-200 | From start-up, after two keys so timed, a character is in the buffer and the count is 0. |
| Keyboard.Driver.constructor | drivers/keyboard/keyboard.c:39-48 | A new empty buffer and no modifier. |
| Keyboard.Driver.ProcessScancode | drivers/keyboard/keyboard.c:73-136 | Is the interrupt step of the run model, whose modifiers and characters FlagsFromCodes, LetterTyped and OtherTyped give. |
| Keyboard.Driver.GetChar | drivers/keyboard/keyboard.c:185-195 | Undisturbed, returns the next accepted character, or NUL exactly if there is none. |
| Keyboard.Driver.HasInput | drivers/keyboard/keyboard.c:198-200 | True if and only if a character is unread. |
| Numbers.Itoa | lib/string.c:125-162 | Digits collected, cut to bytes and reversed in place are the text of the number, for every base for which the loop ends. |
| Numbers.UnitBaseStays | lib/string.c:140-144 | For bases 1 and -1 the number never comes nearer to zero. |
| Numbers.DivRem | lib/string.c:140-144 | The truncated quotient and remainder of C: the remainder is smaller than the divisor and has the sign of the number. |
| Numbers.DigitsWorth | lib/string.c:125-162 | The digits of a positive number in every base up to 36 are worth the number, are digits and small letters below the base, and do not start with 0. |
| Numbers.ReverseInPlace | lib/string.c:152-161 | Exactly the first n places are reversed. |
| Numbers.Atoi | lib/string.c:98-122 | Blanks, sign and digits, in 32-bit arithmetic. |
| Numbers.DigitsReadBack | lib/string.c:98-162 | Decimal digits read back to the number with no overflow on the way. |
| Numbers.AtoiIsDecimal | lib/string.c:98-122 | atoi of any text is the value of the digits after blanks and sign, however many, as a 32-bit integer. |
| Numbers.AtoiReads | lib/string.c:98-122 | Blanks, an optional sign, digits and anything after them give the signed value of the digits as a 32-bit integer. |
| Numbers.AtoiItoaIff | lib/string.c:98-162 | atoi undoes itoa in base 10 if and only if the number is not -2^31. |
| Numbers.PutHex | drivers/vga/vga.c:217-242 | The text printed for every 32-bit value. |
| Numbers.HexDigitsFit | drivers/vga/vga.c:217-242 | At most k digits below 16^k, so 8 always suffice. |
| Numbers.ParseHexAddress | kernel/kernel.c:418-439 | The address of a text, or that it is none. |
| Numbers.ParsePrinted | kernel/kernel.c:418-439 | Every printed 32-bit value is parsed back to itself. |
| Numbers.ParseIsModulo | kernel/kernel.c:424-439 | A text of any length parses to its value modulo 2^32. |
| Numbers.HexValueIs | kernel/kernel.c:424-439 | A character has the value of its place among 0 to 9 and A to F, capital or small; no other has one; capitals are what is printed. |
| Numbers.ParseIs | kernel/kernel.c:418-439 | Every text, with prefix or without: refused exactly if a character left is no digit, otherwise the value modulo 2^32. |
| Shell.FreeUndoesMallocAtTheShell | kernel/kernel.c:398-445 | Typing the address printed for a kmalloc into the free command restores the heap. |

## Left out

- KernelHeap.Heap.Krealloc: sizes above 0xFFFFFFFC are excluded, because the wrapped grant is empty and the copy would run past the end of memory.
- MemoryManager.Kernel.Krealloc: the same sizes.
- KernelHeap.Heap.Kfree: if the word where the type would be says allocated, the pointer must be that of a block in the list, because the code trusts that word. A second free needs nothing more, since the first leaves another word there.
- MemoryManager.Kernel.Kfree: the same pointers.
- KernelHeap.Heap.SplitBlock: the size is a multiple of 4 that fits, as its only caller passes.
- FileSystem.FatFileSystem.FindEntryByName: keys in use hold no zero byte, which RunKeepsText shows for every run on C strings.
- FileSystem.FatFileSystem.FreeClusterChain: starts from which the loop does not end are excluded; FreeingEndsIff says which they are.
- FileSystem.FatFileSystem.DeleteFile: the same starts, and DeletingTwiceHangs is about them.
- FileSystem.FatFileSystem.WriteFile: the file system is initialised and the cluster of the handle is a 16-bit number, as those of all handles given out.
- ProcessTable.Manager.ProcessCreate: nothing is claimed of a run after a create that follows a terminate, except that no consistent state is left; the contents of the stack and the name are not modelled.
- ProcessTable.Manager.ProcessTerminate: what kfree does with the stack is the heap's part; the process's heap pointer is never set.
- Numbers.Itoa: the buffer holds the text, as the code takes for granted; for base 0 and a number other than 0 the loop divides by zero, and for 1 and -1 it does not end (UnitBaseStays).
- Contents of files and sectors: the sector functions are stubs that always succeed; writes are modelled for FAT, handle, code and number of bytes only.
- fs_read and fs_tell: reading follows the chain as writing does, without extending it, and moves the offset.
- fs_rmdir, fs_rename, subdirectories, listing and changing directory: the current directory is the root throughout.
- File-system statistics: the loops test a return code, not an entry, and do not count free clusters.
- Time, date and reserved bytes of directory entries, which are always zero.
- Null-pointer arguments of the file system, and the fixed sizes of C output buffers: strings are sequences.
- kcalloc, which clears what kmalloc returns, the vmalloc family, memory contexts, marking of pages and alignment helpers.
- Bit operations are written with division and remainder, and overflow of signed integers wraps.
- Enabling paging and the processor's caching of entries; rights are combined over both levels as in 32-bit paging of the Intel manual, Volume 3A.
- Process names, priorities, register context and the blocked queue, which no operation fills.
- keyboard_clear_buffer; the decrement of the count is one step in the run model, and the split one is treated on its own.
- Interrupt, system call and assembly code, and the rest of the shell and the screen driver.
