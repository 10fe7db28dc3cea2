# VolgaBL core, modelled in Dafny

VolgaBL is a three-stage x86 bootloader. The first stage starts the second stage (SSL) in real mode. The SSL finds the boot partition on a GPT disk and collects the BIOS memory map. It loads the kernel image and hands a boot-info record to the third stage (TSL). The TSL runs in 32-bit protected mode. It reads a ustar RAM file system, loads and links PE32+ images, and builds identity-mapping page tables before it enters long mode. A first-generation ("legacy") second stage is kept in the repository. Its heap, `printf` engine and 64-bit arithmetic runtime are modelled too.

This project models that core and proves properties of it:

- The freestanding string primitives (`strlen`, `memcmp`, `memcpy`, `memset`): `Strings`, `LegacyStrings`.
- Both first-fit heaps: `BlockList` is the block list they share as a specification; `Heap` (SSL `mem_init`, `malloc`, `realloc`, `free`) and `LegacyHeap` are classes over it. Both heaps keep the same invariant: the blocks tile the arena, no free block is above `max_alloc`, and no two free blocks are neighbours. The set of live allocations changes exactly as `malloc` and `free` promise.
- `get_memory_map` over the BIOS E820 replies: `MemoryMap`.
- From the SSL `utils.c`:
  - the table-driven CRC-32, proved equal to bit-by-bit division by the reflected polynomial (`Crc32`);
  - GPT partition-array reading, in-place compaction and search (`Gpt`);
  - GDT descriptors and the GDT register (`Gdt`, `LegacyGdt`);
  - the boot-info record (`BootInfo`);
  - the sector-by-sector kernel load (`Kernel`).
- From the TSL:
  - the RAM file system (`Ramfs`);
  - the PE loader with its load-state table, section copies and import binding (`Pe`);
  - the page-table set-up and the ACPI RSDP scan of `tsl_entry` (`TslEntry`);
  - the 64-bit long division (`Division64`).
- The legacy `gcc_arithmetics64.c` helpers: shifts, leading and trailing zero counts, `__ffsdi2`, population counts, unsigned and signed division (`Arith64`, `Popcount`, `LegacyDivision`, `LegacySigned`). `LongDivision` and `Bytes` hold the arithmetic lemmas they share.
- The legacy `vsnprintf` engine: `FormatText` says what text a format string and its arguments produce; `Format` proves that the loops of `_ntoa`, `_reverse`, `_format_output` and `_vsnprintf` write that text. For `%d` and `%i` that text is the corrected conversion (see "## Findings"); the two lemmas named there state what the code as written does instead.

Memory is a sequence of bytes indexed by physical address. A read past its end yields 0, and a write there is dropped. Machine words are natural numbers below 2^8, 2^16, 2^32 or 2^64. Wrap-around, truncating casts and truncating division are written out where the C code has them; the exceptions are listed under "## Left out".

## Model

| member | source | states |
|---|---|---|
| Strings.StrLen | bootloader/SSL/src/string.c:9-14 | the length is the distance to the first NUL: the byte there is 0 and every byte before it is not |
| Strings.StrLenUnique | bootloader/SSL/src/string.c:9-14 | any offset with a NUL and no NUL before it is the value strlen returns |
| Strings.CString | bootloader/SSL/src/string.c:9-14 | the string's characters, strlen of them, none of them NUL |
| Strings.Int32 | bootloader/SSL/src/string.c:16-25 | an `int` return value lies in the signed 32-bit range and agrees with the exact value modulo 2^32 |
| Strings.MemCmp | bootloader/SSL/src/string.c:16-25 | 0 when the two ranges hold equal bytes, otherwise the address difference lhs − rhs as a 32-bit int (not the byte difference) |
| Strings.MemCmpZeroIff | bootloader/SSL/src/string.c:16-25 | for 32-bit addresses memcmp returns 0 if and only if the two ranges are equal, and 0 for count 0 |
| Strings.SameBytesSlice | bootloader/SSL/src/string.c:17-23 | the byte-by-byte comparison loop agrees with equality of the two ranges |
| Strings.MemCmpSame | bootloader/SSL/src/string.c:16-25 | memcmp returns 0 if and only if every compared pair of bytes is equal |
| Strings.Copy | bootloader/SSL/src/string.c:27-31 | the memory after the ascending copy keeps its size |
| Strings.CopyFrame | bootloader/SSL/src/string.c:27-31 | memcpy changes no byte outside the destination range |
| Strings.CopyDisjoint | bootloader/SSL/src/string.c:27-31 | for non-overlapping ranges the destination ends up holding exactly the source bytes |
| Strings.CopySmear | bootloader/SSL/src/string.c:27-31 | copying to one byte past the source repeats the first source byte over the whole destination |
| Strings.MemCpy | bootloader/SSL/src/string.c:27-31 | returns dest; the new memory is the ascending byte-by-byte copy of the old |
| Strings.MemSet | bootloader/SSL/src/string.c:33-37 | returns ptr; the `count` bytes at ptr hold the low byte of val and nothing else changes |
| LegacyStrings.Strlen | bootloader/legacy/SSL/src/string.c:3-8 | the byte at start+n is NUL, none before it is, and n equals the first stage's strlen; memory is only read |
| BlockList.AddrMono | bootloader/SSL/src/mem.c:26-34 | in a tiled list the blocks lie in increasing address order and do not overlap |
| BlockList.PayloadsDisjoint | bootloader/SSL/src/mem.c:135 | the payloads handed out for two distinct blocks are disjoint, a header apart |
| BlockList.FirstFit | bootloader/SSL/src/mem.c:111-120 | the index found is the first block that is free and at least `count` bytes; none is found exactly when no block fits |
| BlockList.MaxSize | bootloader/SSL/src/mem.c:53-63 | the maximum size over all blocks, free or used: an upper bound attained by some block, 0 for none |
| BlockList.Split | bootloader/SSL/src/mem.c:38-51 | `_allocate_block` links exactly one new block after the given one |
| BlockList.MergeNext | bootloader/SSL/src/mem.c:65-76 | `_merge_blocks` unlinks exactly one block |
| BlockList.TiledSplit | bootloader/SSL/src/mem.c:38-51 | linking the new block at after + size + header keeps the blocks tiling the arena |
| BlockList.TiledMerge | bootloader/SSL/src/mem.c:65-76 | adding header + down->size to up keeps the tiling |
| BlockList.TiledMark | bootloader/SSL/src/mem.c:189 | changing a free flag keeps the tiling |
| BlockList.GrantBlock | bootloader/SSL/src/mem.c:122-130 | the split rule: block i becomes used with exactly `count` bytes when the leftover makes a new block, otherwise whole; header and payload bytes are conserved and the tiling is kept |
| BlockList.GrantKeepsOthers | bootloader/SSL/src/mem.c:122-130 | every other block keeps its address, flag and size |
| BlockList.MallocNull | bootloader/SSL/src/mem.c:104-120 | malloc returns NULL exactly when no block is free and large enough (the `max_alloc` early exit never refuses a request the scan would serve), and then changes nothing |
| BlockList.MallocFirstFit | bootloader/SSL/src/mem.c:111-135 | the pointer is the payload of the first fitting free block, now used; the blocks before it are untouched; `max_alloc` becomes the largest size over all blocks |
| BlockList.MallocInv | bootloader/SSL/src/mem.c:98-136 | malloc keeps the invariant: tiling, no free block above `max_alloc`, no two free neighbours |
| BlockList.Release | bootloader/SSL/src/mem.c:185-198 | the index of the coalesced block is within the new list |
| BlockList.Free | bootloader/SSL/src/mem.c:199-202 | free only ever raises `max_alloc` and keeps the heap start |
| BlockList.ReleaseShape | bootloader/SSL/src/mem.c:185-198 | free coalesces: the block and its free neighbours become one free block from the first of them to the end of the last; every other block keeps its place |
| BlockList.ReleaseCases | bootloader/SSL/src/mem.c:192-197 | the four merge cases: the merged size is the sum of the merged sizes plus one header per absorbed block |
| BlockList.FreeInv | bootloader/SSL/src/mem.c:185-203 | free keeps the invariant, so no free neighbour of the result remains unmerged |
| BlockList.ReleaseKeepsUsed | bootloader/SSL/src/mem.c:185-198 | a used block keeps its address and size through the free of another block |
| BlockList.UsedMember | bootloader/SSL/src/mem.c:135 | an address is a live allocation exactly when some used block has it as payload |
| BlockList.UsedBelow | bootloader/SSL/src/mem.c:135 | every live pointer lies inside the arena, past the first header |
| BlockList.MallocUsed | bootloader/SSL/src/mem.c:98-136 | malloc hands out an address no live allocation holds and adds exactly that address to the allocations |
| BlockList.ReleaseUsed | bootloader/SSL/src/mem.c:185-198 | the list surgery of free removes exactly the freed payload from the allocations |
| BlockList.FreeUsed | bootloader/SSL/src/mem.c:185-203 | free removes exactly the freed payload from the allocations, and changes none when the block was already free |
| BlockList.MaxAllocOverstates | bootloader/SSL/src/mem.c:105-107 | `max_alloc` only bounds the largest free block: after a whole-block grant it still counts the used block, and the next request passes the early check but fails the scan |
| Heap.Align16 | bootloader/SSL/src/mem.c:36 | the result is a multiple of 16 in [val, val+16) for val ≤ 0xFFFFFFF0; larger values wrap to 0 in 32-bit arithmetic |
| Heap.Align16Least | bootloader/SSL/src/mem.c:36 | no multiple of 16 lies between val and `_align16(val)`: it is the least one ≥ val |
| Heap.Align16Idempotent | bootloader/SSL/src/mem.c:140 | rounding a rounded size changes nothing (realloc rounds before calling malloc, which rounds again) |
| Heap.ShrinkShape | bootloader/SSL/src/mem.c:144-157 | shrinking keeps the tiling and the earlier blocks, leaves the block used at its address with exactly the new size, and leaves no two free neighbours |
| Heap.ShrinkUsed | bootloader/SSL/src/mem.c:144-157 | shrinking neither frees nor creates an allocation |
| Heap.SplitUsed | bootloader/SSL/src/mem.c:152 | cutting a used block adds only a free block |
| Heap.MergeFreeUsed | bootloader/SSL/src/mem.c:155-157 | merging two free blocks changes no allocation |
| Heap.ReallocShrink | bootloader/SSL/src/mem.c:142-162 | shrinking returns the same pointer and keeps the invariant; the block gets the rounded size, or nothing changes when less than a header + 16 bytes would be left over |
| Heap.GrowFails | bootloader/SSL/src/mem.c:164-170 | growing returns NULL, changing nothing, exactly when no free block holds the rounded size |
| Heap.GrowInv | bootloader/SSL/src/mem.c:164-178 | growing keeps the allocator invariant |
| Heap.GrowUsed | bootloader/SSL/src/mem.c:164-178 | a successful growth trades the old allocation for one fresh address |
| Heap.GrowFrees | bootloader/SSL/src/mem.c:176 | the block freed after the copy is the old block, wherever the malloc left it |
| Heap.GrowResult | bootloader/SSL/src/mem.c:167-178 | the new pointer is the payload of a used block of at least the rounded size that survives the free of the old one |
| Heap.ReallocGrow | bootloader/SSL/src/mem.c:164-178 | realloc growing keeps the invariant and fails, unchanged, exactly when no free block fits |
| Heap.ReallocGrowDisjoint | bootloader/SSL/src/mem.c:173 | the memcpy ranges do not overlap: the new block is another, larger block |
| Heap.PayloadUnique | bootloader/SSL/src/mem.c:139 | a pointer names at most one block |
| Heap.LiveBlock | bootloader/SSL/src/mem.c:186 | a live pointer is the payload of a used block and lies inside the heap |
| Heap.Heap.Init | bootloader/SSL/src/mem.c:80-96 | `mem_init`: one free block at the aligned start, sized `_heap_size` minus the padding minus a header, with no neighbours, and `max_alloc` equal to its size |
| Heap.Heap.FindMaxBlock | bootloader/SSL/src/mem.c:53-63 | `max_alloc` becomes the largest size over all blocks, used included |
| Heap.Heap.AllocateBlock | bootloader/SSL/src/mem.c:38-51 | a free block of the given size is linked right after block i, its header just past block i's payload; nothing else changes |
| Heap.Heap.MergeBlocks | bootloader/SSL/src/mem.c:65-76 | up absorbs down and its header, and up is returned |
| BlockList.FindFree | bootloader/SSL/src/mem.c:110-117 | the scan stops at the first free block of at least `count` bytes, or past the end when none fits; the legacy heap's scan (legacy `mem.c`:89-95) is the same loop and calls it too |
| Heap.Heap.TakeBlock | bootloader/SSL/src/mem.c:122-130 | the block list after the split rule is the grant of block i |
| Heap.Heap.Allocate | bootloader/SSL/src/mem.c:98-136 | the new heap and the pointer are those of the malloc specification |
| Heap.Heap.Malloc | bootloader/SSL/src/mem.c:98-136 | NULL exactly when no free block fits, and then no change; otherwise a fresh address joins the allocations; the invariant is kept |
| Heap.Heap.Coalesce | bootloader/SSL/src/mem.c:188-198 | the list after marking free and merging with free neighbours is the specification's release |
| Heap.Heap.Free | bootloader/SSL/src/mem.c:185-203 | free of a live allocation keeps the invariant, releases the block the pointer belongs to, and removes exactly that pointer from the allocations |
| Heap.Heap.FreeBlock | bootloader/SSL/src/mem.c:187-202 | the block is coalesced with its free neighbours, `max_alloc` never lowered, the invariant kept and the block's payload alone leaves the allocations |
| Heap.Heap.ShrinkBlock | bootloader/SSL/src/mem.c:144-157 | the block keeps the new size, the remainder less a header follows it, merged with a free successor |
| Heap.Heap.Move | bootloader/SSL/src/mem.c:164-178 | malloc, copy of the old size's bytes, free of the old block; on failure nothing changes and NULL is returned |
| Heap.Heap.Settle | bootloader/SSL/src/mem.c:172-177 | after a successful malloc: the old payload's bytes copied to the new pointer and the old block freed, giving exactly the grown state and pointer of the realloc specification |
| Heap.Heap.ShrinkInPlace | bootloader/SSL/src/mem.c:142-162 | the in-place shrink keeps the invariant and the allocations |
| Heap.Heap.Realloc | bootloader/SSL/src/mem.c:138-183 | shrink in place, grow by malloc + copy + free, or same pointer for an equal rounded size; a failed growth returns NULL and leaves the block and the bytes alone |
| Heap.Heap.ReallocAt | bootloader/SSL/src/mem.c:138-183 | on the pointer's block: the new context and pointer `ReallocState` gives, the payload copied only when it moved, the old pointer traded for the new one in the allocations |
| LegacyHeap.Align16 | bootloader/legacy/SSL/src/mem.c:20-22 | for 1 ≤ val ≤ 0xFFFFFFF0 the least multiple of 16 ≥ val; 0 and values above 0xFFFFFFF0 wrap to 0 |
| LegacyHeap.Align16Agrees | bootloader/legacy/SSL/src/mem.c:20-22 | the legacy rounding equals the first stage's `(val + 15) & -16` on every 32-bit value, 0 included |
| LegacyHeap.LegacyHeap.Init | bootloader/legacy/SSL/src/mem.c:63-76 | the header stride is `_align16(sizeof(_block_hdr))`; one free block runs from the aligned start to the end of the arena and `max_alloc` is its size |
| LegacyHeap.LegacyHeap.FindMaxBlock | bootloader/legacy/SSL/src/mem.c:39-48 | `max_alloc` becomes the largest size over all blocks, used or free |
| LegacyHeap.LegacyHeap.AllocateBlock | bootloader/legacy/SSL/src/mem.c:24-37 | a free block of the given size is linked after block i, one header stride past its payload |
| LegacyHeap.LegacyHeap.MergeBlocks | bootloader/legacy/SSL/src/mem.c:50-61 | up absorbs down plus one header stride and is returned |
| LegacyHeap.LegacyHeap.TakeBlock | bootloader/legacy/SSL/src/mem.c:100-108 | the split rule with threshold header stride + 2 |
| LegacyHeap.LegacyHeap.Allocate | bootloader/legacy/SSL/src/mem.c:78-114 | the new heap and the pointer are those of the malloc specification with the legacy stride and threshold |
| LegacyHeap.LegacyHeap.Malloc | bootloader/legacy/SSL/src/mem.c:78-114 | first-fit; NULL exactly when no free block fits, and then no change; the invariant is kept |
| LegacyHeap.LegacyHeap.Coalesce | bootloader/legacy/SSL/src/mem.c:119-128 | the list after marking free and merging with free neighbours is the specification's release |
| LegacyHeap.LegacyHeap.Free | bootloader/legacy/SSL/src/mem.c:116-134 | free keeps the invariant and only raises `max_alloc` |
| MemoryMap.Walk | bootloader/SSL/src/mem.c:224-251 | the ranges the BIOS reports, one per call until a reply with offset 0; at least one, or none when a call fails first |
| MemoryMap.ElemsMember | bootloader/SSL/src/mem.c:221-248 | the node addresses collected are exactly the entries of the list |
| MemoryMap.WalkStep | bootloader/SSL/src/mem.c:226-251 | one iteration of the do-while loop: the reply to this call, then the rest while the offset is non-zero |
| MemoryMap.ReleaseAll | bootloader/SSL/src/mem.c:228-244 | the failure path frees the nodes from the last back to the first and then the map, giving back exactly what the call allocated |
| MemoryMap.AddNode | bootloader/SSL/src/mem.c:236-250 | on success the node is appended and the allocations grow by it alone; on failure nothing changes |
| MemoryMap.Begin | bootloader/SSL/src/mem.c:210-222 | the map block and the first node are fresh allocations; when either malloc fails, what was allocated is freed again |
| MemoryMap.GetMemoryMap | bootloader/SSL/src/mem.c:205-254 | on success one node per reported range, in order, all fresh allocations; a failed call or allocation frees everything the call allocated and returns NULL |
| Crc32.TableShape | bootloader/SSL/src/utils.c:13-57 | the 256 entries of `crc32table`, as sixteen rows of sixteen |
| Crc32.TableRow0 | bootloader/SSL/src/utils.c:14-16 | entries 0x00 to 0x0F of `crc32table` are the bitwise reductions of their indices by 0xEDB88320 |
| Crc32.TableRow1 | bootloader/SSL/src/utils.c:16-19 | entries 0x10 to 0x1F of `crc32table` are the bitwise reductions of their indices by 0xEDB88320 |
| Crc32.TableRow2 | bootloader/SSL/src/utils.c:19-21 | entries 0x20 to 0x2F of `crc32table` are the bitwise reductions of their indices by 0xEDB88320 |
| Crc32.TableRow3 | bootloader/SSL/src/utils.c:22-24 | entries 0x30 to 0x3F of `crc32table` are the bitwise reductions of their indices by 0xEDB88320 |
| Crc32.TableRow4 | bootloader/SSL/src/utils.c:24-27 | entries 0x40 to 0x4F of `crc32table` are the bitwise reductions of their indices by 0xEDB88320 |
| Crc32.TableRow5 | bootloader/SSL/src/utils.c:27-29 | entries 0x50 to 0x5F of `crc32table` are the bitwise reductions of their indices by 0xEDB88320 |
| Crc32.TableRow6 | bootloader/SSL/src/utils.c:30-32 | entries 0x60 to 0x6F of `crc32table` are the bitwise reductions of their indices by 0xEDB88320 |
| Crc32.TableRow7 | bootloader/SSL/src/utils.c:32-35 | entries 0x70 to 0x7F of `crc32table` are the bitwise reductions of their indices by 0xEDB88320 |
| Crc32.TableRow8 | bootloader/SSL/src/utils.c:35-37 | entries 0x80 to 0x8F of `crc32table` are the bitwise reductions of their indices by 0xEDB88320 |
| Crc32.TableRow9 | bootloader/SSL/src/utils.c:38-40 | entries 0x90 to 0x9F of `crc32table` are the bitwise reductions of their indices by 0xEDB88320 |
| Crc32.TableRow10 | bootloader/SSL/src/utils.c:40-43 | entries 0xA0 to 0xAF of `crc32table` are the bitwise reductions of their indices by 0xEDB88320 |
| Crc32.TableRow11 | bootloader/SSL/src/utils.c:43-45 | entries 0xB0 to 0xBF of `crc32table` are the bitwise reductions of their indices by 0xEDB88320 |
| Crc32.TableRow12 | bootloader/SSL/src/utils.c:46-48 | entries 0xC0 to 0xCF of `crc32table` are the bitwise reductions of their indices by 0xEDB88320 |
| Crc32.TableRow13 | bootloader/SSL/src/utils.c:48-51 | entries 0xD0 to 0xDF of `crc32table` are the bitwise reductions of their indices by 0xEDB88320 |
| Crc32.TableRow14 | bootloader/SSL/src/utils.c:51-53 | entries 0xE0 to 0xEF of `crc32table` are the bitwise reductions of their indices by 0xEDB88320 |
| Crc32.TableRow15 | bootloader/SSL/src/utils.c:54-56 | entries 0xF0 to 0xFF of `crc32table` are the bitwise reductions of their indices by 0xEDB88320 |
| Crc32.LookupIsEntry | bootloader/SSL/src/utils.c:13-57 | every table entry is eight bits of polynomial division of its index |
| Crc32.Lookup | bootloader/SSL/src/utils.c:74 | `crc32table[i]` is the reduction of i |
| Crc32.TableStep | bootloader/SSL/src/utils.c:74 | the table shortcut: dividing the register by eight bits is shifting its high part and XORing the reduction of its low byte |
| Crc32.ByteStep | bootloader/SSL/src/utils.c:74 | one loop iteration on byte b is eight bits of division of crc ^ b |
| Crc32.UpdateNext | bootloader/SSL/src/utils.c:74 | the register after k+1 bytes is the reduction of the register after k bytes XOR byte k |
| Crc32.LoopStep | bootloader/SSL/src/utils.c:74 | the loop keeps crc equal to the bit-by-bit division register of the bytes consumed so far |
| Crc32.Crc32 | bootloader/SSL/src/utils.c:72-76 | the table-driven loop, from 0xFFFFFFFF with the final XOR, computes the reflected CRC-32 of the buffer |
| Gpt.ReadSectors | bootloader/SSL/src/utils.c:283-290 | the read yields n sectors of 512 bytes exactly when every sector from the LBA on can be read |
| Gpt.Transfer | bootloader/SSL/src/utils.c:284-286 | a successful read places its bytes at the buffer and changes nothing else |
| Gpt.SectorsCover | bootloader/SSL/src/utils.c:269-275 | when the table size fits the 16-bit field, the sectors read cover the table with less than one sector to spare |
| Gpt.SectorsTruncated | bootloader/SSL/src/utils.c:273-275 | the sector count is truncated to 16 bits: 2^18 entries of 128 bytes read no sector at all |
| Gpt.SectorsOverLimit | bootloader/SSL/src/utils.c:273-275 | the 128-sector limit of the extended read is not enforced: 1024 entries of 128 bytes ask for 256 sectors |
| Gpt.Entries | bootloader/SSL/src/utils.c:294-313 | stride k of the table is the entry_size bytes at base + k*entry_size |
| Gpt.Kept | bootloader/SSL/src/utils.c:292-323 | the used entries, in order: no more than the table holds, none of them unused |
| Gpt.Compacted | bootloader/SSL/src/utils.c:292-322 | the compacted table has as many strides as the input |
| Gpt.KeptAppend | bootloader/SSL/src/utils.c:292-323 | the used entries of two tables in a row are those of the first then those of the second |
| Gpt.KeptAllUsed | bootloader/SSL/src/utils.c:292-323 | a table without unused entries is kept whole, so count = entries_count |
| Gpt.KeptNoneUsed | bootloader/SSL/src/utils.c:292-323 | a table of unused entries keeps nothing, so count = 0 |
| Gpt.ZerosEmpty | bootloader/SSL/src/utils.c:318 | a zeroed stride is an unused entry |
| Gpt.CompactedAllUsed | bootloader/SSL/src/utils.c:292-323 | an input with no unused entry is left unchanged |
| Gpt.CompactedIdempotent | bootloader/SSL/src/utils.c:292-323 | compacting a compacted table changes nothing and keeps the same entries |
| Gpt.Start | bootloader/SSL/src/utils.c:293-294 | before the first round nothing has been dealt with |
| Gpt.AdvanceLeft | bootloader/SSL/src/utils.c:298-302 | the left cursor passes a used entry and keeps the compaction's progress invariant |
| Gpt.LeftStop | bootloader/SSL/src/utils.c:298-302 | the left cursor stops just past the used entries dealt with so far |
| Gpt.AdvanceRight | bootloader/SSL/src/utils.c:307-313 | the right cursor passes an unused entry and keeps the invariant |
| Gpt.RightStop | bootloader/SSL/src/utils.c:307-313 | the right cursor stops on the first used stride not yet dealt with, beyond the left cursor |
| Gpt.MoveStep | bootloader/SSL/src/utils.c:316-318 | copying the right entry over the left one and zeroing the right stride deals with one more stride |
| Gpt.Finished | bootloader/SSL/src/utils.c:319-323 | once every stride is dealt with, the table is the compacted one |
| Gpt.EntriesWrite | bootloader/SSL/src/utils.c:317-318 | writing one whole stride replaces that entry and no byte outside the table |
| Gpt.TypeAt | bootloader/SSL/src/utils.c:298-308 | an entry is unused exactly when memcmp of its first 16 bytes against `null_partition_type` is 0 |
| Gpt.MoveEntry | bootloader/SSL/src/utils.c:316-318 | memcpy of stride ri over stride li, then memset of stride ri: entry li becomes entry ri, entry ri becomes zeros, nothing outside the table changes |
| Gpt.ScanLeft | bootloader/SSL/src/utils.c:298-302 | the left cursor stops at the first unused entry from li, or at the end, having passed only used entries |
| Gpt.ScanRight | bootloader/SSL/src/utils.c:305-313 | the right cursor stops at the first used entry from li, or at the end, having passed only unused entries |
| Gpt.ReadTable | bootloader/SSL/src/utils.c:269-290 | a buffer of sectors*512 bytes receives the sectors read; on a failed malloc or read it is released and nothing else changes |
| Gpt.ShrinkTable | bootloader/SSL/src/utils.c:292-333 | the count is the number of used entries; the buffer is compacted and reallocated to entry_size*count bytes, or released when realloc fails |
| Gpt.LoadTable | bootloader/SSL/src/utils.c:269-333 | after the read and the shrink, either a new table holding the kept entries with exactly one allocation added, or 0 with the allocations as they were |
| Gpt.GetPartitionArray | bootloader/SSL/src/utils.c:251-336 | NULL, with every allocation released, when a malloc or the read fails; otherwise the kept entries first, in order, count of them, vacated strides zeroed |
| Gpt.FirstOfType | bootloader/SSL/src/utils.c:338-350 | the index of the first of the first `count` entries whose type equals the GUID, none before it matching; none when no entry matches |
| Gpt.FindStep | bootloader/SSL/src/utils.c:342-348 | one loop iteration: the search stops at entry k or continues from k+1 |
| Gpt.ReallocFailureLeaks | bootloader/SSL/src/utils.c:326-331 | as written a failed realloc frees address 0, which is no block, while the table buffer stays allocated: it leaks |
| Gpt.TypeIs | bootloader/SSL/src/utils.c:343 | the test is true exactly when the 16 type bytes equal the GUID's |
| Gpt.FindPartition | bootloader/SSL/src/utils.c:338-350 | the address of the first kept entry whose type is the GUID, or NULL |
| Gpt.LeftScan | bootloader/SSL/src/utils.c:298-302 | a left scan over used entries deals with every stride it passes |
| Gpt.RightScan | bootloader/SSL/src/utils.c:305-313 | a right scan over unused entries deals with every stride it passes |
| Gpt.Round | bootloader/SSL/src/utils.c:296-322 | one round of the outer loop either moves one entry and makes progress, or finds the table compacted with li = the number of used entries |
| Gpt.CompactRound | bootloader/SSL/src/utils.c:296-322 | one pass of the outer loop, with the same two outcomes, changing nothing outside the table |
| Gpt.Compact | bootloader/SSL/src/utils.c:292-323 | the count is the number of used entries; the table becomes the used entries in order followed by the vacated strides, zeroed where an entry moved away; nothing outside changes |
| Gdt.DescLimit | bootloader/SSL/src/utils.c:203-207 | the limit a descriptor holds is below 2^20 |
| Gdt.DescBase | bootloader/SSL/src/utils.c:204-208 | the base a descriptor holds is a 32-bit address |
| Gdt.DescFlags | bootloader/SSL/src/utils.c:207 | the flags field is four bits |
| Gdt.Descriptor | bootloader/SSL/src/utils.c:203-208 | a descriptor is eight bytes |
| Gdt.DescriptorFields | bootloader/SSL/src/utils.c:196-209 | the bytes read back as the base, the low 20 bits of the limit, the access byte and the low four bits of the flags |
| Gdt.SetEntry32 | bootloader/SSL/src/utils.c:196-209 | `set_GDT32_entry` stores limit[15:0], base[15:0], base[23:16], access, flags<<4 \| limit[19:16] and base[31:24]; the entry decodes to its inputs |
| Gdt.TableLimit | bootloader/SSL/src/utils.c:212 | 8*count − 1 for 1 ≤ count ≤ 8192; for count 0 it wraps to 0xFFFF |
| Gdt.TableBaseLinear | bootloader/SSL/src/utils.c:213 | the OR of ds<<4 and an offset below 16 is the linear address ds*16 + offset |
| Gdt.TableBaseSegment | bootloader/SSL/src/utils.c:213 | for a segment that is a multiple of 0x1000 and a 16-bit offset, the OR of ds<<4 and the offset is the linear address ds*16 + offset |
| Gdt.TableBaseShort | bootloader/SSL/src/utils.c:213 | the OR can fall short of the linear address: segment 1 with offset 0x10 gives 0x10, not 0x20 |
| Gdt.SetGdtr32 | bootloader/SSL/src/utils.c:211-214 | the six GDTR bytes are the limit then the OR-ed base, little-endian, and read back as those values |
| Gdt.EncodeAt | bootloader/SSL/src/utils.c:212-213 | the six bytes stored byte by byte are the little-endian encodings of limit and base |
| LegacyGdt.Descriptor | bootloader/legacy/SSL/src/utils.c:3-10 | a descriptor is eight bytes |
| LegacyGdt.DescriptorFields | bootloader/legacy/SSL/src/utils.c:3-10 | the entry reads back as base baseh:basel, limit limitl with the low nibble of limith, the access byte and the low nibble of the flags |
| LegacyGdt.SetEntry | bootloader/legacy/SSL/src/utils.c:3-10 | limitl into bytes 0-1, basel into 2-3, baseh & 0xFF into 4, access into 5, (limith & 0x0F) \| flags<<4 into 6, baseh >> 8 into 7 |
| LegacyGdt.TableLimit | bootloader/legacy/SSL/src/utils.c:13 | size − 1 for 1 ≤ size ≤ 0x10000; size 0 wraps to 0xFFFF |
| LegacyGdt.SetGdtr48Limit | bootloader/legacy/SSL/src/utils.c:13 | bytes 0-1 hold size − 1 as a little-endian word; the base bytes are not touched by this store |
| BootInfo.Linear | bootloader/SSL/src/utils.c:453-459 | offset + ds<<4 on 32 bits, the sum itself when it does not wrap |
| BootInfo.Flatten | bootloader/SSL/src/utils.c:444-448 | the list entries fill the array in list order until the array is full or the list ends; the rest of the array is untouched |
| BootInfo.Allocate | bootloader/SSL/src/utils.c:428-443 | two fresh allocations, the record and the array; when the second fails the first is freed and NULL is returned |
| BootInfo.TextMode | bootloader/SSL/src/utils.c:367-370 | the text-mode record: mode is AL and columns AH of the BIOS reply, segment 0xB800, 25 rows |
| BootInfo.QueryVideo | bootloader/SSL/src/utils.c:352-386 | LINTEXT exactly when the BIOS reply has carry clear and malloc finds a block; then a fresh non-NULL allocation holds `TextMode` of AX and is added to the allocations; otherwise NOVIDEO with address 0 and the allocations unchanged |
| BootInfo.CreateBootInfo | bootloader/SSL/src/utils.c:420-462 | the record holds sizeof(boot_info_t), the 16 GUID bytes, count, sizeof(memory_map_entry), the array address plus ds<<4, and the video type and address plus ds<<4 (the video address even when 0); the array holds the list entries in order; the video record is `QueryVideo`'s, NOVIDEO with address 0 when the carry flag is set; on success the allocations gain exactly the record, the array and the video record when there is one; on failure every allocation is released |
| Kernel.Step | bootloader/SSL/src/utils.c:408-412 | one round of the loop (BIOS read into the bounce buffer, then the ascending `memcpy` of 512 bytes) keeps the memory's size |
| Kernel.ImageShift | bootloader/SSL/src/utils.c:412 | sector k from address a is sector k−1 from a + 512 |
| Kernel.Load | bootloader/SSL/src/utils.c:407-414 | the loop from a given round keeps the memory's size |
| Kernel.LoadOk | bootloader/SSL/src/utils.c:407-414 | without LBA wrap-around the loop runs to the end exactly when all sectors can be read |
| Kernel.LoadFrame | bootloader/SSL/src/utils.c:407-414 | the loop writes nothing outside the bounce buffer and the destination sectors |
| Kernel.StepFrame | bootloader/SSL/src/utils.c:408-412 | one round writes nothing outside the bounce buffer and one destination sector |
| Kernel.StepAt | bootloader/SSL/src/utils.c:412 | when the bounce buffer and the destination do not overlap, byte j of the sector read sits at dst + j after the copy |
| Kernel.StepOverlap | bootloader/SSL/src/utils.c:412 | when the destination starts one byte past the bounce buffer, the ascending copy leaves the sector's first byte in all 512 destination bytes |
| Kernel.LoadPlaces | bootloader/SSL/src/utils.c:407-414 | after a successful load, sector k of the partition (LBA start+k) sits at dst + k*512 |
| Kernel.LoadUnfold | bootloader/SSL/src/utils.c:407-414 | a successful load is a first round from the start LBA, then the rest from LBA+1 and dst+512 |
| Kernel.FirstPlaced | bootloader/SSL/src/utils.c:407-414 | after a successful load the first sector sits at dst |
| Kernel.SectorCount | bootloader/SSL/src/utils.c:392 | end_lba − start_lba + 1 on 64 bits |
| Kernel.Destination | bootloader/SSL/src/utils.c:394 | address − ds<<4 on 32 bits, the difference itself when it does not wrap |
| Kernel.CopySectors | bootloader/SSL/src/utils.c:407-414 | the memory and the outcome are those of the loop's specification: a failed read stops it |
| Kernel.LoadKernel | bootloader/SSL/src/utils.c:388-418 | the bounce buffer is the payload malloc returns: 0 exactly when no free block fits, and then nothing is read or written and false is returned; otherwise it is a fresh allocation, sector k goes to (address − ds<<4) + k*512, and the buffer is freed on both paths, so it is not an allocation afterwards and the allocations are as they were |
| Ramfs.SChar | bootloader/TSL/src/ramfs.c:27 | a `char` read from the archive is a signed byte, congruent to the stored byte |
| Ramfs.OctWraps | bootloader/TSL/src/ramfs.c:25-29 | the 32-bit `size_t` result is the exact sum `ret*8 + c − '0'` over the characters before the NUL, reduced modulo 2^32 |
| Ramfs.OctPositional | bootloader/TSL/src/ramfs.c:25-29 | over octal digits the fold is the positional value Σ digit·8^k, below 8^length |
| Ramfs.PositionalSnoc | bootloader/TSL/src/ramfs.c:27 | one more digit multiplies the value by 8 and adds the digit |
| Ramfs.OctDecodes | bootloader/TSL/src/ramfs.c:25-29 | a field of octal digits decodes to its positional value modulo 2^32, exactly when it has at most 10 digits; no digit is validated |
| Ramfs.CDiv | bootloader/TSL/src/ramfs.c:32 | C's `/` on int truncates toward zero |
| Ramfs.Align512AsWritten | bootloader/TSL/src/ramfs.c:31-33 | `_align512` as written, through the cast to int: 0 gives 0 |
| Ramfs.Align512LargeSize | bootloader/TSL/src/ramfs.c:32 | a size of 2^31 + 2 is rounded to 0x80000400, one block past the least multiple of 512 above it |
| Ramfs.Align512Overshoots | bootloader/TSL/src/ramfs.c:32 | for sizes above 2^31 the negative int and truncating division overshoot by one block whenever val − 1 is not a multiple of 512 |
| Ramfs.Align512 | bootloader/TSL/src/ramfs.c:31-33 | 0 stays 0; any other size is rounded to the least multiple of 512 not below it |
| Ramfs.Align512Agrees | bootloader/TSL/src/ramfs.c:31-33 | below 2^31 the code as written and the corrected rounding agree |
| Ramfs.NextAdvances | bootloader/TSL/src/ramfs.c:35-38 | `_next` is the header's address plus 512 plus the rounded size, as a 32-bit pointer: exactly that sum below 2^32, the sum less 2^32 when it reaches 2^32 |
| Ramfs.Align512Bound | bootloader/TSL/src/ramfs.c:31-33 | the rounded size is at most 2^32 − 512, so one step of `_next` wraps at most once |
| Ramfs.NextSelf | bootloader/TSL/src/ramfs.c:35-38 | a header whose size rounds to 2^32 − 512 is its own successor |
| Ramfs.Align512Wraps | bootloader/TSL/src/ramfs.c:31-33 | the size 0xFFFFFC01 (octal field "37777776001") rounds to 2^32 − 512, as written and corrected alike |
| Ramfs.HeadersChain | bootloader/TSL/src/ramfs.c:46-57 | the headers walked form a chain: each carries the "ustar" magic and the next starts where `_next` says |
| Ramfs.WalkIterates | bootloader/TSL/src/ramfs.c:46-47 | the i-th header the loop passes is i steps of `_next` from the base and carries the magic |
| Ramfs.StopIterates | bootloader/TSL/src/ramfs.c:46-47 | the loop stops exactly at the first address along the chain without the magic, after as many steps as it passed headers |
| Ramfs.EndNone | bootloader/TSL/src/ramfs.c:46-47 | the archive has no end exactly when every address along the `_next` chain holds the magic, and then the loop never stops |
| Ramfs.Cycles | bootloader/TSL/src/ramfs.c:46-47 | a chain without end comes back to an address it passed, within as many steps as memory has bytes |
| Ramfs.HeadersCover | bootloader/TSL/src/ramfs.c:57 | on a chain without end, every header the loop ever reaches is among the headers of the archive |
| Ramfs.EndAfterLast | bootloader/TSL/src/ramfs.c:46-48 | the archive ends right after the last header's rounded data, or at the base when it holds no header |
| Ramfs.MatchesSlice | bootloader/TSL/src/ramfs.c:58 | a header matches when its first strlen(name) name bytes equal the query: a prefix test |
| Ramfs.FindInIndex | bootloader/TSL/src/ramfs.c:57-63 | a header the loop returns is the i-th it passed, it matches, and no earlier one does |
| Ramfs.FindInNone | bootloader/TSL/src/ramfs.c:57-66 | when the loop returns NULL, none of the headers it passed matches |
| Ramfs.FindIndex | bootloader/TSL/src/ramfs.c:57-63 | a found header is the i-th of the archive, it matches, and no earlier header does |
| Ramfs.FindNone | bootloader/TSL/src/ramfs.c:57-66 | the search finds nothing exactly when no header matches |
| Ramfs.Ramfs.constructor | bootloader/TSL/src/ramfs.c:11-14 | the static context starts zeroed |
| Ramfs.WalkToEnd | bootloader/TSL/src/ramfs.c:46-47 | the loop of `ramfs_init` stops exactly when the archive has an end, and stops at that end |
| Ramfs.PointerDifference | bootloader/TSL/src/ramfs.c:48-53 | the base plus the 32-bit pointer difference from it gives back the end address |
| Ramfs.Ramfs.Init | bootloader/TSL/src/ramfs.c:40-51 | `ramfs_init` records the base; when the archive has an end it returns true and the size makes `ramfs_get_end` that end |
| Ramfs.Ramfs.File | bootloader/TSL/src/ramfs.c:55-67 | the data address (header + 512) of the first header whose name starts with the query; the decoded size is stored only when a file is found and a size pointer was passed; NULL and an untouched size otherwise |
| Pe.KeepsTrans | bootloader/TSL/src/pe.c:234 | what a load keeps is kept across a nested load of a DLL |
| Pe.FreeDrops | bootloader/TSL/src/pe.c:146-157 | a load frees no slot, and naming a free slot uses one up: the measure that bounds the recursion of `pe_load` through DLLs |
| Pe.Lookup | bootloader/TSL/src/pe.c:146-157 | the scan stops at the first free slot or the first slot holding the whole file name; `Full` only when all 16 slots hold other names |
| Pe.LookupFinds | bootloader/TSL/src/pe.c:146-157 | once an image is registered under a name, looking that name up finds it, at or before its slot |
| Pe.Sections | bootloader/TSL/src/pe.c:191-197 | the section copies change the size of memory in no way |
| Pe.LoadImage | bootloader/TSL/src/pe.c:181-197 | the header copy then the section copies change the size of memory in no way |
| Pe.SectionTail | bootloader/TSL/src/pe.c:192-196 | a section copy writes `size_of_raw_data` bytes and leaves the rest of the section's virtual range as it was: no zero fill |
| Pe.Registered | bootloader/TSL/src/pe.c:199-207 | registering a slot changes the size of the table in no way |
| Pe.RegisterKeeps | bootloader/TSL/src/pe.c:199-207 | filling the first free slot under a name keeps the table well formed (names fit, named slots a prefix, images packed one after another), keeps what a load must keep, and uses up a free slot |
| Pe.RegisterPrefix | bootloader/TSL/src/pe.c:200 | the named slots stay a prefix of the table and every name fits its buffer |
| Pe.RegisterPacked | bootloader/TSL/src/pe.c:205-207 | the next slot's load address is set right after the image just registered |
| Pe.RegisterFree | bootloader/TSL/src/pe.c:200 | naming a free slot lowers the number of free slots |
| Pe.Scan | bootloader/TSL/src/pe.c:282-291 | the linear search returns the first export name equal to the symbol, and `None` only when no name matches |
| Pe.Resolve | bootloader/TSL/src/pe.c:274-295 | the hint is taken when the name there matches, else the first match of the search; `None` exactly when neither matches |
| Pe.ResolveUnique | bootloader/TSL/src/pe.c:274-295 | when at most one export bears the name, a valid hint changes nothing: the result is the search's |
| Pe.LEPast | bootloader/TSL/src/pe.c:258 | a word read past the top of memory is zero, so the slot walk ends there |
| Pe.LEInside | bootloader/TSL/src/pe.c:258 | a non-zero slot lies inside memory |
| Pe.Bind | bootloader/TSL/src/pe.c:256-300 | binding the import address table changes the size of memory in no way |
| Pe.BindFrame | bootloader/TSL/src/pe.c:256-300 | binding writes only at and after the table |
| Pe.SlotReadsBack | bootloader/TSL/src/pe.c:298 | a bound slot reads back as the address stored in it |
| Pe.DllPath | bootloader/TSL/src/pe.c:228-233 | the DLL path `ramfs/<name>` is non-empty, NUL-free and fits its 256-byte buffer |
| Pe.Loader.constructor | bootloader/TSL/src/pe.c:106-108 | the static context starts zeroed |
| Pe.Loader.Init | bootloader/TSL/src/pe.c:110-114 | `pe_loader_init` always succeeds, leaves every slot empty and sets slot 0's load address |
| Pe.Loader.MemoryRange | bootloader/TSL/src/pe.c:116-130 | the range begins at slot 0's load address and ends after the image of the highest slot with a non-zero load address |
| Pe.Loader.FindSlot | bootloader/TSL/src/pe.c:146-157 | the lookup loop computes `Lookup` |
| Pe.Loader.CopyImage | bootloader/TSL/src/pe.c:185-197 | memory after the copies is `LoadImage` of memory before |
| Pe.Loader.Register | bootloader/TSL/src/pe.c:199-207 | the table after the fill is `Registered` of the table before |
| Pe.Loader.Store64 | bootloader/TSL/src/pe.c:298 | the store writes the 8 little-endian bytes of the value and nothing else |
| Pe.Loader.ResolveSymbol | bootloader/TSL/src/pe.c:265-295 | the name-table index found is `Resolve` with the entry's hint and name |
| Pe.Loader.ResolveSlot | bootloader/TSL/src/pe.c:260-298 | the address to bind is `SlotValue`: none for an import by ordinal or an unknown name |
| Pe.Loader.BindTable | bootloader/TSL/src/pe.c:256-300 | memory and the outcome are those of `Bind` |
| Pe.Loader.Load | bootloader/TSL/src/pe.c:132-309 | `pe_load` (`PeLoaded`): a name already loaded is returned with nothing changed; a full table or a missing or malformed file fails with nothing changed; otherwise the image is copied and registered in the first free slot and the load succeeds exactly when it has no import directory or its import loop succeeds, where every DLL that loop loads is itself a `pe_load` outcome, imports and all; the table stays well formed and no named slot changes |
| Pe.Loader.Open | bootloader/TSL/src/pe.c:162-178 | the file's address exactly when the archive holds it and the MZ, PE and PE32+ magic numbers check |
| Pe.Loader.Admit | bootloader/TSL/src/pe.c:180-207 | memory becomes the loaded image and the first free slot is registered with its name, size, entry and stack size |
| Pe.Loader.LoadNew | bootloader/TSL/src/pe.c:158-309 | a missing or malformed file fails with nothing changed and no import run; an opened file is copied and registered whether or not its imports resolve; without an import directory the load then succeeds, with one it succeeds exactly when the import loop from the directory's first descriptor does, each DLL of that loop loaded by a full `pe_load` |
| Pe.Loader.Imports | bootloader/TSL/src/pe.c:213-301 | the loop imports the descriptors in turn, each from the memory and table the one before left, and stops at the first that fails; it succeeds exactly when the last one imported did, and then it stopped at a zero descriptor; the table stays well formed and the importing image's slot is unchanged; each descriptor's DLL load is a full `pe_load` outcome, nested imports included |
| Pe.Loader.ImportNext | bootloader/TSL/src/pe.c:216-301 | one turn of the loop extends the run by the descriptor at the next address, imported as `ImportStep` says: its DLL loaded by a full `pe_load` and the table bound as `Linked` says |
| Pe.ChainSnoc | bootloader/TSL/src/pe.c:213-217 | a descriptor imported where a successful run left off, at the next address, extends the run |
| Pe.ChainAt | bootloader/TSL/src/pe.c:213-301 | each descriptor of a run was imported at its address from where the one before left off, and every one but the last succeeded |
| Pe.RunSucceeds | bootloader/TSL/src/pe.c:213-301 | the import loop succeeds exactly when every descriptor it imported succeeded |
| Pe.Loader.Link | bootloader/TSL/src/pe.c:238-300 | a DLL without an export directory fails with memory unchanged; otherwise memory and the outcome are those of `Bind` on the import address table against its exports; the load-state table is unchanged |
| Pe.Loader.ImportDll | bootloader/TSL/src/pe.c:227-300 | the DLL is loaded under `ramfs/<name>` by `pe_load`, whose outcome, memory, table and own import run are recorded and satisfy `PeLoaded`; a DLL that fails to load, or has no export directory, fails the import; otherwise the import address table is bound against its exports and the import succeeds exactly when every slot was bound |
| Pe.PeLoadedUnique | bootloader/TSL/src/pe.c:132-309 | `PeLoaded` leaves no freedom: the success, the slot of a success, and the memory and table after `pe_load` are determined by the memory, the table and the name before it, through every nested load |
| Pe.RunUnique | bootloader/TSL/src/pe.c:213-301 | two runs of the import loop from the same memory, table and directory import the same number of descriptors and end with the same outcome, memory and table |
| Pe.StepUnique | bootloader/TSL/src/pe.c:227-300 | one descriptor's import is determined by the memory and table before it: same success, memory and table after |
| Pe.ChainMono | bootloader/TSL/src/pe.c:213-301 | a run whose every import also satisfies a second description of one import is a run under that description |
| Pe.LastLoaded | bootloader/TSL/src/pe.c:123-128 | the highest slot below the bound whose load address is non-zero, or none |
| Pe.ScanAsWrittenOverruns | bootloader/TSL/src/pe.c:123 | with no load address set, the loop as written (`size_t i >= 0`) wraps past slot 0 and reads slot 2^32 − 1 of a 17-slot table |
| Pe.ScanAgrees | bootloader/TSL/src/pe.c:123-128 | when some slot has a load address, the loop as written stops at `LastLoaded` |
| Division64.RoundStep | bootloader/TSL/src/gcc_arithmetics64.c:74-82 | one round of the long division keeps the invariant: the partial remainder is the remainder of the dividend's top bits and the quotient bits found so far are their quotient |
| Division64.SetBit | bootloader/TSL/src/gcc_arithmetics64.c:80 | setting quotient bit i adds 2^i, and the quotient stays within the word |
| Division64.WordRound | bootloader/TSL/src/gcc_arithmetics64.c:75-81 | on 64-bit words the shifted remainder with the next bit does not overflow, and the round keeps the invariant |
| Division64.UnsignedDivision64 | bootloader/TSL/src/gcc_arithmetics64.c:54-90 | the quotient is stored as n / d and the remainder as n % d, each only when its pointer is passed; otherwise the variable keeps its value |
| Division64.UDivModDi4 | bootloader/TSL/src/gcc_arithmetics64.c:100-105 | `__udivmoddi4` returns a / b and stores a % b through c when c is passed |
| Arith64.Amount | bootloader/legacy/SSL/src/gcc_arithmetics64.c:37 | `b &= 63` keeps the count modulo 64, below 64, for negative counts too |
| Arith64.LshrShifts | bootloader/legacy/SSL/src/gcc_arithmetics64.c:152-168 | `__lshrdi3` is division by 2^(b mod 64): a logical right shift |
| Arith64.AshlPattern | bootloader/legacy/SSL/src/gcc_arithmetics64.c:33-48 | the pattern of `__ashldi3` is a · 2^(b mod 64) reduced modulo 2^64 |
| Arith64.AshlShifts | bootloader/legacy/SSL/src/gcc_arithmetics64.c:33-48 | `__ashldi3` is that pattern read back as a signed word |
| Arith64.SarFar | bootloader/legacy/SSL/src/gcc_arithmetics64.c:56-58 | for counts of 32 and more the sign fills the high half and the shifted high half becomes the low half: floor division by 2^s |
| Arith64.SarNear | bootloader/legacy/SSL/src/gcc_arithmetics64.c:59-62 | for counts from 1 to 31 the low half takes the high half's bottom bits: floor division by 2^s |
| Arith64.AshrShifts | bootloader/legacy/SSL/src/gcc_arithmetics64.c:50-65 | `__ashrdi3` is floor division by 2^(b mod 64): an arithmetic right shift |
| Arith64.ClzSearchBounds | bootloader/legacy/SSL/src/gcc_arithmetics64.c:69-83 | the binary search places the highest set bit of a non-zero value: 2^(w−1−r) ≤ v < 2^(w−r) |
| Arith64.ClzSearchZero | bootloader/legacy/SSL/src/gcc_arithmetics64.c:69-83 | on zero every line counts, giving 2^(e+1) − 1 |
| Arith64.Clz64Counts | bootloader/legacy/SSL/src/gcc_arithmetics64.c:76-84 | `__clzdi2` counts the zeros above the highest set bit of a non-zero value, and gives 63 for zero |
| Arith64.Clz32Counts | bootloader/legacy/SSL/src/gcc_arithmetics64.c:67-74 | `__clzsi2` counts the zeros above the highest set bit of a non-zero value, and gives 31 for zero |
| Arith64.CtzSearchFinds | bootloader/legacy/SSL/src/gcc_arithmetics64.c:88-102 | the binary search finds the lowest set bit of a value whose searched bits are not all zero |
| Arith64.CtzSearchZero | bootloader/legacy/SSL/src/gcc_arithmetics64.c:88-102 | on zero every line counts, giving 2^(e+1) − 1 |
| Arith64.Ctz64Counts | bootloader/legacy/SSL/src/gcc_arithmetics64.c:95-103 | `__ctzdi2` counts the zeros below the lowest set bit of a non-zero value, and gives 63 for zero |
| Arith64.Ctz32Counts | bootloader/legacy/SSL/src/gcc_arithmetics64.c:86-93 | `__ctzsi2` counts the zeros below the lowest set bit of a non-zero value, and gives 31 for zero |
| Arith64.FfsFinds | bootloader/legacy/SSL/src/gcc_arithmetics64.c:148-150 | `__ffsdi2` is 0 exactly for 0, and otherwise the 1-based position of the lowest set bit |
| Popcount.Ones | bootloader/legacy/SSL/src/gcc_arithmetics64.c:176-191 | the reference count of set bits, one bit at a time: at most the number of bits counted |
| Popcount.FieldSumsShift | bootloader/legacy/SSL/src/gcc_arithmetics64.c:185-187 | the three masking lines work byte by byte: on the word shifted by 8 they give the result shifted by 8 |
| Popcount.FieldSumsBounds | bootloader/legacy/SSL/src/gcc_arithmetics64.c:185-187 | after the masking lines each byte holds at most 8 |
| Popcount.LowByteCount | bootloader/legacy/SSL/src/gcc_arithmetics64.c:185-187 | after the masking lines the low byte holds the number of set bits among the low 8 bits |
| Popcount.LanesCount | bootloader/legacy/SSL/src/gcc_arithmetics64.c:185-187 | after the masking lines the low k bytes add up to the number of set bits among the low 8k bits |
| Popcount.AddBytes64 | bootloader/legacy/SSL/src/gcc_arithmetics64.c:188-190 | when every byte holds at most 8, the three folding lines and the mask 127 return the sum of the eight bytes |
| Popcount.PopCount64Ones | bootloader/legacy/SSL/src/gcc_arithmetics64.c:184-191 | `__popcountdi2` returns the number of set bits of its argument |
| Popcount.FieldSumsWiden | bootloader/legacy/SSL/src/gcc_arithmetics64.c:177-179 | the 32-bit masking lines compute the low half of the 64-bit ones on the zero-extended word |
| Popcount.AddWiden | bootloader/legacy/SSL/src/gcc_arithmetics64.c:180-181 | the 32-bit folding (by 16 then 8, mask 63) agrees with the 64-bit folding on a zero-extended word whose bytes hold at most 15 |
| Popcount.PopCountWidths | bootloader/legacy/SSL/src/gcc_arithmetics64.c:176-191 | `__popcountsi2` of a word equals `__popcountdi2` of its zero extension |
| Popcount.PopCount32Ones | bootloader/legacy/SSL/src/gcc_arithmetics64.c:176-182 | `__popcountsi2` returns the number of set bits of its argument |
| LegacyDivision.SignMaskIs | bootloader/legacy/SSL/src/gcc_arithmetics64.c:136 | `(int64_t)v >> 63` is all ones exactly when bit 63 is set |
| LegacyDivision.WrapBit | bootloader/legacy/SSL/src/gcc_arithmetics64.c:136 | the sign of b − rem − 1 tells whether rem reached b |
| LegacyDivision.LeadingZeros | bootloader/legacy/SSL/src/gcc_arithmetics64.c:129 | the divisor's highest set bit is not above the dividend's, and it is bit 63 for a divisor above 2^63 |
| LegacyDivision.DivStart | bootloader/legacy/SSL/src/gcc_arithmetics64.c:129-132 | the loop runs between 1 and 63 rounds, and the dividend bits above the divisor's highest set bit are below the divisor |
| LegacyDivision.StartState | bootloader/legacy/SSL/src/gcc_arithmetics64.c:130-132 | the state before the loop satisfies the loop invariant |
| LegacyDivision.DivRound | bootloader/legacy/SSL/src/gcc_arithmetics64.c:133-138 | one round keeps the invariant with one round fewer left: the remainder of the dividend's top bits, the quotient bits so far under the dividend's remaining bits in `a`, the last quotient bit in `wrap` |
| LegacyDivision.DivFinish | bootloader/legacy/SSL/src/gcc_arithmetics64.c:139-140 | after the last round `rem` is a % b and `(a << 1) \| (wrap & 1)` is a / b |
| LegacyDivision.DivModDi4 | bootloader/legacy/SSL/src/gcc_arithmetics64.c:105-141 | `__divmoddi4` returns a / b and stores a % b through c when c is passed, on every path: b > a, b == 1, both values in 32 bits, and the loop |
| LegacyDivision.ShiftSubtract | bootloader/legacy/SSL/src/gcc_arithmetics64.c:129-140 | the shift-and-subtract loop gives a / b and a % b for 2 ≤ b ≤ a |
| LegacyDivision.LeadingZeros64 | bootloader/legacy/SSL/src/gcc_arithmetics64.c:129 | `__clzdi2` of a non-zero value places its highest set bit |
| LegacyDivision.ShiftInBit | bootloader/legacy/SSL/src/gcc_arithmetics64.c:134-135 | `(v << 1) \| bit` is 2v mod 2^64 plus the bit |
| LegacyDivision.LowBit | bootloader/legacy/SSL/src/gcc_arithmetics64.c:135-140 | `w & 1` is the lowest bit |
| LegacyDivision.SubMasked | bootloader/legacy/SSL/src/gcc_arithmetics64.c:137 | `rem -= b & wrap` subtracts b under the full mask and nothing under the empty one |
| LegacyDivision.SpreadSign | bootloader/legacy/SSL/src/gcc_arithmetics64.c:136 | the sign spread over the word |
| LegacyDivision.UDivDi3 | bootloader/legacy/SSL/src/gcc_arithmetics64.c:193-195 | `__udivdi3` is unsigned 64-bit division |
| LegacyDivision.UModDi3 | bootloader/legacy/SSL/src/gcc_arithmetics64.c:197-201 | `__umoddi3` is the unsigned 64-bit remainder |
| LegacySigned.Truncating | bootloader/legacy/SSL/src/gcc_arithmetics64.c:143-146 | the quotient and remainder rebuild the dividend; the remainder is smaller than the divisor in magnitude and never has the opposite sign to the dividend: C's `/` and `%` |
| LegacySigned.QuotMagnitudes | bootloader/legacy/SSL/src/gcc_arithmetics64.c:143-146 | truncating division depends only on the magnitudes and the signs |
| LegacySigned.NegNegates | bootloader/legacy/SSL/src/gcc_arithmetics64.c:26 | `_neg(a, b)` is two's-complement negation when b < 0, and the identity otherwise |
| LegacySigned.AbsBitsMagnitude | bootloader/legacy/SSL/src/gcc_arithmetics64.c:27 | `_abs` gives the magnitude as an unsigned pattern, 2^63 included |
| LegacySigned.AbsVDi2Value | bootloader/legacy/SSL/src/gcc_arithmetics64.c:29-31 | `__absvdi2` is the magnitude, except that −2^63 is returned unchanged |
| LegacySigned.NegOfMagnitude | bootloader/legacy/SSL/src/gcc_arithmetics64.c:145 | a magnitude up to 2^63, given its sign by `_neg`, is the signed value modulo 2^64 |
| LegacySigned.DivDi3 | bootloader/legacy/SSL/src/gcc_arithmetics64.c:143-146 | `__divdi3` is C's truncating quotient; −2^63 / −1 wraps to −2^63 |
| LegacySigned.QuotRange | bootloader/legacy/SSL/src/gcc_arithmetics64.c:143-146 | the truncating quotient fits in 64 bits except for −2^63 / −1 |
| LegacySigned.ModDi3 | bootloader/legacy/SSL/src/gcc_arithmetics64.c:170-174 | `__moddi3` is C's remainder, with the sign of the dividend |
| LegacySigned.RemRange | bootloader/legacy/SSL/src/gcc_arithmetics64.c:170-174 | the remainder always fits in 64 bits |
| TslEntry.IdentityMapping | bootloader/TSL/src/tsl_entry.c:72-104 | once the tables are set up, every 32-bit address below 2 MiB on a mapped page translates to itself through the 4-level walk, and every other address faults |
| TslEntry.LinkEntry | bootloader/TSL/src/tsl_entry.c:102-104 | a table link `base \| 3` is present and points at `base` |
| TslEntry.PageEntry | bootloader/TSL/src/tsl_entry.c:80-99 | a page's identity entry is present and, with the offset in the page, gives the address back |
| TslEntry.FlagBits | bootloader/TSL/src/tsl_entry.c:80-104 | OR-ing flags below 4096 into a page-aligned address adds them |
| TslEntry.PageTables.constructor | bootloader/TSL/src/tsl_entry.c:72-75 | the four tables start out as distinct fresh 512-entry arrays at the given page-aligned places |
| TslEntry.PageTables.Clear | bootloader/TSL/src/tsl_entry.c:72-75 | `memset` leaves every entry of the table 0 |
| TslEntry.PageTables.MapFrom | bootloader/TSL/src/tsl_entry.c:78-100 | the loop sets the entry of each of the `count` pages from `base` to its identity entry, and leaves every other entry as it was |
| TslEntry.PageTables.MapPages | bootloader/TSL/src/tsl_entry.c:92-94 | the loop sets the entries from the first page up to the end page to their identity entries, and leaves every other entry as it was |
| TslEntry.PageTables.Setup | bootloader/TSL/src/tsl_entry.c:71-104 | after the four `memset`s, the four loops and the three links the tables are laid out as `Layout` says |
| TslEntry.FindRsdp | bootloader/TSL/src/tsl_entry.c:106-115 | the first address in [0xE0000, 0xFFFFF) that holds "RSD PTR ", or 0xFFFFF when none does |
| TslEntry.Enter | bootloader/TSL/src/tsl_entry.c:36-115 | a boot info of the wrong size halts before the tables are touched; a failed loading step halts; otherwise the tables are laid out and the RSDP found is the first signature in the scanned range |
| FormatText.Alphabet | bootloader/legacy/SSL/src/io.c:97-98 | the digit tables have 16 characters |
| FormatText.DigitTables | bootloader/legacy/SSL/src/io.c:97-105 | a digit's character is the table entry at that digit |
| FormatText.DivStep | bootloader/legacy/SSL/src/io.c:105-106 | a division by the radix gives a digit below the radix that rebuilds the number with the quotient; the quotient is zero exactly when the number is below the radix, and smaller otherwise |
| FormatText.DigitsStep | bootloader/legacy/SSL/src/io.c:103-106 | the digits of n are those of n / radix (none when that is 0) followed by the digit n % radix |
| FormatText.DigitsDenote | bootloader/legacy/SSL/src/io.c:103-106 | the digits generated denote the number in the radix: a round trip with reading them back |
| FormatText.DigitsLead | bootloader/legacy/SSL/src/io.c:103-106 | the first digit is `0` exactly for zero: no leading zeros |
| FormatText.DigitsAlphabet | bootloader/legacy/SSL/src/io.c:105 | every digit is a character of the chosen alphabet below the radix |
| FormatText.Repeat | bootloader/legacy/SSL/src/io.c:65-75 | n copies of the character |
| FormatText.NtoaLength | bootloader/legacy/SSL/src/io.c:100-134 | the length of `_ntoa`'s text is the sign, the prefix, and the digits or the precision, whichever is longer |
| FormatText.PaddedShape | bootloader/legacy/SSL/src/io.c:52-83 | the padded text is as long as the output or the width, whichever is more; it holds the output at its start with FLAG_LEFT or at its end otherwise, and the fill character everywhere else |
| FormatText.Put | bootloader/legacy/SSL/src/io.c:7-10 | `_buffer_mem` leaves the buffer's size as it was |
| FormatText.PutAll | bootloader/legacy/SSL/src/io.c:61-79 | a run of writes leaves the buffer's size as it was |
| FormatText.PutAllAt | bootloader/legacy/SSL/src/io.c:7-10 | after the writes a position below `max_size` in the text's span holds its character, and every other position is unchanged |
| FormatText.PutAllAppend | bootloader/legacy/SSL/src/io.c:163-387 | writing two texts one after the other is writing their concatenation |
| FormatText.Terminate | bootloader/legacy/SSL/src/io.c:389-391 | placing the terminator leaves the buffer's size as it was |
| FormatText.Truncation | bootloader/legacy/SSL/src/io.c:389-407 | with `max_size` > 0 the buffer holds the longest prefix of the output that fits with a terminator, then the terminator, and nothing after it changes |
| FormatText.Flags | bootloader/legacy/SSL/src/io.c:169-197 | the flag loop only moves forward, and stays inside the format when it moves |
| FormatText.DigitRun | bootloader/legacy/SSL/src/io.c:211-226 | a digit run only moves forward, and stays inside the format when it moves |
| FormatText.DigitRunDecimal | bootloader/legacy/SSL/src/io.c:211-226 | the run stops at the first non-digit and its value is the digits read as a decimal number modulo 2^16 (`uint16_t` width and precision) |
| FormatText.WrapStep | bootloader/legacy/SSL/src/io.c:212-226 | reducing modulo 2^16 at each step or once at the end agrees |
| FormatText.Wrap | bootloader/legacy/SSL/src/io.c:142-158 | the two's-complement reading of a value's bits lies in the signed range of its width |
| FormatText.WrapFits | bootloader/legacy/SSL/src/io.c:142-158 | a value within the signed range reads back unchanged |
| FormatText.NegativeIntUnsigned | bootloader/legacy/SSL/src/io.c:266-284 | as written, a negative `int` for `%d` is seen as its unsigned 32-bit pattern, 2^32 above the value meant |
| FormatText.UntilNul | bootloader/legacy/SSL/src/io.c:345 | the characters of a string argument before its first terminator: a prefix without a NUL, followed by a NUL or the end |
| FormatText.Step | bootloader/legacy/SSL/src/io.c:163-386 | one round of the loop advances through the format and stays inside it |
| FormatText.SignedOutputLost | bootloader/legacy/SSL/src/io.c:284-285 | `snprintf(s, 2, "%d", 5)`: the output meant, "5", would land in the buffer with its terminator; as written the buffer's first character is never set while the count is still 1 |
| FormatText.StarWidthLeft | bootloader/legacy/SSL/src/io.c:201-209 | a negative `*` width sets FLAG_LEFT, gives its magnitude as the width and consumes the argument |
| FormatText.StarPrecisionNegative | bootloader/legacy/SSL/src/io.c:217-223 | a negative `*` precision gives 0, with FLAG_PRECISION set |
| FormatText.UnknownSkipped | bootloader/legacy/SSL/src/io.c:383-384 | an unknown conversion character produces nothing and takes no argument |
| Format.BufferMem | bootloader/legacy/SSL/src/io.c:7-10 | the character is stored only when `index` < `max_size` |
| Format.Write | bootloader/legacy/SSL/src/io.c:7-34 | `_buffer_mem` for a buffer, and nothing for NULL (`_buffer_null`) |
| Format.PutAllSnoc | bootloader/legacy/SSL/src/io.c:61-62 | one more character written is the text grown by one |
| Format.WriteAll | bootloader/legacy/SSL/src/io.c:61-79 | the index moves past the text and the buffer is `PutAll` of the text |
| Format.FormatOutput | bootloader/legacy/SSL/src/io.c:52-83 | `_format_output` writes the padded text and returns the index after it |
| Format.Reversed | bootloader/legacy/SSL/src/io.c:85-95 | reversing keeps the length |
| Format.ReversedTwice | bootloader/legacy/SSL/src/io.c:85-95 | reversing twice gives the text back |
| Format.ReversedCons | bootloader/legacy/SSL/src/io.c:131 | a character written first comes out last |
| Format.Reverse | bootloader/legacy/SSL/src/io.c:85-95 | `_reverse` leaves the first `buff_size` characters back to front and the rest unchanged |
| Format.Push | bootloader/legacy/SSL/src/io.c:105-124 | appending to `num_buffer` keeps it as the text so far, back to front |
| Format.DigitLoop | bootloader/legacy/SSL/src/io.c:103-106 | the do-while loop writes the digits of the number back to front, one for zero |
| Format.PushDigit | bootloader/legacy/SSL/src/io.c:105-106 | one round writes the digit `num % radix` and divides by the radix, which shrinks a non-zero number |
| Format.RepeatCons | bootloader/legacy/SSL/src/io.c:110-111 | one more zero is one more character in front |
| Format.ZeroLoop | bootloader/legacy/SSL/src/io.c:108-111 | with FLAG_PRECISION, zeros bring the digits up to the precision |
| Format.PushPrefix | bootloader/legacy/SSL/src/io.c:113-120 | the FLAG_HASH prefix `0x`/`0X` in base 16 or `0` in base 8, back to front |
| Format.PushSign | bootloader/legacy/SSL/src/io.c:122-128 | `-` for a negative number, else `+` with FLAG_SIGN, else a space with FLAG_SPACE |
| Format.Ntoa | bootloader/legacy/SSL/src/io.c:100-134 | `_ntoa` leaves sign, prefix, zeros and digits in reading order at the start of `num_buffer` and returns their count |
| Format.ParseFlags | bootloader/legacy/SSL/src/io.c:169-197 | the flag loop computes `Flags` |
| Format.ParseDigits | bootloader/legacy/SSL/src/io.c:211-226 | the digit loop computes `DigitRun` |
| Format.ParseWidth | bootloader/legacy/SSL/src/io.c:199-213 | the width parse computes `Width` |
| Format.ParsePrecision | bootloader/legacy/SSL/src/io.c:215-228 | the precision parse computes `Precision` |
| Format.ParseSpecAt | bootloader/legacy/SSL/src/io.c:169-260 | flags, width, precision and length computed as `ParseSpec` |
| Format.NumberOut | bootloader/legacy/SSL/src/io.c:324-325 | a number goes through `_ntoa` and `_format_output` into the caller's buffer; a text longer than `num_buffer` stops with the overrun |
| Format.Conversion | bootloader/legacy/SSL/src/io.c:263-385 | the conversion switch writes `Convert`'s text and moves to `Convert`'s next argument, or stops with its fault |
| Format.NumericConversion | bootloader/legacy/SSL/src/io.c:264-358 | the corrected number conversions: `%d`/`%i` write into the caller's buffer like the unsigned ones, with the argument read as its signed type |
| Format.Strlen | bootloader/legacy/SSL/src/io.c:345 | `strlen` counts the characters before the first terminator |
| Format.FirstNul | bootloader/legacy/SSL/src/io.c:345 | the characters before the first terminator are `UntilNul` |
| Format.PrependPrepend | bootloader/legacy/SSL/src/io.c:163-387 | writing a text in one piece or in two is the same |
| Format.VSnprintf | bootloader/legacy/SSL/src/io.c:136-392 | `_vsnprintf` writes the rendered output through `_buffer_mem`, places the terminator, and returns the length of the whole output however much fit; a missing argument or a run past the terminator is reported as a fault. For `%d` and `%i` the text written is the corrected conversion of `Format.NumericConversion`, not what lines 266-285 do (see "## Findings") |
| Format.StepAt | bootloader/legacy/SSL/src/io.c:163-386 | one round writes `Step`'s text and moves to `Step`'s position and argument |

## Left out

- `_buffer_out`, `_buffer_serial`, `printf` and `serial_printf` of the legacy `io.c`: they write to the BIOS console and the serial port, which are I/O. Only `_buffer_mem` (the `snprintf` path) is modelled.
- The `va_list` walk of `_vsnprintf`: the arguments come in as a sequence of `Arg` values, and reading one of the wrong kind is a fault. The union that type-puns them is modelled only through the values it yields (`SignedSeen`, `UnsignedSeen`).
- `%n`: the argument is consumed, but the store through the pointer is not modelled, because the model has no pointers into caller memory.
- Overrunning `num_buffer`, writing past the terminator, and a missing argument are undefined behaviour in C. The model reports each of them as a fault (`Failed`).
- Heap.Heap.Free: is called only on a live allocation. `free` of a pointer `malloc` did not return, or a second `free` of the same pointer, corrupts the list in C and is not modelled.
- Format.VSnprintf: returns the output length as a natural number; the wrap of the C `int` return value above 2^31 is not modelled. For `%d` and `%i` it writes the corrected conversion; what io.c does there as written is stated by `FormatText.SignedOutputLost` and `FormatText.NegativeIntUnsigned` (see "## Findings").
- Format.Ntoa: requires that the digits, prefix and padding fit `num_buffer`; the overrun case is the fault reported by `FormatText`.
- Format.Reverse: requires a size of at least 1, which every caller meets.
- Signed `>>` is taken to be arithmetic, widths are those of a 32-bit (ILP32) target, and the sign of `a ^ b` in `__divdi3` is taken as `(a < 0) != (b < 0)`.
- Division64.UnsignedDivision64: requires a non-zero divisor, because the source divides by zero and faults.
- LegacyDivision.DivModDi4: requires a non-zero divisor, because the source divides by zero and faults.
- LegacySigned.DivDi3: requires a non-zero divisor, because the source divides by zero and faults.
- LegacySigned.ModDi3: requires a non-zero divisor, because the source divides by zero and faults.
- `align_page` is not in the source, so its results come in as already aligned values. The `ds` segment register (`get_ds`) is a parameter. `sizeof(boot_info_t)` is the constant `BootInfo.INFO_SIZE`, taken as 48 bytes. The header that defines `boot_info_t` is not part of this model, so the value is assumed; the model uses it only as the size allocated and the size stored in the record.
- The BIOS services (`bios_read_drive`, E820, the video mode query) are parameters: a sequence of replies, a read function, or for `int 0x10` function 0x0F the carry flag and AX it returns, supplied by the caller. Their failures are part of the replies. BX of the video reply is not used by the source and is not modelled.
- `BOOT_VIDEO_NOVIDEO`, `BOOT_VIDEO_LINTEXT` and `sizeof(video_lintext)` come from the header that defines `boot_info_t`, which is not part of this model. They are taken as 0, 1 and 8 bytes (`BootInfo.NOVIDEO`, `BootInfo.LINTEXT`, `BootInfo.LINTEXT_SIZE`); the model uses the sizes only as the amount allocated and the kinds only to tell the cases apart.
- The assembly routines (`enable_A20`, `load_GDT32`, `enter_unreal`, `cpuid`) are not modelled, and neither is the CPU state set by `disable_pci`, `enable_PAE`, `load_page_table`, `enable_long_mode`, `enable_paging` and the far jump in `tsl_entry`. The outcome of `ramfs_init`, `pe_loader_init` and `pe_load` reaches `TslEntry.Enter` as a parameter.
- TslEntry.PageTables.MapFrom: requires the mapped pages to fit the tables, because the source's loops do not check the index.
- TslEntry.PageTables.MapPages: requires the mapped pages to fit the tables, because the source's loops do not check the index.
- TslEntry.PageTables.Setup: requires the mapped pages to fit the tables, because the source's loops do not check the index.
- TslEntry.Enter: requires the mapped pages to fit the tables, because the source's loops do not check the index.
- Pe.Loader.Load: requires a non-empty name without NUL characters; every caller passes a `"ramfs/…"` path.
- Pe.Loader.Imports: the descriptor address `d + 20` is taken without reduction modulo 2^32, as is the run's `d0 + 20·k`. The loop stops at the end of memory (`LEInside`), so this differs from the C pointer only for a memory of 2^32 bytes or more, where `d` can reach 2^32 − 4.
- Pe: the loader's other pointer sums are exact too, not reduced modulo 2^32: `p + 60` for `e_lfanew`; the PE and optional header fields at `pe + 6`, `pe + 20` and `pe + 24 + …`; the section entries `table + 40·k` and their fields at `+ 8` to `+ 20`; the import descriptor fields `d + 12` and `d + 16`; the export directory fields `dir + 24` to `dir + 36`; the table entries `names + 4·j`, `ords + 2·k` and `eat + 4·ord`; and the import address table slots `t + 8`. Only the sums of a load address and an RVA (`Add32`) wrap. The model reads 0 past the end of memory, where the C pointer would wrap to low memory, so the two differ only for a memory of 2^32 bytes or more, or for a header or table that lies within its own length of 2^32.
- LegacySigned.AbsVDi2Value: `_abs` of INT64_MIN overflows a signed 64-bit integer, which is undefined behaviour in C; the model gives it the defined value of the two's-complement negation, INT64_MIN itself.
- Division64.UDivModDi4: requires a non-zero divisor, because the source divides by zero and faults.
- LegacyDivision.UDivDi3: requires a non-zero divisor, because the source divides by zero and faults.
- LegacyDivision.UModDi3: requires a non-zero divisor, because the source divides by zero and faults.
- Ramfs.Ramfs.Init: on a chain without end (for example a header whose size field is "37777776001", which `_next` maps back onto itself: `Ramfs.NextSelf`, `Ramfs.Align512Wraps`) the C loop never stops. The model gives up after as many headers as memory has bytes and returns false (`Ramfs.EndNone`), where `ramfs_init` never returns.
- Ramfs.Ramfs.File: on a chain without end where no header matches, the C loop never stops; the model returns NULL after as many headers as memory has bytes, having passed every header the chain reaches (`Ramfs.HeadersCover`).
- Ramfs.Align512AsWritten: for `val` = 0x80000000, `(int)val - 1` overflows a signed `int`, which is undefined behaviour in C; the model takes the exact difference −2^31 − 1.
- Kernel.Step: the destination and the bounce buffer may overlap, and the ascending copy is modelled for that case too (`Kernel.StepOverlap`); `Kernel.StepAt` and `Kernel.LoadPlaces` state where the sectors land only when they do not overlap.
- Gpt.ShrinkTable: requires `entry_size` ≥ 16. The GPT header read from disk is trusted to follow the UEFI specification's GPT header definition, where the entry size is 128·2^n. Smaller sizes, where the 16-byte `memcmp` of a type GUID spans two entries, are not modelled.
- Gpt.LoadTable: requires `entry_size` ≥ 16, for the same reason as Gpt.ShrinkTable.
- Gpt.GetPartitionArray: requires `entry_size` ≥ 16, for the same reason as Gpt.ShrinkTable.
- Gpt.Compact: requires `entry_size` ≥ 16, for the same reason as Gpt.ShrinkTable.
- Heap.Heap.Init: requires the arena to hold the alignment padding and one header. `_heap` and `_heap_size` are linker constants, and `mem_init` does not check them.
- LegacyHeap.LegacyHeap.Init: requires the arena to hold the alignment padding and one header, as Heap.Heap.Init does.
- Heap.Heap.Realloc: requires a live allocation, as `free` does (`Heap.Heap.Free`). `realloc(NULL, n)` reads a header at address 0 − 16 in C and is not modelled.
- Heap.Heap.ReallocAt: requires the index of a used block, for the same reason as Heap.Heap.Realloc.
- Gpt.ReallocFailureLeaks: shows only that the address freed after a failed `realloc` is no block's payload. In C, `free(NULL)` also writes the free flag of a header at address 0 − 16 and follows its links; that write is not modelled.
- Gdt.SetGdtr32: stores the OR of `ds << 4` and the offset, as written. That is the linear address when the offset is below 16 (`Gdt.TableBaseLinear`), or when the segment is a multiple of 0x1000 and the offset fits 16 bits (`Gdt.TableBaseSegment`). The run-time value of `ds` is not part of this model, so the overlapping case (`Gdt.TableBaseShort`) is not ruled out.
- The TSL `memcmp` and `memcpy` are modelled by the SSL ones (`Strings`). The TSL `string.c` is not part of this model.
- Debug dumps, the legacy entry points' halt loops and screen output are left out, because they are I/O only.
- Concurrency and interrupts are left out: the bootloader runs on one core with interrupts off.

## Findings

| source | as written | input that shows it | evidently intended | confidence | as-written member | corrected member |
|---|---|---|---|---|---|---|
| bootloader/TSL/src/ramfs.c:31-33 | `_align512` casts the 32-bit size to `int` before `(val - 1) / 512`, so sizes above 2^31 are rounded as negative numbers | `_align512(0x80000002)` gives `0x80000400`, 512 past the correct `0x80000200` | the size rounded up to the next multiple of 512 | not executed | Ramfs.Align512Overshoots | Ramfs.Align512 |
| bootloader/SSL/src/utils.c:325-331 | when `realloc` fails, its NULL result is stored over the table pointer and then freed, so the table buffer is never released, and `free(NULL)` writes through a header at address 0 − 16 | `realloc` only fails when it has to grow the buffer. That happens when the entry array is 2^25 bytes or more: its sector count wraps in the 16-bit field, the buffer is read too short, and no free block fits the kept entries | free the old buffer, then report the failure | not executed | Gpt.ReallocFailureLeaks | Gpt.ShrinkTable |
| bootloader/TSL/src/pe.c:123 | the scan `for (size_t i = 15; i >= 0; --i)` has a condition that is always true, so it never stops at slot 0 | a loader state with no slot holding a load address: the index wraps to 2^32 - 1, outside the 17-slot table | stop after slot 0 and report that no image is loaded | not executed | Pe.ScanAsWrittenOverruns | Pe.Loader.MemoryRange |
| bootloader/legacy/SSL/src/io.c:284-285 | `%d` and `%i` text goes through `_format_output` with `num_buffer` as its destination, so the caller's buffer never receives it, though the index moves on | `snprintf(s, 2, "%d", 5)` leaves `s[0]` unchanged and writes the terminator at `s[1]` | write the digits into the caller's buffer | not executed | FormatText.SignedOutputLost | Format.NumericConversion |
| bootloader/legacy/SSL/src/io.c:266-284 | the `int` argument of `%d` is stored into a zeroed 64-bit union and read back through its 64-bit member, so it is never sign-extended | `snprintf(s, 16, "%d", -1)` sees 4294967295 | print -1 | not executed | FormatText.NegativeIntUnsigned | Format.NumericConversion |
