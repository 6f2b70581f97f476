# onikiri2 core, modelled in Dafny

This project models the core of onikiri2, a cycle-accurate out-of-order processor simulator built around a functional emulator. It also models Kanata, the pipeline-trace viewer that ships with it. Each part of the source becomes one Dafny module:

- **shttl containers.** `ShttlBitset` and `ShttlXbitset` model fixed-width bit sets; the find tables of `xbitset` are checked entry by entry. `Lru` models the three LRU replacers (time stamps, order vector, linked list), each proved against one abstract recency order. `SetAssoc` models the set-associative table: the split of a key into offset, set index and tag, lookup, and replacement.
- **Emulator memory.** `HeapAlloc` is the first-fit heap allocator, with its free and allocated block lists. `VirtualMem` models the page table with copy-on-write reference counts. `MemSystem` covers the program break and mmap/munmap/mremap. `VirtualSys` holds the target-to-host file descriptor table and the delayed-unlink list. `MemOrderOps` models the overlap, forwarding and partial-store merging of the memory order manager.
- **Instruction semantics.** `GenericOp` holds the generic operations: arithmetic with carry and borrow, shifts, rotates, comparisons, sign extension and branch targets. The Alpha, PPC64, RV64 and RV32 operations are `AlphaOps`, `Ppc64Ops`, `Riscv64Ops` and `Riscv32Ops`. The instruction decoders are `Alpha64Decoder`, `Ppc64Decoder`, `Riscv64Decoder` and `Riscv32Decoder`, and `DecoderUtil` holds the bit-field extraction they share. `CommonConverter` models the ISA-independent converter: the operation table keyed by mask and opcode, and the translation of a decoded instruction into operand lists. Bit patterns are words: `nat` values below 2^w, or `bv32`/`bv64` where the decoder slices fields. Two's-complement wrap-around is written out in `Words`, on top of the powers of two in `Arith`.
- **Simulator infrastructure.** `OpClassCode` models operation classes and their predicates. `ParamXmlPath` models parameter paths. `StreamPrefetcher` models stream detection, confirmation and prefetch. `DebugStub` models the GDB remote protocol packet layer. `ClockedResource` models the stall/clock state of a clocked resource.
- **Kanata.** `KanataInsn` holds the instruction records. `KanataLoader` is the log-format command interpreter, as functions over a loader state. `KanataLogLoader` is the stateful loader class that drives it. `KanataView` holds the view queries: windows, dependency ranges and links.

Stateful objects are classes whose methods are proved against the specification functions beside them. Pure computations are functions, with lemmas stating the properties the source relies on. Where the source looks wrong, the model keeps the code as written next to a corrected definition, and the rest of the model uses the corrected one (see "## Findings").

## Model

| member | source | states |
|---|---|---|
| ShttlBitset.ValueOfToBits | src/Lib/shttl/bitset.h:75-77 | the N bits kept by the constructor read back as the value masked to N bits, v mod 2^N |
| ShttlBitset.ToBitsOfValue | src/Lib/shttl/bitset.h:75-77 | bits and value determine each other: the N-bit pattern of a stored value is the stored pattern |
| ShttlBitset.ToBitsAt | src/Lib/shttl/bitset.h:221-225 | bit i of a value is its i-th binary digit, as shttl::test reads it |
| ShttlBitset.ValueZero | src/Lib/shttl/bitset.h:227-228 | the value is zero exactly when no bit is set, so none() and any() agree with the bits |
| ShttlBitset.ValueAllOnes | src/Lib/shttl/bitset.h:150-153 | all N bits set is the value umax(N) = 2^N - 1 |
| ShttlBitset.CountTrue | src/Lib/shttl/bitset.h:294-302 | the number of set bits is at most N and is zero exactly when the value is zero |
| ShttlBitset.ShiftedLeft | src/Lib/shttl/bitset.h:136-140 | shifting left by w keeps the width; bit i comes from bit i - w and the low w bits are zero |
| ShttlBitset.ShiftedRight | src/Lib/shttl/bitset.h:141-145 | shifting right by w keeps the width; bit i comes from bit i + w and zeros enter at the top |
| ShttlBitset.ShiftRightOneValue | src/Lib/shttl/bitset.h:141-145 | a right shift by one halves the value |
| ShttlBitset.ComplementValue | src/Lib/shttl/bitset.h:177-184 | the complement masked to N bits, ~v & umax(N), is umax(N) - v |
| ShttlBitset.Bitset.ToUlong | src/Lib/shttl/bitset.h:208-211 | the stored value is below 2^N, the bound to_ulong asserts |
| ShttlBitset.Bitset.constructor | src/Lib/shttl/bitset.h:75-77 | the new set holds v masked to N bits |
| ShttlBitset.Bitset.AndAssign | src/Lib/shttl/bitset.h:132 | each bit becomes the and of the two operands' bits |
| ShttlBitset.Bitset.OrAssign | src/Lib/shttl/bitset.h:133 | each bit becomes the or of the two operands' bits |
| ShttlBitset.Bitset.XorAssign | src/Lib/shttl/bitset.h:134 | each bit becomes the exclusive or of the two operands' bits |
| ShttlBitset.Bitset.ShiftLeftAssign | src/Lib/shttl/bitset.h:136-140 | the bits become the old bits shifted towards the top, the ones past N dropped |
| ShttlBitset.Bitset.ShiftRightAssign | src/Lib/shttl/bitset.h:141-145 | the bits become the old bits shifted towards the bottom; a shift by one halves the value |
| ShttlBitset.Bitset.SetAll | src/Lib/shttl/bitset.h:150-153 | set() makes the value umax(N) |
| ShttlBitset.Bitset.Set | src/Lib/shttl/bitset.h:155-163 | a position at or past N is out of range and changes nothing; otherwise exactly bit p becomes v != 0 |
| ShttlBitset.Bitset.ResetAll | src/Lib/shttl/bitset.h:165-168 | reset() makes the value 0 |
| ShttlBitset.Bitset.Reset | src/Lib/shttl/bitset.h:170-175 | a position at or past N is out of range and changes nothing; otherwise exactly bit p is cleared |
| ShttlBitset.Bitset.FlipAll | src/Lib/shttl/bitset.h:181-184 | every bit is inverted, so the value becomes umax(N) minus the old value |
| ShttlBitset.Bitset.Flip | src/Lib/shttl/bitset.h:186-192 | a position at or past N is out of range and changes nothing; otherwise exactly bit p is inverted |
| ShttlBitset.Bitset.Test | src/Lib/shttl/bitset.h:221-225 | a position at or past N is out of range; otherwise the answer is the p-th binary digit of the value |
| ShttlBitset.Bitset.IsAny | src/Lib/shttl/bitset.h:227 | any() holds exactly when some bit is set |
| ShttlBitset.Bitset.IsNone | src/Lib/shttl/bitset.h:228 | none() holds exactly when no bit is set |
| ShttlBitset.Bitset.ToString | src/Lib/shttl/bitset.h:284-291 | the string has N characters, '1' or '0', most significant bit first |
| ShttlBitset.Bitset.Count | src/Lib/shttl/bitset.h:294-302 | the loop counts the set bits: at most N, and zero exactly when the value is zero |
| ShttlXbitset.FirstFrom | src/Lib/shttl/xbitset.h:277-287 | the linear search returns the first position at or after s whose bit equals the wanted value, or npos when none does |
| ShttlXbitset.Find0MapCorrect | src/Lib/shttl/xbitset.h:290-341 | every entry of the find(0) tables for widths 1 to 4 is the lowest clear bit of its index, or npos when all bits are set |
| ShttlXbitset.Xbitset.constructor | src/Lib/shttl/xbitset.h:61-64 | the new set holds v masked to N bits |
| ShttlXbitset.Xbitset.All | src/Lib/shttl/xbitset.h:141-147 | all() holds exactly when every bit is set, i.e. the value is umax(N) |
| ShttlXbitset.Xbitset.NoneSet | src/Lib/shttl/xbitset.h:149-155 | none() holds exactly when no bit is set, i.e. the value is 0 |
| ShttlXbitset.Xbitset.AnySet | src/Lib/shttl/xbitset.h:157-163 | any() holds exactly when some bit is set, i.e. the value is not 0 |
| ShttlXbitset.Xbitset.AnyOf | src/Lib/shttl/xbitset.h:165 | any(v) holds exactly when some bit equals v |
| ShttlXbitset.Xbitset.NoneOf | src/Lib/shttl/xbitset.h:166 | none(v) holds exactly when no bit equals v |
| ShttlXbitset.Xbitset.AllOf | src/Lib/shttl/xbitset.h:167 | all(v) holds exactly when every bit equals v |
| ShttlXbitset.Xbitset.Find | src/Lib/shttl/xbitset.h:175-188 | find(v, s) returns the first position at or after s whose bit equals v != 0, or npos, whether it reads the table or searches |
| ShttlXbitset.Xbitset.FindAndFlip | src/Lib/shttl/xbitset.h:190-204 | returns what find returns and flips exactly that bit, or nothing when it is npos |
| ShttlXbitset.Xbitset.Reset | src/Lib/shttl/xbitset.h:207-209 | reset() makes the value 0 |
| ShttlXbitset.Xbitset.Increment | src/Lib/shttl/xbitset.h:211-217 | prefix ++ adds one unless the value is already umax(N), where it stays |
| ShttlXbitset.Xbitset.Decrement | src/Lib/shttl/xbitset.h:219-225 | prefix -- subtracts one unless the value is already 0, where it stays |
| ShttlXbitset.Xbitset.PostIncrement | src/Lib/shttl/xbitset.h:227-233 | postfix ++ returns the old value and saturates like prefix ++ |
| ShttlXbitset.Xbitset.PostDecrement | src/Lib/shttl/xbitset.h:235-241 | postfix -- returns the old value and saturates like prefix -- |
| ShttlXbitset.Xbitset.Inc | src/Lib/shttl/xbitset.h:243-251 | inc() fails with overflow exactly at umax(N), keeping the value; otherwise it adds one |
| ShttlXbitset.Xbitset.Dec | src/Lib/shttl/xbitset.h:253-261 | dec() fails with underflow exactly at 0, keeping the value; otherwise it subtracts one |
| ShttlXbitset.IncrementSaturates | src/Lib/shttl/xbitset.h:211-217 | k saturating increments from v give min(v + k, umax(N)) |
| ShttlXbitset.Xbitset.ToUlong | src/Lib/shttl/xbitset.h:58 | the inherited to_ulong: the stored value is below 2^N |
| Lru.Touched | src/Lib/shttl/lru.h:254-274 | touching way w leaves the other ways in their order and puts w at the most recently used end |
| Lru.TouchAllShape | src/Lib/shttl/lru.h:254-274 | after touching distinct ways a in order, the untouched ways come first in their old order, followed by a |
| Lru.TouchEveryWay | src/Lib/shttl/lru.h:249-274 | once every way has been touched, in any order, the order is the touch order and the replacement target is the way touched first |
| Lru.TouchedPerm | src/Lib/shttl/lru.h:254-274 | touching keeps each set's order a permutation of its ways |
| Lru.TouchLast | src/Lib/shttl/lru.h:254-274 | touching the most recently used way leaves the order unchanged |
| Lru.IotaPerm | src/Lib/shttl/lru.h:288-294 | the reset order 0..way_num-1 is a permutation of the ways |
| Lru.LruOrder.constructor | src/Lib/shttl/lru.h:217-221 | a new order-based replacer has no sets and no ways |
| Lru.LruOrder.Construct | src/Lib/shttl/lru.h:223-242 | the way count is rejected exactly when it reaches the order type's maximum 255, after the sizes are recorded; otherwise every set starts in way order |
| Lru.LruOrder.ResetSet | src/Lib/shttl/lru.h:288-294 | entry i of the set holds way i |
| Lru.LruOrder.Target | src/Lib/shttl/lru.h:249-252 | the target is a way of the set, the head of its order |
| Lru.LruOrder.Touch | src/Lib/shttl/lru.h:254-274 | only the touched set changes, and its order becomes the old order with the way moved to the MRU end |
| Lru.MoveToBack | src/Lib/shttl/lru.h:261-272 | the slide loop produces the touched order, which is still a permutation of the ways |
| Lru.CountLessStrict | src/Lib/shttl/lru.h:179-193 | in rewind's ranking, a stamp ranks below every larger stamp and not below itself |
| Lru.CountLessOfMax | src/Lib/shttl/lru.h:179-193 | the largest of distinct stamps gets the top rank way_num - 1, as rewind asserts for the MRU way |
| Lru.StampsDistinct | src/Lib/shttl/lru.h:86-195 | in a valid set no two ways share a stamp |
| Lru.LruTime.constructor | src/Lib/shttl/lru.h:58-64 | construct resets every set for any way count: way w stamped w and the tick way_num, both as u8 so they wrap from 256 ways on, and the last way (size_t -1 for no ways) most recently used; with 1 to 254 ways every set is valid with way order 0..way_num-1 |
| Lru.ResetSetValid | src/Lib/shttl/lru.h:58-64 | a freshly reset set (way w stamped w, the tick at the way count, the last way most recently used) is valid for 1 to 254 ways, its recency order being the ways in index order |
| Lru.LruTime.ResetStamps | src/Lib/shttl/lru.h:117-124 | reset stamps way w with w cast to u8 |
| Lru.LruTime.Target | src/Lib/shttl/lru.h:156-167 | the way found has the smallest stamp of the set and is the least recently used way |
| Lru.LruTime.Rewind | src/Lib/shttl/lru.h:179-193 | rewind replaces stamps by their ranks, keeping the set's order, and gives the MRU way the top rank way_num - 1 |
| Lru.LruTime.TouchSet | src/Lib/shttl/lru.h:142-154 | touching the MRU way changes nothing; otherwise the set stays valid and its order becomes the touched order |
| Lru.LruTime.Touch | src/Lib/shttl/lru.h:71-77 | a way past the set is out of range and changes nothing; otherwise only that set's order changes, to the touched order |
| Lru.MovedIncreasing | src/Lib/shttl/lru.h:152 | stamping the touched way above every other stamp keeps stamps increasing along the touched order |
| Lru.LinkedMove | src/Lib/shttl/lru.h:443-459 | erase of a way followed by its insert before the footer relinks the list as the cycle with that way moved just before the footer |
| Lru.ListTouchValid | src/Lib/shttl/lru.h:368-391 | on a valid set, erase then insert before the footer gives the valid list of the touched order |
| Lru.ResetShape | src/Lib/shttl/lru.h:423-440 | the pointers reset_set leaves form the cycle 0, 1, ..., way_num - 1, footer |
| Lru.LruList.constructor | src/Lib/shttl/lru.h:330-335 | a new list replacer has no sets and no ways |
| Lru.LruList.ResetSet | src/Lib/shttl/lru.h:423-440 | the pointers written form the list of the way order 0..way_num-1 closed by the footer |
| Lru.LruList.Construct | src/Lib/shttl/lru.h:337-356 | the pitch way_num + 1 is rejected exactly when it reaches the maximum of the link type, after the sizes are recorded; otherwise every set starts in way order |
| Lru.LruList.Target | src/Lib/shttl/lru.h:363-366 | the footer's next pointer is the head of the set's order, its least recently used way |
| Lru.LruList.Touch | src/Lib/shttl/lru.h:368-391 | only the touched set changes, and its order becomes the old order with the way moved to the MRU end |
| SetAssoc.HitFrom | src/Lib/shttl/setassoc_table.h:279-290 | the way found holds a valid line with the tag and no earlier way does; no way is found exactly when no valid line carries the tag |
| SetAssoc.FreeFrom | src/Lib/shttl/setassoc_table.h:293-300 | the way found is the first invalid way; none is found exactly when every line is valid |
| SetAssoc.HitUnique | src/Lib/shttl/setassoc_table.h:325-338 | in a set whose valid tags are distinct, as write asserts, any valid line with the tag is the one find returns |
| SetAssoc.WriteKeepsDistinct | src/Lib/shttl/setassoc_table.h:325-338 | writing at the hit way, or anywhere when the tag misses, keeps the set's valid tags distinct |
| SetAssoc.FindWay | src/Lib/shttl/setassoc_table.h:279-290 | the loop returns the first valid way holding the tag, or invalid_way |
| SetAssoc.FindFreeWay | src/Lib/shttl/setassoc_table.h:293-300 | the loop returns the first invalid way, or invalid_way |
| SetAssoc.ClearSet | src/Lib/shttl/setassoc_table.h:343-349 | every line of the set keeps its tag and value and becomes invalid |
| SetAssoc.Next | src/Lib/shttl/setassoc_table.h:128-138 | pre-increment advances the flat position set * way_num + way by one, wrapping to way 0 of the next set |
| SetAssoc.AdvanceAt | src/Lib/shttl/setassoc_table.h:128-138 | k increments from begin() reach set k / way_num, way k mod way_num |
| SetAssoc.AdvanceEnd | src/Lib/shttl/setassoc_table.h:1002-1010 | set_num * way_num increments from begin() reach end() = (set_num, 0) |
| SetAssoc.RebuildSplits | src/Lib/shttl/std_hasher.h:87-100 | a key rebuilt from a tag and an index splits back into the same index and tag |
| SetAssoc.SetAssocTable.Index | src/Lib/shttl/std_hasher.h:87-90 | the set index of a key is below the number of sets |
| SetAssoc.SetAssocTable.Rebuild | src/Lib/shttl/std_hasher.h:97-100 | the rebuilt key has the given index and tag |
| SetAssoc.SetAssocTable.constructor | src/Lib/shttl/setassoc_table.h:868-874 | the member initialisation over a sized replacer: the table is valid, records its widths and way count, and every line starts invalid, so every lookup misses |
| SetAssoc.SetAssocTable.Create | src/Lib/shttl/setassoc_table.h:866-878 | the constructor fails exactly when the replacer's construct refuses way_num + 1 as too large for its link type; otherwise the new table is valid, records its widths and way count, and every lookup misses |
| SetAssoc.SetAssocTable.Find | src/Lib/shttl/setassoc_table.h:886-897 | end() is returned exactly when the key misses; otherwise the id names the key's set and the valid way holding its tag |
| SetAssoc.SetAssocTable.Read | src/Lib/shttl/setassoc_table.h:900-913 | the lines are unchanged; a hit returns the stored value and touches the replacer, a miss returns end() and leaves the replacer alone |
| SetAssoc.SetAssocTable.Write | src/Lib/shttl/setassoc_table.h:916-960 | the key then hits with the new value; only the chosen way changes, which is the hit way, else the first invalid way, else the replacer's target; a replacement reports the old line and its rebuilt key; the way is touched |
| SetAssoc.SetAssocTable.Invalidate | src/Lib/shttl/setassoc_table.h:963-970 | afterwards the key misses; end() is returned exactly when it already missed, and then nothing changes |
| SetAssoc.SetAssocTable.Clear | src/Lib/shttl/setassoc_table.h:977-982 | every line of every set becomes invalid, so every lookup misses |
| HeapAlloc.IndexOf | src/Emu/Utility/System/Memory/HeapAllocator.cpp:179 | std::find by address returns the first block starting at the address, or nothing when no block does |
| HeapAlloc.LowerBound | src/Emu/Utility/System/Memory/HeapAllocator.cpp:215 | lower_bound by address: every earlier block starts below the address and the block found, if any, does not |
| HeapAlloc.UpperBound | src/Emu/Utility/System/Memory/HeapAllocator.cpp:197 | upper_bound by address: every earlier block starts at or below the address and the block found, if any, above it |
| HeapAlloc.FirstFit | src/Emu/Utility/System/Memory/HeapAllocator.cpp:88-91 | the block found is the first free block strictly larger than the length; none is found exactly when every block is at most that large |
| HeapAlloc.FreeRangeAsWritten | src/Emu/Utility/System/Memory/HeapAllocator.cpp:188-222 | Free(addr, size) as written refuses a range exactly when the candidate block contains it; a refusal changes nothing |
| HeapAlloc.FreeHeadRefusedAsWritten | src/Emu/Utility/System/Memory/HeapAllocator.cpp:197-200 | as written, freeing the first page of a three-page block is refused though the range lies inside the block |
| HeapAlloc.FreeOutsideAcceptedAsWritten | src/Emu/Utility/System/Memory/HeapAllocator.cpp:197-207 | as written, freeing a range beyond the only block is accepted, and the wrapped size of the rest of the block makes the allocated bytes grow |
| HeapAlloc.MergeCovers | src/Emu/Utility/System/Memory/HeapAllocator.cpp:236-253 | merging two adjacent free blocks keeps the set of covered addresses |
| HeapAlloc.InPages | src/Emu/Utility/System/Memory/HeapAllocator.cpp:84-85 | the length rounded up to whole pages is the smallest page multiple at least as large |
| HeapAlloc.InsertCovers | src/Emu/Utility/System/Memory/HeapAllocator.cpp:138-139 | inserting a block into a list covers its addresses in addition to those the list covered |
| HeapAlloc.SplitBlock | src/Emu/Utility/System/Memory/HeapAllocator.cpp:202-212 | the parts of a block left allocated around a freed range total the block's bytes less the range, and cover exactly the block's addresses outside the range |
| HeapAlloc.SplitInList | src/Emu/Utility/System/Memory/HeapAllocator.cpp:202-212 | inserting the rest after the range, cutting the block to the part before it and erasing it when empty is the list with the block replaced by its parts around the range, and the list's bytes drop by the range size |
| HeapAlloc.TakeFront | src/Emu/Utility/System/Memory/HeapAllocator.cpp:164-170 | taking d bytes from the front of a free block lowers the list's bytes by d, covers nothing new, and loses only the addresses taken |
| HeapAlloc.OrderedCandidate | src/Emu/Utility/System/Memory/HeapAllocator.cpp:179-197 | in an address-ordered list, the last block starting at or before an address is the block std::find locates at that address |
| HeapAlloc.HeapAllocator.constructor | src/Emu/Utility/System/Memory/HeapAllocator.cpp:40-42 | a new allocator records the page size and has no free and no allocated blocks |
| HeapAlloc.HeapAllocator.FindIntersecting | src/Emu/Utility/System/Memory/HeapAllocator.cpp:51-59 | the search succeeds exactly when some block of the list intersects the new block |
| HeapAlloc.HeapAllocator.AddMemoryBlock | src/Emu/Utility/System/Memory/HeapAllocator.cpp:44-63 | the block is accepted exactly when it intersects no free and no allocated block, and then appended to the free list; otherwise nothing changes |
| HeapAlloc.HeapAllocator.IsIntersected | src/Emu/Utility/System/Memory/HeapAllocator.cpp:66-77 | the answer is true exactly when some allocated block intersects [addr, addr+length) |
| HeapAlloc.HeapAllocator.Alloc | src/Emu/Utility/System/Memory/HeapAllocator.cpp:79-111 | a non-zero address is refused; otherwise the page-rounded length is cut from the front of the first fitting free block and inserted in address order into the allocated list, or 0 is returned when none fits; the total bytes are kept |
| HeapAlloc.HeapAllocator.GetBlockSize | src/Emu/Utility/System/Memory/HeapAllocator.cpp:225-233 | the size of the allocated block starting at the address, or 0 when there is none |
| HeapAlloc.HeapAllocator.FindBlock | src/Emu/Utility/System/Memory/HeapAllocator.cpp:179 | the loop finds the first block starting at the address, as std::find does |
| HeapAlloc.HeapAllocator.MergeAdjacent | src/Emu/Utility/System/Memory/HeapAllocator.cpp:236-253 | the merged list keeps the total bytes and the covered addresses and has no two neighbours where one ends at the other's start |
| HeapAlloc.HeapAllocator.IntegrateFreeBlocks | src/Emu/Utility/System/Memory/HeapAllocator.cpp:236-253 | the allocated list is untouched; the free list keeps its bytes and covered addresses and is left with no adjacent neighbours |
| HeapAlloc.HeapAllocator.ReAlloc | src/Emu/Utility/System/Memory/HeapAllocator.cpp:113-174 | an unchanged size returns the address and changes nothing; an unknown address returns 0 and changes nothing; a shrink keeps the block at its address with the page-rounded size and adds exactly its tail to the addresses the free list covers, leaving no adjacent free blocks; a growth succeeds exactly when a free block follows the address, no allocated block starts before that free block, and the two together hold the new size, and then takes the extra bytes from the front of that free block (dropping it when used up); a refused growth returns 0 and changes nothing; the total bytes are always kept |
| HeapAlloc.HeapAllocator.FreeRange | src/Emu/Utility/System/Memory/HeapAllocator.cpp:188-222 | the range is freed exactly when the last allocated block starting at or before addr contains it; that block is then replaced in the allocated list by its non-empty parts before and after the range, the free list covers exactly its old addresses plus the range with no adjacent blocks, size bytes move from the allocated to the free total, and a refusal changes nothing |
| HeapAlloc.HeapAllocator.Free | src/Emu/Utility/System/Memory/HeapAllocator.cpp:177-186 | an address that starts no allocated block is refused and changes nothing; in an address-ordered allocated list a block starting at the address is always freed: it leaves the allocated list and its addresses join those the free list covers; a freed block keeps the total bytes |
| HeapAlloc.MergeTotal | src/Emu/Utility/System/Memory/HeapAllocator.cpp:236-253 | replacing two neighbours by one block of their joint size keeps the total bytes |
| VirtualMem.Base | src/Emu/Utility/System/Memory/VirtualMemory.cpp:137-140 | addr & offsetMask is the page-aligned address of the page holding addr |
| VirtualMem.SharedCounts | src/Emu/Utility/System/Memory/VirtualMemory.cpp:184-199 | mapping a page to a live physical page and counting one more reference keeps every count at least the number of pages sharing it |
| VirtualMem.RemovedCounts | src/Emu/Utility/System/Memory/VirtualMemory.cpp:243-260 | unmapping a page and counting one reference less keeps the counts valid, and a count that reaches zero leaves no page sharing that physical page |
| VirtualMem.FreshCounts | src/Emu/Utility/System/Memory/VirtualMemory.cpp:168-181 | mapping a page to a fresh physical page with count 1 keeps the counts valid |
| VirtualMem.SplitAtMapUnitBoundary | src/Emu/Utility/System/Memory/VirtualMemory.cpp:283-304 | the blocks run contiguously from addr to addr+size, the first to the end of its page or of the range, and every later block starts on a page boundary |
| VirtualMem.SplitCovers | src/Emu/Utility/System/Memory/VirtualMemory.cpp:283-304 | every address of the range lies in the page of one of the blocks |
| VirtualMem.SplitPages | src/Emu/Utility/System/Memory/VirtualMemory.cpp:283-304 | the pages the blocks start in are exactly the pages the range touches |
| VirtualMem.PageTable.constructor | src/Emu/Utility/System/Memory/VirtualMemory.cpp:104-114 | a new page table maps no page, counts no physical page and has an empty TLB |
| VirtualMem.PageTable.IsMapped | src/Emu/Utility/System/Memory/VirtualMemory.cpp:262-270 | a page is mapped exactly when the page map holds its page |
| VirtualMem.PageTable.GetMap | src/Emu/Utility/System/Memory/VirtualMemory.cpp:201-216 | the result is the page map's entry, whether the TLB hits or is refilled; the map and counts are unchanged |
| VirtualMem.PageTable.TargetToHost | src/Emu/Utility/System/Memory/VirtualMemory.cpp:147-166 | a mapped address gives its physical page and its offset in the page; an unmapped one is an error; nothing changes |
| VirtualMem.PageTable.AddMap | src/Emu/Utility/System/Memory/VirtualMemory.cpp:168-181 | the page gets a fresh physical page with reference count 1, replacing any entry there, and the TLB is flushed |
| VirtualMem.PageTable.CopyMap | src/Emu/Utility/System/Memory/VirtualMemory.cpp:184-199 | succeeds exactly when the source page is mapped; the destination page then shares the source's physical page, whose count grows by one; a failure changes nothing |
| VirtualMem.PageTable.SetMap | src/Emu/Utility/System/Memory/VirtualMemory.cpp:218-229 | a mapped page gets the new entry, written through to the TLB; an unmapped page is refused and nothing changes |
| VirtualMem.PageTable.GetPageReferenceCount | src/Emu/Utility/System/Memory/VirtualMemory.cpp:232-241 | the count of the page's physical page, or 0 when the page is unmapped |
| VirtualMem.PageTable.RemoveMap | src/Emu/Utility/System/Memory/VirtualMemory.cpp:243-260 | an unmapped page gives -1 and changes nothing; otherwise the entry goes, the physical page's count drops by one, the page is dropped at zero, the TLB is flushed and the new count returned |
| VirtualMem.VirtualMemory.constructor | src/Emu/Utility/System/Memory/VirtualMemory.cpp:307-314 | a new address space maps no page |
| VirtualMem.VirtualMemory.ReadMemory | src/Emu/Utility/System/Memory/VirtualMemory.cpp:326-382 | an unmapped page, a page-crossing access and a page without the read attribute are reported in that order; only sizes 1, 2, 4 and 8 succeed; the mapping is unchanged |
| VirtualMem.VirtualMemory.WriteMemory | src/Emu/Utility/System/Memory/VirtualMemory.cpp:384-430 | the same checks with the write attribute, in the same order; a write that passes them leaves its page with a reference count of 1: a shared page gets a fresh physical page with the same attribute and its old page loses one reference, while every other entry and count is unchanged; an unshared page and a rejected write change nothing |
| VirtualMem.VirtualMemory.AssignPhysicalMemory | src/Emu/Utility/System/Memory/VirtualMemory.cpp:493-512 | succeeds exactly when the page is unmapped, and then maps it to a fresh physical page; a mapped page is an error and changes nothing |
| VirtualMem.VirtualMemory.FreePhysicalMemory | src/Emu/Utility/System/Memory/VirtualMemory.cpp:524-543 | the page of addr is unmapped and no other page changes; an unmapped page is left as it is |
| VirtualMem.VirtualMemory.CopyPageOnWrite | src/Emu/Utility/System/Memory/VirtualMemory.cpp:624-640 | an unmapped page is an error; a page whose physical page is shared gets a fresh copy with the same attribute and true is returned; an unshared page changes nothing |
| VirtualMem.VirtualMemory.AssignRange | src/Emu/Utility/System/Memory/VirtualMemory.cpp:514-522 | no page mapped before is removed; on success the range's pages were all unmapped and are now exactly the pages added |
| VirtualMem.VirtualMemory.FreeRange | src/Emu/Utility/System/Memory/VirtualMemory.cpp:545-553 | exactly the pages the range touches are unmapped |
| VirtualMem.VirtualMemory.SetPhysicalMemoryMapping | src/Emu/Utility/System/Memory/VirtualMemory.cpp:556-568 | succeeds exactly when the source page is mapped and the destination page is not; the destination then shares the source's physical page with the new attribute; an error changes nothing |
| VirtualMem.VirtualMemory.SetMappingRange | src/Emu/Utility/System/Memory/VirtualMemory.cpp:571-578 | no mapping is removed; on success every page of the range shares the source's physical page |
| VirtualMem.VirtualMemory.SetPageAttribute | src/Emu/Utility/System/Memory/VirtualMemory.cpp:611-620 | a mapped page gets the new attribute and keeps its physical page; an unmapped page is an error and changes nothing |
| VirtualMem.VirtualMemory.CopyRangeOnWrite | src/Emu/Utility/System/Memory/VirtualMemory.cpp:433-491 | copy-on-write of the pages of a range keeps exactly the same pages mapped; it succeeds exactly when every page of the range is mapped, and then each of those pages has a reference count of 1 |
| VirtualMem.PrivateKept | src/Emu/Utility/System/Memory/VirtualMemory.cpp:624-640 | copy-on-write of one page, whether it copied or not, leaves that page and every page that already had a private physical page with a count of 1 |
| MemSystem.RoundUp | src/Emu/Utility/System/Memory/MemorySystem.cpp:187 | (n + pageMask) & ~pageMask is the smallest page multiple at least n |
| MemSystem.PagesAboveStep | src/Emu/Utility/System/Memory/MemorySystem.cpp:109-114 | stepping the shrink loop one page down adds exactly that page to the pages it frees |
| MemSystem.PagesAboveGrow | src/Emu/Utility/System/Memory/MemorySystem.cpp:120-128 | stepping the grow loop one page up adds exactly that page to the pages it assigns |
| MemSystem.UnmapLength | src/Emu/Utility/System/Memory/MemorySystem.cpp:254-258 | when the range does not end on a page boundary the length is cut down to whole pages, so the page the range ends inside is kept; otherwise it is unchanged |
| MemSystem.MemorySystem.constructor | src/Emu/Utility/System/Memory/MemorySystem.cpp:47-65 | the new system has break 0, an empty heap and only the zero page mapped, read-only |
| MemSystem.MemorySystem.SetInitialBrk | src/Emu/Utility/System/Memory/MemorySystem.cpp:88-91 | the break becomes the initial value |
| MemSystem.MemorySystem.Brk | src/Emu/Utility/System/Memory/MemorySystem.cpp:98-135 | 0 returns the current break and changes nothing; a lower address frees exactly the pages above its page up to the break's page and becomes the break; a higher one keeps every mapping, assigns the pages up to its page and becomes the break, or leaves the break on error |
| MemSystem.MemorySystem.FreeAbove | src/Emu/Utility/System/Memory/MemorySystem.cpp:107-116 | the pages from the break's page down to the new break's page, exclusive, are unmapped and nothing else |
| MemSystem.MemorySystem.AssignAbove | src/Emu/Utility/System/Memory/MemorySystem.cpp:118-131 | no mapping is removed; on success every page after the break's page up to the new break's page is mapped |
| MemSystem.MemorySystem.MMap | src/Emu/Utility/System/Memory/MemorySystem.cpp:138-161 | a non-zero address or zero length gives -1 and changes nothing; a served area is non-zero and its pages, none mapped before, all share the zero page read-write |
| MemSystem.MemorySystem.MUnmap | src/Emu/Utility/System/Memory/MemorySystem.cpp:245-264 | the result is 0 exactly when the length is positive and the heap accepts freeing the range (the corrected test, see the Findings row for HeapAllocator.cpp:197-200), and then exactly the pages of the range cut to whole pages are unmapped; -1 changes nothing |
| MemSystem.MemorySystem.MRemap | src/Emu/Utility/System/Memory/MemorySystem.cpp:163-243 | a zero new size or an old size that is not the allocated size gives -1 and changes nothing; only a caller that allows it sees the area move; in place, growing maps every new byte's page and shrinking unmaps the pages past the new end |
| MemSystem.MemorySystem.GrowInPlace | src/Emu/Utility/System/Memory/MemorySystem.cpp:182-197 | on success every page from the old page-rounded end to the new end is mapped |
| MemSystem.MemorySystem.ShrinkInPlace | src/Emu/Utility/System/Memory/MemorySystem.cpp:198-212 | every page from the new page-rounded end to the old end is unmapped |
| VirtualSys.Extended | src/Emu/Utility/System/VirtualSystem.cpp:131-135 | the table grows to size entries, the old entries kept and the new ones InvalidFD; it never shrinks |
| VirtualSys.AddMapAsWritten | src/Emu/Utility/System/VirtualSystem.cpp:81-92 | as written, a target fd at or beyond the end doubles the table once before the write; a write still past the end is reported as undefined |
| VirtualSys.AddMapPastEndAsWritten | src/Emu/Utility/System/VirtualSystem.cpp:86-89 | as written, adding descriptor 20 to the initial eight-entry table writes past the end of the doubled table |
| VirtualSys.RemoveMapAsWritten | src/Emu/Utility/System/VirtualSystem.cpp:94-106 | as written, only a negative fd is refused before the table is read at that fd; an accepted removal clears exactly that entry |
| VirtualSys.RemoveMapPastEndAsWritten | src/Emu/Utility/System/VirtualSystem.cpp:94-101 | as written, removing descriptor 8 from the eight-entry table passes the guard and reads past the end |
| VirtualSys.FDConv.constructor | src/Emu/Utility/System/VirtualSystem.cpp:50-53 | a new table has eight entries, all InvalidFD |
| VirtualSys.FDConv.TargetToHost | src/Emu/Utility/System/VirtualSystem.cpp:59-68 | a fd inside the table gives its entry; a negative or out-of-table fd gives InvalidFD |
| VirtualSys.FDConv.HostToTarget | src/Emu/Utility/System/VirtualSystem.cpp:70-80 | a negative or unmapped host fd gives InvalidFD; otherwise the lowest target fd mapped to it |
| VirtualSys.FDConv.ExtendFDMap | src/Emu/Utility/System/VirtualSystem.cpp:131-135 | the table becomes the old table extended to size entries, never shrunk |
| VirtualSys.FDConv.AddMap | src/Emu/Utility/System/VirtualSystem.cpp:81-92 | succeeds exactly when both fds are non-negative; the target fd then maps to the host fd and no other target fd changes; a refusal changes nothing |
| VirtualSys.FDConv.RemoveMap | src/Emu/Utility/System/VirtualSystem.cpp:94-106 | succeeds exactly when the fd maps to a host fd; its entry then becomes InvalidFD and nothing else changes |
| VirtualSys.FDConv.GetFirstFreeFD | src/Emu/Utility/System/VirtualSystem.cpp:109-122 | the lowest fd without a host fd; a full table is doubled and its old size returned |
| VirtualSys.RemoveFirstGone | src/Emu/Utility/System/VirtualSystem.cpp:210-220 | removing the first occurrence from a list without duplicates leaves the path absent |
| VirtualSys.RemoveAfterAppend | src/Emu/Utility/System/VirtualSystem.cpp:174-220 | removing a path that was just appended gives back the list before |
| VirtualSys.DelayUnlinker.constructor | src/Emu/Utility/System/VirtualSystem.cpp:140-142 | a new unlinker maps no fd and has no pending path |
| VirtualSys.DelayUnlinker.AddMap | src/Emu/Utility/System/VirtualSystem.cpp:148-156 | a negative fd is refused; otherwise the fd's path is recorded; the pending list is unchanged |
| VirtualSys.DelayUnlinker.RemoveMap | src/Emu/Utility/System/VirtualSystem.cpp:158-166 | a negative fd is refused; otherwise the fd's path becomes empty and the entry stays |
| VirtualSys.DelayUnlinker.GetMapPath | src/Emu/Utility/System/VirtualSystem.cpp:168-172 | the fd's path, with an absent fd inserted with the empty path; an empty path fails |
| VirtualSys.DelayUnlinker.AddUnlinkPath | src/Emu/Utility/System/VirtualSystem.cpp:174-185 | a path is appended exactly when it is not pending yet |
| VirtualSys.DelayUnlinker.IfUnlinkable | src/Emu/Utility/System/VirtualSystem.cpp:187-208 | true exactly when no other fd maps to the fd's path and that path is pending |
| VirtualSys.DelayUnlinker.Unshared | src/Emu/Utility/System/VirtualSystem.cpp:189-198 | the loop finds no other fd with the same path exactly when none exists |
| VirtualSys.DelayUnlinker.Pending | src/Emu/Utility/System/VirtualSystem.cpp:200-207 | the loop finds the path exactly when it is pending |
| VirtualSys.DelayUnlinker.RemoveUnlinkPath | src/Emu/Utility/System/VirtualSystem.cpp:210-220 | succeeds exactly when the path is pending, removes its first occurrence and leaves it no longer pending |
| MemOrderOps.CorrectEndian | src/Sim/Memory/MemOrderManager/MemOrderOperations.cpp:141-160 | a little-endian target keeps the value; otherwise sizes 1, 2, 4 and 8 reverse the low size bytes and every other size fails with "Invalid size." |
| MemOrderOps.CorrectEndianTwice | src/Sim/Memory/MemOrderManager/MemOrderOperations.cpp:141-160 | converting twice gives back the low size bytes of the value |
| MemOrderOps.OverlapMeansCommonByte | src/Sim/Memory/MemOrderManager/MemOrderOperations.cpp:168-173 | IsOverlapped is symmetric and holds exactly when some address lies in both accesses |
| MemOrderOps.InnerMeansContained | src/Sim/Memory/MemOrderManager/MemOrderOperations.cpp:191-198 | a non-empty inner access is inner exactly when each of its addresses lies in the outer access, and then the two overlap |
| MemOrderOps.LoadImage | src/Sim/Memory/MemOrderManager/MemOrderOperations.cpp:89-92 | byte k of the shifted and masked image is store byte off + k for the load's n bytes and zero above |
| MemOrderOps.ReadPreviousAccess | src/Sim/Memory/MemOrderManager/MemOrderOperations.cpp:67-96 | forwarding fails exactly when a big-endian target meets a store or load size other than 1, 2, 4 or 8 |
| MemOrderOps.ForwardedImage | src/Sim/Memory/MemOrderManager/MemOrderOperations.cpp:67-96 | the forwarded value's memory image is the slice of the store's memory image the load covers, byte for byte at the same addresses |
| MemOrderOps.DepositStoreBytes | src/Sim/Memory/MemOrderManager/MemOrderOperations.cpp:107-135 | each byte of the base becomes the store byte at the same address when the store covers it, and keeps its own value otherwise |
| MemOrderOps.MergePartialAccess | src/Sim/Memory/MemOrderManager/MemOrderOperations.cpp:98-138 | with the store converted by its size, the merge fails only for an invalid size on a big-endian target; otherwise each base byte the store covers takes the store's byte at that address and the others are kept |
| MemOrderOps.MergePartialAccessAsWritten | src/Sim/Memory/MemOrderManager/MemOrderOperations.cpp:98-138 | as written the store is converted with its sign flag as the size, so on a big-endian target the merge fails exactly when the flag is not 1 |
| MemOrderOps.UnsignedStoreMergeAsWritten | src/Sim/Memory/MemOrderManager/MemOrderOperations.cpp:102 | on a big-endian target the as-written merge of an unsigned 4-byte store fails with "Invalid size." while the corrected merge succeeds |
| MemOrderOps.AlignMask | src/Sim/Memory/MemOrderManager/MemOrderOperations.cpp:59 | shttl::mask(bits, 64 - bits) is every bit from bit bits up, the complement of umax(bits) |
| MemOrderOps.RoundDown | src/Sim/Memory/MemOrderManager/MemOrderOperations.cpp:182 | masking an address clears its low bits bits and drops less than 2^bits, so it rounds down to the alignment boundary |
| MemOrderOps.BitLength | src/Sim/Memory/MemOrderManager/MemOrderOperations.cpp:54-58 | the halving loop counts the bit length of the alignment: 2^(count-1) <= a < 2^count |
| MemOrderOps.MemOrderOperations.constructor | src/Sim/Memory/MemOrderManager/MemOrderOperations.cpp:42-47 | a new object assumes a big-endian target, alignment 1 and a mask of all ones |
| MemOrderOps.MemOrderOperations.SetAlignment | src/Sim/Memory/MemOrderManager/MemOrderOperations.cpp:49-60 | the alignment is recorded and the mask clears the low floor(log2(a)) bits of an address |
| OpClassCode.TableShape | src/Interface/OpClassCode.cpp:47-82 | the code/name table lists every code from CALL to other once, in ascending order, so each entry's code is its position |
| OpClassCode.NamesDistinct | src/Interface/OpClassCode.cpp:47-82 | no two entries of the table carry the same name |
| OpClassCode.LowerBound | src/Interface/OpClassCode.cpp:95-97 | the position found is the first whose code is not below the key: every earlier code is smaller |
| OpClassCode.LowerBoundIndexed | src/Interface/OpClassCode.cpp:95-97 | on the table, lower_bound lands on a listed code's own entry, before the table for negative codes and past its end for codes above the last |
| OpClassCode.ToString | src/Interface/OpClassCode.cpp:93-105 | a listed code gives its name; any other code gives "(unknown OpClassCode)" |
| OpClassCode.FindName | src/Interface/OpClassCode.cpp:109-112 | the linear search returns the first entry carrying the name, or nothing when no entry does |
| OpClassCode.FromString | src/Interface/OpClassCode.cpp:107-117 | a name is accepted exactly when it is in the table, and then the result is that name's code; any other name is an error |
| OpClassCode.FindNameInTable | src/Interface/OpClassCode.cpp:107-117 | searching the table by name succeeds exactly for listed names and lands on the entry whose code is that name's position |
| OpClassCode.FromToString | src/Interface/OpClassCode.cpp:93-117 | FromString(ToString(c)) gives back c for every listed code |
| OpClassCode.ToFromString | src/Interface/OpClassCode.cpp:93-117 | ToString(FromString(s)) gives back s for every accepted name |
| OpClassCode.BranchClasses | src/Interface/OpClassCode.cpp:123-178 | exactly the nine codes CALL, CALL_JUMP, RET, RETC, iBC, iBU, iJUMP, fBC and syscall_branch are branches; calls and indirect jumps are unconditional, returns are branches and not calls, and no branch is both conditional and unconditional |
| OpClassCode.ClassPartition | src/Interface/OpClassCode.cpp:182-242 | loads and stores are integer or floating classes and never branches; no code is both integer and floating, nor both load and store; UNDEF counts as a system call but not as a branch |
| ParamXmlPath.NatToString | src/Env/Param/ParamXMLPath.cpp:193 | the digits %d writes for a non-negative index are a non-empty run of decimal digits |
| ParamXmlPath.NextToken | src/Env/Param/ParamXMLPath.cpp:74-85 | the next token exists exactly when cur is not the last; otherwise the path is invalid |
| ParamXmlPath.SignedNode | src/Env/Param/ParamXMLPath.cpp:99-114 | an attribute or count node uses at least one token and no more than there are |
| ParamXmlPath.ArrayNode | src/Env/Param/ParamXMLPath.cpp:121-133 | an array node uses at least one token and no more than there are |
| ParamXmlPath.FunctionNode | src/Env/Param/ParamXMLPath.cpp:134-163 | a text or count node uses at least one token and no more than there are |
| ParamXmlPath.ParseNode | src/Env/Param/ParamXMLPath.cpp:96-176 | a parsed node uses at least one token and no more than there are |
| ParamXmlPath.ParamXmlPath.constructor | src/Env/Param/ParamXMLPath.cpp:45-47 | a new path is empty |
| ParamXmlPath.ParamXmlPath.Parse | src/Env/Param/ParamXMLPath.cpp:89-184 | the nodes parsed from the tokens are appended to the path; the call fails exactly when a node is malformed, keeping the nodes before it |
| ParamXmlPath.ParamXmlPath.Assign | src/Env/Param/ParamXMLPath.cpp:255-260 | assigning a string makes the path exactly the nodes parsed from it |
| ParamXmlPath.ParamXmlPath.ToString | src/Env/Param/ParamXMLPath.cpp:186-212 | the text is the path's text: "/" and each node's text, in order |
| ParamXmlPath.ParamXmlPath.Append | src/Env/Param/ParamXMLPath.cpp:214-220 | appending a path pushes its nodes, in order, after the existing ones |
| ParamXmlPath.ParamXmlPath.AddAttribute | src/Env/Param/ParamXMLPath.cpp:289-295 | AddAttribute pushes one attribute node with the given name |
| ParamXmlPath.ParamXmlPath.AddArray | src/Env/Param/ParamXMLPath.cpp:297-302 | AddArray appends the parsed nodes and turns the last node into an array node with the given index |
| ParamXmlPath.ParamXmlPath.SetArray | src/Env/Param/ParamXMLPath.cpp:304-308 | SetArray becomes the base path followed by the parsed nodes, the last one an array node with the given index |
| ParamXmlPath.ParamXmlPath.Back | src/Env/Param/ParamXMLPath.cpp:269-277 | the last node is returned exactly when the path is not empty |
| ParamXmlPath.ParamXmlPath.PopBack | src/Env/Param/ParamXMLPath.cpp:314-318 | pop_back drops the last node and leaves an empty path as it is |
| ParamXmlPath.DigitsOfNat | src/Env/Param/ParamXMLPath.cpp:193 | the decimal digits written for a number read back as that number |
| ParamXmlPath.IntRoundTrip | src/Env/Param/ParamXMLPath.cpp:127 | lexical_cast<int> reads back what %d writes, for every int |
| ParamXmlPath.SignedNodes | src/Env/Param/ParamXMLPath.cpp:99-114 | "@name" is an attribute node and "#name" a count node, each using two tokens; a sign with nothing after it throws |
| ParamXmlPath.ArrayNodes | src/Env/Param/ParamXMLPath.cpp:121-133 | name "[" n "]" is an array node with index n; a missing or wrong closing token, or a missing or non-numeric index, throws |
| ParamXmlPath.FunctionNodes | src/Env/Param/ParamXMLPath.cpp:134-163 | "text" "(" ")" is a text node and "count" "(" x ")" a count node on x; a wrong closing token, or any other name before "(", throws |
| ParamXmlPath.PlainNodes | src/Env/Param/ParamXMLPath.cpp:168-173 | a name followed by neither "[" nor "(" is a plain node of one token |
| ParamXmlPath.PathStringAppend | src/Env/Param/ParamXMLPath.cpp:186-220 | the text of a concatenation is the concatenation of the texts, so appending a path appends its text |
| ParamXmlPath.NodeTextIsTokens | src/Env/Param/ParamXMLPath.cpp:186-212 | the text ToString writes for a node is exactly the tokens Parse reads for it, run together |
| ParamXmlPath.ParseOneNode | src/Env/Param/ParamXMLPath.cpp:96-181 | parsing the tokens of one well-formed node, followed by tokens that open a node, gives back that node and uses exactly its tokens |
| ParamXmlPath.ParseRoundTrip | src/Env/Param/ParamXMLPath.cpp:89-212 | parsing the tokens of a path of well-formed nodes gives back exactly that path, without error |
| StreamPrefetcher.InRawWindow | src/Sim/Memory/Prefetcher/StreamPrefetcher.cpp:132-140 | an ascending window holds exactly the addresses in [start, start + size) and a descending one those in [start - size, start); a window that would wrap past either end of the u64 range holds nothing |
| StreamPrefetcher.MaskLineOffset | src/Sim/Memory/Prefetcher/StreamPrefetcher.cpp:148-149 | the masked address is the start of the line holding the address: a multiple of the line size at most one line below it |
| StreamPrefetcher.InWindow | src/Sim/Memory/Prefetcher/StreamPrefetcher.cpp:143-151 | an address of another process is never in the window |
| StreamPrefetcher.PrefetchTargets | src/Sim/Memory/Prefetcher/StreamPrefetcher.cpp:155-184 | Prefetch issues exactly degree addresses |
| StreamPrefetcher.FirstMonitor | src/Sim/Memory/Prefetcher/StreamPrefetcher.cpp:189-223 | the entry the monitor scan selects is the first monitored stream whose window holds the miss line, and none is selected when no such stream exists |
| StreamPrefetcher.FirstTrain | src/Sim/Memory/Prefetcher/StreamPrefetcher.cpp:227-300 | the entry the training scan stops at is the first training stream whose training window holds the miss line, and none when no such stream exists |
| StreamPrefetcher.PassedUpTo | src/Sim/Memory/Prefetcher/StreamPrefetcher.cpp:230-296 | the training scan keeps the number of streams |
| StreamPrefetcher.Prefetcher.constructor | src/Sim/Memory/Prefetcher/StreamPrefetcher.cpp:75-126 | a new prefetcher has a table of reset entries, no touches, no issued prefetches and zero statistics |
| StreamPrefetcher.Prefetcher.Prefetch | src/Sim/Memory/Prefetcher/StreamPrefetcher.cpp:155-184 | the loop issues the window end of the stream and moves the stream one line on in its direction, degree times, then counts one prefetch |
| StreamPrefetcher.Prefetcher.UpdateMonitorStream | src/Sim/Memory/Prefetcher/StreamPrefetcher.cpp:189-223 | the table, touches, issued prefetches and statistics become those of the monitor step, and the result says whether a stream took the access |
| StreamPrefetcher.Prefetcher.UpdateTrainingStream | src/Sim/Memory/Prefetcher/StreamPrefetcher.cpp:227-300 | the table, touches and statistics become those of the training step, and the result says whether a stream took the access |
| StreamPrefetcher.Prefetcher.AllocateStream | src/Sim/Memory/Prefetcher/StreamPrefetcher.cpp:304-324 | the entry the replacement policy names becomes a fresh training stream at the miss line and is touched |
| StreamPrefetcher.Prefetcher.OnCacheAccess | src/Sim/Memory/Prefetcher/StreamPrefetcher.cpp:328-362 | the new state is the access step of the whole prefetcher: nothing when disabled, monitor, and on a miss train and then allocate when no stream took the access |
| StreamPrefetcher.TrainOne | src/Sim/Memory/Prefetcher/StreamPrefetcher.cpp:238-296 | one training stream takes the miss exactly when its training window holds the miss line; the stream becomes the trained stream, and the scan ends there exactly when the count reaches the threshold |
| StreamPrefetcher.TargetAfterSteps | src/Sim/Memory/Prefetcher/StreamPrefetcher.cpp:155-184 | the k-th prefetch target is the window end of the stream's start moved k lines on |
| StreamPrefetcher.WindowsDisjoint | src/Sim/Memory/Prefetcher/StreamPrefetcher.cpp:132-140 | the ascending and descending windows of a start never share an address, so the training direction is well defined |
| StreamPrefetcher.TrainingTransitions | src/Sim/Memory/Prefetcher/StreamPrefetcher.cpp:265-288 | the first access sets the direction and counts 1; an access in the same direction counts one more; an access in the other direction resets the count and flips the direction; the stream becomes monitored when the count reaches the threshold |
| StreamPrefetcher.TrainingStepEffect | src/Sim/Memory/Prefetcher/StreamPrefetcher.cpp:227-300 | the training scan takes the access exactly when some training stream accepts it, and never changes a stream that is not training |
| StreamPrefetcher.MonitorStepEffect | src/Sim/Memory/Prefetcher/StreamPrefetcher.cpp:189-223 | the monitor scan takes the access exactly when some monitored stream's window holds the line, keeps every stream's status and leaves every other stream unchanged |
| StreamPrefetcher.TrainHitAfterMonitor | src/Sim/Memory/Prefetcher/StreamPrefetcher.cpp:328-362 | the monitor scan changes no training stream, so the training scan sees the same candidates before and after it |
| StreamPrefetcher.HitOnlyMonitors | src/Sim/Memory/Prefetcher/StreamPrefetcher.cpp:328-362 | a cache hit only monitors: no training stream or invalid entry changes, and nothing is trained or allocated |
| StreamPrefetcher.MissAllocatesIffUnmatched | src/Sim/Memory/Prefetcher/StreamPrefetcher.cpp:328-362 | on a miss a stream is allocated exactly when neither a monitored stream nor a training stream took the access |
| StreamPrefetcher.DisabledIgnores | src/Sim/Memory/Prefetcher/StreamPrefetcher.cpp:328-335 | a disabled prefetcher changes nothing |
| StreamPrefetcher.NewStreamShape | src/Sim/Memory/Prefetcher/StreamPrefetcher.cpp:304-324 | a new stream is training with count 0, and its first and current addresses are both the start of the miss line |
| GenericOp.IntAdd | src/Emu/Utility/GenericOperation.h:499-505 | the sum in a w-bit type is the exact sum when it fits and the sum less 2^w otherwise |
| GenericOp.IntSub | src/Emu/Utility/GenericOperation.h:508-514 | the difference in a w-bit type is the exact difference when it is not negative and the difference plus 2^w otherwise |
| GenericOp.IntMul | src/Emu/Utility/GenericOperation.h:517-523 | the product modulo 2^w, which is the exact product when it fits |
| GenericOp.IntNeg | src/Emu/Utility/GenericOperation.h:576-584 | the negation is the w-bit word that added back to the value gives 0 |
| GenericOp.IntDiv | src/Emu/Utility/GenericOperation.h:526-542 | a zero divisor gives 0; otherwise the quotient q satisfies q*r <= l < q*r + r |
| GenericOp.TruncDiv | src/Emu/Utility/GenericOperation.h:540 | C++ division truncates toward zero: the magnitude is the floor of the magnitudes' quotient and a non-zero quotient is negative exactly when the signs differ |
| GenericOp.IntDivSigned | src/Emu/Utility/GenericOperation.h:526-542 | signed division is a w-bit word and a zero divisor gives 0 |
| GenericOp.IntDivSignedExact | src/Emu/Utility/GenericOperation.h:540 | away from the overflowing case, signed division reads back as the truncated quotient of the signed operands |
| GenericOp.CarryOfAdd | src/Emu/Utility/GenericOperation.h:586-598 | the carry is 1 exactly when lhs + rhs does not fit in w bits |
| GenericOp.AddWithCarryOutExact | src/Emu/Utility/GenericOperation.h:586-598 | the wrapped sum plus 2^w times the carry is the exact sum |
| GenericOp.CarryOfAddWithCarryAsWritten | src/Emu/Utility/GenericOperation.h:602-617 | as written, a carry of 1 is only reported when lhs + rhs + carry does not fit |
| GenericOp.CarryOfAddWithCarryMissed | src/Emu/Utility/GenericOperation.h:612 | as written the carry is missed on all ones plus zero plus an incoming carry, whose sum does not fit |
| GenericOp.CarryOfAddWithCarry | src/Emu/Utility/GenericOperation.h:602-617 | the carry is 1 exactly when lhs + rhs + carry does not fit in w bits |
| GenericOp.BorrowOfSub | src/Emu/Utility/GenericOperation.h:621-633 | the borrow is 0 or 1 |
| GenericOp.SubWithBorrowOutExact | src/Emu/Utility/GenericOperation.h:621-633 | the wrapped difference is the exact difference plus 2^w times the borrow, so the borrow is 1 exactly when lhs < rhs |
| GenericOp.BorrowOfSubWithBorrowAsWritten | src/Emu/Utility/GenericOperation.h:637-652 | as written, every true borrow lhs < rhs + borrow is reported |
| GenericOp.BorrowOfSubWithBorrowSpurious | src/Emu/Utility/GenericOperation.h:647 | as written a borrow is reported for all ones minus all ones with no incoming borrow, which does not borrow |
| GenericOp.BorrowOfSubWithBorrow | src/Emu/Utility/GenericOperation.h:637-652 | the borrow is 1 exactly when lhs < rhs + borrow |
| GenericOp.ShiftCount | src/Emu/Utility/GenericOperation.h:689 | the masked count is below 2^k for a k-bit count mask |
| GenericOp.LShiftL | src/Emu/Utility/GenericOperation.h:715-727 | the value times 2^count modulo 2^w for a masked count below w, and 0 when it is at least w |
| GenericOp.LShiftR | src/Emu/Utility/GenericOperation.h:700-712 | the value divided by 2^count for a masked count below w (so its top count bits are clear), and 0 when it is at least w |
| GenericOp.ShiftLeftThenRight | src/Emu/Utility/GenericOperation.h:700-727 | a left shift followed by a right shift by the same count keeps exactly the low w - count bits |
| GenericOp.AShiftR | src/Emu/Utility/GenericOperation.h:684-696 | the result is a w-bit word and, as written, 0 when the masked count is at least w, whatever the sign |
| GenericOp.AShiftRSigned | src/Emu/Utility/GenericOperation.h:684-696 | below the width the result reads back as the floor quotient of the signed value by 2^count and keeps its sign |
| GenericOp.AShiftRNonNegative | src/Emu/Utility/GenericOperation.h:684-712 | on a word whose sign bit is clear, the arithmetic and the logical right shift agree |
| GenericOp.AShiftRWideNegative | src/Emu/Utility/GenericOperation.h:691-692 | a negative word shifted by a masked count of at least the width gives 0 as written, where a sign-filling shift gives -1 |
| GenericOp.AShiftRSrawExample | src/Emu/Utility/GenericOperation.h:691-692 | a 32-bit shift with a 6-bit count mask reaches that case: 0x80000000 shifted by 32 gives 0 rather than all ones |
| GenericOp.AShiftRSignFill | src/Emu/Utility/GenericOperation.h:684-696 | the sign-filling shift reads back as the floor quotient of the signed value for every count |
| GenericOp.RotateCount | src/Emu/Utility/GenericOperation.h:737 | the count masked with width - 1 is below the width |
| GenericOp.RotL | src/Emu/Utility/GenericOperation.h:731-744 | a w-bit word: the low w - n bits moved up by n and the high n bits brought round to the bottom |
| GenericOp.RotR | src/Emu/Utility/GenericOperation.h:747-760 | a w-bit word: the high w - n bits moved down by n and the low n bits brought round to the top |
| GenericOp.RotLRInverse | src/Emu/Utility/GenericOperation.h:731-760 | rotating right undoes rotating left by the same amount |
| GenericOp.RotateL | src/Emu/Utility/GenericOperation.h:731-744 | for a non-zero masked count n the value shifted left by n within the type's width plus its top n bits moved to the bottom; a count of 0 returns the value |
| GenericOp.RotateR | src/Emu/Utility/GenericOperation.h:747-760 | for a non-zero masked count n the value shifted right by n plus its low n bits moved to the top of the type's width; a count of 0 returns the value |
| GenericOp.RotateFromShifts | src/Emu/Utility/GenericOperation.h:731-760 | for a non-zero count, RotateL is the left shift by the count ORed with the right shift by the width less the count, and RotateR the mirror image, the two parts sharing no bit |
| GenericOp.RotateRoundTrip | src/Emu/Utility/GenericOperation.h:731-760 | RotateR undoes RotateL for every value and count |
| GenericOp.FPDoubleCopySign | src/Emu/Utility/GenericOperation.h:960-970 | the sign bit comes from lhs and the other 63 bits from rhs |
| GenericOp.FPDoubleCopySignNeg | src/Emu/Utility/GenericOperation.h:972-983 | the inverted sign bit of lhs and the other 63 bits from rhs |
| GenericOp.FPDoubleCopySignExp | src/Emu/Utility/GenericOperation.h:985-996 | the sign and exponent bits come from lhs and the 52 fraction bits from rhs |
| GenericOp.CopySignIdentities | src/Emu/Utility/GenericOperation.h:960-983 | copying a value's sign onto itself changes nothing, and the negated copy applied twice equals the plain copy |
| GenericOp.NextPC | src/Emu/Utility/GenericOperation.h:61-64 | the next pc is a 64-bit word with the alignment of pc |
| GenericOp.RelTarget | src/Emu/Utility/GenericOperation.h:1153-1159 | the relative target is a 64-bit word with the alignment of pc, since next_pc + 4*disp keeps pc modulo 4 |
| GenericOp.AbsTarget | src/Emu/Utility/GenericOperation.h:1165 | the absolute target is 4-aligned and is the address with its low two bits cleared |
| GenericOp.BranchState.constructor | src/Emu/Utility/GenericOperation.h:56-66 | a new state is at pc0, not taken, with no target and no destination value |
| GenericOp.BranchState.BranchRelUncond | src/Emu/Utility/GenericOperation.h:1153-1159 | the branch is taken, to the relative target; pc and the destination are unchanged |
| GenericOp.BranchState.BranchAbsUncond | src/Emu/Utility/GenericOperation.h:1162-1169 | the branch is taken, to the absolute target; pc and the destination are unchanged |
| GenericOp.BranchState.BranchRelCond | src/Emu/Utility/GenericOperation.h:1172-1180 | the relative target is recorded whether or not the branch is taken, and only a true condition sets the taken flag |
| GenericOp.BranchState.BranchAbsCond | src/Emu/Utility/GenericOperation.h:1183-1192 | the absolute target is recorded whether or not the branch is taken, and only a true condition sets the taken flag |
| GenericOp.BranchState.CallRelUncond | src/Emu/Utility/GenericOperation.h:1196-1201 | the call is taken to the relative target and the destination receives the next pc |
| GenericOp.BranchState.CallAbsUncond | src/Emu/Utility/GenericOperation.h:1204-1210 | the call is taken to the absolute target and the destination receives the next pc |
| AlphaOps.ByteOffset | src/Emu/AlphaLinux/AlphaOperation.h:220 | the byte offset taken from rhs is below 8 |
| AlphaOps.AlphaAddr | src/Emu/AlphaLinux/AlphaOperation.h:159-165 | base plus the sign-extended displacement, wrapped to 64 bits, is the same word as the plain sum base + displacement modulo 2^64; a zero displacement gives the base itself |
| AlphaOps.SignedDisplacementWraps | src/Emu/AlphaLinux/AlphaOperation.h:159-165 | adding the 64-bit displacement read as a signed number and wrapping gives the same word as the unsigned sum modulo 2^64 |
| AlphaOps.AlphaAddrUnaligned | src/Emu/AlphaLinux/AlphaOperation.h:169-175 | the address is 8-aligned and is the quadword holding the effective address |
| AlphaOps.Sext | src/Emu/AlphaLinux/AlphaOperation.h:388-406 | the result keeps the low bits and reads back, signed, as the signed value of those bits |
| AlphaOps.SextLowBits | src/Emu/AlphaLinux/AlphaOperation.h:388-406 | wrapping the signed reading of a field into 64 bits keeps the field |
| AlphaOps.ZapNotBitMask | src/Emu/AlphaLinux/AlphaOperation.h:349-360 | the loop's result is the byte mask whose byte i is 0xFF exactly when mask bit i is clear |
| AlphaOps.ZapSplit | src/Emu/AlphaLinux/AlphaOperation.h:363-385 | ZAP and ZAPNOT with the same mask keep complementary bytes of lhs, ZAPNOT exactly those whose mask bit is set |
| AlphaOps.CmpBge | src/Emu/AlphaLinux/AlphaOperation.h:191-212 | the loop's result is the 8-bit value whose bits compare the bytes |
| AlphaOps.CmpBgeBit | src/Emu/AlphaLinux/AlphaOperation.h:191-212 | bit i of the CMPBGE result is set exactly when byte i of lhs is at least byte i of rhs, unsigned |
| AlphaOps.StoreLowQuad | src/Emu/AlphaLinux/AlphaOperation.h:255-322 | MSKxL clears exactly the bytes INSxL fills, so OR-ing them puts the field into the low quadword at the byte offset |
| AlphaOps.StoreHighQuad | src/Emu/AlphaLinux/AlphaOperation.h:273-347 | MSKxH clears exactly the bytes INSxH fills with the part of the field that spills into the high quadword |
| AlphaOps.ExtractInserted | src/Emu/AlphaLinux/AlphaOperation.h:215-270 | extracting at an offset what was inserted there gives back the field's bytes that fit in the quadword |
| AlphaOps.LoadAcrossQuads | src/Emu/AlphaLinux/AlphaOperation.h:215-252 | for a non-zero offset, EXTxL and EXTxH take disjoint bytes whose sum is the field read across the two quadwords |
| AlphaOps.ExtxhAligned | src/Emu/AlphaLinux/AlphaOperation.h:232-252 | at offset 0 EXTxH equals EXTxL on the same quadword |
| AlphaOps.PackUnpack | src/Emu/AlphaLinux/AlphaOperation.h:444-488 | packing undoes unpacking for long words and for words |
| AlphaOps.UnpackPack | src/Emu/AlphaLinux/AlphaOperation.h:455-488 | unpacking undoes packing when every lane already fits in its low byte |
| AlphaOps.VectorMinMax | src/Emu/AlphaLinux/AlphaOperation.h:490-528 | the lane loop's result is, lane by lane, the chosen lane of the two operands and zero elsewhere |
| AlphaOps.LaneSelectValue | src/Emu/AlphaLinux/AlphaOperation.h:490-528 | each lane of the result is the minimum, or maximum, of the two lanes read signed or unsigned |
| AlphaOps.LaneContributionAsWritten | src/Emu/AlphaLinux/AlphaOperation.h:501-503 | as written, lane i's minimum or maximum is promoted to int, shifted left by 8·i·size within 32 bits and OR-ed into the 64-bit result sign-extended; the result is a 64-bit word |
| AlphaOps.LaneSpills | src/Emu/AlphaLinux/AlphaOperation.h:490-528 | for every lane whose shift stays below 32, a negative lane value (signed forms) lands at or above the next lane's first bit, so it overwrites the lanes above it |
| AlphaOps.SpillBound | src/Emu/AlphaLinux/AlphaOperation.h:503 | a negative value of at most h+1 bits shifted by s < 32 - h keeps its int value and, sign-extended to 64 bits, is at least 2^64 - 2^31 |
| AlphaOps.Lane3OverflowExample | src/Emu/AlphaLinux/AlphaOperation.h:490-508 | MINUB8 with byte 3 of both operands 0x80: the shift into bit 31 makes the int negative and, as written, fills the upper 32 bits, while the intended result keeps only byte 3 = 0x80 |
| AlphaOps.Lane0SpillExample | src/Emu/AlphaLinux/AlphaOperation.h:490-508 | MINSB8 with lane 0 of lhs 0xFF and everything else 0: the lane minimum -1 fills all 64 bits as written, while the intended result is 0xFF |
| AlphaOps.MinSb8Lane0 | src/Emu/AlphaLinux/AlphaOperation.h:490-508 | the intended MINSB8 of those operands has lane 0 = 0xFF and every other lane 0 |
| AlphaOps.SumAbsDiff | src/Emu/AlphaLinux/AlphaOperation.h:530-547 | the sum of the absolute byte differences of n bytes is at most 255 n |
| AlphaOps.PixelError | src/Emu/AlphaLinux/AlphaOperation.h:530-547 | the loop computes the sum of the absolute differences of the eight bytes |
| AlphaOps.SumAbsDiffProps | src/Emu/AlphaLinux/AlphaOperation.h:530-547 | the pixel error is symmetric and is zero exactly when the bytes are equal |
| Ppc64Ops.CalcFlag | src/Emu/PPC64Linux/PPC64Operation.h:53-67 | the CR field is 0x2, 0x4 or 0x8, and it is 0x2 exactly on equal, 0x4 exactly on greater and 0x8 exactly on less |
| Ppc64Ops.CalcFlagSwap | src/Emu/PPC64Linux/PPC64Operation.h:53-67 | swapping the operands swaps greater and less and keeps equal |
| Ppc64Ops.Compare | src/Emu/PPC64Linux/PPC64Operation.h:251-258 | the CR field is exactly one of 2, 4, 8: 2 when the operands are equal, 4 when lhs is greater and 8 when it is less, read two's-complement for the signed forms and unsigned otherwise |
| Ppc64Ops.CompareSignedUnsigned | src/Emu/PPC64Linux/PPC64Operation.h:251-258 | signed and unsigned compares agree when the signs agree and swap greater and less when only one operand is negative |
| Ppc64Ops.GenMask | src/Emu/PPC64Linux/PPC64Operation.h:90-103 | the mask has the register's width |
| Ppc64Ops.GenMaskBits | src/Emu/PPC64Linux/PPC64Operation.h:90-103 | MSB-0 bit k of the mask is set exactly when k lies in MB..ME, wrapping around when MB > ME |
| Ppc64Ops.GenMaskFull | src/Emu/PPC64Linux/PPC64Operation.h:90-103 | with MB = ME + 1 the wrapped mask has every bit set |
| Ppc64Ops.Mask | src/Emu/PPC64Linux/PPC64Operation.h:217-228 | the rotate-and-mask result has the type's width |
| Ppc64Ops.MaskBits | src/Emu/PPC64Linux/PPC64Operation.h:217-228 | the result keeps MSB-0 bit k of the source exactly when k lies in the mask range (MB and ME taken modulo the width) and clears every other bit |
| Ppc64Ops.MaskInsert | src/Emu/PPC64Linux/PPC64Operation.h:231-243 | the rotate-and-insert result has the type's width |
| Ppc64Ops.MaskInsertBits | src/Emu/PPC64Linux/PPC64Operation.h:231-243 | each bit comes from the second source inside the mask range and from the first source outside it |
| Ppc64Ops.MaskInsertAgreesWithMask | src/Emu/PPC64Linux/PPC64Operation.h:217-243 | inserting under a mask is the masked second source OR-ed with the first source under the complemented mask |
| Ppc64Ops.Cntlz | src/Emu/PPC64Linux/PPC64Operation.h:198-214 | the loop's count plus the number of significant bits of the word is the width |
| Ppc64Ops.CntlzMeaning | src/Emu/PPC64Linux/PPC64Operation.h:198-214 | the count is the width exactly for zero, and otherwise the word's top set bit is MSB-0 bit count |
| Ppc64Ops.CRBit | src/Emu/PPC64Linux/PPC64Operation.h:143-151 | a CR bit reads as 0 or 1 |
| Ppc64Ops.CalcFlagCRBits | src/Emu/PPC64Linux/PPC64Operation.h:53-67 | the CR field of a comparison has LT, GT and EQ in MSB-0 bits 0, 1 and 2 exactly on less, greater and equal, and SO clear |
| Ppc64Ops.SetCRBit | src/Emu/PPC64Linux/PPC64Operation.h:512-525 | setting a CR bit keeps the field's length |
| Ppc64Ops.SetCRBitThenRead | src/Emu/PPC64Linux/PPC64Operation.h:512-525 | the bit written reads back as the value written; every other bit keeps its value |
| Ppc64Ops.CRAndCAsWrittenIsOrC | src/Emu/PPC64Linux/PPC64Operation.h:403-418 | as written, crandc computes the same as crorc, and with both CR bits clear it yields 1 where a AND NOT b is 0 |
| Ppc64Ops.CRLogic | src/Emu/PPC64Linux/PPC64Operation.h:355-418 | every CR logical operation other than crandc computes what the source computes |
| Ppc64Ops.CRLogicDuals | src/Emu/PPC64Linux/PPC64Operation.h:355-418 | nand, nor and eqv are the complements of and, or and xor; andc and orc complement their second operand; andc is the De Morgan dual of orc, which the as-written pair is not |
| Ppc64Ops.CRLogicalOp | src/Emu/PPC64Linux/PPC64Operation.h:355-418 | the destination's bit i is the operation applied to the two source CR bits, and every other bit of the field is kept |
| Ppc64Ops.CarryOfAShiftR | src/Emu/PPC64Linux/PPC64Operation.h:425-440 | the carry of an arithmetic right shift is 0 or 1 |
| Ppc64Ops.CarryOfAShiftRMeaning | src/Emu/PPC64Linux/PPC64Operation.h:425-440 | the carry is set exactly when the value is negative and not a multiple of 2^n, the shift count being masked |
| Ppc64Ops.AdjustFPSCR | src/Emu/PPC64Linux/PPC64Operation.h:106-116 | the adjusted FPSCR is a 64-bit word |
| Ppc64Ops.AdjustFPSCRSummary | src/Emu/PPC64Linux/PPC64Operation.h:106-116 | FEX is set exactly when an enabled exception is pending, VX exactly when one of the invalid-operation sticky bits is set |
| Ppc64Ops.AdjustFPSCRKeeps | src/Emu/PPC64Linux/PPC64Operation.h:106-116 | the upper word is cleared and bits 0..28 and 31 of the low word are kept |
| Ppc64Ops.AdjustFPSCRIdempotent | src/Emu/PPC64Linux/PPC64Operation.h:106-116 | adjusting twice is adjusting once |
| Ppc64Ops.MTFSFI | src/Emu/PPC64Linux/PPC64Operation.h:470-483 | the result is a 64-bit word |
| Ppc64Ops.MTFSFINibble | src/Emu/PPC64Linux/PPC64Operation.h:470-483 | only the selected field changes, and it becomes the four-bit immediate |
| Ppc64Ops.MTFSFMask | src/Emu/PPC64Linux/PPC64Operation.h:492-499 | the loop builds the mask of the bits of the fields the field mask selects |
| Ppc64Ops.MTFSFAsWritten | src/Emu/PPC64Linux/PPC64Operation.h:486-504 | the as-written result is a 64-bit word |
| Ppc64Ops.MTFSFAsWrittenLeaks | src/Emu/PPC64Linux/PPC64Operation.h:486-504 | with no field selected and source bit 0 set, the as-written result sets bit 0 of a clear FPSCR, which the intended mtfsf leaves clear |
| Ppc64Ops.MTFSF | src/Emu/PPC64Linux/PPC64Operation.h:486-504 | the result is a 64-bit word |
| Ppc64Ops.MTFSFFields | src/Emu/PPC64Linux/PPC64Operation.h:486-504 | each bit comes from the source exactly when its field is selected and from the old FPSCR otherwise; with all eight fields selected the as-written and intended results agree |
| Riscv64Ops.Div | src/Emu/RISCV64Linux/RISCV64Operation.h:434-448 | the signed quotient is a register word |
| Riscv64Ops.Rem | src/Emu/RISCV64Linux/RISCV64Operation.h:451-465 | the signed remainder is a register word |
| Riscv64Ops.DivisionEdgeCases | src/Emu/RISCV64Linux/RISCV64Operation.h:434-493 | division by zero gives -1 (all ones) and the dividend as remainder, signed and unsigned; the most negative value divided by -1 gives itself with remainder 0 |
| Riscv64Ops.DivRemExact | src/Emu/RISCV64Linux/RISCV64Operation.h:434-465 | away from a zero divisor and the overflow, quotient and remainder read back signed as the quotient truncated toward zero and its remainder |
| Riscv64Ops.DivRemIdentity | src/Emu/RISCV64Linux/RISCV64Operation.h:434-465 | dividend = divisor * quotient + remainder holds in register width for every input, including the zero divisor and the overflow |
| Riscv64Ops.RemSign | src/Emu/RISCV64Linux/RISCV64Operation.h:451-465 | a non-zero remainder has the sign of the dividend and is smaller in magnitude than the divisor |
| Riscv64Ops.Divu | src/Emu/RISCV64Linux/RISCV64Operation.h:468-479 | the unsigned quotient is a register word |
| Riscv64Ops.Remu | src/Emu/RISCV64Linux/RISCV64Operation.h:482-493 | the unsigned remainder is a register word |
| Riscv64Ops.DivuRemuIdentity | src/Emu/RISCV64Linux/RISCV64Operation.h:468-493 | dividend = divisor * quotient + remainder for the unsigned forms in register width, and exactly with remainder below the divisor when the divisor is non-zero |
| Riscv64Ops.SextWord | src/Emu/RISCV64Linux/RISCV64Operation.h:496-510 | a 32-bit result sign-extended into a 64-bit register keeps the 32 low bits |
| Riscv64Ops.DivW | src/Emu/RISCV64Linux/RISCV64Operation.h:496-510 | the result is a 64-bit register word |
| Riscv64Ops.RemW | src/Emu/RISCV64Linux/RISCV64Operation.h:513-527 | the result is a 64-bit register word |
| Riscv64Ops.DivuW | src/Emu/RISCV64Linux/RISCV64Operation.h:530-541 | the result is a 64-bit register word whose low word, for a non-zero low divisor word, is the unsigned quotient of the low words |
| Riscv64Ops.RemuW | src/Emu/RISCV64Linux/RISCV64Operation.h:544-555 | the result is a 64-bit register word whose low word, for a non-zero low divisor word, is the unsigned remainder of the low words |
| Riscv64Ops.WUnsignedDivision | src/Emu/RISCV64Linux/RISCV64Operation.h:530-555 | for a non-zero low divisor word, low dividend = divisor × DIVUW's low word + REMUW's low word, with that remainder below the divisor |
| Riscv64Ops.WUnsignedSextend | src/Emu/RISCV64Linux/RISCV64Operation.h:530-555 | DIVUW and REMUW write their 32-bit result sign-extended: the register read signed equals its low word read signed |
| Riscv64Ops.WSigned | src/Emu/RISCV64Linux/RISCV64Operation.h:496-527 | the 64-bit register of DIVW and REMW reads, signed, as the signed 32-bit quotient or remainder of the low words |
| Riscv64Ops.WZeroDivisor | src/Emu/RISCV64Linux/RISCV64Operation.h:496-555 | a zero low divisor word gives all ones for both W quotients and the sign-extended low dividend word for both W remainders |
| Riscv64Ops.WLowWordsOnly | src/Emu/RISCV64Linux/RISCV64Operation.h:496-555 | the W forms ignore the upper 32 bits of their operands |
| Riscv64Ops.SextSigned | src/Emu/RISCV64Linux/RISCV64Operation.h:496-510 | sign extension into 64 bits keeps the signed 32-bit value |
| Riscv64Ops.SetLessThan | src/Emu/RISCV64Linux/RISCV64Operation.h:127-138 | SLT and SLTU write 0 or 1 |
| Riscv64Ops.SetLessThanOrder | src/Emu/RISCV64Linux/RISCV64Operation.h:127-138 | less-than is irreflexive and asymmetric, exactly one of two distinct operands is less than the other, and signed and unsigned agree when the signs agree |
| Riscv64Ops.AddDisp | src/Emu/RISCV64Linux/RISCV64Operation.h:422-428 | base plus signed displacement wraps to a register word |
| Riscv64Ops.AddDispInverse | src/Emu/RISCV64Linux/RISCV64Operation.h:422-428 | adding a displacement and then its negation returns to the base |
| Riscv64Ops.JalrTarget | src/Emu/RISCV32Linux/RISCV32Operation.h:191-201 | the target is even and is the sum of base and displacement with at most bit 0 cleared |
| Riscv64Ops.JalrTargetAsWritten | src/Emu/RISCV64Linux/RISCV64Operation.h:377-381 | the as-written target is a 64-bit word |
| Riscv64Ops.JalrOddTarget | src/Emu/RISCV64Linux/RISCV64Operation.h:377-381 | JALR from base 0x1001 with offset 0 jumps to 0x1001 as written, where the cleared target is 0x1000 |
| Riscv64Ops.JalrTargetsAgree | src/Emu/RISCV64Linux/RISCV64Operation.h:377-381 | the as-written and intended targets agree exactly when the sum is even |
| Riscv64Ops.BranchRelUncond | src/Emu/RISCV64Linux/RISCV64Operation.h:384-388 | the branch is taken to pc plus displacement; pc and destination are unchanged |
| Riscv64Ops.BranchRelCond | src/Emu/RISCV64Linux/RISCV64Operation.h:391-399 | the taken pc is pc plus displacement when the condition holds and pc + 4 otherwise; the branch is marked taken only when the condition holds |
| Riscv64Ops.CallRelUncond | src/Emu/RISCV64Linux/RISCV64Operation.h:403-408 | JAL writes pc + 4 to the destination and branches to pc plus displacement |
| Riscv64Ops.BranchAbsUncond | src/Emu/RISCV64Linux/RISCV64Operation.h:377-381 | the branch is taken to the even JALR target |
| Riscv64Ops.CallAbsUncond | src/Emu/RISCV64Linux/RISCV64Operation.h:411-416 | JALR writes pc + 4 to the destination and branches to the even target |
| Riscv32Ops.DivisionTable32 | src/Emu/RISCV32Linux/RISCV32Operation.h:254-313 | at 32 bits a zero divisor gives 0xFFFFFFFF and the dividend as remainder, signed and unsigned; 0x80000000 / -1 gives 0x80000000 with remainder 0; 7 / -2 gives -3 remainder 1 |
| Riscv32Ops.TickLow | src/Emu/RISCV32Linux/RISCV32Operation.h:765-768 | CYCLE, TIME and INSTRET read the low 32 bits of the instruction tick |
| Riscv32Ops.TickHigh | src/Emu/RISCV32Linux/RISCV32Operation.h:769-772 | CYCLEH, TIMEH and INSTRETH read the high 32 bits of the instruction tick |
| Riscv32Ops.WriteKeepsFields | src/Emu/RISCV32Linux/RISCV32Operation.h:779-809 | every CSR write keeps FFLAGS within five bits and FRM within three |
| Riscv32Ops.WriteThenRead | src/Emu/RISCV32Linux/RISCV32Operation.h:750-809 | a CSR write reads back as the value cut to the register's width: five bits for FFLAGS, three for FRM, eight for FCSR, all 32 otherwise (the counters read the tick instead) |
| Riscv32Ops.WriteFrame | src/Emu/RISCV32Linux/RISCV32Operation.h:779-809 | a CSR write changes no register except those it names: an FCSR write changes FFLAGS and FRM, any other write only itself |
| Riscv32Ops.FrmWriteDropsRmm | src/Emu/RISCV32Linux/RISCV32Operation.h:790-792 | as written, writing RMM (4) to FRM reads back as RNE (0), while the intended write keeps 4 and the FCSR write already keeps the third bit |
| Riscv32Ops.FrmWritesAgree | src/Emu/RISCV32Linux/RISCV32Operation.h:790-792 | the as-written and intended FRM writes agree exactly on the values below 4 |
| Riscv32Ops.SetBits | src/Emu/RISCV32Linux/RISCV32Operation.h:825-833 | the CSRRS value has every source bit set and every other bit as it was |
| Riscv32Ops.ClearBits | src/Emu/RISCV32Linux/RISCV32Operation.h:835-843 | the CSRRC value has every source bit clear and every other bit as it was |
| Riscv32Ops.ControlState.CsrRW | src/Emu/RISCV32Linux/RISCV32Operation.h:815-823 | CSRRW returns the old CSR value and writes the source |
| Riscv32Ops.ControlState.CsrRS | src/Emu/RISCV32Linux/RISCV32Operation.h:825-833 | CSRRS returns the old CSR value and writes it with the source bits set |
| Riscv32Ops.ControlState.CsrRC | src/Emu/RISCV32Linux/RISCV32Operation.h:835-843 | CSRRC returns the old CSR value and writes it with the source bits cleared |
| Riscv32Ops.ControlState.LoadReserved | src/Emu/RISCV32Linux/RISCV32Operation.h:371-379 | LR.W writes the loaded value to rd and reserves the address; no store happens |
| Riscv32Ops.ControlState.StoreConditional | src/Emu/RISCV32Linux/RISCV32Operation.h:381-405 | SC.W stores and returns 0 exactly when a reservation is held on its address, then drops the reservation; otherwise it returns 1 and changes nothing |
| Riscv32Ops.ReservationRules | src/Emu/RISCV32Linux/RISCV32Operation.h:371-405 | LR then SC to the same address succeeds; a second SC then fails; an SC to another address fails |
| Riscv32Ops.CsrKeepsReservation | src/Emu/RISCV32Linux/RISCV32Operation.h:779-809 | a CSR write never changes whether a store-conditional succeeds |
| Riscv32Ops.SetClearFields | src/Emu/RISCV32Linux/RISCV32Operation.h:825-843 | CSRRS with a zero source leaves a CSR as it reads; CSRRC clears exactly the source bits of what it reads |
| Riscv32Ops.FieldsFit | src/Emu/RISCV32Linux/RISCV32Operation.h:750-763 | with the fields within their widths, FFLAGS, FRM and FCSR read within five, three and eight bits |
| Riscv32Ops.CurPC32 | src/Emu/RISCV32Linux/RISCV32Operation.h:112-115 | the current pc is a 32-bit word |
| Riscv32Ops.NextPC32 | src/Emu/RISCV32Linux/RISCV32Operation.h:107-110 | the next pc is the current pc plus 4, wrapped to 32 bits |
| Riscv32Ops.BranchRelUncond | src/Emu/RISCV32Linux/RISCV32Operation.h:204-208 | the branch is taken to pc plus displacement in 32 bits; pc and destination are unchanged |
| Riscv32Ops.BranchRelCond | src/Emu/RISCV32Linux/RISCV32Operation.h:211-219 | the taken pc is pc plus displacement when the condition holds and pc + 4 otherwise; the branch is marked taken only when the condition holds |
| Riscv32Ops.CallRelUncond | src/Emu/RISCV32Linux/RISCV32Operation.h:223-228 | JAL writes pc + 4 to the destination and branches to pc plus displacement |
| Riscv32Ops.BranchAbsUncond | src/Emu/RISCV32Linux/RISCV32Operation.h:191-201 | the branch is taken to base plus displacement with bit 0 cleared |
| Riscv32Ops.CallAbsUncond | src/Emu/RISCV32Linux/RISCV32Operation.h:231-236 | JALR writes pc + 4, read before the branch, to the destination and branches to the even target |
| Alpha64Decoder.Opcode | src/Emu/AlphaLinux/Alpha64Decoder.cpp:123 | the major opcode is below 64 |
| Alpha64Decoder.Ra | src/Emu/AlphaLinux/Alpha64Decoder.cpp:136 | Ra names a register 0-31 |
| Alpha64Decoder.Rb | src/Emu/AlphaLinux/Alpha64Decoder.cpp:137 | Rb names a register 0-31 |
| Alpha64Decoder.Rc | src/Emu/AlphaLinux/Alpha64Decoder.cpp:179 | Rc names a register 0-31 |
| Alpha64Decoder.DecodedInsn.Clear | src/Emu/AlphaLinux/Alpha64Decoder.cpp:106-112 | clearing sets the code word to 0, every register slot to -1 and every immediate to 0 |
| Alpha64Decoder.DecodedInsn.Decode | src/Emu/AlphaLinux/Alpha64Decoder.cpp:119-203 | the code word is recorded and the slots are those of the format the opcode table gives |
| Alpha64Decoder.TableByOpcode | src/Emu/AlphaLinux/Alpha64Decoder.cpp:80-98 | the table agrees with the Alpha opcode map: CALL_PAL at 0x00, LDA and LDAH at 0x08-0x09, the integer operate groups, the floating-point operate groups at 0x14-0x17, floating loads and stores, the branches that save a return address, the floating and the integer branches |
| Alpha64Decoder.IntegerMemoryByOpcode | src/Emu/AlphaLinux/Alpha64Decoder.cpp:80-98 | the integer loads are exactly 0x0A-0x0C and 0x28-0x2B, the stores 0x0D-0x0F and 0x2C-0x2F, the miscellaneous group 0x18 and the jumps 0x1A |
| Alpha64Decoder.DisplacementShape | src/Emu/AlphaLinux/Alpha64Decoder.cpp:134-177 | the 16-bit and 21-bit displacements keep their field and copy its top bit into every higher bit |
| Alpha64Decoder.UnsignedFields | src/Emu/AlphaLinux/Alpha64Decoder.cpp:129-200 | the PAL function, memory function, jump hint, literal, integer and floating-point function codes are the code word's bits, shifted down, the literal below 256 |
| Alpha64Decoder.Routing | src/Emu/AlphaLinux/Alpha64Decoder.cpp:128-133 | an undefined opcode leaves every slot cleared, CALL_PAL writes only its function code, and every other format names a register |
| Alpha64Decoder.OperateSecondOperand | src/Emu/AlphaLinux/Alpha64Decoder.cpp:178-190 | in the integer operate format bit 12 selects the literal, written to the first immediate, or Rb, written to the third register slot; the function code goes to the second immediate |
| Alpha64Decoder.RegisterFiles | src/Emu/AlphaLinux/Alpha64Decoder.cpp:145-200 | floating loads, stores and branches name a floating-point data register; integer operates use integer registers except the FTOI source; floating operates use floating-point registers except the ITOF source |
| Alpha64Decoder.ItofExample | src/Emu/AlphaLinux/Alpha64Decoder.cpp:191-200 | ITOFT r1, f2 reads integer register 1 and writes floating-point register 2 |
| Alpha64Decoder.FtoiExample | src/Emu/AlphaLinux/Alpha64Decoder.cpp:178-190 | FTOIT f1, r2 reads floating-point register 1 and writes integer register 2 |
| Ppc64Decoder.Operands | src/Emu/PPC64Linux/PPC64Decoder.cpp:147-240 | each form lists at most six operands, none of them placed at NONE |
| Ppc64Decoder.Pad | src/Emu/PPC64Linux/PPC64Decoder.cpp:96-104 | the padded list has the six places of the fixed-size array: the form's operands first, end-of-list after them |
| Ppc64Decoder.DecodeInfo | src/Emu/PPC64Linux/PPC64Decoder.cpp:147-240 | every form's decode information has six places |
| Ppc64Decoder.Opcode30Table | src/Emu/PPC64Linux/PPC64Decoder.cpp:269-274 | the opcode 30 table has 16 entries |
| Ppc64Decoder.Opcode58Table | src/Emu/PPC64Linux/PPC64Decoder.cpp:275-277 | the opcode 58 table has 4 entries |
| Ppc64Decoder.Opcode62Table | src/Emu/PPC64Linux/PPC64Decoder.cpp:278-280 | the opcode 62 table has 4 entries |
| Ppc64Decoder.Opcode59AForms | src/Emu/PPC64Linux/PPC64Decoder.cpp:490-495 | the opcode 59 A-form table has 16 entries |
| Ppc64Decoder.Opcode63AForms | src/Emu/PPC64Linux/PPC64Decoder.cpp:497-502 | the opcode 63 A-form table has 16 entries |
| Ppc64Decoder.LowerBound | src/Emu/PPC64Linux/PPC64Decoder.cpp:528 | the position is the first whose key is not less than the extended opcode: every earlier key is less, and the key there, if any, is not |
| Ppc64Decoder.Opcode | src/Emu/PPC64Linux/PPC64Decoder.cpp:539 | the major opcode is below 64 |
| Ppc64Decoder.Xo | src/Emu/PPC64Linux/PPC64Decoder.cpp:559 | the extended opcode is below 1024 |
| Ppc64Decoder.ToInt | src/Emu/PPC64Linux/PPC64Decoder.cpp:653 | a register value cast to int lies in the signed 32-bit range and is unchanged when below 2^31 |
| Ppc64Decoder.Write | src/Emu/PPC64Linux/PPC64Decoder.cpp:650-660 | writing one operand keeps four register and four immediate slots |
| Ppc64Decoder.ApplyFrom | src/Emu/PPC64Linux/PPC64Decoder.cpp:616-663 | writing the operands keeps four register and four immediate slots |
| Ppc64Decoder.Decoded | src/Emu/PPC64Linux/PPC64Decoder.cpp:610-665 | the slots Decode leaves are four registers and four immediates |
| Ppc64Decoder.DecodedInsn.Clear | src/Emu/PPC64Linux/PPC64Decoder.cpp:597-603 | clearing sets the code word to 0, every register slot to -1 and every immediate to 0 |
| Ppc64Decoder.DecodedInsn.Decode | src/Emu/PPC64Linux/PPC64Decoder.cpp:610-665 | the code word is recorded and the slots are those the looked-up operand list writes into cleared slots |
| Ppc64Decoder.DecodedInsn.WriteOperands | src/Emu/PPC64Linux/PPC64Decoder.cpp:616-663 | the loop writes, in order, the operands before the first NONE, each with its value taken from the code word, and keeps the code word |
| Ppc64Decoder.ExtendedOpcodes | src/Emu/PPC64Linux/PPC64Decoder.cpp:535-587 | the primary table defers to an extended opcode exactly for opcodes 19, 30, 31, 58, 59, 62 and 63, the ones the lookup switches on |
| Ppc64Decoder.FindDecodeInfoAsWritten | src/Emu/PPC64Linux/PPC64Decoder.cpp:523-534 | as written the lookup gives UND only when every key is below xo, and otherwise the form of some entry whose key is at least xo, not necessarily xo itself |
| Ppc64Decoder.FindDecodeInfo | src/Emu/PPC64Linux/PPC64Decoder.cpp:523-534 | the corrected lookup gives UND or the form of an entry whose key is xo, and UND whenever no entry has the key |
| Ppc64Decoder.GetDecodeInfo | src/Emu/PPC64Linux/PPC64Decoder.cpp:536-587 | every primary opcode that has no extended opcode takes its operand form straight from the primary table |
| Ppc64Decoder.IndexRoute30 | src/Emu/PPC64Linux/PPC64Decoder.cpp:541-545 | opcode 30 takes the entry of its table at bits 1-4 of the code word (the low four bits of the extended opcode) |
| Ppc64Decoder.IndexRoute58 | src/Emu/PPC64Linux/PPC64Decoder.cpp:546-550 | opcode 58 takes the entry of its table at bits 0-1 of the code word |
| Ppc64Decoder.IndexRoute62 | src/Emu/PPC64Linux/PPC64Decoder.cpp:551-555 | opcode 62 takes the entry of its table at bits 0-1 of the code word |
| Ppc64Decoder.AFormRoute59 | src/Emu/PPC64Linux/PPC64Decoder.cpp:569-576 | opcode 59 with bit 4 of the extended opcode set takes its A-form entry at the extended opcode's low four bits |
| Ppc64Decoder.AFormRoute63 | src/Emu/PPC64Linux/PPC64Decoder.cpp:577-584 | opcode 63 with bit 4 of the extended opcode set takes its A-form entry at the extended opcode's low four bits |
| Ppc64Decoder.SearchRoute19 | src/Emu/PPC64Linux/PPC64Decoder.cpp:556-560 | opcode 19 gives the form of the entry whose key is the 10-bit extended opcode (bits 1-10), and UND when its table has no such key |
| Ppc64Decoder.SearchRoute31 | src/Emu/PPC64Linux/PPC64Decoder.cpp:561-568 | opcode 31 outside isel gives the form of the entry whose key is the extended opcode, and UND when its table has no such key |
| Ppc64Decoder.SearchRoute59 | src/Emu/PPC64Linux/PPC64Decoder.cpp:569-576 | opcode 59 with bit 4 of the extended opcode clear gives the form of the entry whose key is the extended opcode, and UND when its table has no such key |
| Ppc64Decoder.SearchRoute63 | src/Emu/PPC64Linux/PPC64Decoder.cpp:577-584 | opcode 63 with bit 4 of the extended opcode clear gives the form of the entry whose key is the extended opcode, and UND when its table has no such key |
| Ppc64Decoder.SearchIsKeyed | src/Emu/PPC64Linux/PPC64Decoder.cpp:523-534 | in a sorted table the lookup gives the form of the entry with the key, and UND exactly when no entry has it |
| Ppc64Decoder.Opcode31Sorted | src/Emu/PPC64Linux/PPC64Decoder.cpp:296-453 | the opcode-31 extended table is in strictly increasing key order, as the binary search needs |
| Ppc64Decoder.Opcode19Sorted | src/Emu/PPC64Linux/PPC64Decoder.cpp:282-295 | the opcode-19 extended table is in strictly increasing key order |
| Ppc64Decoder.Opcode59Sorted | src/Emu/PPC64Linux/PPC64Decoder.cpp:454-456 | the opcode-59 extended table (its single placeholder entry) is in strictly increasing key order |
| Ppc64Decoder.Opcode63Sorted | src/Emu/PPC64Linux/PPC64Decoder.cpp:457-487 | the opcode-63 extended table is in strictly increasing key order |
| Ppc64Decoder.FindExact | src/Emu/PPC64Linux/PPC64Decoder.cpp:523-534 | in a sorted table the exact lookup finds the entry with the key, and gives UND when no entry has it |
| Ppc64Decoder.AsWrittenAgreesWhenPresent | src/Emu/PPC64Linux/PPC64Decoder.cpp:523-534 | for a key present in a sorted table the lookup as written agrees with the exact lookup |
| Ppc64Decoder.AbsentExtendedOpcodeExample | src/Emu/PPC64Linux/PPC64Decoder.cpp:523-534 | code word 0x4C000002 has primary opcode 19 and extended opcode 1, which the table does not hold, yet the lookup as written returns the operands of bclr instead of UND |
| Ppc64Decoder.IselRoute | src/Emu/PPC64Linux/PPC64Decoder.cpp:561-566 | a primary-31 word whose extended opcode ends in 0b1111 gets the isel form: three general registers, a CR field and a CR bit |
| Ppc64Decoder.SignedFieldShape | src/Emu/PPC64Linux/PPC64Decoder.cpp:640-642 | the sign-extended field is a 64-bit value that keeps the field in its low bits and has its top bit set exactly when the field's is |
| Ppc64Decoder.SplitFields | src/Emu/PPC64Linux/PPC64Decoder.cpp:643-648 | SH6 and MB5 are six-bit numbers whose top bit is the split bit and whose low five bits are the five-bit field |
| Ppc64Decoder.RegisterNumbers | src/Emu/PPC64Linux/PPC64Decoder.cpp:628-636 | a register operand is its file's first register plus the field |
| Ppc64Decoder.StopsAtNone | src/Emu/PPC64Linux/PPC64Decoder.cpp:621-623 | the operand loop stops at the first NONE: what follows it in the list does not matter |
| Ppc64Decoder.WritesOperands | src/Emu/PPC64Linux/PPC64Decoder.cpp:616-663 | Decode writes exactly the form's operands, padding included |
| Ppc64Decoder.IselOperands | src/Emu/PPC64Linux/PPC64Decoder.cpp:156-157 | isel writes RT, RA and RB as general registers, the CR field of BC, and the bit of BC within it as the first immediate |
| Riscv64Decoder.MajorOpcodesEndIn11 | src/Emu/RISCV64Linux/RISCV64Decoder.cpp:269-279 | every major opcode the switch handles has its low two bits set |
| Riscv64Decoder.Opcode | src/Emu/RISCV64Linux/RISCV64Decoder.cpp:274 | the major opcode is below 128 |
| Riscv64Decoder.Rd | src/Emu/RISCV64Linux/RISCV64Decoder.cpp:280 | the rd field names an integer register 0-31 |
| Riscv64Decoder.Rs1 | src/Emu/RISCV64Linux/RISCV64Decoder.cpp:291 | the rs1 field names an integer register 0-31 |
| Riscv64Decoder.Rs2 | src/Emu/RISCV64Linux/RISCV64Decoder.cpp:298 | the rs2 field names an integer register 0-31 |
| Riscv64Decoder.Rs3 | src/Emu/RISCV64Linux/RISCV64Decoder.cpp:407 | the rs3 field names a register number 0-31 before the floating-point offset |
| Riscv64Decoder.Funct3 | src/Emu/RISCV64Linux/RISCV64Decoder.cpp:359 | funct3 is below 8 |
| Riscv64Decoder.FloatFunct | src/Emu/RISCV64Linux/RISCV64Decoder.cpp:432 | bits 26-31 are below 64 |
| Riscv64Decoder.CsrRegAsWritten | src/Emu/RISCV64Linux/RISCV64Decoder.cpp:362 | as written the control register slot lies among the 4096 control registers |
| Riscv64Decoder.CsrReg | src/Emu/RISCV64Linux/RISCV64Decoder.cpp:362 | the control register slot, the csr field plus the offset, lies among the 4096 control registers |
| Riscv64Decoder.IImmShape | src/Emu/RISCV64Linux/RISCV64Decoder.cpp:290-292 | the I-type immediate is bits 20-31 with bit 31 copied into bits 12-63 |
| Riscv64Decoder.UImmShape | src/Emu/RISCV64Linux/RISCV64Decoder.cpp:279-281 | the U-type immediate is bits 12-31 with bit 31 copied into the bits above |
| Riscv64Decoder.JImmShape | src/Emu/RISCV64Linux/RISCV64Decoder.cpp:302-311 | the J-type immediate is even, puts each of its four fields in place and copies bit 31 into bits 20-63 |
| Riscv64Decoder.BImmShape | src/Emu/RISCV64Linux/RISCV64Decoder.cpp:324-334 | the B-type immediate is even, puts each of its four fields in place and copies bit 31 into bits 12-63 |
| Riscv64Decoder.SImmShape | src/Emu/RISCV64Linux/RISCV64Decoder.cpp:347-354 | the S-type immediate joins bits 7-11 and 25-31 and copies bit 31 into bits 12-63 |
| Riscv64Decoder.CsrFieldExample | src/Emu/RISCV64Linux/RISCV64Decoder.cpp:359-362 | csrr a0, frm (0x00202573) names control register 2 but the decoder reads register 0 |
| Riscv64Decoder.CsrFieldShifted | src/Emu/RISCV64Linux/RISCV64Decoder.cpp:362 | the decoder reads the csr number shifted right by five, so every control register below 32 decodes as register 0 |
| Riscv64Decoder.ZimmExample | src/Emu/RISCV64Linux/RISCV64Decoder.cpp:364-367 | csrrwi x0, fflags, 16 (0x00185073) writes 16, but the decoder gives the immediate as -16 |
| Riscv64Decoder.ZimmAgree | src/Emu/RISCV64Linux/RISCV64Decoder.cpp:366 | the corrected zimm is below 32, and the two readings agree exactly when its top bit is clear |
| Riscv64Decoder.MiscAluFunct | src/Emu/RISCV64Linux/RISCV64Decoder.cpp:204 | bits 10-11 are below 4 |
| Riscv64Decoder.CRs2 | src/Emu/RISCV64Linux/RISCV64Decoder.cpp:101 | the three-bit compressed register fields name x8-x15 |
| Riscv64Decoder.CRs1 | src/Emu/RISCV64Linux/RISCV64Decoder.cpp:102 | the three-bit compressed register fields name x8-x15 |
| Riscv64Decoder.WideRs1 | src/Emu/RISCV64Linux/RISCV64Decoder.cpp:104 | the five-bit compressed register field at bits 7-11 names register 0-31 |
| Riscv64Decoder.WideRs2 | src/Emu/RISCV64Linux/RISCV64Decoder.cpp:103 | the five-bit compressed register field at bits 2-6 names register 0-31 |
| Riscv64Decoder.CompressedBranchOffsets | src/Emu/RISCV64Linux/RISCV64Decoder.cpp:213-231 | the compressed branch and jump offsets are even, and bit 12 fills every bit from 8 (C.BEQZ, C.BNEZ) or 11 (C.J) upward |
| Riscv64Decoder.CbImmExample | src/Emu/RISCV64Linux/RISCV64Decoder.cpp:225-231 | c.beqz x8, -2 (0xDC7D) branches back two bytes but the decoder gives +510 |
| Riscv64Decoder.CbImmAgree | src/Emu/RISCV64Linux/RISCV64Decoder.cpp:231 | the two readings of the C.BEQZ offset agree exactly on forward branches |
| Riscv64Decoder.Addi16spExamples | src/Emu/RISCV64Linux/RISCV64Decoder.cpp:192-198 | c.addi16sp sp, 64 (0x6121) carries nzimm[6] in bit 5, which the decoder drops; c.addi16sp sp, -16 (0x717D) decodes as +1008 |
| Riscv64Decoder.Addi16spImmShape | src/Emu/RISCV64Linux/RISCV64Decoder.cpp:192-198 | the corrected ADDI16SP offset is a multiple of 16 and is signed by bit 12 |
| Riscv64Decoder.UnsignedOffsetExamples | src/Emu/RISCV64Linux/RISCV64Decoder.cpp:106-122 | c.ld a0, 128(a1) (0x61C8) decodes as -128, and the largest C.ADDI4SPN offset decodes as -4, because the top bit of an unsigned field is sign-extended |
| Riscv64Decoder.Addi4spnDestExample | src/Emu/RISCV64Linux/RISCV64Decoder.cpp:147-148 | c.addi4spn a0, sp, 8 (0x0028) writes a0 (x10) but the decoder names x8 |
| Riscv64Decoder.Addi4spnDestAgree | src/Emu/RISCV64Linux/RISCV64Decoder.cpp:147-148 | the intended destination of C.ADDI4SPN is one of x8-x15, named by bits 2-4; the decoder as written agrees with it exactly when bits 7-9 hold the same three bits |
| Riscv64Decoder.UnsignedOffsetBounds | src/Emu/RISCV64Linux/RISCV64Decoder.cpp:106-152 | the corrected unsigned offsets stay inside their fields and are multiples of their scale |
| Riscv64Decoder.DecodedInsn.Clear | src/Emu/RISCV64Linux/RISCV64Decoder.cpp:131-137 | clearing sets the code word to 0, every register slot to -1 and every immediate to 0 |
| Riscv64Decoder.DecodedInsn.DecodeCompressedInstruction | src/Emu/RISCV64Linux/RISCV64Decoder.cpp:144-266 | the register and immediate slots become those of the compressed form; the code word is kept |
| Riscv64Decoder.DecodedInsn.Decode | src/Emu/RISCV64Linux/RISCV64Decoder.cpp:269-450 | the code word is recorded and the slots are those of the decoded instruction |
| Riscv64Decoder.DecodedWellFormed | src/Emu/RISCV64Linux/RISCV64Decoder.cpp:269-450 | every decoded instruction has four register slots and two immediates, and every register slot is -1 or a register number |
| Riscv64Decoder.DecodeRouting | src/Emu/RISCV64Linux/RISCV64Decoder.cpp:276-278 | a compressed word never matches a major opcode, so it keeps what the compressed decoder wrote; a 32-bit word with an unknown opcode stays cleared |
| Riscv64Decoder.LowBitsOfOpcode | src/Emu/RISCV64Linux/RISCV64Decoder.cpp:276 | a word is compressed exactly when its opcode's low two bits are not 11 |
| Riscv64Decoder.BranchOffsetsEven | src/Emu/RISCV64Linux/RISCV64Decoder.cpp:302-334 | JAL and the conditional branches carry even offsets |
| Riscv64Decoder.FloatRegisters | src/Emu/RISCV64Linux/RISCV64Decoder.cpp:385-446 | floating-point loads and the fused multiply-adds name registers 32-63 in their floating-point slots, and the FP/integer moves put the integer register on the right side |
| Riscv32Decoder.Opcode | src/Emu/RISCV32Linux/RISCV32Decoder.cpp:89 | the major opcode is below 128 |
| Riscv32Decoder.Rd | src/Emu/RISCV32Linux/RISCV32Decoder.cpp:94 | the rd field names a register 0-31 |
| Riscv32Decoder.Rs1 | src/Emu/RISCV32Linux/RISCV32Decoder.cpp:105 | the rs1 field names a register 0-31 |
| Riscv32Decoder.Rs2 | src/Emu/RISCV32Linux/RISCV32Decoder.cpp:112 | the rs2 field names a register 0-31 |
| Riscv32Decoder.Funct3 | src/Emu/RISCV32Linux/RISCV32Decoder.cpp:174 | bits 12-14 are below 8 |
| Riscv32Decoder.IImmShape | src/Emu/RISCV32Linux/RISCV32Decoder.cpp:103-107 | the I-type immediate is bits 20-31 with bit 31 copied into bits 12-31 |
| Riscv32Decoder.SImmShape | src/Emu/RISCV32Linux/RISCV32Decoder.cpp:160-170 | the S-type immediate joins bits 7-11 and 25-31 and copies bit 31 into bits 12-31 |
| Riscv32Decoder.JImmShape | src/Emu/RISCV32Linux/RISCV32Decoder.cpp:115-127 | the J-type immediate is even, puts each of its fields in place and copies bit 31 into bits 20-31 |
| Riscv32Decoder.BImmShape | src/Emu/RISCV32Linux/RISCV32Decoder.cpp:137-150 | the B-type immediate is even, puts each of its fields in place and copies bit 31 into bits 12-31 |
| Riscv32Decoder.UnsignedFields | src/Emu/RISCV32Linux/RISCV32Decoder.cpp:93-196 | the U-type field is the top twenty bits unchanged; the csr number and zimm are unsigned fields, zimm below 32 |
| Riscv32Decoder.AgreesWithRv64 | src/Emu/RISCV32Linux/RISCV32Decoder.cpp:172-196 | the register fields are those of the RV64 decoder, and the csr number is the RV64 csr field, of which the RV64 decoder reads only the part above bit 5 |
| Riscv32Decoder.CsrAgrees | src/Emu/RISCV32Linux/RISCV32Decoder.cpp:180 | the RV32 csr number equals the corrected RV64 csr field |
| Riscv32Decoder.DecodedInsn.Clear | src/Emu/RISCV32Linux/RISCV32Decoder.cpp:71-77 | clearing sets the code word to 0, every register slot to -1 and every immediate to 0 |
| Riscv32Decoder.DecodedInsn.Decode | src/Emu/RISCV32Linux/RISCV32Decoder.cpp:84-206 | the code word is recorded and the slots are those of the decoded instruction |
| Riscv32Decoder.DecodedWellFormed | src/Emu/RISCV32Linux/RISCV32Decoder.cpp:84-206 | every decoded instruction has four register slots and two immediates, every register slot being -1 or a register number |
| Riscv32Decoder.DecodeRouting | src/Emu/RISCV32Linux/RISCV32Decoder.cpp:92-206 | a word whose opcode has no case keeps cleared slots, and every opcode with a case other than the system group writes the first register slot |
| Riscv32Decoder.CsrOperands | src/Emu/RISCV32Linux/RISCV32Decoder.cpp:172-196 | the register CSR forms put the csr number in the first immediate, the immediate forms put zimm first and the csr number second |
| CommonConverter.Leading | src/Emu/Utility/CommonConverter.h:245-248 | the templates read are those before the first -1: none of them is -1, and the one after them, if any, is -1 |
| CommonConverter.CodeWordImm | src/Emu/Utility/CommonConverter.h:233 | the code word cast to s32 lies in the signed 32-bit range |
| CommonConverter.CodeWordImmWraps | src/Emu/Utility/CommonConverter.h:233 | the immediate of an undefined op wraps back to the code word |
| CommonConverter.Converter.constructor | src/Emu/Utility/CommonConverter.h:141-144 | a new converter has an empty opcode map |
| CommonConverter.Converter.AddToOpMap | src/Emu/Utility/CommonConverter.h:181-189 | the map becomes every definition filed under its mask and opcode, and the call succeeds exactly when no (mask, opcode) was already present |
| CommonConverter.Converter.FindOpDef | src/Emu/Utility/CommonConverter.h:193-204 | the definition returned is the one the largest-mask-first lookup selects, or the unknown definition |
| CommonConverter.Converter.ConvertOneOpInfo | src/Emu/Utility/CommonConverter.h:207-316 | the result is the translation of one micro-op definition for the decoded instruction |
| CommonConverter.Converter.DstOperands | src/Emu/Utility/CommonConverter.h:242-261 | the destination loop computes the destination part of the translation |
| CommonConverter.Converter.SrcOperands | src/Emu/Utility/CommonConverter.h:263-313 | the source loop computes the source part of the translation |
| CommonConverter.Converter.Convert | src/Emu/Utility/CommonConverter.h:154-172 | Convert translates every micro-op of the definition selected for the code word |
| CommonConverter.InsertKeepsFiled | src/Emu/Utility/CommonConverter.h:185-187 | filing a definition keeps every definition filed under its own mask and opcode |
| CommonConverter.RegisteredAfterInsert | src/Emu/Utility/CommonConverter.h:185-187 | a definition is registered after an insertion exactly when it was before or it has the inserted mask and opcode |
| CommonConverter.AddAllSucceedsIff | src/Emu/Utility/CommonConverter.h:181-189 | AddToOpMap succeeds exactly when no definition collides with the map or with another definition of the list |
| CommonConverter.AddAllFiles | src/Emu/Utility/CommonConverter.h:181-189 | after a successful AddToOpMap every definition of the list is filed under its own mask and opcode, and what was filed before is kept |
| CommonConverter.SelectedIsStrictestMatch | src/Emu/Utility/CommonConverter.h:193-204 | the lookup picks a definition that matches the code word under the largest mask that matches any; the unknown definition only when none matches |
| CommonConverter.FoundWhenStrictest | src/Emu/Utility/CommonConverter.h:193-204 | a definition filed by a successful AddToOpMap is found for every code word it matches unless a definition under a larger mask also matches |
| CommonConverter.DstFromKeeps | src/Emu/Utility/CommonConverter.h:242-261 | the destination loop fails exactly when a template names register -1; otherwise it has read every template before the first -1 and kept, in order, the non-zero registers |
| CommonConverter.SrcFromKeeps | src/Emu/Utility/CommonConverter.h:263-313 | the source loop keeps, in order, the non-zero register sources and the immediates, a zero register becoming the immediate 0 |
| CommonConverter.SrcFromFails | src/Emu/Utility/CommonConverter.h:263-313 | the source loop fails exactly when a template names register -1 or an immediate outside the decoded ones |
| CommonConverter.OneOpInfoOperands | src/Emu/Utility/CommonConverter.h:207-316 | the translation of a defined op fails exactly when a destination or source template is bad, and otherwise carries the op class, the micro-op count and index, and the destination and source parts above |
| CommonConverter.UndefOperands | src/Emu/Utility/CommonConverter.h:225-236 | an undefined op has no destination and a single source, the immediate that is the code word read as a signed 32-bit number |
| CommonConverter.ConvertNumbersMicroOps | src/Emu/Utility/CommonConverter.h:154-172 | Convert yields one translation per micro-op of the definition, in order, numbered by position and carrying the micro-op count |
| CommonConverter.MicroOpNumbering | src/Emu/Utility/CommonConverter.h:216-222 | a translated micro-op carries the count, index, op class and mnemonic it was given |
| DebugStub.HexDigit | src/Sim/System/EmulationDebugSystem/DebugStub/DebugStub.cpp:617 | hex output prints a nibble as one lowercase hex digit |
| DebugStub.HexValue | src/Sim/System/EmulationDebugSystem/DebugStub/DebugStub.cpp:99 | a hex digit read back is below 16 |
| DebugStub.HexDigitValue | src/Sim/System/EmulationDebugSystem/DebugStub/DebugStub.cpp:617 | every digit hex output prints reads back as its nibble |
| DebugStub.Hex2 | src/Sim/System/EmulationDebugSystem/DebugStub/DebugStub.cpp:617 | a byte prints as exactly two digits, zero-filled |
| DebugStub.ReadHex2 | src/Sim/System/EmulationDebugSystem/DebugStub/DebugStub.cpp:94-99 | the two digits printed for a byte read back as the byte |
| DebugStub.U64ToHexStr | src/Sim/System/EmulationDebugSystem/DebugStub/DebugStub.cpp:613-621 | the loop prints num bytes of val, two digits each, least significant byte first |
| DebugStub.HexBytesAt | src/Sim/System/EmulationDebugSystem/DebugStub/DebugStub.cpp:613-621 | digits 2i and 2i+1 print byte i of the byte list |
| DebugStub.BytesLEAt | src/Sim/System/EmulationDebugSystem/DebugStub/DebugStub.cpp:613-621 | byte i of the little-endian bytes is byte i of the value |
| DebugStub.HexLEByte | src/Sim/System/EmulationDebugSystem/DebugStub/DebugStub.cpp:613-621 | U64ToHexStr prints 2 num digits, digits 2i and 2i+1 printing byte i of val |
| DebugStub.LittleEndianBytes | src/Sim/System/EmulationDebugSystem/DebugStub/DebugStub.cpp:613-621 | the little-endian bytes of a value read back as the value modulo 256^n |
| DebugStub.UnhexBytes | src/Sim/System/EmulationDebugSystem/DebugStub/DebugStub.cpp:613-621 | pairs of hex digits read back as the bytes they print |
| DebugStub.HexLERoundTrip | src/Sim/System/EmulationDebugSystem/DebugStub/DebugStub.cpp:613-621 | the string U64ToHexStr prints reads back as val modulo 256^num |
| DebugStub.AccumulatedIsLittleEndian | src/Sim/System/EmulationDebugSystem/DebugStub/DebugStub.cpp:623-643 | wrapping to 64 bits after every addition gives the wrapped little-endian value of the bytes |
| DebugStub.ParseBinary | src/Sim/System/EmulationDebugSystem/DebugStub/DebugStub.cpp:623-643 | the loop's value is the little-endian value of the unescaped bytes, wrapped to 64 bits |
| DebugStub.UnescapeAt | src/Sim/System/EmulationDebugSystem/DebugStub/DebugStub.cpp:630-639 | a '}' makes the next character XOR 0x20 one byte, a '}' at the very end gives 0x20, and any other character is one byte |
| DebugStub.UnescapeEscape | src/Sim/System/EmulationDebugSystem/DebugStub/DebugStub.cpp:630-634 | unescaping undoes escaping |
| DebugStub.Escape | src/Sim/System/EmulationDebugSystem/DebugStub/DebugStub.cpp:629-630 | escaping a payload yields between one and two characters per byte and never a '#' or '$' |
| DebugStub.Unescape | src/Sim/System/EmulationDebugSystem/DebugStub/DebugStub.cpp:625-639 | unescaping yields at most one byte per character, and at least one byte from a non-empty payload |
| DebugStub.ChecksumAppend | src/Sim/System/EmulationDebugSystem/DebugStub/DebugStub.cpp:91-103 | the checksum is a running byte sum modulo 256: appending a character adds its byte |
| DebugStub.BinaryRoundTrip | src/Sim/System/EmulationDebugSystem/DebugStub/DebugStub.cpp:623-643 | a value of up to eight bytes sent escaped and least significant byte first reads back as the value modulo 256^n |
| DebugStub.ZeroByteAsWritten | src/Sim/System/EmulationDebugSystem/DebugStub/DebugStub.cpp:638 | as written a zero byte adds nothing to the value |
| DebugStub.ParseBinarySignExtends | src/Sim/System/EmulationDebugSystem/DebugStub/DebugStub.cpp:634-638 | the bytes 00 00 00 80 should read as 0x80000000, but as written the top byte is shifted as an int and sign-extends into 0xFFFFFFFF80000000 |
| DebugStub.OverlapIsIntersection | src/Sim/System/EmulationDebugSystem/DebugStub/DebugStub.cpp:645-651 | away from the top of the address space, the access and the watchpoint overlap exactly when the half-open ranges intersect, and overlap is symmetric |
| DebugStub.Stub.constructor | src/Sim/System/EmulationDebugSystem/DebugStub/DebugStub.cpp:42-62 | a new stub has the given input, no output, an empty stream buffer and an empty packet |
| DebugStub.Stub.GetStartChar | src/Sim/System/EmulationDebugSystem/DebugStub/DebugStub.cpp:73-81 | the input up to and including the first '$' is consumed, and the result says whether one was found |
| DebugStub.Stub.GetStream | src/Sim/System/EmulationDebugSystem/DebugStub/DebugStub.cpp:83-111 | the stream buffer becomes the data before '#'; an input that ends first fails; otherwise '+' is written when the checksum matches and '-' when not |
| DebugStub.Stub.ReadData | src/Sim/System/EmulationDebugSystem/DebugStub/DebugStub.cpp:89-93 | the loop reads the data up to '#' and sums its octets; what follows '#' is returned, or nothing when the input ends first |
| DebugStub.Stub.SendPacket | src/Sim/System/EmulationDebugSystem/DebugStub/DebugStub.cpp:475-499 | the frame is written once per attempt, and the send completes on '+' or after the third attempt, or fails when the input runs out |
| DebugStub.Stub.Transmit | src/Sim/System/EmulationDebugSystem/DebugStub/DebugStub.cpp:477-497 | the retry loop writes one frame per attempt and ends with the attempt count and the input left over |
| DebugStub.Stub.WaitAck | src/Sim/System/EmulationDebugSystem/DebugStub/DebugStub.cpp:489-495 | the acknowledgement loop returns the first '+' or '-' outside any packet the host sends meanwhile, or NUL when the input ends first |
| DebugStub.Stub.ParsePacket | src/Sim/System/EmulationDebugSystem/DebugStub/DebugStub.cpp:113-188 | the packet is cleared first; it becomes the letter, command and parameters of the stream buffer when the buffer parses; an empty buffer leaves the cleared packet, and a lone "H" leaves the cleared packet with letter H |
| DebugStub.FindFirst | src/Sim/System/EmulationDebugSystem/DebugStub/DebugStub.cpp:121 | string::find gives the first occurrence at or after the start, and npos only when there is none |
| DebugStub.SplitParams | src/Sim/System/EmulationDebugSystem/DebugStub/DebugStub.cpp:123-128 | the parameter loop collects the pieces between separators after the first one |
| DebugStub.PiecesJoin | src/Sim/System/EmulationDebugSystem/DebugStub/DebugStub.cpp:123-128 | the parameters joined with their separator give back the rest of the buffer |
| DebugStub.PiecesFree | src/Sim/System/EmulationDebugSystem/DebugStub/DebugStub.cpp:123-128 | no parameter holds the separator |
| DebugStub.MemoryReadPacket | src/Sim/System/EmulationDebugSystem/DebugStub/DebugStub.cpp:147-151 | a memory read "m" addr "," length splits into the address as the command and the length as the only parameter |
| DebugStub.SplitRoundTrip | src/Sim/System/EmulationDebugSystem/DebugStub/DebugStub.cpp:121-128 | the command never holds the first separator, no parameter holds the parameter separator, and put back together they give the buffer |
| DebugStub.ParseRoundTrip | src/Sim/System/EmulationDebugSystem/DebugStub/DebugStub.cpp:113-188 | a 'q', 'v', 'P', 'm', 'M' or 'X' packet with its separator parses into a command and parameters that, put back together, give the buffer |
| DebugStub.SendAttempts | src/Sim/System/EmulationDebugSystem/DebugStub/DebugStub.cpp:475-499 | SendPacket tries one to three times, and an immediate '+' means exactly one attempt |
| DebugStub.FrameAccepted | src/Sim/System/EmulationDebugSystem/DebugStub/DebugStub.cpp:73-111 | what SendPacket writes, the stub's own GetStartChar and GetStream read back with a matching checksum |
| DebugStub.GetStreamChecksum | src/Sim/System/EmulationDebugSystem/DebugStub/DebugStub.cpp:94-110 | GetStream accepts exactly when the byte sum modulo 256 equals the two hex digits after '#' |
| ClockedResource.ClockedResourceBase.constructor | src/Sim/Foundation/TimeWheel/ClockedResourceBase.h:58-70 | a new resource is in the Begin phase with no stall requested, a zero stall period, neither cycle stalled and zero counters |
| ClockedResource.ClockedResourceBase.Begin | src/Sim/Foundation/TimeWheel/ClockedResourceBase.h:81-102 | Begin succeeds exactly in the Begin phase and then moves the stall state to last cycle, turns a positive stall period into a stall request and uses one of it, and counts the cycle; out of phase it changes nothing |
| ClockedResource.ClockedResourceBase.Evaluate | src/Sim/Foundation/TimeWheel/ClockedResourceBase.h:105-114 | Evaluate succeeds exactly in the Evaluate phase and moves to Transition; out of phase it changes nothing |
| ClockedResource.ClockedResourceBase.Transition | src/Sim/Foundation/TimeWheel/ClockedResourceBase.h:118-143 | Transition succeeds exactly in the Transition phase, fixes and counts this cycle's stall, and calls BeginStall or EndStall when the stall state changes |
| ClockedResource.ClockedResourceBase.TriggerUpdate | src/Sim/Foundation/TimeWheel/ClockedResourceBase.h:146-159 | TriggerUpdate succeeds exactly in the Update phase and calls Update unless this cycle is stalled |
| ClockedResource.ClockedResourceBase.End | src/Sim/Foundation/TimeWheel/ClockedResourceBase.h:162-176 | End succeeds exactly in the End phase, returns to Begin and calls Tick unless this cycle is stalled |
| ClockedResource.ClockedResourceBase.StallThisCycle | src/Sim/Foundation/TimeWheel/ClockedResourceBase.h:179-191 | a stall request succeeds exactly in the Evaluate and Transition phases |
| ClockedResource.ClockedResourceBase.StallNextCycle | src/Sim/Foundation/TimeWheel/ClockedResourceBase.h:203-211 | the stall period becomes the larger of the current one and the requested one, in any phase |
| ClockedResource.ClockedResourceBase.CancelStallPeriod | src/Sim/Foundation/TimeWheel/ClockedResourceBase.h:214-222 | the stall period becomes 0 and nothing else changes |
| ClockedResource.ClockedResourceBase.IsStalledThisCycle | src/Sim/Foundation/TimeWheel/ClockedResourceBase.h:225-232 | the query succeeds exactly in the Update and End phases and returns this cycle's stall state |
| ClockedResource.ClockedResourceBase.IsStalledLastCycle | src/Sim/Foundation/TimeWheel/ClockedResourceBase.h:235-242 | the query succeeds in every phase but Begin and returns the last cycle's stall state |
| ClockedResource.PhaseOrder | src/Sim/Foundation/TimeWheel/ClockedResourceBase.h:81-176 | a phase call succeeds exactly in its own phase and moves to the next one, so the phases run Begin, Evaluate, Transition, TriggerUpdate, End |
| ClockedResource.OneCycle | src/Sim/Foundation/TimeWheel/ClockedResourceBase.h:81-176 | one cycle from Begin is counted; it is stalled exactly when a stall was requested or the stall period was positive, and then it is counted as stalled and calls neither Update nor Tick; a positive stall period drops by one; BeginStall or EndStall marks a change of the stall state |
| ClockedResource.RunAppend | src/Sim/Foundation/TimeWheel/ClockedResourceBase.h:81-176 | running two call lists is running their concatenation |
| ClockedResource.StallPeriodCycles | src/Sim/Foundation/TimeWheel/ClockedResourceBase.h:203-211 | StallNextCycle(n) stalls exactly the next n cycles: they are all counted as stalled, call neither Update nor Tick, and use the period up |
| ClockedResource.StallPeriodEnds | src/Sim/Foundation/TimeWheel/ClockedResourceBase.h:118-176 | the cycle after a used-up stall period with no request runs unstalled and calls EndStall, Update and Tick |
| ClockedResource.BalancedPreserved | src/Sim/Foundation/TimeWheel/ClockedResourceBase.h:132-138 | BeginStall and EndStall alternate, starting with BeginStall, from a new resource on and across every call |
| KanataInsn.ToInt32 | tool/Kanata/Kanata/Insn.cs:32-35 | the result is the 32-bit two's complement value congruent to the input, as an `(Int32)` cast gives |
| KanataInsn.ToInt64 | tool/Kanata/Kanata/Insn.cs:161-164 | the result is the 64-bit two's complement value congruent to the input, as C# `long` arithmetic gives |
| KanataInsn.WithEndRelCycle | tool/Kanata/Kanata/Insn.cs:26-36 | assigning EndRelCycle keeps the begin cycle and sets the length to the wrapped difference |
| KanataInsn.EndRelCycleRoundTrip | tool/Kanata/Kanata/Insn.cs:26-36 | reading EndRelCycle back gives the 32-bit value that was assigned, whatever the begin cycle |
| KanataInsn.InitClears | tool/Kanata/Kanata/Insn.cs:81-92 | Init empties name, detail and producers, zeroes id, start cycle, rid, tid and gsid, clears flushed, and keeps stages, consumers and length |
| KanataInsn.SetEndCycleReadsBack | tool/Kanata/Kanata/Insn.cs:159-171 | assigning EndCycle fails exactly when the value is before the start cycle, otherwise changes only the length, and EndCycle then reads back as the value assigned |
| KanataInsn.GrowTo | tool/Kanata/Kanata/Insn.cs:227-231 | the stage lists are extended with empty lists just far enough that the segment index exists; existing lists are kept |
| KanataInsn.AddStageAppends | tool/Kanata/Kanata/Insn.cs:225-233 | AddStage appends the stage to that segment's list only, creating empty lists below it, and changes nothing else |
| KanataInsn.AddProducerDedups | tool/Kanata/Kanata/Insn.cs:239-247 | AddProducer adds the relation only when its id is new: the old producers stay first, at most one is added, and producer ids stay pairwise distinct |
| KanataInsn.AddConsumerCounts | tool/Kanata/Kanata/Insn.cs:253-256 | AddConsumer adds exactly one occurrence of the relation, even when an equal one is already present |
| KanataInsn.Insn.constructor | tool/Kanata/Kanata/Insn.cs:74-92 | a new instruction after Init has no stages, producers or consumers and all-zero fields |
| KanataInsn.Insn.Init | tool/Kanata/Kanata/Insn.cs:81-92 | the object's new state is the value-level Init of its old state |
| KanataInsn.Insn.SetEndCycle | tool/Kanata/Kanata/Insn.cs:159-171 | the setter fails (the exception) exactly for a value before the start cycle and otherwise sets the length to the unsigned 32-bit difference |
| KanataInsn.Insn.AddStage | tool/Kanata/Kanata/Insn.cs:225-233 | the object's new state is AddStage on the old state |
| KanataInsn.Insn.AddProducer | tool/Kanata/Kanata/Insn.cs:239-247 | the object's new state is AddProducer on the old state |
| KanataInsn.Insn.AddConsumer | tool/Kanata/Kanata/Insn.cs:253-256 | the object's new state is AddConsumer on the old state |
| KanataLoader.FieldsRoundTrip | tool/Kanata/Kanata/LogLoader.cs:234 | splitting at tabs loses nothing: the fields joined with tabs give the line back, there is one field more than there are tabs, and no field holds a tab |
| KanataLoader.ParseInteger | tool/Kanata/Kanata/LogLoader.cs:440-456 | the NumberStyles.Integer parse behind long.Parse, ulong.Parse and int.Parse accepts exactly a field that, once white space is trimmed from both ends, is an optional '+' or '-' and one or more digits in range, and then yields the signed value of those digits, within [-neg, pos) |
| KanataLoader.ParseULong | tool/Kanata/Kanata/LogLoader.cs:451-456 | ulong.Parse succeeds exactly when the integer parse over [0, 2^64) does, so a minus sign is accepted only before a zero, and yields a value below 2^64 |
| KanataLoader.SignSplit | tool/Kanata/Kanata/LogLoader.cs:440-456 | a trimmed field splits into a sign and digits in at most one way: the sign is its first character when that is '+' or '-', and empty otherwise |
| KanataLoader.ULongOfSplit | tool/Kanata/Kanata/LogLoader.cs:451-456 | ulong.Parse reads a field that splits into a sign and digits as the digits' value, and as 0 after a minus sign |
| KanataLoader.DigitsParse | tool/Kanata/Kanata/LogLoader.cs:451-456 | a field of plain digits is read as its decimal value and refused when that reaches 2^64 |
| KanataLoader.BlankRefused | tool/Kanata/Kanata/LogLoader.cs:451-456 | an empty or all-white field is refused |
| KanataLoader.FastValueAgrees | tool/Kanata/Kanata/LogLoader.cs:73-95 | whenever UInt64.Parse accepts a field of plain digits, ParseUInt64 gives the same value, and a field of at most 8 digits is read exactly and accepted by both |
| KanataLoader.FastValueDiffers | tool/Kanata/Kanata/LogLoader.cs:86-92 | an empty field or one holding a non-digit reads as 0 in ParseUInt64 where UInt64.Parse throws |
| KanataLoader.FastValueLenient | tool/Kanata/Kanata/LogLoader.cs:73-95 | the other way round: digits with white space before or after, with a leading '+', or a zero after '-', are accepted by UInt64.Parse with their value but read as 0 by ParseUInt64 |
| KanataLoader.NonDigitSilentAsWritten | tool/Kanata/Kanata/LogLoader.cs:90-92 | as written, a non-digit field leaves no error (the message is formatted and dropped); the corrected version logs one |
| KanataLoader.NumberErrorsReport | tool/Kanata/Kanata/LogLoader.cs:73-95 | the intended ParseUInt64 logs "not a number" exactly when a character is not a digit and "too large" exactly when the field is longer than 8 characters; it differs from the code as written exactly on fields that are not numbers |
| KanataLoader.HeaderOfKanata | tool/Kanata/Kanata/LogLoader.cs:169-199 | a header whose first field is "Kanata" declares the version its second field gives in 32-bit hexadecimal |
| KanataLoader.ParseHexInt32 | tool/Kanata/Kanata/LogLoader.cs:185 | int.Parse with NumberStyles.HexNumber succeeds exactly when the field, trimmed of white space, is one or more hex digits worth less than 2^32, and yields a value in the 32-bit signed range |
| KanataLoader.HexVersionExamples | tool/Kanata/Kanata/LogLoader.cs:184-190 | "0004" reads as the supported version 4 and "FFFFFFFF" reads as -1 |
| KanataLoader.HeaderTooShort | tool/Kanata/Kanata/LogLoader.cs:174-180 | a header without a version field is refused |
| KanataLoader.HeaderRules | tool/Kanata/Kanata/LogLoader.cs:169-199 | a header of fewer than two fields, or whose first field is neither "C=" nor "Kanata", is refused; "C=" declares version 0 and draws the unsupported-version warning; a "Kanata" header is accepted exactly when its version field parses as 32-bit hexadecimal |
| KanataLoader.TwoFields | tool/Kanata/Kanata/LogLoader.cs:234 | two tab-free parts joined by one tab split back into exactly those parts |
| KanataLoader.InitialConsistent | tool/Kanata/Kanata/LogLoader.cs:33-63 | the freshly constructed loader (line 1, cycle 0, empty maps, min id = ulong.MaxValue) is consistent |
| KanataLoader.GrowSegments | tool/Kanata/Kanata/LogLoader.cs:341-350 | lanes are appended, each with an empty slot per live instruction and numbered in order, just far enough that the lane named exists |
| KanataLoader.StageIdsFirstSeen | tool/Kanata/Kanata/LogLoader.cs:314-325 | a known stage name keeps its id, a new name gets the number of names seen before it, no other name changes, and ids stay dense |
| KanataLoader.CommandOf | tool/Kanata/Kanata/LogLoader.cs:234-237 | a line is skipped exactly when it has fewer than two fields |
| KanataLoader.ProcessLinesCons | tool/Kanata/Kanata/LogLoader.cs:135-152 | lines are processed in file order, and an exception from a line escapes exactly when more lines follow it |
| KanataLoader.ProcessLineConsistent | tool/Kanata/Kanata/LogLoader.cs:229-272 | every line keeps the loader consistent whether or not its handler throws; in particular each lane keeps exactly one slot per live instruction |
| KanataLoader.LineRules | tool/Kanata/Kanata/LogLoader.cs:229-272 | a line of fewer than two fields only advances the line counter; an unknown code adds exactly one error and changes nothing else |
| KanataLoader.CommandCodes | tool/Kanata/Kanata/LogLoader.cs:237-266 | each of the codes C=, C, I, L, S, E, R and W selects exactly the command it names, and any other first field selects the unknown-line command |
| KanataLoader.OpenStageRules | tool/Kanata/Kanata/LogLoader.cs:339-366 | with the instruction live the lanes grow to reach the lane named, the slot holds a new stage beginning at the current relative cycle, and an open stage already there is reported as one overlap error and replaced |
| KanataLoader.CloseStageRules | tool/Kanata/Kanata/LogLoader.cs:370-378 | the open stage ends at the current relative cycle, is appended to the instruction's stages of that lane, and the slot is cleared |
| KanataLoader.EndStageNoOpenStage | tool/Kanata/Kanata/LogLoader.cs:531-537 | with no stage open in the lane the code as written throws (null dereference); the corrected EndStage logs one error and changes nothing else |
| KanataLoader.ArchiveRules | tool/Kanata/Kanata/LogLoader.cs:431-437 | after a retirement the instruction is archived under its id, the id range widens to it, and it leaves the live map and every lane |
| KanataLoader.RetireRules | tool/Kanata/Kanata/LogLoader.cs:541-572 | a repeated or unknown retire id adds one error and changes nothing else; a live id is archived with its end cycle, retire id and flushed flag set, then removed |
| KanataLoader.DependencyDefaultKind | tool/Kanata/Kanata/LogLoader.cs:585-592 | a dependency line without a fourth field records edge kind 0 |
| KanataLoader.CloseLanesAppends | tool/Kanata/Kanata/LogLoader.cs:278-285 | closing an instruction's lanes appends to each lane's list exactly the stage open there, ended at the current relative cycle, and changes nothing else |
| KanataLoader.CloseLanesNext | tool/Kanata/Kanata/LogLoader.cs:278-285 | one lane more appends that lane's open stage, ended at the current relative cycle; without one nothing changes |
| KanataLoader.ArchiveAllFrame | tool/Kanata/Kanata/LogLoader.cs:287-290 | archiving the live instructions changes only the database and the id range, and the range only widens |
| KanataLoader.ArchiveAllThrows | tool/Kanata/Kanata/LogLoader.cs:566-573 | archiving in order throws exactly when some instruction is already in the database |
| KanataLoader.ArchiveAllStores | tool/Kanata/Kanata/LogLoader.cs:287-290 | when archiving succeeds every instruction is in the database under its id, earlier entries stay and nothing else is added |
| KanataLoader.ArchiveAllBounds | tool/Kanata/Kanata/LogLoader.cs:566-570 | after archiving, the id range covers every id archived |
| KanataLoader.CloseStagesArchivesAll | tool/Kanata/Kanata/LogLoader.cs:275-292 | CloseStages throws exactly when a live instruction was archived before; otherwise every live instruction is archived with all its open stages closed |
| KanataLoader.NamesListedUnique | tool/Kanata/Kanata/LogLoader.cs:294-310 | with dense stage ids every slot of the listing holds the name of that id, whatever order the names were visited in |
| KanataLogLoader.MulAddMod | tool/Kanata/Kanata/LogLoader.cs:86-88 | wrapping the accumulator at every step gives the same value modulo 2^64 as wrapping once |
| KanataLogLoader.LogLoader.constructor | tool/Kanata/Kanata/LogLoader.cs:17-69 | a new loader holds the initial state and is not loaded |
| KanataLogLoader.LogLoader.ParseUInt64 | tool/Kanata/Kanata/LogLoader.cs:73-95 | the loop returns the 64-bit wrapped decimal value (0 on a non-digit) and logs a too-long field and, as corrected, a non-numeric field (see the Findings row for LogLoader.cs:90-92), as the value-level definition says |
| KanataLogLoader.LogLoader.ProcessAbsCycle | tool/Kanata/Kanata/LogLoader.cs:440-443 | the loader's new state is the C= handler (absolute cycle) applied to the old state |
| KanataLogLoader.LogLoader.ProcessRelCycle | tool/Kanata/Kanata/LogLoader.cs:445-449 | the loader's new state is the C handler (relative cycle, wrapping as a long) applied to the old state |
| KanataLogLoader.LogLoader.NewInsnAtProcess | tool/Kanata/Kanata/LogLoader.cs:388-402 | a new live instruction at the current cycle with an empty slot in every lane |
| KanataLogLoader.LogLoader.ProcessInsnInit | tool/Kanata/Kanata/LogLoader.cs:451-457 | the loader's new state is the I handler applied to the old state |
| KanataLogLoader.LogLoader.ProcessInsnLabel | tool/Kanata/Kanata/LogLoader.cs:459-493 | the loader's new state is the L handler applied to the old state |
| KanataLogLoader.LogLoader.EmptyLane | tool/Kanata/Kanata/LogLoader.cs:341-350 | a new lane with the next lane id and an empty slot for every live instruction |
| KanataLogLoader.LogLoader.NewStage | tool/Kanata/Kanata/LogLoader.cs:339-366 | the loader's new state is NewStage on the old state |
| KanataLogLoader.LogLoader.GetStageId | tool/Kanata/Kanata/LogLoader.cs:314-325 | the id of a stage name in a lane, a new name getting the next id |
| KanataLogLoader.LogLoader.ProcessInsnBeginStage | tool/Kanata/Kanata/LogLoader.cs:495-514 | the loader's new state is the S handler applied to the old state |
| KanataLogLoader.LogLoader.OpenStageAt | tool/Kanata/Kanata/LogLoader.cs:505-513 | the stage named opens for a live instruction at the current relative cycle |
| KanataLogLoader.LogLoader.ProcessInsnEndStage | tool/Kanata/Kanata/LogLoader.cs:516-539 | the loader's new state is the corrected E handler applied to the old state |
| KanataLogLoader.LogLoader.WriteInsnToDB | tool/Kanata/Kanata/LogLoader.cs:566-573 | the id range widens to the instruction, which is added to the archive; an id already archived throws |
| KanataLogLoader.LogLoader.RemoveInsn | tool/Kanata/Kanata/LogLoader.cs:431-437 | the instruction leaves the live map and every lane |
| KanataLogLoader.LogLoader.ProcessInsnRetire | tool/Kanata/Kanata/LogLoader.cs:541-564 | the loader's new state is the R handler applied to the old state |
| KanataLogLoader.LogLoader.ArchiveInsn | tool/Kanata/Kanata/LogLoader.cs:560-563 | WriteInsnToDB, the retired mark (a second mark throws) and RemoveInsn |
| KanataLogLoader.LogLoader.ProcessInsnDependency | tool/Kanata/Kanata/LogLoader.cs:575-597 | the loader's new state is the W handler applied to the old state |
| KanataLogLoader.LogLoader.ProcessLine | tool/Kanata/Kanata/LogLoader.cs:229-272 | the loader's new state is ProcessLine on the old state, and the loader stays consistent |
| KanataLogLoader.LogLoader.RunCommand | tool/Kanata/Kanata/LogLoader.cs:235-268 | the switch runs the handler the first field names |
| KanataLogLoader.LogLoader.ArchiveLive | tool/Kanata/Kanata/LogLoader.cs:287-290 | every live instruction is written to the database in the order the live map yields; the order visits each exactly once |
| KanataLogLoader.LogLoader.CloseStages | tool/Kanata/Kanata/LogLoader.cs:275-292 | every open stage is closed at the final cycle, then every live instruction is archived |
| KanataLogLoader.LogLoader.UpdateLogInfo | tool/Kanata/Kanata/LogLoader.cs:294-310 | the summary takes the id range and, lane by lane, the stage names listed by stage id |
| KanataLogLoader.LogLoader.ProcessCommandLines | tool/Kanata/Kanata/LogLoader.cs:138-151 | the line loop leaves the loader in the state ProcessLines gives and reports an exception exactly when one escapes, that is, when a line other than the last throws |
| KanataLogLoader.LogLoader.Load | tool/Kanata/Kanata/LogLoader.cs:109-165 | a bad header stops the load; an exception from any line but the last stops it; otherwise the open stages are closed, live instructions archived, the summary filled and the loader marked loaded |
| KanataLogLoader.CloseLane | tool/Kanata/Kanata/LogLoader.cs:278-285 | the stage still open in each slot of a lane ends at the current cycle and is appended to its instruction |
| KanataLogLoader.ArchiveAllNext | tool/Kanata/Kanata/LogLoader.cs:287-290 | one more WriteInsnToDB of the walk: if it throws the walk ends there whatever ids follow |
| KanataLogLoader.ListNames | tool/Kanata/Kanata/LogLoader.cs:299-307 | for dense stage ids the lane's names are listed at their ids |
| KanataView.Widen | tool/Kanata/Kanata/MainForm.Logic.cs:66-74 | the front never increases and the back never decreases, each end becomes the old end or the new bound, and the result covers [f, b] |
| KanataView.WidenOrderFree | tool/Kanata/Kanata/MainForm.Logic.cs:245-249 | widening is idempotent and two widenings commute, so the spans do not depend on the order the edges are met |
| KanataView.DependencyRange.constructor | tool/Kanata/Kanata/MainForm.Logic.cs:60-64 | a new range holds [front, back] |
| KanataView.DependencyRange.SetRange | tool/Kanata/Kanata/MainForm.Logic.cs:66-74 | the range after SetRange is the old range widened by [f, b] |
| KanataView.LinksOf | tool/Kanata/Kanata/MainForm.Logic.cs:232-243 | every arrow one consumer yields starts at a loaded producer inside the window and ends at that consumer |
| KanataView.AllLinks | tool/Kanata/Kanata/MainForm.Logic.cs:227-250 | every arrow of the window starts at a loaded producer |
| KanataView.SpanAfterHull | tool/Kanata/Kanata/MainForm.Logic.cs:245-249 | each id's span contains the id, covers every arrow crossing the id, and each end is the id itself or an end of such an arrow |
| KanataView.SpanAfterUncrossed | tool/Kanata/Kanata/MainForm.Logic.cs:214 | an id no arrow crosses keeps the span [id, id] |
| KanataView.AddedExactly | tool/Kanata/Kanata/MainForm.Logic.cs:236-240 | the consumer relations added to a producer are exactly those of the arrows ending at it |
| KanataView.AllLinksLoaded | tool/Kanata/Kanata/MainForm.Logic.cs:234-236 | every arrow starts at a loaded producer and ends at a loaded consumer of the window |
| KanataView.AddedNone | tool/Kanata/Kanata/MainForm.Logic.cs:234-236 | an id outside the window or not loaded gets no consumer relation |
| KanataView.CycleRange | tool/Kanata/Kanata/MainForm.Logic.cs:195-222 | no loaded instruction starts before the cycle range or ends after it, and each bound is met by a loaded instruction unless none is loaded (long.MaxValue / long.MinValue) |
| KanataView.LinkedAllNone | tool/Kanata/Kanata/MainForm.Logic.cs:211-214 | before any arrow the window holds the archived instructions unchanged, each id with span [id, id] |
| KanataView.LinkedAllSnoc | tool/Kanata/Kanata/MainForm.Logic.cs:236-240 | one more arrow appends its relation to its producer's consumers and changes no other instruction |
| KanataView.SpansAllSnoc | tool/Kanata/Kanata/MainForm.Logic.cs:245-249 | one more arrow widens exactly the spans of the ids it crosses |
| KanataView.FillWindow | tool/Kanata/Kanata/MainForm.Logic.cs:199-219 | the fill loop loads each id's archived instruction or nothing, gives each id a fresh span [id, id], and folds the cycle range; an empty window (lo > hi) loads nothing |
| KanataView.Clamp | tool/Kanata/Kanata/MainForm.Logic.cs:284-287 | the result lies in [from, to], is the id itself inside and the nearer end outside |
| KanataView.InsnView.GetInsn | tool/Kanata/Kanata/MainForm.Logic.cs:270-278 | nothing outside [IdFrom, IdTo]; inside, the instruction of the id's slot |
| KanataView.InsnView.GetDependencyRange | tool/Kanata/Kanata/MainForm.Logic.cs:280-289 | fails exactly when the window is empty; otherwise the span object of the id clamped into [max(MinInsnId, IdFrom), min(MaxInsnId, IdTo)] |
| KanataView.InsnView.WidenRanges | tool/Kanata/Kanata/MainForm.Logic.cs:245-249 | every id of [front, back] has its span widened by [front, back]; no other span changes |
| KanataView.InsnView.AddLink | tool/Kanata/Kanata/MainForm.Logic.cs:236-249 | one arrow: the view afterwards shows the arrows so far plus this one |
| KanataView.InsnView.LinkConsumer | tool/Kanata/Kanata/MainForm.Logic.cs:232-250 | the producers of one consumer, in list order; the view afterwards shows that consumer's arrows added |
| KanataView.InsnView.LinkAll | tool/Kanata/Kanata/MainForm.Logic.cs:227-250 | the view afterwards shows every arrow of the window |
| KanataView.InsnView.Fill | tool/Kanata/Kanata/MainForm.Logic.cs:191-225 | the window is the summary's id range (empty when the trace holds no instruction), the instructions are the archived ones with spans [id, id], and the cycle range is the loaded one or (0, 0) |
| KanataView.InsnView.LoadInsns | tool/Kanata/Kanata/MainForm.Logic.cs:185-250 | no loader changes nothing; otherwise the view shows the window's instructions with every arrow's consumer relation added and every span widened, and the cycle range of the loaded instructions |

## Left out

- File, socket and console I/O: Kanata's gzip and file reading, the debug stub's socket, and message boxes. The loaders and the stub take the lines or the received bytes as input.
- Kanata's progress reporting and cancellation.
- Failed `Debug.Assert` and `ASSERT` checks are not modelled as aborts. Where the source throws, or asserts on input its callers can pass, the model returns a `Fail` result; the remaining preconditions are the class invariants (`Valid()`) and the cases of undefined behaviour listed below.
- ClockedResource: the propagation of the phases and of stalls to child resources. Without children, StallThisCycleExcludingChildren is the same as StallThisCycle, so it has no member of its own.
- Floating point: the FP functors, the RISC-V FP instructions and FCLASS, and PPC64 FP rounding. Only the integer and bit-level parts of the FP status registers (FCSR, FRM, FPSCR fields) are modelled.
- The high-multiply functors IntUMulh/IntSMulh, IntScaledAdd, and the condition and bit functors that only the omitted instructions use.
- src/Emu/Utility/DecoderUtility.h is not part of this model. ExtractBits is modelled as the bit field at a position and width, sign-extended on request.
- String::split is not part of this model. ParamXmlPath's Parse takes the token list.
- src/Lib/shttl/table.h is not part of this model. The set-associative replacement victim is an input.
- ProcessState is not part of this model. An unset control register reads 0.
- Kanata's ViewCoordinateSystem is not part of this model. The id window is [MinInsnId, MaxInsnId].
- src/Sim/Memory/MemOrderManager/MemOrderOperations.h is not part of this model, so SetTargetEndian is a plain setter.
- Page contents. The model tracks mappings, physical pages and their reference counts, not bytes. TargetMemset and MemCopyToTarget keep only their copy-on-write effect, and MemCopyToHost is not modelled.
- MemorySystem's AddHeapBlock and CheckValueOnPageBoundary are not modelled.
- The range form of AssignAndCopyPhysicalMemory is not modelled; the page form is.
- MemSystem.MemorySystem.MRemap reports whether the block moved only through a ghost out-parameter.
- ParamXmlPath nodes are values, so the sharing of shared_ptr nodes between paths is not modelled.
- Kanata's extraction of the Exec stage for the main form is not modelled.
- Kanata instructions are held by value. The iteration order of the loader's dictionaries is a ghost `order` sequence.
- DebugStub: ExecDebug, OnExec, HexStrToU64, and the register and memory accessors it calls into the emulator are not modelled. The model covers packet framing, checksums, acknowledgement, and the hex and binary codecs.
- StreamPrefetcher: the int overflow of distance*lineSize is not modelled; the line size is taken as 2^lineBitSize with lineBitSize < 31.
- GenericOp.RelTarget: its contract states only that the target is a 64-bit word with the same alignment as the pc. The value itself (next pc plus four times the signed displacement) is given by its body and used by the branch lemmas.
- VirtualMem.VirtualMemory.AssignRange: the contract states the resulting pages on success only. After a failure it states only that the mapping was extended, not by which pages.
- VirtualMem.VirtualMemory.SetMappingRange: the contract states the resulting pages on success only. After a failure it states only that the mapping was extended.
- Riscv32Decoder: the agreement of the RV32 and RV64 immediate decoders on common encodings is not stated.
- AlphaOps.VectorMinMax: in C++ a lane shift of 32 or more on the int-promoted lane value is undefined behaviour (the u8 and s8 lanes 4-7, the u16 and s16 lanes 2-3). The model gives those lanes their intended value. The as-written contribution (AlphaOps.LaneContributionAsWritten) covers the lanes whose shift is below 32.
- KanataView.InsnView.GetDependencyRange: on an empty window the source indexes arrays sized by ViewCoordinateSystem, which is not part of this model. The model's window arrays are empty there, so the lookup returns a `Fail` result.
- Lru.LruTime.constructor: for 0 ways, or 255 ways and more, the reset state is stated but `Valid()` is not. The u8 stamps and tick wrap there, so the way order is not a permutation.
- HeapAlloc.HeapAllocator.Free: that a block starting at the address is always freed is stated only for an address-ordered allocated list. In an unordered list the source's candidate search can settle on another block.
- ParseInteger: .NET also accepts trailing NUL characters and culture-specific sign symbols. The model takes the invariant culture's '+' and '-' and no NULs.
- ParamXmlPath.ParamXmlPath.Back and ParamXmlPath.ParamXmlPath.AddArray: `back()` of an empty node list is undefined behaviour in C++. The model returns `None` or a `Fail` result there.
- CommonConverter: the source reads `decoded.Imm[immIndex]` without a bounds check. The model refuses an index outside the decoded immediates with a `Fail` result.
- ShttlBitset.Bitset.ShiftLeftAssign and ShttlBitset.Bitset.ShiftRightAssign: shifting the underlying 64-bit integer by 64 or more is undefined behaviour in C++. The model shifts every bit out.
- KanataLogLoader.LogLoader.GetStageId: in Debug builds the `Debug.Assert` checks at tool/Kanata/Kanata/LogLoader.cs:374 and 383 call GetStageId, which can register a new stage name. The model follows Release builds, where those checks are not evaluated.

## Findings

| source | as written | input that shows it | evidently intended | confidence | as-written member | corrected member |
|---|---|---|---|---|---|---|
| src/Emu/Utility/GenericOperation.h:612 | the carry of lhs + rhs + carry is reported only when lhs + rhs, or lhs + rhs + carry, wraps below rhs | 8-bit 0xFF + 0 + 1: the sum wraps to 0, but neither test holds, so the carry is 0 | carry out of the full three-term sum | not executed | GenericOp.CarryOfAddWithCarryMissed | GenericOp.CarryOfAddWithCarry |
| src/Emu/Utility/GenericOperation.h:647 | a borrow is reported whenever rhs is all ones | ~0 - ~0 - 0 = 0 reports a borrow | borrow exactly when lhs < rhs + borrow | not executed | GenericOp.BorrowOfSubWithBorrowSpurious | GenericOp.BorrowOfSubWithBorrow |
| src/Emu/Utility/GenericOperation.h:691-692 | an arithmetic shift by a count of at least the width gives 0 | 32-bit 0x80000000 shifted by 32 with a 6-bit count mask (sraw) gives 0 | copies of the sign bit: all ones for a negative value | not executed | GenericOp.AShiftRSrawExample | GenericOp.AShiftRSignFill |
| src/Emu/AlphaLinux/AlphaOperation.h:490-528 | every lane's minimum or maximum is shifted as an int and OR-ed into the packed word without masking it to the lane | MINSB8 with lhs lane 0 = 0xFF and every other byte 0: the lane minimum -1 fills all 64 bits; MINUB8 with byte 3 of both operands 0x80: 0x80 shifted into bit 31 sign-extends and fills the upper 32 bits | each lane holds only its own minimum or maximum | not executed | AlphaOps.LaneSpills | AlphaOps.LaneSelectValue |
| src/Emu/PPC64Linux/PPC64Operation.h:404-410 | crandc computes a or not b, the same as crorc | both CR bits clear: crandc yields 1 | a and not b | not executed | Ppc64Ops.CRAndCAsWrittenIsOrC | Ppc64Ops.CRLogicDuals |
| src/Emu/PPC64Linux/PPC64Operation.h:486-504 | mtfsf ORs the source into the FPSCR outside the selected fields too | field mask 0, clear FPSCR, source bit 0 set: FPSCR bit 0 becomes set | only the selected fields change | not executed | Ppc64Ops.MTFSFAsWrittenLeaks | Ppc64Ops.MTFSFFields |
| src/Emu/RISCV64Linux/RISCV64Operation.h:377-381 | JALR jumps to base + offset without clearing bit 0 | base 0x1001, offset 0: target 0x1001 | target 0x1000, bit 0 cleared | not executed | Riscv64Ops.JalrOddTarget | Riscv64Ops.JalrTargetsAgree |
| src/Emu/RISCV32Linux/RISCV32Operation.h:790-792 | a write to FRM keeps 2 bits of the 3-bit rounding mode | writing RMM (4) to FRM reads back 0 | all 3 bits kept, as the FCSR write does | not executed | Riscv32Ops.FrmWriteDropsRmm | Riscv32Ops.FrmWritesAgree |
| src/Emu/RISCV64Linux/RISCV64Decoder.cpp:362 | the CSR number is taken from a field five bits too high | csrr a0, frm (0x00202573) reads control register 0 | control register 2 | not executed | Riscv64Decoder.CsrFieldExample | Riscv64Decoder.CsrFieldShifted |
| src/Emu/RISCV64Linux/RISCV64Decoder.cpp:366 | the 5-bit zimm is sign-extended | csrrwi x0, fflags, 16 (0x00185073) writes -16 | zero-extended: 16 | not executed | Riscv64Decoder.ZimmExample | Riscv64Decoder.ZimmAgree |
| src/Emu/RISCV64Linux/RISCV64Decoder.cpp:231 | the C.BEQZ/C.BNEZ offset is not sign-extended from bit 8 | c.beqz x8, -2 (0xDC7D) gives +510 | -2 | not executed | Riscv64Decoder.CbImmExample | Riscv64Decoder.CbImmAgree |
| src/Emu/RISCV64Linux/RISCV64Decoder.cpp:192-198 | the C.ADDI16SP immediate drops nzimm[6] and misplaces the sign | c.addi16sp sp, 64 (0x6121) adds 0; c.addi16sp sp, -16 (0x717D) adds 1008 | 64 and -16 | not executed | Riscv64Decoder.Addi16spExamples | Riscv64Decoder.Addi16spImmShape |
| src/Emu/RISCV64Linux/RISCV64Decoder.cpp:106-122 | the unsigned compressed load/store and ADDI4SPN offsets are sign-extended | c.ld a0, 128(a1) (0x61C8) gives -128; c.addi4spn s0, sp, 1020 (0x1FE0) gives -4 | 128 and 1020 | not executed | Riscv64Decoder.UnsignedOffsetExamples | Riscv64Decoder.UnsignedOffsetBounds |
| src/Emu/RISCV64Linux/RISCV64Decoder.cpp:147-148 | the C.ADDI4SPN destination is read from bits 7-9 | c.addi4spn a0, sp, 8 (0x0028) writes x8 | x10, from bits 2-4 | not executed | Riscv64Decoder.Addi4spnDestExample | Riscv64Decoder.Addi4spnDestAgree |
| src/Emu/PPC64Linux/PPC64Decoder.cpp:523-534 | the extended-opcode lookup uses lower_bound and never checks the key it lands on | 0x4C000002 (primary 19, extended 1, not in the table) decodes as the next entry | undefined instruction | not executed | Ppc64Decoder.AbsentExtendedOpcodeExample | Ppc64Decoder.FindExact |
| src/Emu/Utility/System/VirtualSystem.cpp:86-89 | AddMap doubles the table once, whatever the fd | descriptor 20 on the initial 8-entry table is written past the end | the table grows to hold the fd | not executed | VirtualSys.AddMapPastEndAsWritten | VirtualSys.FDConv.AddMap |
| src/Emu/Utility/System/VirtualSystem.cpp:94-101 | RemoveMap checks only for a negative fd before reading the table | removing descriptor 8 from the 8-entry table reads past the end | an fd beyond the table is refused | not executed | VirtualSys.RemoveMapPastEndAsWritten | VirtualSys.FDConv.RemoveMap |
| src/Emu/Utility/System/Memory/HeapAllocator.cpp:197-200 | Free(addr, size) refuses the range when the candidate block contains it | block [0x1000, +0x3000], free 0x1000 +0x1000: refused | refused when the block does not contain it | not executed | HeapAlloc.FreeHeadRefusedAsWritten | HeapAlloc.HeapAllocator.FreeRange |
| src/Sim/Memory/MemOrderManager/MemOrderOperations.cpp:102 | the store value is converted with the store's sign flag as its size | an unsigned 4-byte store merged on a big-endian target fails with "Invalid size." | converted by the store's size | not executed | MemOrderOps.UnsignedStoreMergeAsWritten | MemOrderOps.MergePartialAccess |
| src/Sim/System/EmulationDebugSystem/DebugStub/DebugStub.cpp:634-638 | each byte is shifted as an int before it is added to the 64-bit value | binary bytes 00 00 00 80 read as 0xFFFFFFFF80000000 | 0x80000000 | not executed | DebugStub.ParseBinarySignExtends | DebugStub.BinaryRoundTrip |
| tool/Kanata/Kanata/LogLoader.cs:90-92 | the "not a valid number" message is formatted and dropped | field "1x" reads as 0 and leaves no error | one error logged | not executed | KanataLoader.NonDigitSilentAsWritten | KanataLoader.NumberErrorsReport |
| tool/Kanata/Kanata/LogLoader.cs:531-537 | EndStage dereferences the lane's open stage without checking it | an E command for a lane with no open stage throws | one error logged, nothing else changed | not executed | KanataLoader.EndStageNoOpenStage | KanataLoader.CloseStageRules |
