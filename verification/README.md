# Boot translation table, free list and byte macros

A Dafny model of the executable parts of four headers of the BeagleBone board support package.

- `install/usr/include/arm/arm_tlb.h`: `arm_setup_tlb` turns a sentinel-terminated table of
  regions into the 4096-entry first-level translation table of 1M sections (short-descriptor
  format, section B3.5 of the ARM Architecture Reference Manual, ARMv7-A edition).
- `install/usr/include/sim.h`: `SIM_MBLOCK_ALLOC` and `SIM_MBLOCK_FREE`, a free list whose links
  live in the first word of the free blocks, guarded by a lock.
- `install/usr/include/ntoscsi.h`: the 24- and 48-bit byte-order macros, little- and big-endian.
- `install/usr/include/ntocam.h`: `CAM_ALIGN`, `CAM_ALIGN_MASK` and the `CAM_ENDIAN_SWAP32` loop.

## How it is laid out

| file | contents |
|---|---|
| `Bits.dfy` | C's unsigned operators on naturals, defined on binary digits, and their arithmetic meaning |
| `ArmTlb.dfy` | the builder loop for loop, with 32-bit wrapping addition; `Slot`, what each entry holds |
| `TlbCursor.dfy` | which region writes which slot, for any list of regions; the cursor in closed form |
| `TlbMap.dfy` | descriptor fields; address translation through the finished table |
| `TlbRegions.dfy` | unaligned regions, the declared attribute map, cutting a region in two |
| `FreeList.dfy` | the free list on a mutable memory, each macro one atomic operation |
| `FreeListThreads.dfy` | the same list used by any number of threads, one shared-memory access a step |
| `ByteOrder.dfy` | the byte readers, with C's promotion of bytes to `int` and sign extension written out |
| `Codec.dfy` | the byte writers, the byte-reversal macros and the round trips |
| `CamMacros.dfy` | alignment for any word width, and the in-place swap loop |

`unsigned` and `unsigned long` are 32 bits wide, so the sentinel `-1L` is `0xFFFFFFFF`; `int` is
32-bit two's complement.

## What the proofs found

- The `base >= table->start` test of the mapping loop (line 72) never decides anything: with the
  `offset < TLB_SIZE` test in place the address never wraps while a slot is left to fill, and the
  hole loop needs no test of its own.
- The table translates every address to itself exactly when no non-empty region is reached with
  the write cursor past that region's first section (`TlbMap.IdentityIffInStep`). Otherwise the
  addresses are displaced by exactly the overrun (`TlbMap.WalkExact`); `TlbRegions.UnsortedDisplaced`
  is an example.
- A region reached with the cursor not past its first section writes every section it touches,
  except that it loses the last one exactly when the offsets of its first and last byte within
  their sections add up to a carry; `TlbRegions.UnalignedMiss` is an example. A region reached
  later than that always loses its first section (`TlbRegions.Coverage`). So every region gets
  exactly the sections it touches if and only if each non-empty one is reached in step and misses
  none (`TlbRegions.CoversExactly`), and then the table is the declared map.
- The 48-bit macros are not inverse on all 48-bit values. Both readers shift a promoted byte by 24
  (lines 63 and 91), which sign-extends when bit 31 is set; the little-endian writer stores bits
  48 to 55 where bits 40 to 47 belong (line 72). `Codec.RoundTrip48Be` and `Codec.RoundTrip48Le`
  say exactly which values come back; `Codec.LostValues` gives values that do not.
- `CAM_ALIGN` rounds up exactly for powers of two, and where the addition overflows it gives 0.
- `CAM_ENDIAN_SWAP32` with a 32-bit count of 0 runs 2^32 times.

## Model

| member | source | states |
|---|---|---|
| ArmTlb.ArmSetupTlb | install/usr/include/arm/arm_tlb.h:59-84 | for any table that is null or has a stop entry: the finished table is the one for all regions before the first entry whose start is 0xFFFFFFFF, slots 0 to 4095 are each written once and in that order, nothing beyond them changes, and the cursor after the regions is the folded one |
| ArmTlb.WrapNeverBites | install/usr/include/arm/arm_tlb.h:72-76 | for every start, length and entry cursor: `base`, incremented modulo 2^32, is the true address whenever a slot is left, and the three-part guard means just "one of the region's sections, and room" |
| ArmTlb.ActiveStops | install/usr/include/arm/arm_tlb.h:64 | the regions handled are all those before the first entry whose start is 0xFFFFFFFF, and no other start word stops the table |
| TlbCursor.SlotAccount | install/usr/include/arm/arm_tlb.h:64-83 | for any list of regions every slot is owned by at most one region; an owned slot holds that region's entry, every other slot is a hole |
| TlbCursor.CursorIsLongestPath | install/usr/include/arm/arm_tlb.h:64-78 | the cursor before region k is the longest path through the regions so far (all sections asked for, or those from some region's first section on), cut off at 4096 |
| TlbMap.SectionFields | install/usr/include/arm/arm_tlb.h:39-47 | all 32 bits of a section entry, field by field, for any address and any attribute word: domain 15 and access 3 always, the others taken from the attribute word's own bits |
| TlbMap.WellFormedIff | install/usr/include/arm/arm_tlb.h:73-75 | an entry is a 1M section for its own address if and only if the attribute word has bits 0 and 18 clear and adds no base bit |
| TlbMap.HoleFields | install/usr/include/arm/arm_tlb.h:69 | a hole is a 1M section for its own slot, neither cached nor buffered |
| TlbMap.CacheAttrBits | install/usr/include/arm/arm_tlb.h:42-45 | the attribute words made of B_ENA and C_ENA are those that set no bit but 2 and 3 |
| TlbMap.CacheChoices | install/usr/include/arm/arm_tlb.h:42-45 | B_ENA sets just the bufferable bit of an entry and C_ENA just the cacheable bit |
| TlbMap.TableWellFormed | install/usr/include/arm/arm_tlb.h:59-84 | with attributes made of B_ENA and C_ENA, every entry of any table decodes to a 1M section of domain 15 with read/write access and its region's cache bits |
| TlbMap.WalkExact | install/usr/include/arm/arm_tlb.h:59-84 | each address is translated to itself less the distance the cursor had run past the region owning its section |
| TlbMap.IdentityExact | install/usr/include/arm/arm_tlb.h:59-84 | for any regions and attribute words: identity on all 2^32 addresses if and only if every owned slot is given its own number |
| TlbMap.IdentityIffInStep | install/usr/include/arm/arm_tlb.h:55-84 | with attributes clear of bits 31:20: identity on all 2^32 addresses if and only if no non-empty region is reached with the cursor past its first section |
| TlbRegions.TouchesHasAddress | install/usr/include/arm/arm_tlb.h:49-53 | a region touches a section if and only if one of its addresses lies in it |
| TlbRegions.Coverage | install/usr/include/arm/arm_tlb.h:65-76 | for any region of any list, exactly which of the sections it touches it writes (those not below the cursor, less the last one when it is reached in step and the offsets carry), and exactly which it writes without touching them |
| TlbRegions.CoveredExactly | install/usr/include/arm/arm_tlb.h:65-76 | a region writes exactly the sections it touches if and only if it is empty, or is reached in step and misses no section of the table |
| TlbRegions.CoversExactly | install/usr/include/arm/arm_tlb.h:64-78 | over the whole table: every region writes exactly the sections it touches if and only if every non-empty one is reached in step and misses no section of the table |
| TlbRegions.CoverageEntry | install/usr/include/arm/arm_tlb.h:64-78 | what the finished table holds in any touched section: what earlier regions made of it below the cursor, what later ones make of it where the last section is missed, and otherwise the region's attribute with the address of the step that reached it |
| TlbRegions.UnalignedMiss | install/usr/include/arm/arm_tlb.h:72-76 | a concrete unaligned region whose second touched section stays uncached |
| TlbRegions.UnsortedDisplaced | install/usr/include/arm/arm_tlb.h:64-78 | two concrete regions in descending order send address 0x200000 to 0 |
| TlbRegions.TableIsDeclaredMap | install/usr/include/arm/arm_tlb.h:59-84 | under the condition of `CoversExactly`, alignment not needed: entry i is section i with the attribute of the region touching it, or plain if none does |
| TlbRegions.OrderlyCovers | install/usr/include/arm/arm_tlb.h:59-84 | aligned, ascending, non-overlapping regions meet that condition |
| TlbRegions.TouchOnce | install/usr/include/arm/arm_tlb.h:49-53 | under that condition no section of the table is touched by two regions, so the declared attribute is unambiguous |
| TlbRegions.TranslationIsDeclared | install/usr/include/arm/arm_tlb.h:55-84 | end to end: under that condition and with cache attributes every address is translated to itself, cached and buffered as declared |
| TlbRegions.SplitInvariance | install/usr/include/arm/arm_tlb.h:64-78 | in any table, cutting a region in two at a section multiple from its start leaves the whole finished table unchanged |
| FreeList.BlockList.Alloc | install/usr/include/sim.h:245-248 | pops the top of the stack the chain represents and hands out a block that was not held |
| FreeList.BlockList.Free | install/usr/include/sim.h:250-253 | pushes a held block; only its first word changes |
| FreeList.BlockList.Store | install/usr/include/sim.h:245-253 | a client's write to any word of a held block, the former link included, leaves the list as it was |
| FreeList.ChainAcyclic | install/usr/include/sim.h:245-253 | a chain of links that ends in null visits no block twice |
| FreeList.FreeEndsIffNotListed | install/usr/include/sim.h:250-253 | freeing any block of the pool leaves a chain that ends if and only if the block was not already on the list |
| FreeListThreads.StepKeepsInv | install/usr/include/sim.h:245-253 | each shared-memory step of any thread, or client write, is one stack operation or none, and keeps the chain, mutual exclusion and the partition of the pool |
| FreeListThreads.RunRefinesStack | install/usr/include/sim.h:245-253 | the pushes and pops of any interleaved run form a last-in-first-out history whose final stack is the linked list |
| FreeListThreads.RunConserves | install/usr/include/sim.h:245-253 | after any run from an initial pool the list is acyclic and every block is in exactly one place: the list, the clients, or one thread |
| FreeListThreads.WordKeepsClientValue | install/usr/include/sim.h:245-253 | over any run, every word but the link word of a block being given back holds the last value a client wrote to it, or its first value |
| FreeListThreads.HeldBlockKeepsContents | install/usr/include/sim.h:245-253 | what a client stored in a held block stays there until someone calls free on the block, whatever all other threads and clients do |
| FreeListThreads.OutsideUntouched | install/usr/include/sim.h:245-253 | no run changes memory outside the pool |
| FreeListThreads.AllocTakesEffectOnce | install/usr/include/sim.h:245-248 | in any run, between taking the lock and unlocking, an allocating thread has exactly one event, the pop of the block it hands out |
| FreeListThreads.FreeTakesEffectOnce | install/usr/include/sim.h:250-253 | in any run, between the call and the unlock, a freeing thread has exactly one event, the push of the block it was given |
| FreeListThreads.NoDoubleHandOut | install/usr/include/sim.h:245-253 | between two hand-outs of the same block in any run, some thread freed it |
| FreeListThreads.LockHolderProceeds | install/usr/include/sim.h:245-253 | the thread in the critical section can always take its next step, except that an allocation meets a null head exactly when every block is out |
| FreeListThreads.CriticalSectionEnds | install/usr/include/sim.h:245-253 | each step of the lock holder brings it one nearer to unlocking, at most five away, and nobody else's step sets it back |
| FreeListThreads.FreeLockIsTaken | install/usr/include/sim.h:245-253 | a free lock can be taken by any idle thread for an allocation and by any thread waiting to free, whatever is held or listed |
| FreeListThreads.ClientsProceed | install/usr/include/sim.h:245-253 | an idle thread can free any held block, and any word of a held block can be written with any value at any time |
| FreeListThreads.StepIsLocal | install/usr/include/sim.h:245-253 | a step changes its own thread only, and the set of threads stays |
| FreeListThreads.RunNeverStuck | install/usr/include/sim.h:245-253 | in every reachable state some thread can step, unless the lock holder is about to follow a null head with every block out |
| FreeListThreads.RunExtends | install/usr/include/sim.h:245-253 | a run can be continued by exactly the steps enabled in its last state |
| FreeListThreads.InitialStates | install/usr/include/sim.h:245-253 | every laid-out pool, every order of its free blocks, every set of held blocks and every set of threads has an initial state |
| ByteOrder.Ret24IsValue | install/usr/include/ntoscsi.h:52-54 | the 24-bit readers return the value of the three bytes in their byte order |
| ByteOrder.Ret48LeIs | install/usr/include/ntoscsi.h:60-65 | the little-endian reader returns the value of the six bytes, or all ones above bit 31 when the fourth byte's top bit is set |
| ByteOrder.Ret48BeIs | install/usr/include/ntoscsi.h:89-94 | the big-endian reader likewise, on the third byte |
| Codec.Put24Le | install/usr/include/ntoscsi.h:56-58 | writes the three low bytes, least significant first, and changes nothing else |
| Codec.Put24Be | install/usr/include/ntoscsi.h:85-87 | writes the three low bytes, most significant first, and changes nothing else |
| Codec.Put48Le | install/usr/include/ntoscsi.h:67-72 | writes bytes 0 to 4 and then byte 6 of the value, and changes nothing else |
| Codec.Put48Be | install/usr/include/ntoscsi.h:96-101 | writes the six low bytes, most significant first, and changes nothing else |
| Codec.RoundTrip24 | install/usr/include/ntoscsi.h:52-58 | a write and then a read at any buffer position, either writer and either reader: the low 24 bits come back with the same byte order, `ENDIAN_RET24` of the value with the other; no other byte changes |
| Codec.RoundTrip48Be | install/usr/include/ntoscsi.h:89-101 | a write and then a read at any buffer position, for every 64-bit value: what is read, and if and only if it is the value; for 48-bit values, if and only if bit 31 is clear; no other byte changes |
| Codec.RoundTrip48Le | install/usr/include/ntoscsi.h:60-72 | a write and then a read at any buffer position, for every 64-bit value: what is read, and if and only if it is the value; for 48-bit values, if and only if bit 31 is clear and the value is below 2^40; no other byte changes |
| Codec.StoreLoad24Le | install/usr/include/ntoscsi.h:52-58 | the little-endian writer run on a buffer, then both readers at the same place: the bytes stored, what each reader returns, and nothing else changed |
| Codec.StoreLoad24Be | install/usr/include/ntoscsi.h:81-87 | the big-endian writer run on a buffer, then both readers at the same place: the bytes stored, what each reader returns, and nothing else changed |
| Codec.StoreLoad48Le | install/usr/include/ntoscsi.h:60-72 | the little-endian 48-bit writer run on a buffer, then its reader: the bytes stored, the value read for every 64-bit value, exactly when it is the value written, and nothing else changed |
| Codec.StoreLoad48Be | install/usr/include/ntoscsi.h:89-101 | the big-endian 48-bit writer run on a buffer, then its reader: the bytes stored, the value read for every 64-bit value, exactly when it is the value written, and nothing else changed |
| Codec.LostValues | install/usr/include/ntoscsi.h:60-101 | concrete 48-bit values that do not come back |
| Codec.EndianRet24Reverses | install/usr/include/ntoscsi.h:33-35 | `ENDIAN_RET24` is byte reversal of the low three bytes |
| Codec.EndianRet48Reverses | install/usr/include/ntoscsi.h:37-42 | `ENDIAN_RET48` is byte reversal of the low six bytes |
| Codec.EndianInvolution | install/usr/include/ntoscsi.h:33-42 | reversing twice gives back the low 24 or 48 bits |
| Bits.AndIsBitwise | install/usr/include/ntocam.h:51 | the model's `&` is the one word whose digits are set where both operands' are |
| Bits.OrIsBitwise | install/usr/include/arm/arm_tlb.h:73-75 | the model's bitwise or is the one word whose digits are set where either operand's is |
| Bits.NotIsBitwise | install/usr/include/ntocam.h:51 | the model's `~` is the one word with the opposite digits inside the width and none above |
| CamMacros.AlignIsLeastMultiple | install/usr/include/ntocam.h:50-51 | for every width, power-of-two alignment and value: the least multiple not below the value if and only if the addition does not overflow, else 0 |
| CamMacros.AlignMonotoneIdempotent | install/usr/include/ntocam.h:50-51 | aligning keeps order and leaves aligned values alone |
| CamMacros.AlignWorksIffPow2 | install/usr/include/ntocam.h:50-51 | the mask form rounds up for all values whose addition fits if and only if the alignment is a power of two |
| CamMacros.AlignMaskDigits | install/usr/include/ntocam.h:51 | every digit of the result, for any mask and any value: the wrapped sum's digit outside the mask |
| CamMacros.AlignMaskOf | install/usr/include/ntocam.h:50 | the mask is one below the alignment; alignment 0 gives 0 |
| CamMacros.EndianSwap32 | install/usr/include/ntocam.h:53 | the four bytes of exactly the words counted (2^32 of them for a count of 0) are in the opposite order afterwards, all other words are as they were, the pointer is past the counted words and the counter is 0 |
| CamMacros.SwapReverses | install/usr/include/ntocam.h:53 | the word swap puts each of the four bytes in the opposite place |
| CamMacros.SwapRangeTwice | install/usr/include/ntocam.h:53 | two passes from the same start restore the array |

## Left out

- The region table and the translation table are distinct memory; a caller passing overlapping ones is not modelled.
- The 16K alignment of the table, caches and the MMU itself; `TlbMap.Walk` is only the address arithmetic of a section walk.
- `pthread_sleepon_lock` is taken as a lock that at most one thread holds; fairness and waiting order are not modelled.
- `ENDIAN_SWAP32` is not part of this model beyond its meaning, in-place reversal of four bytes.
- Misaligned block addresses and blocks smaller than one pointer: memory is addressed by words.
- FreeListThreads.LockHolderProceeds: the macro does not test for an empty list, so what a load through null does is not modelled; such a step is simply not enabled.
- Shifting a promoted byte into the sign bit is undefined in strict C; it is modelled as two's complement.
- Codec.Put48Le: the value is a 64-bit word; a narrower argument makes the shift by 48 undefined.
- CamMacros.AlignIsLeastMultiple: types narrower than `int`, where the addition happens in `int`, are not modelled.
- `simq_*`, `sim_malloc`, `xpt_*`, `scsi_*` and `cam_*`: only prototypes in these headers.
- The system-on-chip register headers, SCSI structures and option macros: constants and layout only.
