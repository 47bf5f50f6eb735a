# Verified model of NEMU, its kernel and the typing game

NEMU is an IA-32 emulator with a monitor; beside it stand a small kernel and a game that run on it.
This Dafny project models the parts whose correctness is not visible from one function body, keeps
the form of the C code (methods with loops over mutable state), and proves what each part is for.
Every component is modelled as written, also the data cache, which include/config.h:7 leaves out of the
shipped build.

What is modelled, and the main results:

* **Binary32 arithmetic** (`Binary32`, `Rounding`, `Fpu`, `FpuAdd`, `FpuMul`, `FpuDiv`). The meaning of a
  bit pattern is a real number, and correct rounding is stated as IEEE 754-2008 states it: nearest among
  all finite numbers, ties to even, infinity from the overflow threshold. The loops carry a ghost exact
  value along. Addition and subtraction are correctly rounded for all finite operands. Multiplication and
  division are proved correct exactly when a stated condition on the operands holds, and the failing
  inputs are named.
* **Memory** (`Words`, `Bytes`, `Memory`, `Cache`, `Paging`, `PageTables`). The 8-way, 128-set write-through cache
  refines flat memory over whole runs; page-splitting accesses refine bytewise translation; the kernel's
  tables realise the intended maps for every 32-bit address under the two-level walk.
* **Integer ALU** (`Alu`, `MultiLimb`). Flags computed through sign extension, parity folding and two-stage
  carry are the mathematical ones at 8, 16 and 32 bits; chains of any number of limbs are exact.
* **Interrupt controller** (`Pic`). Every interleaving of any number of device threads with the CPU, in
  micro-steps around the mutex, with the query outside it.
* **Debugger** (`Breakpoints`, `Expr`). The breakpoint pool with its undo log of patched bytes, and the
  expression evaluator from tokens on: every text that the precedence levels of C allow has its value.
* **Typing game** (`Linklist`, `Letters`, `Typing`). The fixed pool of doubly linked elements, the letters,
  and the main loop that catches up with the timer, for every frequency of at least 100 and every history
  of timer and keyboard interrupts: the game is a function of its inputs, however the loop falls behind.
* **Kernel files** (`Fs`). The offset machine over the file table; the disk is a function from addresses to
  bytes.

## Where the code and what is expected of it part

The model follows the code. Each point below is a theorem in both directions, or a lemma with a concrete
input, in the table further down.

* A product whose magnitude rounds up to 2^-126 comes out as zero, because the carry out of a subnormal
  significand is masked away (nemu/src/cpu/fpu.c:94-103). Some products of a subnormal operand come out
  doubled, because exponent field 0 is taken to mean two subnormals (nemu/src/cpu/fpu.c:75-79). The test
  in nemu/src/cpu/test/fpu_test.c:155-165 expects equality with the host for all such operands.
* Division drops the remainder (nemu/src/cpu/fpu.c:388), so an apparent tie may go the wrong way. The
  result is the correct one or the bit pattern below it exactly as long as no carry is lost; where one is,
  as in 0x00ffffff / 0x40000000, zero comes out in place of 2^-126.
* A cache write across two blocks whose low block is not resident reaches memory only
  (nemu/src/memory/cache.c:103-105): a resident high block goes stale.
* A linear write across two pages translates the second page after the first is written
  (nemu/src/memory/memory.c:93-94): a write that hits the entry of its own second page may land elsewhere.
* A device that raises irq 223 makes the CPU's assertion fail, since 223 + 32 is the number that means no
  interrupt. An acknowledgement erases every irq stored since the one before but the delivered one: lower
  ones whenever they were stored, higher ones when they were stored after the query.
* Deleting a breakpoint does not put its byte back (nemu/src/monitor/breakpoint.c:102-128): the trap stays
  in memory unless an older entry for the address is left, the next newer one remembers the same byte, or
  there is no other entry and memory holds the byte already. Resuming with an address listed twice makes the
  trap permanent there, and so does, for every other breakpoint, resuming after a hit, because a hit puts back
  one byte only (nemu/src/cpu/cpu.c:65-83). Running on from one breakpoint to another therefore stops for
  good: the second hit puts the trap back, unless all hits so far were there. `mask_breakpoints`, which would
  undo the patches, has no caller.
* The expression evaluator resets its success flag after evaluating the operands
  (nemu/src/monitor/expr.c:319), and operators of one priority group to the right. A sum has the expected
  value exactly when twice the terms behind an odd number of earlier minus signs come to 0 modulo 2^32:
  5 - 2 - 1 is 4.
* The game's comment says that the drop speed is random (game/src/typing/effect.c:44); it is one half always.
* `alu_sar` takes the carry from the operand extended with zeroes (nemu/src/cpu/alu.c:417): for a negative
  operand and a count above its width the carry is 0, where the last bit shifted out is 1. Counts are not
  masked to five bits before (nemu/src/cpu/instr/sar.c:3-9).
* `fs_read` never delivers the last byte of a file, unless the 32-bit sum of offset and length wraps, and then
  the read is not capped at all; seeking to the end lands before it.

## Model

| member | source | states |
|---|---|---|
| Binary32.RoundsUnique | nemu/src/cpu/fpu.c:9-111 | roundTiesToEven (IEEE 754-2008, sections 4.3.1 and 5.4.1) has exactly one result for a non-zero exact value: the specification the unit is measured against is a function |
| Binary32.NearestRounds | nemu/src/cpu/fpu.c:81-111 | the neighbour form (between the midpoints around a magnitude, ties to even) implies roundTiesToEven: nearest among all finite numbers, or infinity from the overflow threshold on |
| Binary32.RoundsNearest | nemu/src/cpu/fpu.c:81-111 | and conversely: nearest among all finite numbers, or infinity from the threshold on, implies the neighbour form |
| Binary32.NearestOverflow | nemu/src/cpu/fpu.c:31-36 | the neighbour form allows infinity exactly at and above the overflow threshold: overflow is part of the same rounding |
| Binary32.NearestIsClosest | nemu/src/cpu/fpu.c:81-104 | a magnitude between its midpoints is at least as near as every other one, and a tie makes it even |
| Binary32.MagMono | nemu/src/cpu/fpu.c:9-111 | bit patterns of non-negative floats are ordered like their values, across the subnormal and the binade boundaries |
| Binary32.OverflowIsMid | nemu/src/cpu/fpu.c:31-36 | the overflow threshold is the midpoint above the largest finite number |
| Rounding.ShiftStickyTracks | nemu/src/cpu/fpu.c:15-28 | a right shift that folds the lost bit into the sticky bit keeps every comparison of the exact value with multiples of 2: one step of the sticky loops |
| Rounding.RoundGrsNear | nemu/src/cpu/fpu.c:81-92 | the three guard bits round to the nearest integer, ties to even, of the exact value they stand for |
| Rounding.AssembleMag | nemu/src/cpu/fpu.c:93-103 | a rounded significand added to the exponent field, carry included, is the magnitude of that value: crossing into the next binade is right |
| Rounding.RoundingIsNearest | nemu/src/cpu/fpu.c:81-111 | rounding a normalised significand by guard, round and sticky gives the nearest magnitude to the exact value, carry into the next binade included |
| Rounding.LowerBinade | nemu/src/cpu/fpu.c:56-74 | a normalised significand stands for a value above the last midpoint below its binade, so it never has to round into the binade below |
| Fpu.Lookup | nemu/src/cpu/fpu.c:131-137 | a corner table answers with its first matching line, and is passed over exactly when no line matches |
| Fpu.InternalNormalize | nemu/src/cpu/fpu.c:9-111 | for any exact magnitude that the significand tracks: the delivered word has the given sign and the correctly rounded magnitude, except that a subnormal rounding up to 2^-126 loses its carry and comes out as zero |
| Fpu.NormalizeRight | nemu/src/cpu/fpu.c:15-54 | the right-normalising loop leaves either the final answer (infinity, or zero on underflow) or a significand aligned with the same exact value |
| Fpu.NormalizeLeft | nemu/src/cpu/fpu.c:55-74 | the left-normalising loop with the subnormal correction leaves a significand aligned with the same exact value |
| Fpu.RoundOff | nemu/src/cpu/fpu.c:81-111 | rounding and the second carry deliver the nearest magnitude to the exact value, or zero where the carry is lost |
| Fpu.LostCarryIsWrong | nemu/src/cpu/fpu.c:94-103 | where the carry is lost, zero is not the nearest magnitude: the exception is a real one |
| Fpu.RoundedDelivers | nemu/src/cpu/fpu.c:81-111 | a significand aligned with the exact value rounds to the nearest magnitude when the field is at least 1, and modulo 2^23 when it is 0 |
| FpuAdd.InternalFloatAdd | nemu/src/cpu/fpu.c:128-220 | for all finite a, b, subnormals and signed zeros included, the result is roundTiesToEven(a + b) with the overflow to infinity and the zero-sign rule of IEEE 754-2008 section 6.3; an infinity absorbs finite numbers and its own kind, opposite infinities give the negative NaN, and of the two NaNs of the unit the positive one wins |
| FpuAdd.AlignSmaller | nemu/src/cpu/fpu.c:187-194 | the sticky alignment loop, for every shift count: the shifted significand tracks the exact shifted operand |
| FpuAdd.ShiftOnce | nemu/src/cpu/fpu.c:188-194 | one turn of the sticky loop is the sticky shift, and the sticky bit stays lowest |
| FpuAdd.SumKeepsCarry | nemu/src/cpu/fpu.c:196-220 | no sum or difference of two finite numbers falls in the half unit below 2^-126, so addition never loses the carry |
| FpuAdd.SumTracks | nemu/src/cpu/fpu.c:196-206 | adding or subtracting the shifted significand and the whole one still tracks the exact sum |
| FpuAdd.AddWrapped | nemu/src/cpu/fpu.c:196-216 | the unsigned 32-bit addition of sign-adjusted significands recovers the sign and the magnitude of the integer sum |
| FpuAdd.AddAligned | nemu/src/cpu/fpu.c:161-220 | once the operand with the larger exponent is second, the whole path gives the correctly rounded sum, and +0 for an exact zero |
| FpuAdd.SumRounds | nemu/src/cpu/fpu.c:218-220 | what normalisation delivers for the exact sum is roundTiesToEven of it |
| FpuAdd.CornerAdd | nemu/src/cpu/fpu.c:113-125 | every line of the addition table agrees with the general rule for sums, down to which NaN comes out |
| FpuAdd.InternalFloatSub | nemu/src/cpu/fpu.c:234-251 | for all finite a, b the result is the correctly rounded a - b with the zero-sign table, and a - a is +0; infinity less a finite number or less the other infinity is itself, a finite number less infinity is the other infinity, equal infinities and NaNs as for sums |
| FpuAdd.CornerSub | nemu/src/cpu/fpu.c:222-231 | every line of the subtraction table agrees with the general rule for differences |
| FpuMul.InternalFloatMul | nemu/src/cpu/fpu.c:265-314 | for every pair of bit patterns: the special value, or the sign of the product with what normalisation delivers for the exact product (twice the product where a product of a subnormal slips through the two-subnormals branch) |
| FpuMul.MultiplySignificands | nemu/src/cpu/fpu.c:291-313 | the 48-bit product with its exponent stands exactly for the real product before rounding |
| FpuMul.ProductCommutes | nemu/src/cpu/fpu.c:265-314 | multiplication commutes on all bit patterns, NaN patterns included |
| FpuMul.ProductRounds | nemu/src/cpu/fpu.c:265-314 | for finite non-zero operands the result is roundTiesToEven(a * b) if and only if the operands do not slip through the two-subnormals branch and the product is not in the half unit below 2^-126 |
| FpuMul.NormalProductRounds | nemu/src/cpu/fpu.c:265-314 | normal operands with a product of at least 2^-126 in magnitude always round correctly, overflow included |
| FpuMul.CornerMulIsSpecial | nemu/src/cpu/fpu.c:253-262 | every line of the multiplication table agrees with the special-value rule |
| FpuMul.ZeroProduct | nemu/src/cpu/fpu.c:282-285 | zero times a finite number is the exact product 0, with the exclusive-or of the signs |
| FpuMul.InfiniteProduct | nemu/src/cpu/fpu.c:286-289 | infinity times any number but zero is the infinity with the exclusive-or of the signs |
| FpuMul.NaNProduct | nemu/src/cpu/fpu.c:253-276 | zero times infinity is the negative NaN; of the two NaNs of the unit the positive one wins over every operand |
| FpuMul.LostCarryWitness | nemu/src/cpu/fpu.c:94-103 | 0x3f7fffff * 0x00800000 comes out as +0 although the correctly rounded product is 2^-126 |
| FpuMul.ScaleSlipWitness | nemu/src/cpu/fpu.c:75-79 | 0x00000001 * 0x49000000 comes out as 2^-129 although the product 2^-130 is representable |
| FpuDiv.InternalFloatDiv | nemu/src/cpu/fpu.c:331-396 | for every pair of bit patterns: the special value, or the sign of the quotient with what normalisation delivers for the quotient truncated to the integer division |
| FpuDiv.ZeroQuotient | nemu/src/cpu/fpu.c:355-359 | zero over a finite number other than zero is the exact quotient 0, with the exclusive-or of the signs |
| FpuDiv.OverInfinity | nemu/src/cpu/fpu.c:360-363 | a finite number over infinity is the zero with the exclusive-or of the signs |
| FpuDiv.InfiniteQuotient | nemu/src/cpu/fpu.c:347-354 | a finite number other than zero over zero, and infinity over a finite number, are the infinity with the exclusive-or of the signs |
| FpuDiv.NaNQuotient | nemu/src/cpu/fpu.c:316-346 | 0 / 0 and infinity over infinity are the negative NaN; of the two NaNs of the unit the positive one wins over every operand |
| FpuDiv.ScaleOperands | nemu/src/cpu/fpu.c:375-386 | both scaling loops end, with the dividend shifted to bit 63, the divisor to its odd part and the exact number of places gained |
| FpuDiv.DivideSignificands | nemu/src/cpu/fpu.c:388-395 | the integer quotient with its exponent stands for the exact quotient with the remainder dropped |
| FpuDiv.TruncatedBelow | nemu/src/cpu/fpu.c:388 | the exact quotient lies at or above the truncated one by less than one integer step, and equals it exactly when no remainder is dropped |
| FpuDiv.DroppedNearest | nemu/src/cpu/fpu.c:388 | dropping less than one step never changes the nearest magnitude, except that from an even tie the correct result is the next number up |
| FpuDiv.QuotientRounds | nemu/src/cpu/fpu.c:331-396 | for finite non-zero operands the result is roundTiesToEven(a / b) if and only if the truncated quotient keeps its carry and no remainder is dropped from an even tie |
| FpuDiv.QuotientFaithful | nemu/src/cpu/test/fpu_test.c:83-126 | for all finite non-zero operands the result is the correctly rounded quotient or the float one bit pattern below it if and only if the truncated quotient keeps its carry |
| FpuDiv.NormalQuotientFaithful | nemu/src/cpu/fpu.c:331-396 | a quotient of at least 2^-126 in magnitude never loses a carry, so division is faithful there; infinity counts as the upper neighbour |
| FpuDiv.RepresentableQuotient | nemu/src/cpu/fpu.c:331-396 | a quotient that is a binary32 number comes out as that number |
| FpuDiv.DroppedTieWitness | nemu/src/cpu/fpu.c:388 | 0x3fd5498e / 0x3fe12e77 is not correctly rounded: the dropped remainder decides a tie |
| FpuDiv.LostQuotientWitness | nemu/src/cpu/fpu.c:94-103 | 0x00ffffff / 0x40000000 comes out as +0 although the correctly rounded quotient is 2^-126 |
| FpuDiv.CornerDivIsSpecial | nemu/src/cpu/fpu.c:316-329 | every line of the division table agrees with the special-value rule |
| Bytes.LittleEndianToBytes | nemu/src/memory/memory.c:12-22 | storing the low bytes of a word and loading them gives the word modulo 256^len |
| Bytes.LittleEndianJoin | nemu/src/memory/memory.c:65-70 | the value of two byte strings in a row is low + high * 256^n for n low bytes: what the split loads recombine |
| Bytes.ToBytesSplit | nemu/src/memory/memory.c:91-94 | the bytes of a word are those of its masked low part followed by those of its shifted high part |
| Bytes.ShiftedJoin | nemu/src/memory/memory.c:68-71 | shift and add in 32 bits recombines the two halves of a split load exactly |
| Memory.HwMemRead | nemu/src/memory/memory.c:12-17 | copying up to four bytes over a zeroed word loads exactly their little-endian value: the untouched bytes of the word do not count |
| Memory.ZeroesAbove | nemu/src/memory/memory.c:12-17 | zero bytes above the copied ones leave the value as it is |
| Memory.HwMemWrite | nemu/src/memory/memory.c:19-22 | stores exactly the low bytes of the datum at the address and nothing else |
| Memory.FirstBytes | nemu/src/memory/memory.c:19-22 | the first bytes of a stored word are the low bytes of the datum |
| Cache.Machine.constructor | nemu/src/memory/cache.c:11-15 | after initialisation no line is valid, memory is zero and the cache is coherent |
| Cache.Machine.CacheRead | nemu/src/memory/cache.c:17-71 | under any choice of victim, hit or miss, straddling or not: the value is that of memory, coherence is kept, both blocks end up resident, only the sets of the two blocks may change, and the recursion decreases (straddles, misses) |
| Cache.Machine.ReadAcross | nemu/src/memory/cache.c:37-44 | the two halves of a straddling access lie in different sets, so reading the second never evicts the first |
| Cache.Machine.FillMiss | nemu/src/memory/cache.c:50-57 | filling a victim line from memory keeps every line equal to its block and every set free of duplicate tags |
| Cache.Machine.ReadLine | nemu/src/memory/cache.c:33-35 | the loop that reads from the top byte down yields the little-endian value of the bytes |
| Cache.Machine.CacheWrite | nemu/src/memory/cache.c:73-106 | memory receives exactly the bytes of the datum; the cache stays coherent if and only if the write does not straddle past a missing low line onto a resident high line with different bytes; a miss allocates nothing |
| Cache.Machine.WriteHit | nemu/src/memory/cache.c:84-91 | writing through updates the line and memory alike |
| Cache.Machine.WriteAcross | nemu/src/memory/cache.c:92-99 | a straddling write whose low line hits is split and always stays coherent |
| Cache.Machine.WriteMiss | nemu/src/memory/cache.c:103-105 | a write that misses stays coherent exactly when it leaves no stale copy |
| Cache.Machine.StaleLines | nemu/src/memory/cache.c:103-105 | the stale line, if there is one, is the resident line of the next block |
| Cache.Machine.Run | nemu/src/memory/cache.c:11-106 | whole runs under any choice of victims: operations are performed until one would leave a stale copy, and up to there the values read, the memory and the coherence are those of flat memory; a run goes through if each straddling write does not straddle, writes back a block just read, or has a second block never read since the cache was empty |
| Cache.Machine.Perform | nemu/src/memory/cache.c:17-106 | one operation that leaves no stale copy has the effect of the same operation on flat memory, keeps coherence, and makes resident only blocks that it reads |
| Cache.Machine.StaleNotSafe | nemu/src/memory/cache.c:103-105 | a write that would leave a stale copy is not safe by what the program has read before |
| Cache.FlatReadsPrefix | nemu/src/memory/cache.c:17-106 | what a shorter run reads is a prefix of what the longer one reads |
| Cache.LastWriteWins | nemu/src/memory/memory.c:12-22 | a byte of the flat memory that runs are compared with is the one the last write to it put there, or the first one |
| Cache.LastOperation | nemu/src/memory/memory.c:12-22 | a read of the flat memory returns the little-endian value of its bytes at that moment and changes nothing, a write returns nothing |
| Cache.MissLine | nemu/src/memory/cache.c:103-105 | per line: a write to memory alone keeps the line equal to its block exactly when it is not the stale line |
| Cache.NextBlock | nemu/src/memory/cache.c:37-42 | the block after a straddled boundary belongs to the next of the 128 sets |
| Cache.StaleReadWitness | nemu/src/memory/cache.c:103-105 | from a fresh cache one read and one straddling write leave a machine that is not coherent: a valid line for address 64 holds 0 where memory holds 2, and the hit loop reads 0 |
| Paging.Mmu.PageTranslate | nemu/src/memory/mmu/page.c:5-30 | the two table reads compute the two-level walk of the Intel 80386 manual, section 5.2 |
| Paging.WalkIs | nemu/src/memory/mmu/page.c:8-26 | from the two entries that it reads: if the lowest flag of both is set, the address is the frame of the second and the last twelve bits, whatever the other flags; otherwise there is none |
| Paging.AddressFormat | nemu/src/memory/mmu/page.c:8-10 | an address put together from directory index, page index and offset comes apart into them again |
| Paging.EntryFormat | nemu/src/memory/mmu/page.c:16-24 | an entry put together from a frame and twelve flag bits gives the frame back, and is present exactly when the lowest flag is set |
| Paging.Mmu.LaddrRead | nemu/src/memory/memory.c:58-80 | with paging on or off, split or not, the value is that of the bytes found by translating each byte address separately |
| Paging.Mmu.LaddrWrite | nemu/src/memory/memory.c:82-103 | whenever no page is absent: the bytes of each page go where it is translated to, the second page when the first is written; if the write stays off its own table entries, exactly the translated bytes change and reading back gives the datum, also when both pages share a frame |
| Paging.FetchWithinPage | nemu/src/memory/memory.c:73-76 | inside one page the bytewise lookup is one contiguous block of physical memory |
| Paging.FetchFlat | nemu/src/memory/memory.c:78-79 | with paging off an access is to the physical bytes at its own address |
| Paging.FetchSplit | nemu/src/memory/memory.c:65-71 | bytewise lookup of an access is that of its two parts in a row, wherever it is cut |
| Paging.WalkStable | nemu/src/memory/mmu/page.c:5-30 | a translation depends only on the eight table bytes it reads |
| Paging.WrittenStable | nemu/src/memory/memory.c:93-94 | a write that stays off its own table entries leaves all translations of the access as they were |
| Paging.FetchWritten | nemu/src/memory/memory.c:82-103 | reading the bytes just written gives them back, whatever frames the pages share |
| Paging.AddressesDistinct | nemu/src/memory/memory.c:88-94 | two bytes of one access never share a physical address, even on two pages mapped to one frame |
| Paging.WrittenJoin | nemu/src/memory/memory.c:93-94 | writing the low part and then the high part is writing the whole |
| Paging.StoreWrites | nemu/src/memory/memory.c:82-103 | a write off the table entries that translate it completes, changes exactly the translated bytes and reads back as written |
| Paging.SplitWrittenIff | nemu/src/memory/memory.c:87-94 | a crossing write, whatever it hits, changes exactly the bytes it translated to beforehand if and only if its second page still leads to the same frame or both frames hold the bytes anyway |
| Paging.SelfWriteWitness | nemu/src/memory/memory.c:93-94 | a concrete memory and write: the first half changes the entry of the second page, and the other half lands in another frame |
| PageTables.Kernel.InitPage | kernel/src/memory/kvm.c:12-46 | afterwards paging is on and the directory in CR3 maps va and KOFFSET + va to va for every va below 128MB and maps nothing else |
| PageTables.Kernel.FillDirectory | kernel/src/memory/kvm.c:27-28 | one iteration sets the identity and the high-half entry to the same table; the filled page table and the frame-buffer table stay as they were |
| PageTables.Kernel.FillSlot | kernel/src/memory/kvm.c:29-34 | one iteration of the inner loop sets the next table slot to its frame; the directory and the frame-buffer table stay as they were |
| PageTables.Kernel.InitMm | kernel/src/memory/mm.c:25-37 | the user directory maps exactly the high half, the kernel map is untouched, and the base in ucr3 is the directory |
| PageTables.Kernel.CopyHighHalf | kernel/src/memory/mm.c:32-34 | the copied entries are those of the kernel, entry by entry |
| PageTables.Kernel.CreateVideoMapping | kernel/src/memory/vmem.c:14-43 | whatever the user directory maps by then: afterwards addresses below 4MB lead to the sixteen identity pages from 0xa0000 and to nothing else, every address from 4MB on is translated as before, and the kernel map is untouched; on a directory with only the high half this is exactly the high half and those pages |
| PageTables.Kernel.Boot | kernel/src/elf/elf.c:53-77 | paging, the user directory, any page allocations for the program, then the frame buffer: the kernel keeps its map, and the user sees the frame buffer below 4MB, from there to 3GB what exactly these allocations leave on top of the two directories, with all other memory as before the boot, and then the high half |
| PageTables.EntryAfterStores | kernel/src/elf/elf.c:53 | after any stores of page allocation every entry of every table holds the last word stored there, or what it held |
| PageTables.StoredPage | kernel/src/elf/elf.c:53 | below 3GB an address is translated by the last words stored in its two entries, on top of the empty directory |
| PageTables.KernelWalk | kernel/src/memory/kvm.c:23-35 | filled kernel tables walk to the kernel map for every 32-bit address |
| PageTables.HighWalk | kernel/src/memory/mm.c:29-34 | the copied directory walks to the high half for every 32-bit address |
| PageTables.VideoWalk | kernel/src/memory/vmem.c:14-43 | one address after the mapping: the frame buffer in the first 4MB, the earlier translation elsewhere, for every 32-bit address |
| PageTables.UpperWalk | kernel/src/memory/mm.c:29-34 | as long as the upper quarter of the directory is kept, every address from 3GB on walks to the high half |
| PageTables.AllocateStep | kernel/src/elf/elf.c:53 | one store that page allocation may make keeps the kernel map, the high half and the zeroed table of the frame buffer |
| Alu.ConditionsDecideOrder | nemu/include/cpu/instr_helper.h:169-218 | after a subtraction at 8, 16 or 32 bits: b, be, a, ae hold exactly for the unsigned order, l, le, g, ge for the signed order and e, ne for equality of the operands |
| Alu.Cpu.SetCFAdd | nemu/src/cpu/alu.c:5-9 | comparing sign-extended words as unsigned decides the unsigned order at the operand size |
| Alu.Cpu.SetCFSub | nemu/src/cpu/alu.c:107-111 | the same for subtraction: CF is the borrow of the masked operands |
| Alu.Cpu.SetOFAdd | nemu/src/cpu/alu.c:33-55 | OF from the three sign bits of the sign-extended operands and result |
| Alu.Cpu.SetOFSub | nemu/src/cpu/alu.c:113-135 | OF of a difference from the three sign bits |
| Alu.Cpu.SetPF | nemu/src/cpu/alu.c:22-31 | the folding loop ends and PF is set exactly when the low byte has an even number of ones |
| Alu.OnesOfByte | nemu/src/cpu/alu.c:22-31 | the number of ones of a byte is the sum of its eight binary digits |
| Alu.Cpu.AluAdd | nemu/src/cpu/alu.c:57-76 | the result is dest + src modulo 2^n; CF is the carry of the unsigned sum and OF the overflow of the signed sum; ZF says that the result is 0, SF that the signed sum taken modulo 2^n is negative, PF that the low byte of the result has an even number of ones |
| Alu.Cpu.AluAdc | nemu/src/cpu/alu.c:78-104 | the same for dest + src + CF: carry and overflow gathered in two stages are those of the three-way sum |
| Alu.Cpu.AluSub | nemu/src/cpu/alu.c:137-156 | the same for dest - src: CF is the borrow, OF the overflow of the signed difference, ZF, SF and PF those of the result modulo 2^n |
| Alu.Cpu.AluSbb | nemu/src/cpu/alu.c:158-184 | the same for dest - src - CF, with borrow and overflow gathered in two stages |
| Alu.AdcStages | nemu/src/cpu/alu.c:89-102 | or of the two carries and exclusive or of the two overflows are the carry and the overflow of dest + src + CF, at each size |
| Alu.SbbStages | nemu/src/cpu/alu.c:169-182 | the same for dest - src - CF |
| Alu.Cpu.AluSar | nemu/src/cpu/alu.c:398-422 | the one-place loop computes the floor of signed(dest) / 2^src modulo 2^n for every masked count at each size, and for counts 1 to 32 CF is the last bit shifted out if and only if the count is at most n or the operand is not negative, and its opposite otherwise |
| Alu.Cpu.SarPastWidth | nemu/src/cpu/alu.c:417 | a byte holding -128 shifted by 9 leaves the carry clear, though the last bit shifted out is 1 |
| Alu.CarryIsLastOut | nemu/src/cpu/alu.c:412-417 | the bit that line 417 takes is the last one shifted out if and only if the shift stays within the width or the operand is not negative |
| Alu.FloorShiftDivides | nemu/src/cpu/alu.c:412-416 | k floor halvings are one floor division by 2^k, for every integer |
| Alu.SarStep | nemu/src/cpu/alu.c:411-415 | a logical shift with the sign bit put back is a floor halving of the signed value |
| Alu.Cpu.AluMul | nemu/src/cpu/alu.c:186-203 | the 64-bit product wraps for no operands, so the result is the mathematical product, and CF = OF says whether it needs more than n bits |
| MultiLimb.AddChainExact | nemu/src/cpu/alu.c:57-104 | chaining add with carry over any number of 32-bit limbs is exact: limbs plus last carry equal the sum of the whole numbers |
| MultiLimb.SubChainExact | nemu/src/cpu/alu.c:137-184 | chaining subtract with borrow over any number of limbs is exact |
| MultiLimb.AddChainOverflow | nemu/src/cpu/alu.c:99-102 | the last OF is the signed overflow of the whole number, for any number of limbs |
| MultiLimb.SubChainOverflow | nemu/src/cpu/alu.c:179-182 | the last OF of a subtraction chain is the signed overflow of the whole difference |
| MultiLimb.SubUndoesAdd | nemu/src/cpu/alu.c:57-184 | subtracting what was added gives all limbs back |
| MultiLimb.AddLimbs | nemu/src/cpu/alu.c:57-104 | the machine itself: alu_add on the first limb and alu_adc on the rest give the exact sum, its carry and its signed overflow |
| MultiLimb.SubLimbs | nemu/src/cpu/alu.c:137-184 | alu_sub on the first limb and alu_sbb on the rest give the exact difference, its borrow and its signed overflow |
| MultiLimb.AdcLimbs | nemu/src/cpu/alu.c:78-104 | the loop over the remaining limbs computes the chain from the flags it finds |
| MultiLimb.SbbLimbs | nemu/src/cpu/alu.c:158-184 | the same for borrows |
| Pic.AssertionFailsIff | nemu/src/cpu/cpu.c:134-144 | over all interleavings of any number of raising threads with the CPU, the assertion on the queried number can fail if and only if irq 223 is among those raised |
| Pic.StepKeepsMutex | nemu/src/device/i8259_pic.c:16-52 | every micro-step keeps mutual exclusion: exactly the lock holder is inside a critical section |
| Pic.StepKeepsNumber | nemu/src/device/i8259_pic.c:26-36 | every micro-step keeps: a signalled CPU finds a number, except between the two stores of an acknowledgement |
| Pic.RunKeepsNumber | nemu/src/device/i8259_pic.c:11-52 | in every run the assertion has not failed and a pending signal carries a number |
| Pic.StepKeepsPriority | nemu/src/device/i8259_pic.c:26-32 | every micro-step keeps: the number is that of the highest irq stored since the last acknowledgement |
| Pic.RunKeepsPriority | nemu/src/device/i8259_pic.c:16-52 | the same in every run, and completed raises keep the CPU signalled |
| Pic.QueryReturnsHighest | nemu/src/device/i8259_pic.c:11-14 | in every run the unlocked query returns a raised irq at least as high as every raise completed since the previous acknowledgement |
| Pic.CompletedStaysPending | nemu/src/device/i8259_pic.c:16-37 | no completed raise is forgotten before an acknowledgement |
| Pic.StepKeepsWindow | nemu/src/cpu/cpu.c:139-142 | every micro-step keeps: between query and acknowledgement the delivered number is a stored irq, and every stored irq above it came after the query |
| Pic.RunKeepsWindow | nemu/src/cpu/cpu.c:139-142 | the same in every run |
| Pic.Decided | nemu/src/device/i8259_pic.c:26-32 | a first raise or one of a higher priority leaves its own vector, irq + 32 in eight bits; any other leaves the old one |
| Pic.AckErases | nemu/src/device/i8259_pic.c:39-52 | in every run an acknowledgement loses exactly the stored irqs other than the delivered one: none if and only if no other was stored since the one before; an irq above the delivered one is lost if and only if it was stored after the query |
| Pic.LowerRaiseErased | nemu/src/device/i8259_pic.c:26-32 | a concrete run: a lower raise that completed before the query is erased with nothing raised in the window |
| Pic.RaiseLostInWindow | nemu/src/cpu/cpu.c:139-142 | a concrete run: a higher raise that completes between the query and the acknowledgement is erased and never delivered |
| Pic.RaiseRuns | nemu/src/device/i8259_pic.c:16-37 | a whole uninterrupted raise is a run of the micro-steps with this effect |
| Pic.Acknowledge | nemu/src/device/i8259_pic.c:39-52 | a whole uninterrupted acknowledgement is a run of the micro-steps with this effect |
| Pic.Controller.RaiseIntr | nemu/src/device/i8259_pic.c:16-37 | the call goes through the five micro-steps of a raise, and both variables end as those steps leave them: the higher priority wins in eight-bit arithmetic |
| Pic.Controller.AckIntr | nemu/src/device/i8259_pic.c:39-52 | the call goes through the four micro-steps of an acknowledgement: both variables end as those steps leave them, and the delivered number is recorded |
| Pic.Controller.DoIntr | nemu/src/cpu/cpu.c:134-144 | in every reachable state: one number is delivered through check, query and acknowledgement exactly when a signal is there and interrupts are enabled; otherwise nothing changes; the assertion holds |
| Pic.BurstKeepsHighest | nemu/src/device/i8259_pic.c:26-32 | any burst of raises leaves the highest of them pending |
| Breakpoints.Monitor.constructor | nemu/src/monitor/breakpoint.c:16-29 | the free list is the whole pool in order and the active list is empty |
| Breakpoints.Monitor.NewBP | nemu/src/monitor/breakpoint.c:31-39 | takes exactly the first free entry |
| Breakpoints.Monitor.SetBreakpoint | nemu/src/monitor/breakpoint.c:52-80 | the pool stays partitioned, the byte is remembered and patched, masking would still restore the same memory, whatever addresses repeat, and armed memory stays armed |
| Breakpoints.Monitor.SetWatchpoint | nemu/src/monitor/breakpoint.c:90-99 | an entry that shares the pool and patches nothing |
| Breakpoints.Monitor.FreeBP | nemu/src/monitor/breakpoint.c:41-50 | the entry becomes the first free one, nothing else changes |
| Breakpoints.Monitor.DeleteBreakpoint | nemu/src/monitor/breakpoint.c:102-128 | removes just the named entry from the list and its patch from the log, frees its slot if it is active, and reports exactly that; memory is not touched |
| Breakpoints.Monitor.DeleteAll | nemu/src/monitor/breakpoint.c:130-144 | the recursion ends and returns every entry to the pool, oldest last |
| Breakpoints.Monitor.MaskBreakpoints | nemu/src/monitor/breakpoint.c:212-228 | the loop computes the undo log, newest entry first |
| Breakpoints.Monitor.ResumeBreakpoints | nemu/src/monitor/breakpoint.c:184-210 | the loop re-reads and patches every address, newest entry first, and keeps both lists |
| Breakpoints.Monitor.SetAll | nemu/src/monitor/breakpoint.c:52-80 | after setting any breakpoints every set address traps, masking would restore memory, and the newest entry remembers the original byte exactly for addresses set once |
| Breakpoints.Monitor.SetAllThenMask | nemu/src/monitor/breakpoint.c:52-80 | one mask after any sequence of sets, repeated addresses included, restores memory |
| Breakpoints.Monitor.ResumeAndMask | nemu/src/monitor/breakpoint.c:184-228 | resume then mask restores memory if and only if no address whose byte is not the trap is listed twice |
| Breakpoints.SetThenMask | nemu/src/monitor/breakpoint.c:62-64 | patching and undoing with the longer log is undoing with the shorter one |
| Breakpoints.ResumeThenMask | nemu/src/monitor/breakpoint.c:184-228 | byte by byte: an address listed at least twice is left holding the trap, every other gets its byte back |
| Breakpoints.ResumeMaskIdentity | nemu/src/monitor/breakpoint.c:184-228 | resume then mask is the identity on memory if and only if every address listed twice held the trap anyway |
| Breakpoints.DeleteLeavesPatch | nemu/src/monitor/breakpoint.c:102-128 | for any log, repeated addresses included: after deleting an entry the next mask restores every other address as before, and the whole memory as before if and only if an older entry has the address, or the next newer one remembers the same byte, or there is no other and memory holds the byte already |
| Breakpoints.MaskAt | nemu/src/monitor/breakpoint.c:212-228 | what masking leaves at an address is the byte of the oldest entry for it |
| Breakpoints.MaskPatched | nemu/src/monitor/breakpoint.c:212-228 | a patch made behind the back of the log survives a mask exactly where the log does not list the address |
| Breakpoints.Monitor.SetDeleteMask | nemu/src/monitor/breakpoint.c:52-128 | set, delete, mask: the trap stays in memory at the address, unless another entry has it |
| Breakpoints.Monitor.DeleteAndMask | nemu/src/monitor/breakpoint.c:102-128 | deleting an active breakpoint and masking undoes the whole log if and only if the deletion is harmless in that sense |
| Breakpoints.Monitor.FindBreakpoint | nemu/src/monitor/breakpoint.c:169-182 | finds the newest breakpoint at the address, and nothing exactly when none is listed |
| Breakpoints.Monitor.HitBreakpoint | nemu/src/cpu/cpu.c:71-83 | a hit puts back the byte of the newest breakpoint there and no other |
| Breakpoints.HitResumeMask | nemu/src/cpu/cpu.c:65-83 | a hit, a resume and a mask restore the memory from before the breakpoints if and only if every other listed byte was a trap from the start, and the hit address is listed once or held a trap |
| Breakpoints.Monitor.HitThenMask | nemu/src/cpu/cpu.c:65-83 | the same for the machine and its loops, from any armed state |
| Breakpoints.Monitor.SetAllHitMask | nemu/src/cpu/cpu.c:65-83 | the cycle from an empty list, for any addresses set and any of them hit: with two breakpoints on bytes that are not traps memory is never restored |
| Breakpoints.HitThenResume | nemu/src/cpu/cpu.c:65-83 | a hit and the resume after it leave the same traps and the same addresses, and only the hit address keeps its remembered byte |
| Breakpoints.Monitor.HitAndResume | nemu/src/cpu/cpu.c:65-83 | over any number of hits with their resumes an address keeps its remembered byte if and only if every hit was there; every other one remembers the trap |
| Breakpoints.Monitor.SetAllHitAll | nemu/src/cpu/cpu.c:65-83 | from an empty list, after any hits and resumes, one more hit restores the original byte if and only if all earlier hits were at that address and it was set once, or the byte was a trap from the start; otherwise it puts the trap back |
| Breakpoints.Unchain | nemu/src/monitor/breakpoint.c:117-124 | linking around an element takes exactly that element out of the chain |
| Expr.CheckParentheses | nemu/src/monitor/expr.c:219-248 | success exactly for balanced ranges, true exactly for ranges enclosed in one matching pair |
| Expr.DominantOperator | nemu/src/monitor/expr.c:190-217 | the scanning loop with its inner skip computes the recursive scan and stays in the range |
| Expr.DominantIsLeftmostLoosest | nemu/src/monitor/expr.c:190-217 | on a balanced range the dominant operator is the leftmost of the loosest operators outside parentheses, or the first token if there is none |
| Expr.EvalRange | nemu/src/monitor/expr.c:250-351 | the recursive evaluator ends on every token range and computes the value and the flag of the specification |
| Expr.ClassifyTokens | nemu/src/monitor/expr.c:367-374 | the in-place loop decides unary minus and dereference from the already rewritten left neighbour |
| Expr.ClassifyAt | nemu/src/monitor/expr.c:367-374 | each token is classified by what stands before it |
| Expr.Expr | nemu/src/monitor/expr.c:354-377 | classification and evaluation together |
| Expr.ClassifyText | nemu/src/monitor/expr.c:367-374 | classification reads the text of every expression as its own tokens, wherever an operand is expected |
| Expr.PriorityIsLevel | nemu/src/monitor/expr.c:164-187 | the priorities order the binary operators as the precedence levels of C do, with unary operators before them all |
| Expr.TreeFlat | nemu/src/monitor/expr.c:190-248 | the tokens of an expression close what they open, and no operator outside parentheses is looser than its root |
| Expr.EvalTokens | nemu/src/monitor/expr.c:250-351 | evaluating the tokens of an expression gives its value and flag, at any place and after any flag |
| Expr.EvaluatorInvertsPrinter | nemu/src/monitor/expr.c:250-377 | for every expression of the grammar, with all parentheses that the levels of C require and any further ones: type it, classify, evaluate, and its value comes back, successfully when no divisor is zero |
| Expr.EvaluatesPolynomials | nemu/src/monitor/expr.c:321-323 | whatever is typed with +, -, * and unary minus evaluates to its exact integer value modulo 2^32 |
| Expr.QuotientValue | nemu/src/monitor/expr.c:324-330 | a quotient q of x and y satisfies 0 <= x - q * y < y, and is 0 when y is |
| Expr.TruthValues | nemu/src/monitor/expr.c:331-340 | comparisons and logical operators give 1 exactly where the order, the equality or the truth holds and 0 elsewhere; a dereference is the memory at its operand |
| Expr.BitwiseValues | nemu/src/monitor/expr.c:337-339 | bitwise and and or combine the operands binary digit by binary digit |
| Expr.EnclosedValue | nemu/src/monitor/expr.c:250-377 | every tree has a grouped text with its value: the one with all operands in parentheses |
| Expr.LoneNumber | nemu/src/monitor/expr.c:257-264 | a number, in parentheses or not, is its own value and leaves the success flag as it was |
| Expr.UnmatchedFails | nemu/src/monitor/expr.c:303-312 | a range in which somewhere more parentheses are closed than opened, or in the end not as many, evaluates to 0 without success |
| Expr.NoOperatorFails | nemu/src/monitor/expr.c:252-345 | so do an empty range, a lone token that is not a number, and several tokens without an operator |
| Expr.StrictIs | nemu/src/monitor/expr.c:318-330 | the strict meaning is undefined exactly when some division in the tree has a zero divisor |
| Expr.StrictAgreementIff | nemu/src/monitor/expr.c:317-330 | the evaluator agrees with the strict meaning, flag and value, if and only if a failing division somewhere implies a failing division at the root |
| Expr.ForgottenFailure | nemu/src/monitor/expr.c:317-320 | 1 + 2 / 0 evaluates to 1 and reports success |
| Expr.GroupsRight | nemu/src/monitor/expr.c:206-213 | a chain of any length of operators of one level, whichever they are, groups to the right: the text of the tree that groups them to the left has the value of the one that groups them to the right |
| Expr.SumAsExpectedIff | nemu/src/monitor/expr.c:206-213 | a chain of additions and subtractions has the value of grouping to the left if and only if twice the terms behind an odd number of earlier minus signs come to 0 modulo 2^32 |
| Expr.FiveTwoOne | nemu/src/monitor/expr.c:206-213 | 5 - 2 - 1 evaluates to 4, where grouping to the left gives 2 |
| Linklist.OneKeptBack | game/include/adt/linklist.h:61 | the allocation assertion fails exactly when a single element is left: one element of the pool is never handed out |
| Linklist.Pool.constructor | game/include/adt/linklist.h:46-47 | before the first allocation nothing is chained and the whole pool is free |
| Linklist.Pool.New | game/include/adt/linklist.h:48-66 | takes exactly the first free element, chaining the pool the first time; elements outside the free list are untouched |
| Linklist.Pool.ChainAll | game/include/adt/linklist.h:52-60 | the loop chains the whole pool in order |
| Linklist.Pool.Insert | game/include/adt/linklist.h:77-86 | links the element between its neighbours and changes nothing else |
| Linklist.Pool.Remove | game/include/adt/linklist.h:87-95 | links the neighbours to each other and changes nothing else |
| Linklist.Pool.Free | game/include/adt/linklist.h:96-100 | the element becomes the first free one; everything but its next link is unchanged |
| Linklist.PushFront | game/include/adt/linklist.h:77-86 | inserting before the head makes a list of the new element followed by the old list, links agreeing in both directions |
| Linklist.InsertBetween | game/include/adt/linklist.h:77-86 | inserting between any two neighbours, or at either end, gives the list with the new element in that place, links agreeing in both directions |
| Linklist.Unlink | game/include/adt/linklist.h:87-95 | removing element k leaves the list without exactly that element, links agreeing in both directions |
| Linklist.TakeFree | game/include/adt/linklist.h:61-65 | moving the first free element to the live list keeps the two lists a partition of the pool |
| Linklist.GiveBack | game/include/adt/linklist.h:96-100 | moving any live element to the front of the free list keeps the partition |
| Letters.SpeedIsFixed | game/src/typing/effect.c:44-48 | the speed announced as random is always one half, because the division is an integer one; the column is one of 38 and the letter one of 26 |
| Letters.AdvanceConserves | game/src/typing/effect.c:53-73 | one update loses no letter: each stays, is a hit or is a miss |
| Letters.AdvanceOne | game/src/typing/effect.c:53-73 | a letter moves by its speed, leaves as a hit exactly when it comes above the top and as a miss exactly when it comes below 192.1 |
| Letters.AdvanceJoin | game/src/typing/effect.c:53-73 | what happens to a list of letters is what happens to its parts, in order, and so are its hits and misses |
| Letters.Verdict | game/src/typing/effect.c:59-65 | a falling letter misses with exactly its 385th update, a shot one never misses, and only shot ones leave at the top |
| Letters.TargetFirst | game/src/typing/effect.c:81-97 | shooting one target before the others changes nothing about what all pressed keys do together |
| Letters.NoTarget | game/src/typing/effect.c:99-101 | without a target the volley is over |
| Letters.ShootCount | game/src/typing/effect.c:94-97 | each successful key press leaves one falling letter fewer: why the loop ends |
| Letters.FourteenAtMost | game/src/typing/effect.c:32-102 | letters created at least 33 updates apart never number more than fourteen, however the keys are played |
| Letters.SpreadAdvance | game/src/typing/effect.c:53-73 | an update keeps the creation times of the survivors far apart |
| Letters.SpreadVolley | game/src/typing/effect.c:76-102 | a volley keeps every letter within its bound of 448 updates |
| Typing.CreationsFarApart | game/src/typing/game.c:64-73 | for every timer frequency of at least 100 two consecutive creations have at least 33 updates between them |
| Typing.Game.constructor | game/src/typing/effect.c:11-14 | an empty screen, all keys up, the whole pool free |
| Typing.Game.CreateNewLetter | game/src/typing/effect.c:32-50 | the new letter becomes the first, its key is released, and live and free elements still partition the pool |
| Typing.Game.UpdateLetterPos | game/src/typing/effect.c:53-73 | the walk that unlinks as it goes computes one update of the list, and counts every hit and every miss |
| Typing.Game.UpdateKeypress | game/src/typing/effect.c:76-102 | shoots the lowest falling letter whose key is down, the newest of equals, and releases its key; reports false exactly when there is none |
| Typing.Game.HandleKeys | game/src/typing/game.c:56-57 | the loop ends, and leaves every pressed key to have shot its own lowest letter; keys without a letter stay down |
| Typing.Game.PressKey | game/src/typing/keyboard.c:12-22 | a scan code presses exactly the letters it stands for |
| Typing.Game.Tick | game/src/typing/game.c:64-73 | one simulated interrupt is one step of the simulation, and keeps the books: created = hit + miss + on screen, and creations far apart |
| Typing.Game.CatchUp | game/src/typing/game.c:62-92 | any backlog of interrupts runs that many steps of the simulation; redraw is set exactly when a drawing tick was passed, the frame counter restarts exactly at half-second ticks, and the frame rate is the capped double of the drawings counted before the first of them |
| Typing.Game.MainLoop | game/src/typing/game.c:36-100 | for every frequency of at least 100, every timer history and every key history the game is a function of its inputs: pressed keys shoot before each catch-up, then every missed interrupt is simulated; the allocation assertion never fires, at most fourteen letters live, and letters created equal hits, misses and letters on the screen |
| Typing.SimJoin | game/src/typing/game.c:59-92 | catching up in one go or in any portions gives the same game |
| Typing.Pressed | game/src/typing/keyboard.c:12-22 | scan codes press exactly their keys, release none and change nothing else |
| Typing.PressedLetterShot | game/src/typing/game.c:52-62 | the lowest falling letter of a pressed key flies up from the next catch-up on and its key is released, while the others of its kind fall on |
| Typing.InStepRoom | game/src/typing/game.c:36-100 | wherever the loop stands, at most fourteen letters are alive |
| Fs.FileSystem.constructor | kernel/src/fs/fs.c:56 | every offset starts inside its file |
| Fs.FileSystem.Open | kernel/src/fs/fs.c:63-75 | finds the named file and rewinds it, and fails exactly when no file has the name |
| Fs.FileSystem.Read | kernel/src/fs/fs.c:77-93 | copies the file from its offset, zeroes the rest of the buffer, moves the offset by what it copied, and keeps every offset inside its file |
| Fs.FileSystem.Lseek | kernel/src/fs/fs.c:114-136 | moves to delta from the beginning, from the old offset or from the end, for whence 0, 1 and 2, if that is inside the file, and otherwise to the last byte; an unknown direction gives -1 and changes nothing |
| Fs.FileSystem.Close | kernel/src/fs/fs.c:138-146 | marks the entry unused exactly for descriptors below the table size |
| Fs.ReadStaysInside | kernel/src/fs/fs.c:82-88 | a read stays inside the file if and only if offset + len does not wrap, and then stops short of the last byte |
| Fs.ChunksAgree | kernel/src/fs/fs.c:77-93 | however a read is cut into chunks it delivers the same bytes in order, all that were asked for up to but excluding the last byte of the file |
| Fs.FileSystem.ReadChunks | kernel/src/fs/fs.c:77-93 | successive reads of any lengths without a wrapping sum deliver exactly those bytes, whatever the cut, and leave the offset behind them |
| Fs.WrappedRead | kernel/src/fs/fs.c:85 | a length that wraps the 32-bit sum is not capped and moves the offset backwards |
| Fs.SeekLandsIff | kernel/src/fs/fs.c:114-136 | for each direction a seek lands where it was sent if and only if that is inside the file; every other, also before the beginning, lands on the last byte |
| Fs.RelativeSeeksAdd | kernel/src/fs/fs.c:123-128 | relative seeks that stay inside the file add up, and one by 0 changes nothing |

## Left out

- `fpu_*` stack operations and comparisons: they move words between registers or use the host's floats.
- NaN patterns the unit does not itself produce are covered for multiplication and division only in the
  sense of the code's own arithmetic; for addition and subtraction nothing is claimed about them.
- Paging.Mmu.LaddrRead: accesses whose translation leaves physical memory or meets an absent entry stop the
  program and are excluded; so they are from writes.
- Cache.Machine.CacheRead: blocks beyond physical memory are not read, as in the code's callers.
- Memory-mapped I/O, the TLB, segmentation and the choice between cache and memory at build time.
- `alu_shl`, `alu_shr`, `alu_sal`, `alu_imul`, the divisions and the bitwise operations: shifts by undefined
  counts, or single expressions.
- Alu.Cpu.AluSar: for counts 0 and above 32 the carry comes from an undefined C shift and is arbitrary.
- Pic: the calls are interleaved as micro-steps on values; the retry path when the mutex cannot be locked,
  and sequential consistency of the unlocked read, are taken for granted.
- Breakpoints.Monitor.HitThenMask: what the program itself stores between the hit and the resume.
- Breakpoints.Monitor.HitAndResume: likewise, and the instructions between two hits.
- Page allocation (`mm_malloc`): its body is not part of this model; `PageTables.Kernel.Allocate` stands for
  any stores below the high half of the user directory and outside the kernel's and the frame buffer's tables.
- Breakpoints.Monitor.SetWatchpoint: the watched expression and its evaluation are not part of the pool.
- Breakpoints.Monitor.SetBreakpoint: addresses are physical bytes of one memory; translation by segment and
  page is not repeated here. A full pool stops the program, so one free entry is required.
- Expr: tokenisation by regular expressions, the limit of 32 tokens, decimal and hexadecimal digits, and
  register and symbol leaves, after which the classifier takes a minus sign for a unary one.
- Expr.SumAsExpectedIff: is about + and -. For the other levels, Expr.GroupsRight says what is computed, and
  no condition shorter than comparing both groupings is given for a chain with divisions.
- Expr.EvalRange: dereferencing reads from an arbitrary function of the address.
- Typing.Game.MainLoop: the 32-bit overflow of the interrupt counter after 2^31 ticks; drawing.
- Letters: positions are exact reals; all values that occur are multiples of one half below 2^9, which
  single-precision floats hold exactly.
- Fs.FileSystem.Open: the failing assertion of the kernel is modelled as the value -1 that follows it.
- Fs.FileSystem.Read: descriptors below 3 are refused by an assertion and excluded; `ide_read` delivers the
  bytes of the disk; `fs_write` is console output.
- Instruction decoding and execution, devices other than the interrupt controller, the boot loader, the C
  library and the game on top of SDL.
