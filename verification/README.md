# Verified models of axpcore's reference code

axpcore's C, C++ and Python sources hold two instruction interpreters, a page-table builder with two walkers, adder
generators, the memory side of a co-simulation loop and Berkeley SoftFloat on 32-bit words. These Dafny modules model the
parts of it whose correctness is an argument and not a reading, and prove what those parts are for.

| files | what they model |
|---|---|
| `Arith`, `Options` | shared facts about powers of two and remainders; optional values |
| `SoftFloatWords` | the multiword helpers of SoftFloat, for any number of 32-bit words |
| `QuotientDigit`, `DigitRecurrence` | quotient digits estimated from a 32-bit reciprocal: the error bounds, the loop-head bound, the congruence |
| `ExtF80`, `Rounding` | 80-bit numbers, nearest-even, what a rounder needs to know and that it then rounds correctly |
| `ExtF80Rem`, `ExtF80Div`, `ExtF80Mul` | the multiword `extF80M_rem`, `extF80M_div` and `extF80M_mul`, unpacking to hand-over |
| `Netlist`, `WireNames`, `PrefixAdder`, `RippleAdder` | the emitted netlists as data, an evaluator, and both generators for every width |
| `Sv39`, `Translate`, `TranslateOutcome`, `PageTables` | page-table entries and walks, `state_t::translate` and the second walker, their outcome in the bits of the entries, `walk` and `mappages` |
| `AlphaBytes`, `AlphaMachine`, `AlphaInts`, `AlphaUnaligned` | the Alpha byte and shift instructions and the unaligned load and store idioms built from them |
| `AlphaPal` | the decoding and dispatch of `execAlpha`, PALmode entry and `hw_rei`, over whole runs |
| `DramQueue`, `DramMemory` | the request queue of the co-simulation loop and the bytes it reads and writes, over whole runs |
| `Gf2`, `Crc32c` | polynomials over GF(2) and the bitwise CRC-32C |
| `WordBits`, `BitVector` | bits of machine words and the bit vector used as a freelist |
| `RiscvTrap` | interrupt selection, trap entry, `mret` and `sret` |

How the source's form is kept: code that updates fields, arrays or memory is a class or a method over arrays, proved equal
to a specification function of the old state; the lemmas are about those functions. Integer widths are explicit: words are
bounded integers with `%` where the C code wraps, or bit-vectors where the bits are the point. A C assertion, an exit or an
access outside memory is an outcome of its own, not a precondition. I/O, the clock and random numbers are parameters: the
DRAM latency drawn in each cycle, the timer, and what the Alpha instructions outside the model do.

Places where the code and its comments differ, and the model follows the code: `hw_mfpr` and `hw_mtpr` are commented as
indexing with bits 7:0 of the displacement but mask it to six bits (`alpha_interp.cc:308-318`); and a trap from a less
privileged mode does not leave the target mode's own interrupt enable as it was (`RiscvTrap.MieSurvives` and
`RiscvTrap.SieSurvives` say exactly when it does). `RiscvTrap.TakenInterruptTraps` and `IsTaken` reflect that interrupt 0
and interrupts above 31 are never delivered.

## Model

| member | source | states |
|---|---|---|
| `SoftFloatWords.AddM` | softfloat/source/s_addM.c:44-67 | The words of z hold the sum modulo 2^(32n), for any n and with z aliasing an operand, although the carry is found by comparing words. |
| `SoftFloatWords.SubM` | softfloat/source/s_subM.c:44-67 | The words of z hold the difference modulo 2^(32n). |
| `SoftFloatWords.NegXM` | softfloat/source/s_negXM.c:43-60 | In place negation modulo 2^(32n). |
| `SoftFloatWords.Compare96M` | softfloat/source/s_compare96M.c:43-59 | The sign of the comparison of the two 96-bit numbers. |
| `SoftFloatWords.RemStepMBy32` | softfloat/source/s_remStepMBy32.c:44-83 | z = rem * 2^dist - b * q modulo 2^(32n): the one-pass shift, multiply and subtract loses no carry or borrow. |
| `SoftFloatWords.RemColumn` | softfloat/source/s_remStepMBy32.c:68-80 | One column keeps the invariant that ties shifted-out bits, the high half of the product and the borrow to the exact value. |
| `SoftFloatWords.ShortShiftLeft64To96M` | softfloat/source/s_shortShiftLeft64To96M.c:44-53 | The 96-bit result is a * 2^dist exactly. |
| `SoftFloatWords.Mul64To128M` | softfloat/source/s_mul64To128M.c:43-65 | The four words hold the exact 128-bit product. |
| `SoftFloatWords.MulToHalves` | softfloat/source/s_mul64To128M.c:48-61 | The two 64-bit halves, with their compare-based carries, are the exact product. |
| `QuotientDigit.ApproxRecip32` | softfloat/source/include/primitives.h:178-179 | The reciprocal of the dividing build lies in [2^31, 2^32) and is below the true one by less than one unit. |
| `QuotientDigit.DigitStep` | softfloat/source/extF80M_rem.c:138-141 | With 0 <= rem < 2x at the loop head, the rounded 29-bit digit leaves a remainder in (-x, 2x), so that one add-back suffices. |
| `QuotientDigit.LastDigitStep` | softfloat/source/extF80M_rem.c:150-151 | The truncated last digit of 1 to 29 bits leaves a remainder above -x and within signed 96 bits. |
| `DigitRecurrence.LoopDigit` | softfloat/source/extF80M_rem.c:140-145 | One turn keeps 0 <= rem < 2x and rem = a * 2^shifted - n * x, with nothing lost to the 96-bit wrap. |
| `ExtF80.NearestEvenUnique` | softfloat/source/extF80M_rem.c:170-179 | The nearest integer with ties to even is unique, and is the one the model computes. |
| `ExtF80.NormExtF80Sig` | softfloat/source/s_normExtF80SigM.c:41-51 | Top bit set, exponent change in [-63, 0], value preserved. |
| `ExtF80.NormaliseValue` | softfloat/source/extF80M_rem.c:193-199 | Normalising keeps the value and the subnormal right shift of `copyA` undoes it exactly. |
| `ExtF80.NaNEncodings` | softfloat/source/extF80M_rem.c:84-93 | Which encodings are NaNs, infinities and finite numbers. |
| `ExtF80Rem.ReduceDigits` | softfloat/source/extF80M_rem.c:135-151 | For every exponent difference of 1 or more the shifts sum to exactly that difference, both the loop and the last digit keep the congruence, and q has the parity of the quotient. |
| `ExtF80Rem.SubtractDown` | softfloat/source/extF80M_rem.c:161-169 | The do-while loop with its pointer swap ends, with the two remainders that straddle zero in the two buffers. |
| `ExtF80Rem.MeanDecides` | softfloat/source/extF80M_rem.c:171-179 | The sign of the sum of the two candidates, and the parity of q when it is zero, select the nearest-even quotient. |
| `ExtF80Rem.SelectRemainder` | softfloat/source/extF80M_rem.c:170-183 | Sign and magnitude handed over are a - n * x for the nearest-even n; a zero keeps the sign of a. |
| `ExtF80Rem.RemNormalised` | softfloat/source/extF80M_rem.c:115-184 | The same from the alignment of the significands on, for all four exponent-difference paths. |
| `ExtF80Rem.BelowHalf` | softfloat/source/extF80M_rem.c:115-116 | When the exponent difference is below -1 the nearest multiple is 0, so a is its own remainder. |
| `ExtF80Rem.CopyValue` | softfloat/source/extF80M_rem.c:193-199 | The fields stored for a copied operand are canonical and have its value. |
| `ExtF80Rem.Rem` | softfloat/source/extF80M_rem.c:55-201 | `remainder` of section 5.3.1 of IEEE 754-2008: for finite a and nonzero finite b the outcome is exactly a - n * b, n nearest a/b with ties to even, zero signed as a; invalid and NaN exactly where they should be; an infinite b returns a. |
| `ExtF80Div.InsideCell` | softfloat/source/extF80M_div.c:146 | If (q + 1) mod 2^22 >= 2, a last digit that is off by one changes neither the top 64 bits nor how the rest compares with 0 and 1/2. |
| `ExtF80Div.RepairDigit` | softfloat/source/extF80M_div.c:147-159 | Otherwise the repaired digit is exact and its low bit says whether a remainder is left. |
| `ExtF80Div.DivDigits` | softfloat/source/extF80M_div.c:131-143 | The first two digits and the remainder for the third satisfy the exact division congruence. |
| `ExtF80Div.AssembleDigits` | softfloat/source/extF80M_div.c:163-167 | The three digits, possibly with a carry out of the last one, assemble into the 96-bit word without loss. |
| `ExtF80Div.DivSignificands` | softfloat/source/extF80M_div.c:119-167 | The 96-bit word is faithful to the exact quotient: floor on top, the low word compares with 0 and 2^31 as the fraction does with 0 and 1/2. |
| `ExtF80Div.Div` | softfloat/source/extF80M_div.c:55-191 | `division` of section 5.4.1 of IEEE 754-2008 up to rounding: for finite operands and nonzero b the word and exponent handed over are faithful to a/b; the special cases are exact. |
| `ExtF80Mul.JammedProduct` | softfloat/source/extF80M_mul.c:117-123 | Dropping the low word into a sticky bit, doubled or not, leaves what the rounder needs. |
| `ExtF80Mul.MulSignificands` | softfloat/source/extF80M_mul.c:117-123 | The reduced product is faithful to the exact product and is doubled exactly when its top bit is clear. |
| `ExtF80Mul.Mul` | softfloat/source/extF80M_mul.c:55-136 | For finite nonzero operands the word and exponent handed over are faithful to a * b; the special cases are exact. |
| `Rounding.RoundingIsCorrect` | softfloat/source/s_roundPackMToExtF80M.c:149-157 | Rounding any faithful word gives the correctly rounded quotient in all five modes, carry into the exponent included. |
| `Netlist.RunsIffWellFormed` | scripts/gen_ppa.py:14-52 | A netlist evaluates on its inputs if and only if each wire is declared once and used only afterwards and each output is driven once. |
| `Netlist.SumBitsAdd` | scripts/gen_rca.py:14-20 | The textbook carry recurrence is addition modulo 2^bits. |
| `WireNames.NameInjective` | scripts/gen_ppa.py:17-19 | A wire's name determines its kind and its bit span. |
| `WireNames.JoinNames` | scripts/gen_ppa.py:36-38 | Joining the names of two adjacent spans, as the generator does, makes the name of their union. |
| `PrefixAdder.WriteRtl` | scripts/gen_ppa.py:6-56 | The nested loops over name lists emit exactly the lines of the specified network, in order. |
| `PrefixAdder.Combine` | scripts/gen_ppa.py:39-40 | The emitted gates combine the generate and propagate of two adjacent groups into those of their union. |
| `PrefixAdder.NetworkRuns` | scripts/gen_ppa.py:29-46 | After level l the signal at i is the group generate or propagate of bits max(0, i - 2^l + 1)..i, for every l and every partial level. |
| `PrefixAdder.PpaAdds` | scripts/gen_ppa.py:14-52 | For every lg_bits and all A, B the emitted circuit computes (A + B) mod 2^(2^lg_bits). |
| `PrefixAdder.PpaWellFormed` | scripts/gen_ppa.py:17-52 | The emitted circuit is well formed and drives exactly the outputs 0..2^lg_bits - 1. |
| `RippleAdder.WriteRtl` | scripts/gen_rca.py:6-23 | The loop emits exactly the lines of the specified ripple-carry circuit. |
| `RippleAdder.RcaSums` | scripts/gen_rca.py:14-20 | The circuit outputs the textbook sum for every width of 1 or more. |
| `RippleAdder.AddersAgree` | scripts/gen_ppa.py:14-52 | The prefix adder and the ripple-carry adder of the same width agree on every input. |
| `RippleAdder.RcaWellFormed` | scripts/gen_rca.py:14-20 | The ripple-carry circuit is well formed. |
| `Translate.State.Translate` | interpret.cc:199-323 | Result, fault, assertion failure and the memory left behind are those of the specified walk and marking. |
| `Translate.State.FindLeaf` | interpret.cc:219-264 | The descent through three tables is the recursive walk. |
| `TranslateOutcome.LeafPermissions` | interpret.cc:269-293 | Where the walk ends in a leaf the access is granted if and only if the R, W, X and U bits of the entry allow it for its kind and mode; otherwise the fault is the one that returns 0. |
| `TranslateOutcome.LeafAddress` | interpret.cc:307-320 | The address granted is in the frame of the entry, of 1 GB, 2 MB, 64 KB or 4 KB, at the offset of ea within it. |
| `TranslateOutcome.WalkByEntries` | interpret.cc:219-264 | The walk in the fields of ea and of the entries it meets, table by table. |
| `TranslateOutcome.OtherOutcomes` | interpret.cc:201-264 | Unpaged accesses pass through, an access past the end of its page faults with 2, an invalid entry with its level. |
| `TranslateOutcome.WritesExactly` | interpret.cc:297-306 | A granted paged access sets the accessed bit of its leaf, and the dirty bit for a store; every other bit and word stays, and any other outcome writes nothing. |
| `TranslateOutcome.TopOutcomes` | top.hh:379-438 | The same for the second walker, which checks no permissions and cuts addresses to 32 bits. |
| `Translate.NapotAgrees` | interpret.cc:318-320 | The NAPOT assertion at the end cannot fire. |
| `Translate.TopTranslate` | top.hh:379-438 | The same for the second walker. |
| `Translate.MarkingKeepsTranslations` | interpret.cc:297-308 | Accessed and dirty marking through either walker changes no translation by either walker, whatever pages the tables share. |
| `Translate.SecondAccessWritesNothing` | interpret.cc:297-308 | Repeating an access writes nothing, in both walkers. |
| `Translate.WalkersAgree` | top.hh:379-438 | Where `state_t::translate` runs paged to an address below 2^32, the second walker from satp.ppn * 4096 gives the same address and the same memory, for 1 GB, 2 MB, 64 KB NAPOT and 4 KB leaves. |
| `Sv39.PhysAddr` | interpret.cc:307-308 | The physical address keeps the offset within the page of the leaf's size. |
| `PageTables.Machine.Walk` | csmith/setup_paging.h:66-81 | The slot returned is that of va's last-level entry, tables made on the way keep the three-level tree and change no lookup, only table pages are written, and it fails if and only if the tables missing on va's path, 0, 1 or 2 of them, are more than the pool holds, or any is missing and none may be made. |
| `PageTables.Machine.MapPages` | csmith/setup_paging.h:89-113 | The first n pages are mapped and every other lookup is unchanged; 0 is returned, with all pages mapped, if and only if the tables missing for the range in the old memory are no more than the free pages, which then shrink by just those; otherwise n is as far as the free pages go. |
| `PageTables.RangeBound` | csmith/setup_paging.h:89-113 | At most two tables per page of the range are missing, so that many free pages are always enough. |
| `PageTables.LeafWord` | csmith/setup_paging.h:106 | The word stored: the page number of pa, the permission bits, and the valid bit. |
| `PageTables.WalkIsLookup` | interpret.cc:219-264 | On a tree without superpage leaves the Sv39 walk is decided by the last-level lookup. |
| `PageTables.StoreLookup` | csmith/setup_paging.h:106 | Storing va's entry changes the lookup of va's page and of no other address. |
| `PageTables.LinkLookup` | csmith/setup_paging.h:76-77 | Linking a fresh zeroed table changes no lookup. |
| `PageTables.MappedTranslates` | csmith/setup_paging.h:89-113 | Every address of a mapped range translates to pa plus its offset in the range exactly when the bits of perm allow the access, faults when they do not, and fails an assertion when perm names no kind of access. |
| `PageTables.OthersKeepTranslation` | csmith/setup_paging.h:89-113 | Every address outside the range translates afterwards if and only if it did before, and to the same place. |
| `PageTables.EmptyRoot` | csmith/setup_paging.h:118-119 | The zeroed root that the program starts from is such a tree and maps nothing. |
| `AlphaBytes.ByteMaskLoop` | alpha_interp.hh:195-203 | The loop yields all ones in byte i exactly where bit i of the selector is set. |
| `AlphaBytes.MasksAre` | alpha_interp.cc:572-641 | The shifted selectors of the INS and MSK forms, low and high, are runs of ones at the byte offset and what spills past the quadword. |
| `AlphaBytes.ExtractedByte` | alpha_interp.cc:576-641 | Byte k of EXTxL or EXTxH combined is byte bn + k of two quadwords side by side, including the shift by 0. |
| `AlphaBytes.LowByte` | alpha_interp.cc:572-611 | MSKxL and INSxL together put v's bytes from the offset up and keep the others. |
| `AlphaBytes.HighByte` | alpha_interp.cc:620-638 | MSKxH and INSxH together put the rest of v's bytes at the bottom and keep the others. |
| `AlphaUnaligned.Decoded` | alpha_interp.cc:557-647 | The function codes of the INTS switch select those operations for every size. |
| `AlphaUnaligned.UnalignedLoad` | alpha_interp.cc:365-367 | The five-instruction load idiom of section 4.6 of the Alpha Architecture Handbook leaves the n little-endian bytes at a, zero-extended, for n = 2, 4, 8, every address and either address mode. |
| `AlphaUnaligned.UnalignedStoreWrites` | alpha_interp.cc:383-388 | The ten-instruction store idiom, high quadword first, writes the n low bytes of the value at a, also when both quadwords are the same. |
| `AlphaUnaligned.UnalignedStoreKeeps` | alpha_interp.cc:383-388 | The store idiom changes no other byte of physical memory. |
| `AlphaInts.SingleBytes` | alpha_interp.cc:564-572 | mskbl clears one byte, extbl moves it to the bottom, insbl moves the lowest byte to it; every other byte of the result is fixed. |
| `AlphaInts.MaskByte` | alpha_interp.hh:195-203 | The byte mask is all ones in just the selected bytes. |
| `AlphaInts.Zaps` | alpha_interp.cc:591-596 | zap clears the selected bytes and zapnot all others. |
| `AlphaInts.SignedShift` | alpha_interp.cc:612-614 | sra shifts by the low six bits and fills with the sign. |
| `AlphaPal.Machine.ExecAlpha` | alpha_interp.cc:249-1065 | One call makes exactly one step of the specified machine, or stops exactly where the interpreter exits. |
| `AlphaPal.Machine.Dispatch` | alpha_interp.cc:262-1050 | The switch: a new PC with the state it leaves, an exit, or the jump to the OPCDEC label with nothing changed. |
| `AlphaPal.Machine.EnterPal` | alpha_interp.cc:243-247 | The saved PC with the mode left in its low bit, PALmode on, PAL_BASE plus the offset. |
| `AlphaPal.StepKinds` | alpha_interp.cc:262-1065 | Every step either enters PAL code at a defined offset, runs a reserved opcode in PALmode, or leaves mode and internal registers alone. |
| `AlphaPal.TurnsOnAtEntry` | alpha_interp.cc:243-247 | PALmode turns on only by landing on PAL_BASE plus the OPCDEC vector, or plus the slot of the very CALL_PAL function run, with the resume PC that goes with it saved. |
| `AlphaPal.CallPalLands` | alpha_interp.cc:264-280 | With an image loaded CALL_PAL with any function but 0xb0 enters PALmode at the slot of the function, saves the next PC and the mode, and changes nothing else. |
| `AlphaPal.CallPalPc` | alpha_interp.cc:278-279 | The slot of f is 0x2000 + 64 * (f mod 64), or 0x3000 + 64 * (f mod 64) when bit 7 of f is set. |
| `AlphaPal.OpcdecLands` | alpha_interp.cc:1048-1065 | An opcode without a case, or a reserved one outside PALmode, enters at 0x13e0 with its own PC saved. |
| `AlphaPal.ModelledLands` | alpha_interp.cc:355-388 | An instruction of the unaligned idioms does to registers and memory what it does there, continues at the next PC and touches neither mode nor internal registers. |
| `AlphaPal.StoreWrites` | alpha_interp.cc:334-347 | `hw_st` writes the eight or four low bytes of the register, lowest first, at its aligned address. |
| `AlphaPal.StoreKeeps` | alpha_interp.cc:334-347 | `hw_st` changes no other byte of memory. |
| `AlphaPal.MoveThroughIpr` | alpha_interp.cc:308-318 | `hw_mtpr` and then `hw_mfpr` of one internal register move a general register through it. |
| `AlphaPal.DecodesMemory` | alpha_interp.cc:355-388 | The encoded ldq_u and stq_u decode to their registers and sign-extended displacement. |
| `AlphaPal.DecodesOperate` | alpha_interp.cc:482-561 | The encoded shift and byte instructions and bis decode to their fields, with a register or a literal operand. |
| `AlphaPal.DecodesReserved` | alpha_interp.cc:264-354 | The opcodes of CALL_PAL, of the reserved instructions and of those without a case. |
| `AlphaPal.TurnsOffByHwRei` | alpha_interp.cc:348-354 | Only `hw_rei` turns it off, to the saved PC. |
| `AlphaPal.UserKeepsIprs` | alpha_interp.cc:308-354 | Outside PALmode a step changes no internal register except EXC_ADDR on entry. |
| `AlphaPal.ExcAddrKept` | alpha_interp.cc:314-318 | EXC_ADDR changes only by entry or by `hw_mtpr` to it. |
| `AlphaPal.EveryStretchEntered` | alpha_interp.cc:1067-1071 | In any run from outside PALmode every stretch of PALmode began at a defined entry and lasted without a gap. |
| `AlphaPal.LoadReadsStore` | alpha_interp.cc:320-347 | `hw_ld` of what `hw_st` of the same format stored is the register, or its low longword sign-extended, for either half of a quadword. |
| `AlphaPal.HandlerReturns` | alpha_interp.cc:348-354 | Entry, any handler that leaves EXC_ADDR as it found it, and `hw_rei` restore the mode and the resume PC; the PC exactly when it was aligned. |
| `AlphaPal.QuietHandlerReturns` | alpha_interp.cc:348-354 | A handler none of whose steps enters PAL code or writes EXC_ADDR is such a handler. |
| `DramQueue.Dram.Advance` | top.cc:1651-1713 | One turn of the loop accepts and answers exactly as specified, or fails the alignment assertion. |
| `DramQueue.QueueBounds` | top.cc:1665-1684 | In every run reply cycles strictly increase, none is overdue, and at most min(mlp, lmax + 1) requests are queued. |
| `DramQueue.AnsweredOnceInOrder` | top.cc:1686-1713 | In every run each accepted request is answered once, in order, at its reply cycle, between lmin and lmax cycles after acceptance despite the clamp, and has been answered exactly when that cycle has passed. |
| `DramQueue.RunsInOrder` | top.cc:1695-1713 | In every run memory and the replies are those of carrying out the accepted requests one after the other. |
| `DramMemory.AlignedLine` | top.cc:1693-1705 | Byte p of a line read is the byte at addr + p; a line written puts its sixteen bytes there and changes no other byte of memory. |
| `DramMemory.LineWritten` | top.cc:1702-1705 | The same for any address, each word wrapping at 32 bits on its own. |
| `DramMemory.ExecuteLeaves` | top.cc:1693-1705 | Requests carried out in order leave each byte as the last store that reaches it put it, or as it was. |
| `DramMemory.LoadsSeeStores` | top.cc:1686-1713 | In every run a reply has the tag and kind of its request, loads are aligned, and each byte a load returns is what the last store before it left there. |
| `DramMemory.LoadsSeeLines` | top.cc:1686-1713 | In every run with aligned stores a load returns the data of the last store to its line accepted before it, and the initial memory when there is none. |
| `DramMemory.MemoryHolds` | top.cc:1686-1713 | In every run memory holds what the stores answered so far left. |
| `DramMemory.AcceptedAre` | top.cc:1651-1683 | In every run the i-th accepted request is that of the valid request lines of its cycle, with the latency drawn or the cycle after the one before it, whichever is later. |
| `DramMemory.TurnOutcomes` | top.cc:1655-1700 | A turn fails exactly when the front is due and is a load that is not 16-byte aligned; otherwise a request is granted exactly when it is valid and there is room. |
| `DramQueue.EveryRun` | top.cc:1651-1732 | The invariant behind these, kept by every turn. |
| `DramQueue.OverdueBlocks` | top.cc:1686 | A front request with a reply cycle in the past is never answered, nor is anything behind it. |
| `DramQueue.BlocksIffOverdue` | top.cc:1666-1668 | A request that meets an empty queue becomes such a front exactly when its latency is negative and the clamp does not lift it. |
| `Gf2.RemainderUnique` | helper.cc:80-91 | A polynomial over GF(2) has one remainder by another. |
| `Crc32c.UpdateCrc` | helper.cc:80-91 | The two loops compute the specified update. |
| `Crc32c.Crc` | helper.cc:93-95 | The checksum is the update from all ones, complemented. |
| `Crc32c.Pack` | helper.cc:84-89 | Folding a byte in at once and shifting eight times is feeding its bits one by one, lowest first. |
| `Crc32c.UpdateIsRemainder` | helper.cc:80-91 | A value is the reflected update if and only if it is the remainder of the message, behind the initial state, by the generator of section 12.1 of RFC 3720. |
| `Crc32c.CrcIsRemainder` | helper.cc:80-95 | A value is the checksum if and only if its complement, reflected, is the remainder of the message behind an all-ones state. |
| `Crc32c.ReflectedBit` | helper.cc:80-91 | Reflection puts bit i where bit n - 1 - i was. |
| `Crc32c.UpdateConcat` | helper.cc:80-91 | update(update(c, x), y) = update(c, x ++ y). |
| `Crc32c.BurstDetected` | helper.cc:93-95 | Two different messages of one length that differ only within 32 consecutive bits have different checksums. |
| `WordBits.IsPow2Exponent` | helper.hh:30-33 | A positive number that passes the test is a power of two ... |
| `WordBits.PowersPass` | helper.hh:30-33 | ... and every power of two passes it. |
| `WordBits.ModIs` | helper.hh:54-60 | The mask taken for powers of two is the remainder. |
| `BitVector.BitVec.constructor` | sim_bitvec.hh:22-29 | All bits of all words are zero. |
| `BitVector.BitVec.SetBit` | sim_bitvec.hh:101-111 | Exactly bit idx becomes set, or the simulator dies when idx is outside; bits at and above n_bits stay zero. |
| `BitVector.BitVec.ClearBit` | sim_bitvec.hh:112-117 | Exactly bit idx becomes clear, under the same conditions. |
| `BitVector.BitVec.Clear` | sim_bitvec.hh:33-35 | No bit is set. |
| `BitVector.BitVec.FindFirstUnset` | sim_bitvec.hh:165-180 | The least unset bit below n_bits, or -1 when there is none. |
| `BitVector.BitVec.FindFirstUnsetPair` | sim_bitvec.hh:142-164 | For even n_bits, the least even p with p and p + 1 unset, or -1 when there is none. |
| `BitVector.BitVec.FindFirstUnsetRr` | sim_bitvec.hh:133-141 | The first unset bit in the cyclic order n_bits - 1, 0, 1, ..., or -1. |
| `BitVector.BitVec.FindFirstSet` | sim_bitvec.hh:181-189 | The least set bit, or -1. |
| `BitVector.BitVec.FindNextSet` | sim_bitvec.hh:191-212 | The least set bit above idx, or -1, when idx + 1 is inside the array. |
| `BitVector.EnumeratesTheSet` | sim_bitvec.hh:181-212 | First and then next until -1 yields every set bit once, in ascending order. |
| `BitVector.EnumerationEnds` | sim_bitvec.hh:181-212 | These calls always come to an end. |
| `BitVector.BitVec.ShiftLeft` | sim_bitvec.hh:213-221 | For 0 < amt < 64 the number in the words is multiplied by 2^amt modulo 2^(64 n), in place from the top word down. |
| `BitVector.ShiftWord` | sim_bitvec.hh:216-220 | One turn of that loop: the wrapped bits land in clear bits of the word above. |
| `RiscvTrap.Interpreter.TakeInterrupt` | temu_code.cc:27-59 | The highest pending, enabled and permitted interrupt above 0, or 0 when there is none. |
| `RiscvTrap.TakenInterruptTraps` | temu_code.cc:31-47 | In machine mode never a delegated one and only with MIE, in supervisor mode a delegated one only with SIE; delegation then decides the target. |
| `RiscvTrap.TakenUnique` | temu_code.cc:50-57 | There is one such answer. |
| `RiscvTrap.MustTake` | temu_code.cc:27-59 | A pending, enabled and permitted interrupt above 0 is taken, or a higher one: in user mode any such. |
| `RiscvTrap.TimerRaises` | interpret.cc:565-570 | The timer sets bit 7 of mip and no other bit or register. |
| `RiscvTrap.Interpreter.PollInterrupts` | interpret.cc:560-589 | The timer may raise its bit; then either the selected interrupt traps or nothing else changes. |
| `RiscvTrap.Interpreter.HandleException` | interpret.cc:1942-1991 | Delegation, the saved registers, mstatus, privilege and vector are those of the specified trap, or an assertion fails. |
| `RiscvTrap.Interpreter.SetPriv` | interpret.cc:326-341 | Fails exactly when a mode is entered whose width field is not 2. |
| `RiscvTrap.Interpreter.ExecSret` | interpret.cc:1785-1797 | `sret` is the specified return. |
| `RiscvTrap.Interpreter.ExecMret` | interpret.cc:1806-1823 | `mret` is the specified return. |
| `RiscvTrap.TrapRegisters` | interpret.cc:1942-1991 | A trap continues at stvec in supervisor mode when it is delegated and at mtvec in machine mode otherwise; the target's cause, epc and tval are the cause with its interrupt bit, the PC and the trap value; the other mode's three and the rest stay. |
| `RiscvTrap.TrapFails` | interpret.cc:326-341 | A trap fails exactly when it is delegated from user mode and SXL is not 2. |
| `RiscvTrap.MachineEntryBits` | interpret.cc:1970-1984 | A trap to machine mode saves the enable of the mode left in MPIE and that mode in MPP, clears MIE and changes no other bit of mstatus. |
| `RiscvTrap.SupervisorEntryBits` | interpret.cc:1956-1968 | The same for supervisor mode. |
| `RiscvTrap.MretRegisters` | interpret.cc:1806-1823 | `mret` continues at mepc in the mode in MPP and changes no other register but mstatus; it fails exactly when the mode entered has a width field other than 2. |
| `RiscvTrap.MretBits` | interpret.cc:1806-1823 | `mret` puts MPIE into the enable of the mode in MPP, sets MPIE, clears MPP and changes no other bit. |
| `RiscvTrap.SretRegisters` | interpret.cc:1785-1797 | `sret` continues at sepc in the mode in SPP, likewise. |
| `RiscvTrap.SretBits` | interpret.cc:1785-1797 | `sret` does the same with SPIE and SPP. |
| `RiscvTrap.TrapNeverLowers` | interpret.cc:1942-1991 | A trap never lowers the privilege and is never delegated from machine mode. |
| `RiscvTrap.MretReturns` | interpret.cc:1806-1823 | Trap, a handler that leaves mepc, MPP and MPIE alone, and `mret`: mode, PC and the interrupted mode's own enable are back; it fails exactly when a width assertion does. |
| `RiscvTrap.SretReturns` | interpret.cc:1785-1797 | The same for a delegated trap and `sret`. |
| `RiscvTrap.TrapMasks` | interpret.cc:1966-1981 | Right after a trap to machine mode no interrupt can be taken; after one to supervisor mode none that is delegated. |
| `RiscvTrap.MieSurvives` | interpret.cc:1977-1981 | Across a trap to machine mode and back MIE survives if and only if the trap came from machine mode or MIE was clear. |
| `RiscvTrap.SieSurvives` | interpret.cc:1962-1966 | The same for SIE and supervisor mode. |
| `RiscvTrap.RestSurvives` | interpret.cc:1942-1991 | Across trap and return nothing else of mstatus changes but the two saved fields and the target's enable. |

## Left out

- SoftFloat with `SOFTFLOAT_FAST_INT64`, the table-driven build of the reciprocal, the value of a propagated NaN and the exception flags: the multiword operations are followed to the call that rounds, packs or propagates.
- `Rounding.RoundPack80`: the precision-80 path for exponents in the normal range; subnormal shifting, overflow and the narrower rounding precisions are not modelled. `softfloat_normRoundPackMToExtF80M` is not part of this model; the remainder is stated at the call to it.
- `ExtF80Mul.MulSignificands`: copies the three upper words of the product where the source points into the same array; the words below play no further part.
- `PrefixAdder.WriteRtl`: emits lines as data; the module header, the port declarations and the syntax of the text lines are not modelled. The same holds for `RippleAdder.WriteRtl`, which needs a width of at least 1, as the source does.
- `PageTables.Machine.Walk`: `malloc` is a pool of whole, aligned, distinct pages below 2^56 that are not yet tables, and an empty pool is its failure; plain `malloc` promises no alignment.
- `PageTables.Machine.MapPages`: a range within the 39-bit space that the comment in the source asks for, and permissions among the ten flag bits of an entry.
- `Translate.State.Translate`: memory is an array of doublewords; an entry fetched from beyond it ends in an outcome of its own. The TLB statistics of the source are not modelled.
- `AlphaPal.Machine.ExecAlpha`: what the remaining instructions, host calls and floating point do to registers, memory and the next PC is a parameter of each step, and system mode, where PAL calls are serviced in C, is not modelled there. The byte idioms are proved with and without its address mapping.
- `AlphaPal.Machine.Dispatch`: the store log, the trace and the instruction count have no effect on what is proved and are not modelled.
- `DramQueue.Dram.Advance`: the occupancy and operation counters are not modelled; memory changes only through the queue; the latency is a parameter of each turn, within the limits the source draws it from.
- `Crc32c.UpdateCrc`: reads the buffer as a sequence and computes exclusive or on naturals bit by bit, below 2^32 throughout.
- `BitVector.BitVec.ShiftLeft`: by 0 or by a whole word, and on no words, is outside defined C++ behaviour and a precondition; bits shifted past n_bits inside the last word stay there, as in the source.
- `BitVector.BitVec.FindNextSet`: past the last word the source reads outside its array, so that idx + 1 inside it is a precondition.
- `RiscvTrap.Interpreter.PollInterrupts`: whether the timer is due and whether interrupts are polled in this step are parameters; the reservation that an interrupt breaks is not modelled.
- Alpha floating point, host system calls and console I/O, ELF loading and boot tables, disassembly, the Verilator glue, statistics and histograms: input and output, or calls into code outside the sources modelled here.
- The remaining integer instructions of both interpreters, the RISC-V CSR tables, `gen_clz.py`, `gen_ctz.py`, saved states and the comparison operations of SoftFloat: each arm is settled by reading it.
