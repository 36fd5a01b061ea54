# Verification of LinuxUserspaceEmulator

A Dafny 4.11 model of the stateful core of the emulator, with proofs of what that core is for: a
guest address space kept as a list of regions, an integer CPU that carries taint along, a heap
tracer, signal delivery, the initial process stack and the memory system calls. Run
`dafny verify dfyconfig.toml` to check all of it.

## What is modelled

Everything rests on one specification of guest memory: `FlatMemory.Memory`, a finite map from
address to a cell (byte, initialized bit, protection, region name, backing with file position).

- **Memory.** `GuestMmu.SoftMmu` is a class that owns a list of `Region` objects and changes it in
  place: it splits, drops, inserts, re-protects and allocates first-fit. Each method is specified by
  the flat memory the list stands for. `RegionList` proves, on plain values, what the list operations
  mean. `LinuxSyscalls` and `LinuxMmap` run `mremap` and `mmap` step by step on that object.
- **CPU.** `Cpu` gives each decoded instruction as a function from state to state; `GuestCpu.SoftCpu64`
  is the object that does it in place, proved equal method by method and over whole runs. `Taint` proves
  noninterference of those runs, and `TaintExact` that no weaker condition on a step would do.
  `InstructionLaws` says of every instruction, in terms of registers, cells and plain arithmetic, when it
  faults and what it puts where, with which flags, taint and reports; `OperationLaws` and `MulDivLaws` do so
  for the operations on values and for the multiplications and divisions. `Alu`, `Registers`, `DataOps`,
  `MulDiv`, `StringMove` and `BitString` prove more about what these compute.
- **Signals, stack, break.** `Signals` is the protocol (dispatch, guest code, `sigreturn`) as a state
  machine over guest memory; `InitialStack` is the stack builder with a reader that walks it back;
  `GuestEmulator.Emulator` is the object that does both, and `set_brk`, in place.
- **Heap tracer.** `HeapHistory` gives the tracer's handlers as functions and, separately, the maps and
  findings they should have, computed from nothing but the history of calls, reads and writes. `Leaks` defines reachability as
  the least closed set of blocks. `HeapTracer.MallocTracer` is the object; its invariant says its maps
  are those of its event history.

Where source and its own words differ, the model follows the code:

- `parity_even` (SoftCPU64.cpp:60-65) holds for an *odd* number of ones (`Alu.ParityIsOdd`), so condition codes
  a and b mean each other's opposite (`OperationLaws.Relation`).
- LEA adds the segment base (SoftCPU64.cpp:2495-2502; `InstructionLaws.LeaLaw`).
- The initial stack pointer is aligned to 16 bytes iff the number of arguments and environment strings together
  is odd: it is aligned before the words are pushed (Emulator.cpp:249-287; `InitialStack.StackIsAligned`).
- A write to a live block is reported as an overflow if it lies within 16 bytes after another block, and as
  use after free if a freed block still covers it (MallocTracer.cpp:277-287); `HeapHistory.LiveWriteMisreported`
  is an example, `HeapHistory.WriteIsJudgedByHistory` says exactly when.
- A 64-bit `add` never sets CF, and a 64-bit `sub` with borrow can wrap its right operand
  (SoftCPU64.cpp:507-537); `Alu.CarryIsExact` and `Alu.BorrowIsExact` say exactly when the flag is right.
- SAR shifts the sign-extended word logically (SoftCPU64.cpp:908-911), so at width 64 a negative operand is
  right only for count 0; `DataOps.SarDividesUnlessTooFar` says exactly when it is.
- ADC, SBB, INC, DEC and a conditional move not taken pass on tainted flags without tainting their
  result (SoftCPU64.cpp:507-537, 737-744, 962-970), and RET follows an undefined return address without a
  report (SoftCPU64.cpp:463-466, 2554-2562). `TaintExact.StepIsSecureExactlyIfCovered` says exactly when a step
  is still independent of undefined data: with tainted flags, iff ADC, SBB, INC or DEC faults or has a tainted
  operand, and iff a conditional move would not show; for RET, iff its slot is defined.
  `TaintExact.AdcLeaksTaintedCarry` is a concrete two-run leak.
- MOVS is memmove iff no byte changes between being written over and being read (`StringMove.MovsExactly`).
- `guest_range_is_mapped` (LinuxSyscalls.cpp:619-628) means "any page of the range is mapped".
- `page_align_up` of a break request in the last page is 0, so `set_brk` moves the break without mapping
  anything (`GuestEmulator.SetBrkCovers`).
- A failed `realloc` is recorded as a free (MallocTracer.cpp:136-141), so the free the program still owes is
  reported as a double free (`HeapHistory.FailedReallocIsAFree`), and a block returned for size 0 is not
  recorded. `HeapHistory.ReallocIsStandardUnlessMisjudged`: everywhere else the live blocks are those of the C
  standard (ISO C17, section 7.22.3.5), and only there.
- BTS, BTR and BTC mark the whole element they write back as initialized (SoftMMU.cpp:476-479).

Assumptions that are parameters or preconditions: argument ranges of `unmap`, `protect`, `mmap` and
`mremap` do not wrap past 2^64; the allocator of the guest hands out blocks that overlap no live block and end below 2^64
(`HeapHistory.KeepsApart`); the `pread` bytes, the random bytes, the ids of the host, symbol addresses
and the test for libc or loader code are inputs.

## Model

| member | source | states |
|---|---|---|
| `Words.WrapIsModulo` | SoftMMU.cpp:160-173 | 64-bit wrap-around is reduction modulo 2^64, for any integer |
| `Words.RoundAligned` | Types.h:48-58 | rounding a page boundary down or up leaves it alone |
| `FlatMemory.BytesAreProtected` | SoftMMU.cpp:355-400 | a byte is read iff it is mapped with read permission, and written iff with write permission; the fault says which is missing; a write changes that one cell |
| `FlatMemory.ShadowRoundTrip` | SoftMMU.cpp:432-455 | bytes stored with their shadows come back with them, at any alignment and across regions; no other cell changes |
| `FlatMemory.LoadIsPointwise` | SoftMMU.cpp:432-444 | a multi-byte read succeeds iff every byte is readable, and byte i is the cell at address + i |
| `FlatMemory.StoreIsPointwise` | SoftMMU.cpp:446-455 | a multi-byte write succeeds iff every byte is writable, and changes exactly those cells |
| `FlatMemory.LoadFaultsFirst` | SoftMMU.cpp:432-444 | the fault of a multi-byte read is that of its first byte that may not be read |
| `FlatMemory.StoreFaultsFirst` | SoftMMU.cpp:446-455 | a multi-byte write faults at its first byte that may not be written, with the bytes before it written |
| `FlatMemory.MarkIsExact` | SoftMMU.cpp:530-536 | marking a readable range changes exactly the shadows in it |
| `FlatMemory.MarkFaultsFirst` | SoftMMU.cpp:530-536 | marking stops at the first byte that may not be read, with those before it marked |
| `FlatMemory.FreshCells` | SoftMMU.cpp:175-212 | a fresh mapping is zero and initialized on exactly its range, its file position moving along |
| `FlatMemory.FilledCells` | SoftMMU.cpp:188-202 | a mapping of given bytes holds them from the offset on and zeros around them |
| `FlatMemory.UnmapIsPageWise` | SoftMMU.cpp:296-322 | `unmap` removes, and `protect` re-protects, exactly the addresses of the rounded range |
| `FlatMemory.MapErrorIsExact` | SoftMMU.cpp:160-173 | a range is refused iff it is empty, wraps or has a mapped address, in that order |
| `FlatMemory.BytesErrorIsExact` | SoftMMU.cpp:188-194 | source bytes are refused iff the range is, or they do not fit behind the offset |
| `RegionList.SplitIsInvisible` | SoftMMU.cpp:262-293 | splitting changes no cell of the flat memory, leaves the list sorted, disjoint and page-granular, and every region inside or outside the range |
| `RegionList.SplitKeepsCells` | SoftMMU.cpp:268-290 | an address holds a cell after the split iff it held that cell before |
| `RegionList.SliceKeepsCells` | SoftMMU.cpp:139-149 | a slice keeps byte, shadow, protection, name, path and file position (offset + address - base) of every address |
| `RegionList.DropIsWithout` | SoftMMU.cpp:296-307 | removing the regions inside a range removes exactly the addresses of the range |
| `RegionList.ReprotectIsReprotected` | SoftMMU.cpp:310-322 | re-protecting the regions inside a range changes exactly the protection of its addresses |
| `RegionList.InsertIsUnion` | SoftMMU.cpp:152-158 | adding a region on free addresses and sorting is the union of the cells |
| `RegionList.OverlapIsUse` | SoftMMU.cpp:160-173 | the interval test finds a region iff some address of the range is in use |
| `RegionList.WriteIsUpdate` | SoftMMU.cpp:120-124 | writing one byte of one region updates exactly one cell |
| `GuestMmu.Region.CloneSlice` | SoftMMU.cpp:70-82 | the clone is a fresh region whose state is that slice of the original |
| `GuestMmu.Region.WriteOffset` | SoftMMU.cpp:51-56 | one byte and its shadow change, nothing else in the region |
| `GuestMmu.Rebuilt` | SoftMMU.cpp:266-292 | the rebuilt list of objects stands for the split list, without sharing or losing a region |
| `GuestMmu.RemovedInside` | SoftMMU.cpp:303-306 | the kept regions stand for the memory without the range |
| `GuestMmu.SetProtection` | SoftMMU.cpp:317-321 | the loop re-protects exactly the range |
| `GuestMmu.SoftMmu.constructor` | SoftMMU.h:141-144 | a new MMU maps nothing |
| `GuestMmu.SoftMmu.EnsureNoOverlap` | SoftMMU.cpp:160-173 | fails for zero bytes, for a wrapping range and iff an address is in use, in that order |
| `GuestMmu.SoftMmu.MapZeroed` | SoftMMU.cpp:175-212 | adds exactly the zero, initialized pages of the rounded range, or reports why not and changes nothing (`map_zeroed` and `map_mmap`) |
| `GuestMmu.SoftMmu.MapBytes` | SoftMMU.cpp:188-202 | adds exactly the source bytes at their offset within zeros, or reports why not and changes nothing |
| `GuestMmu.SoftMmu.SplitAround` | SoftMMU.cpp:262-293 | the flat memory is unchanged and every region is inside or outside the range |
| `GuestMmu.SoftMmu.Unmap` | SoftMMU.cpp:296-307 | exactly [align_down(base), align_down(base) + align_up(size)) is gone; holes stay holes |
| `GuestMmu.SoftMmu.Protect` | SoftMMU.cpp:310-322 | exactly that range has the new protection |
| `GuestMmu.SoftMmu.Allocate` | SoftMMU.cpp:214-259 | terminates with the least page at or above the cursor whose whole range was free, maps only that range and moves the cursor past it; fails only if there is no such page |
| `GuestMmu.SoftMmu.FindRegion` | SoftMMU.cpp:335-353 | finds a region iff the address is mapped, and the one that holds its cell |
| `GuestMmu.SoftMmu.RegionFor` | SoftMMU.cpp:355-375 | no fault iff the cell is mapped with the permission asked for; otherwise unmapped or permission fault |
| `GuestMmu.SoftMmu.IsMapped` | SoftMMU.cpp:325-333 | true iff every address of the wrapping range is mapped |
| `GuestMmu.SoftMmu.Read8WithShadow` | SoftMMU.cpp:393-400 | the byte and shadow of the cell, or its fault |
| `GuestMmu.SoftMmu.Write8WithShadow` | SoftMMU.cpp:482-488 | exactly one cell's byte and shadow change, or the fault and nothing changes |
| `GuestMmu.SoftMmu.ReadWithShadow` | SoftMMU.cpp:432-444 | the loop reads what the flat memory holds, byte by byte |
| `GuestMmu.SoftMmu.WriteWithShadow` | SoftMMU.cpp:446-455 | the loop writes byte by byte; a fault leaves exactly the bytes before it written |
| `GuestMmu.SoftMmu.MarkInitialized` | SoftMMU.cpp:530-536 | the loop marks address by address; a fault leaves exactly those before it marked |
| `LinuxSyscalls.CopyBytes` | LinuxSyscalls.cpp:1140-1144 | the copy loop leaves the memory that copying byte by byte with shadow gives, also when it faults |
| `LinuxSyscalls.CopySucceeds` | LinuxSyscalls.cpp:1140-1144 | the copy succeeds iff the source is readable and the destination writable |
| `LinuxSyscalls.CopyIsExact` | LinuxSyscalls.cpp:1140-1144 | over disjoint ranges every byte and shadow is copied and nothing else changes |
| `LinuxSyscalls.FinishMove` | LinuxSyscalls.cpp:1139-1152 | with the new mapping in place: succeeds iff the old block is readable and its first region writable, and leaves the moved block |
| `LinuxSyscalls.MoveAnywhere` | LinuxSyscalls.cpp:1112-1152 | grows by moving to the first fit, or throws and only then |
| `LinuxSyscalls.MoveFixed` | LinuxSyscalls.cpp:1103-1152 | moves to the address asked for; overlap is EINVAL, or with DONTUNMAP exactly what unmapping first and copying byte by byte gives |
| `LinuxSyscalls.Mremap` | LinuxSyscalls.cpp:1066-1153 | every outcome of the call with the memory it leaves: EINVAL, EFAULT, shrink in place, no-op, ENOMEM, moves |
| `LinuxSyscalls.MoveConserves` | LinuxSyscalls.cpp:1131-1152 | after a move each byte i < min(old, new) has the old value and shadow, the tail is zero and initialized, the old range is gone unless kept, all other addresses are unchanged; name and protection are the old block's |
| `LinuxMmap.RangeIsMapped` | LinuxSyscalls.cpp:619-628 | for page-aligned ranges the probing loop answers whether any address of the range is mapped |
| `LinuxMmap.FillMapping` | LinuxSyscalls.cpp:1035-1049 | file bytes, zero tail, shadow and protection of the new mapping; a failed read removes it again |
| `LinuxMmap.Mmap` | LinuxSyscalls.cpp:1003-1050 | every outcome of the call with exactly the cells it leaves, at the fixed address or the first fit |
| `LinuxMmap.MmapContents` | LinuxSyscalls.cpp:1013-1050 | after the call: file bytes, zero tail, shadow, protection, name, path and file position of every address in the mapping; every other address unchanged |
| `Registers.ExtractLanes` | SoftCPU64.cpp:323-340 | reading a register view (also ah, ch, dh, bh) gives exactly its bytes, little-endian |
| `Registers.InsertThenExtract` | SoftCPU64.cpp:323-370 | what is written to a view is read back from it |
| `Registers.InsertLanes` | SoftCPU64.cpp:342-370 | writing a view replaces its bytes, a 32-bit write clears the upper half, every other byte of every register stays |
| `Alu.ParityIsOdd` | SoftCPU64.cpp:60-65 | the parity function holds iff the byte has an odd number of ones |
| `Alu.ArithFlagBits` | SoftCPU64.cpp:507-537 | the six arithmetic flags hold their conditions and every other bit is kept |
| `Alu.LogicFlagBits` | SoftCPU64.cpp:488-497 | logic operations clear CF and OF, set SF, ZF and PF, keep every other bit |
| `Alu.CompareThenBranch` | SoftCPU64.cpp:523-576 | after comparing at any width, conditions 2-7 and c-f are the unsigned and signed order relations of the operands |
| `Alu.CarryIsExact` | SoftCPU64.cpp:507-521 | value plus CF is the exact sum iff the width is below 64 or the sum needs no carry |
| `Alu.BorrowIsExact` | SoftCPU64.cpp:523-537 | value minus borrow is the exact difference iff the width is below 64 or right operand plus borrow does not wrap |
| `Alu.CountKeepsCarry` | SoftCPU64.cpp:737-744 | any number of INC and DEC between two limbs leaves CF as it was |
| `Alu.AddChainIsExact` | SoftCPU64.cpp:507-521 | ADD then ADC over any number of limbs is the exact sum, the last CF its carry, with counters in between |
| `Alu.SubChainIsExact` | SoftCPU64.cpp:523-537 | SUB then SBB over any number of limbs is the exact difference, the last CF its borrow |
| `OperationLaws.ComputeMeans` | SoftCPU64.cpp:613-730 | the eight operations: sum and difference modulo the width, OR, AND and XOR bit by bit; CF, OF, ZF, SF, PF and AF by what they mean, every other flag kept |
| `OperationLaws.ConditionIsRelation` | SoftCPU64.cpp:539-576 | all sixteen condition codes after any difference: order relations, signed overflow, sign and odd parity |
| `OperationLaws.CountMeans` | SoftCPU64.cpp:732-745 | INC and DEC: one more or less modulo the width, overflow by the signed value, CF kept |
| `OperationLaws.ShiftMeans` | SoftCPU64.cpp:876-917 | SHL multiplies, SHR divides, SAR divides the 64-bit sign extension, filled from the top with zeros |
| `MulDiv.MulIsExact` | SoftCPU64.cpp:788-802 | the accumulator pair holds the exact product, CF = OF = product does not fit a word |
| `MulDiv.ImulIsExact` | SoftCPU64.cpp:803-821 | the signed pair holds the exact product, CF = OF = product is out of signed range |
| `MulDiv.DivIsExact` | SoftCPU64.cpp:822-843 | faults iff the divisor is 0 or the quotient does not fit; else dividend = q * d + r with r < d |
| `MulDiv.IdivIsExact` | SoftCPU64.cpp:844-870 | faults iff the divisor is 0 or the truncated quotient is out of range; else dividend = q * d + r, abs(r) < abs(d), r with the dividend's sign |
| `MulDiv.MulThenDiv` | SoftCPU64.cpp:788-843 | MUL then DIV by the same nonzero operand gives the accumulator back, remainder 0, no fault |
| `MulDiv.ImulThenIdiv` | SoftCPU64.cpp:803-870 | IMUL then IDIV by the same nonzero operand gives the signed accumulator back, remainder 0, no fault |
| `MulDivLaws.MulLaw` | SoftCPU64.cpp:788-821 | MUL and IMUL as instructions: unsigned or signed product of AL/AX/EAX/RAX and the operand, which half goes where, with taint, CF, OF and reports |
| `MulDivLaws.DivLaw` | SoftCPU64.cpp:822-870 | DIV and IDIV as instructions: truncated quotient and its remainder of the register pair, which goes where; the two faults and when |
| `StringMove.MovsExactly` | SoftCPU64.cpp:2276-2306 | MOVS and REP MOVS, in either direction, of any element width and over any overlap, are memmove (with RSI, RDI and RCX where they belong) iff every byte written over before it is read equals what it is written over with |
| `StringMove.MovsIsMemmove` | SoftCPU64.cpp:2276-2306 | so they are, whatever the bytes: forward, when the destination is at or below the source or past its end; backward, when it equals the source, ends below it or starts at least one element above it |
| `StringMove.MovsFills` | SoftCPU64.cpp:2276-2306 | forward from a lower source, the destination holds the bytes between source and destination over and over |
| `DataOps.ShlMultiplies` | SoftCPU64.cpp:901-904 | SHL by any masked count multiplies by 2^count modulo the width |
| `DataOps.ShrDivides` | SoftCPU64.cpp:905-907 | SHR divides by 2^count |
| `DataOps.SarDividesUnlessTooFar` | SoftCPU64.cpp:908-911 | SAR divides the signed operand, rounding down, iff it is not negative or width + count is at most 64 |
| `DataOps.SwapReverses` | SoftCPU64.cpp:973-984 | BSWAP: byte k of the result is byte n - 1 - k of the operand |
| `DataOps.SwapTwice` | SoftCPU64.cpp:973-984 | BSWAP twice gives the operand back |
| `DataOps.ExtensionKeepsValue` | SoftCPU64.cpp:1249-1262 | MOVSX keeps the signed value at every width pair |
| `MulDivLaws.DivisionExists` | SoftCPU64.cpp:844-870 | every nonzero divisor has the quotient and remainder `MulDivLaws.DivLaw` asks for |
| `BitString.BitStringIsExact` | SoftCPU64.cpp:1125-1175 | with an offset of either sign, CF is bit (offset mod 8) of byte address + floor(offset / 8), and BTS sets, BTR clears and BTC flips that bit and no other |
| `BitString.RegisterBitIsExact` | SoftCPU64.cpp:1125-1175 | with a register operand, CF is bit (offset mod width) and the writing forms change that bit and no other |
| `BitString.LocateIsFloor` | SoftCPU64.cpp:1141-1148 | C division with the correction for negative remainders is floor division |
| `BitString.BitOfBytes` | SoftMMU.cpp:402-426 | bit k of a little-endian word is bit k mod 8 of byte k / 8 |
| `BitString.SetBitOfBytes` | SoftMMU.cpp:491-510 | changing bit k of a word changes bit k mod 8 of byte k / 8 and no other byte |
| `InstructionLaws.AddressIs` | SoftCPU64.cpp:216-278 | an operand address is base + index * scale + displacement, cut to 32 bits if asked to, plus the FS or GS base, modulo 2^64; RIP-relative ones ignore segment and size |
| `InstructionLaws.LocateMeans` | SoftCPU64.cpp:216-278 | decoding an operand taints the instruction and reports the address iff its base or index has an undefined byte |
| `InstructionLaws.ReadMeans` | SoftCPU64.cpp:413-436 | an operand read succeeds iff every byte may be read, gives the little-endian value, and a memory read is reported iff some byte is undefined |
| `InstructionLaws.WriteMeans` | SoftCPU64.cpp:438-455 | an operand write succeeds iff every byte may be written, and changes that view or those cells, with one shadow |
| `InstructionLaws.PutsThenHeld` | SoftCPU64.cpp:413-455 | what an instruction puts in a register view or in memory is what the operand holds afterwards |
| `InstructionLaws.ArithmeticLaw` | SoftCPU64.cpp:613-674 | ADD, OR, ADC, SBB, AND, SUB, XOR and CMP of destination and source, in that order: fault, result, flags, taint (none for xor, sub, cmp r,r) and reports |
| `InstructionLaws.ImmediateLaw` | SoftCPU64.cpp:676-730 | the same with an immediate |
| `InstructionLaws.CompareThenJump` | SoftCPU64.cpp:2308-2655 | CMP then Jcc: two steps end at the target iff the relation holds of destination and source, for each of the sixteen conditions |
| `InstructionLaws.CompareImmediateThenJump` | SoftCPU64.cpp:2308-2655 | the same for a comparison with an immediate |
| `InstructionLaws.StepLaw` | SoftCPU64.cpp:2308-2316 | a step performs the instruction at rip with rip past it and no taint yet, or stops |
| `InstructionLaws.NotLaw` | SoftCPU64.cpp:765-786 | NOT puts the complement and leaves the flags |
| `InstructionLaws.NegLaw` | SoftCPU64.cpp:765-786 | NEG puts 0 - x with the flags of that difference |
| `InstructionLaws.CountLaw` | SoftCPU64.cpp:732-745 | INC and DEC of any operand |
| `InstructionLaws.ShiftLaw` | SoftCPU64.cpp:876-917 | SHL, SHR and SAR of any operand by a count masked with 63; by zero, nothing happens |
| `InstructionLaws.MovLaw` | SoftCPU64.cpp:2479-2494 | MOV puts the value of the source, undefined iff some of it was |
| `InstructionLaws.MovImmediateLaw` | SoftCPU64.cpp:2395-2410 | MOV of an immediate puts its low bits |
| `InstructionLaws.ExtendLaw` | SoftCPU64.cpp:1249-1262 | MOVZX and MOVSX put the unsigned or signed value of the narrow source |
| `InstructionLaws.LeaLaw` | SoftCPU64.cpp:2495-2502 | LEA puts the decoded address and reads no memory |
| `InstructionLaws.BswapLaw` | SoftCPU64.cpp:973-984 | BSWAP: byte k from byte n - 1 - k |
| `InstructionLaws.XchgLaw` | SoftCPU64.cpp:2469-2478 | XCHG: the operand takes the register's value, then the register the operand's |
| `InstructionLaws.RegistersExchanged` | SoftCPU64.cpp:2469-2478 | two different registers are exchanged |
| `InstructionLaws.XchgRaxLaw` | SoftCPU64.cpp:2385-2393 | XCHG RAX, r swaps whole words and shadows, nothing else |
| `InstructionLaws.TestLaw` | SoftCPU64.cpp:2461-2468 | TEST sets the flags of AND, and nothing else |
| `InstructionLaws.TestImmediateLaw` | SoftCPU64.cpp:765-775 | the same with an immediate |
| `InstructionLaws.SetConditionLaw` | SoftCPU64.cpp:952-960 | SETcc puts 1 or 0, undefined iff the flags were |
| `InstructionLaws.MoveIfLaw` | SoftCPU64.cpp:962-971 | CMOVcc moves iff the condition holds; otherwise the source is not even read |
| `InstructionLaws.JumpIfLaw` | SoftCPU64.cpp:578-585 | Jcc goes to next + offset iff the condition holds, and reports iff the flags are tainted |
| `InstructionLaws.JumpLaw` | SoftCPU64.cpp:2608-2619 | JMP goes to next + offset modulo 2^64 |
| `InstructionLaws.PushLaw` | SoftCPU64.cpp:2412-2417 | PUSH stores the register as it was, byte by byte with its shadow, 8 below RSP |
| `InstructionLaws.PushImmediateLaw` | SoftCPU64.cpp:2436-2455 | the same with a defined immediate |
| `InstructionLaws.PopLaw` | SoftCPU64.cpp:2419-2427 | POP loads the top word; one undefined byte makes all of the register undefined |
| `InstructionLaws.CallLaw` | SoftCPU64.cpp:2601-2607 | CALL pushes the address of the next instruction, defined, and jumps |
| `InstructionLaws.ReturnLaw` | SoftCPU64.cpp:2552-2566 | RET continues at the top word and drops it and as many bytes more as asked |
| `GuestCpu.SoftCpu64.ReadGpr` | SoftCPU64.cpp:323-340 | the value of the view; an undefined byte in it taints the instruction, nothing else changes |
| `GuestCpu.SoftCpu64.WriteGpr` | SoftCPU64.cpp:342-411 | value and shadow of the view as the functions over `Registers.InsertLanes` say |
| `GuestCpu.SoftCpu64.DecodeMemoryAddress` | SoftCPU64.cpp:216-278 | the 64-bit address, and a report plus taint iff base or index has an undefined byte |
| `GuestCpu.SoftCpu64.ReadOperand` | SoftCPU64.cpp:413-436 | register or memory value with its taint and report, or the fault |
| `GuestCpu.SoftCpu64.WriteOperand` | SoftCPU64.cpp:438-455 | the instruction's taint becomes the shadow of every byte written |
| `GuestCpu.SoftCpu64.Add` | SoftCPU64.cpp:507-521 | the state and value `Alu.CarryIsExact` and `Alu.ArithFlagBits` are about |
| `GuestCpu.SoftCpu64.Sub` | SoftCPU64.cpp:523-537 | the state and value `Alu.BorrowIsExact` and `Alu.CompareThenBranch` are about |
| `GuestCpu.SoftCpu64.ExecuteAluRmReg` | SoftCPU64.cpp:613-674 | the eight operations on two operands with flags, taint and faults, including the reset for r,r |
| `GuestCpu.SoftCpu64.ExecuteAluImm` | SoftCPU64.cpp:676-730 | the eight operations with an immediate |
| `GuestCpu.SoftCpu64.ExecuteGroupF6F7` | SoftCPU64.cpp:765-786 | TEST with an immediate, NOT and NEG |
| `GuestCpu.SoftCpu64.ExecuteMulDiv` | SoftCPU64.cpp:788-870 | the state the four exactness lemmas of `MulDiv` are about, or the fault |
| `GuestCpu.SoftCpu64.ExecuteShiftGroup` | SoftCPU64.cpp:876-917 | shifts by an immediate masked with 0x3f; a zero count changes nothing; 64-bit SAR shifts in zeros |
| `GuestCpu.SoftCpu64.ExecuteIncDec` | SoftCPU64.cpp:732-745 | the count with CF kept, also when the write faults |
| `GuestCpu.SoftCpu64.ExecuteBitTest` | SoftCPU64.cpp:1125-1175 | the state `BitString.BitStringIsExact` is about, or the fault |
| `GuestCpu.SoftCpu64.ExecuteStringMove` | SoftCPU64.cpp:2276-2306 | the loop is the run of elements the `StringMove` theorems are about |
| `GuestCpu.SoftCpu64.BranchCondition` | SoftCPU64.cpp:580-585 | the condition, with a report iff the flags are tainted |
| `GuestCpu.SoftCpu64.Step` | SoftCPU64.cpp:2308-2655 | one decoded instruction in place is one step of the state function the taint theorem runs |
| `GuestCpu.SoftCpu64.Push64` | SoftCPU64.cpp:457-461 | RSP goes down by 8, also when the store faults; value and shadow are stored there |
| `GuestCpu.SoftCpu64.Pop64WithShadow` | SoftCPU64.cpp:468-473 | the word and its shadow; RSP goes up by 8 only if it can be read |
| `GuestCpu.SoftCpu64.ExecuteStackInstruction` | SoftCPU64.cpp:2412-2426 | PUSH, POP, CALL and RET in place reach the states of the taint theorem (CALL and RET: 2554-2563 and 2601-2607) |
| `GuestCpu.SoftCpu64.Run` | SoftCPU64.cpp:2308-2655 | n steps in place end in the state or fault of the run that `Taint.RunsAgree` is about |
| `Taint.RunsAgree` | SoftCPU64.cpp:2308-2655 | over any run: machines with equal shadow that agree on everything defined keep equal rip, shadow, reports and errors and the same agreement, as long as every step is covered and no tainted pointer or branch is reported |
| `Taint.StepAgrees` | SoftCPU64.cpp:2308-2655 | the same for one covered instruction at any agreeing pair of states |
| `Taint.ExtractAgrees` | SoftCPU64.cpp:323-387 | a view whose shadow is clear reads the same on both machines |
| `Taint.InsertAgrees` | SoftCPU64.cpp:342-411 | a write with its taint keeps the register files in agreement |
| `Taint.ReadAgrees` | SoftCPU64.cpp:413-436 | operand reads give the same value unless the instruction is tainted, and the same faults and reports |
| `Taint.WriteAgrees` | SoftCPU64.cpp:438-455 | operand writes keep registers and memory in agreement |
| `Taint.AddressAgrees` | SoftCPU64.cpp:216-278 | unless a tainted pointer is reported, both machines compute the same address |
| `Taint.ArithmeticAgrees` | SoftCPU64.cpp:613-674 | every two-operand operation keeps agreement, including xor, sub and cmp of a tainted register with itself, unless ADC or SBB meets tainted flags, does not fault and has untainted operands |
| `Taint.ImmediateAgrees` | SoftCPU64.cpp:676-730 | with an immediate: agreement is kept unless ADC or SBB meets tainted flags, does not fault and has an untainted operand |
| `Taint.CountAgrees` | SoftCPU64.cpp:732-745 | INC and DEC keep agreement unless they meet tainted flags, do not fault and have an untainted operand |
| `Taint.MoveIfAgrees` | SoftCPU64.cpp:962-971 | a conditional move under tainted flags keeps agreement if taking it would not show |
| `Taint.StackAgrees` | SoftCPU64.cpp:2412-2426 | PUSH, POP, CALL and RET keep agreement when the stack pointer, and for RET the slot, is defined; pushed and popped words carry their shadow |
| `TaintExact.StepIsSecureExactlyIfCovered` | SoftCPU64.cpp:2308-2655 | for every step without a report: no agreeing machine can end it differently iff it is covered |
| `TaintExact.ArithmeticLeaks` | SoftCPU64.cpp:613-674 | ADC and SBB that do not fault and have untainted operands end differently when the carry is flipped |
| `TaintExact.ImmediateLeaks` | SoftCPU64.cpp:676-730 | the same with an immediate |
| `TaintExact.CountLeaks` | SoftCPU64.cpp:732-745 | INC and DEC of an untainted operand leave a flipped carry behind in flags that count as defined |
| `TaintExact.MoveIfLeaks` | SoftCPU64.cpp:962-971 | a conditional move that would show ends differently under flags that decide otherwise |
| `TaintExact.ReturnLeaks` | SoftCPU64.cpp:2554-2562 | RET through a slot with an undefined byte ends differently when that byte differs |
| `TaintExact.AdcLeaksTaintedCarry` | SoftCPU64.cpp:507-521 | a concrete pair of runs in which ADC moves a tainted carry into a register called defined, unreported |
| `Signals.SignalRoundTrip` | Emulator.cpp:370-511 | whatever nests in between, the matching sigreturn restores exactly the 16 registers, rip, rflags, fs and gs bases and mask of its dispatch, and keeps memory |
| `Signals.RunKeepsNested` | Emulator.cpp:370-511 | over any allowed run all outstanding frames stay intact, disjoint and strictly descending |
| `Signals.StartIsNested` | Emulator.cpp:370-422 | from any guest state without outstanding frames the theorems about runs apply |
| `Signals.ImmediateReturn` | Emulator.cpp:370-511 | a handler that pops its return address and returns at once brings the interrupted context back, with no assumption on the run |
| `Signals.FramesDescend` | Emulator.cpp:392-395 | any two outstanding frames are apart by at least a frame and a red zone |
| `Signals.DispatchPushesFrame` | Emulator.cpp:392-419 | the red zone and everything above it and everything below the frame are untouched, RSP + 8 is 16-aligned, the frame reads back as the interrupted context and the return slot as the restorer |
| `Signals.DispatchTakesAction` | Emulator.cpp:382-420 | the lowest deliverable signal is ignored, terminates with 128 + s, enters its handler or aborts, each exactly when it should; on entry rip is the handler, RDI the signal, RSI and RDX 0, the other twelve registers, rflags and segment bases as they were |
| `Signals.DispatchMask` | Emulator.cpp:409-411 | while the handler runs, exactly the signals blocked before, those of the action and its own are blocked |
| `Signals.FrameLayout` | Emulator.cpp:396-407 | every word of the frame is at its offset, the restorer (or the trampoline) below it, all of it defined |
| `Signals.SigreturnRestores` | Emulator.cpp:482-511 | a frame that reads back as a context restores exactly that context |
| `Signals.SigreturnAccepts` | Emulator.cpp:482-502 | `sigreturn` succeeds iff the frame is readable and starts with the magic word |
| `Signals.DispatchConsumesLowest` | Emulator.cpp:370-380 | exactly the lowest pending signal that is not blocked leaves the pending set, or nothing changes |
| `Signals.DispatchBlocks` | Emulator.cpp:409-411 | the entered signal was not blocked and is afterwards; nothing is unblocked; the mask counts more |
| `Signals.NestingIsBounded` | Emulator.cpp:370-511 | in a run whose handlers leave the mask alone at most 63 frames are outstanding |
| `Signals.ChangedMaskIsExact` | Emulator.cpp:455-471 | a mask change blocks and unblocks exactly the signals asked for, never SIGKILL or SIGSTOP |
| `GuestEmulator.Emulator.DeliverSignal` | Emulator.cpp:474-480 | exactly bit signum - 1 of the pending set is set, or EINVAL out of range |
| `GuestEmulator.Emulator.DispatchPendingSignal` | Emulator.cpp:370-422 | the scanning loop is the dispatch of the protocol, also for ignored, terminating and faulting cases |
| `GuestEmulator.Emulator.PushFrame` | Emulator.cpp:391-420 | frame, mask and registers exactly as the protocol's dispatch leaves them |
| `GuestEmulator.Emulator.HandleSigreturn` | Emulator.cpp:482-511 | the sigreturn of the protocol; the result is the restored RAX |
| `GuestEmulator.Emulator.SetSignalMask` | Emulator.cpp:448-472 | old mask written first, then the mask changed as `Signals.ChangedMaskIsExact` says, faults and EINVAL without a change |
| `GuestEmulator.Emulator.SetBrk` | Emulator.cpp:290-309 | the new break, or the mapping error with nothing changed |
| `GuestEmulator.SetBrkCovers` | Emulator.cpp:299-307 | a request keeps every address from the start to the break mapped iff it is not in the last page |
| `GuestEmulator.SetBrkConserves` | Emulator.cpp:299-305 | no mapped cell changes, and a growing request maps exactly the pages up to the end of its own, zero, initialized, readable and writable |
| `GuestEmulator.SetBrkMoves` | Emulator.cpp:290-309 | the break is the request, unless that is 0 or below the start |
| `GuestEmulator.SetBrkFails` | Emulator.cpp:299-305 | the call fails iff it has to grow over a mapped address |
| `InitialStack.InitialStackRoundTrip` | Emulator.cpp:225-288 | if everything fits, walking up from RSP finds argc, the argument strings in order, NULL, the environment strings, NULL and the auxiliary vector with its strings; nothing outside the stack used changed |
| `InitialStack.VectorDescribes` | Emulator.cpp:252-271 | each of the eighteen keys of the auxiliary vector occurs once, with its value: program headers, page size, entry, ids, and where platform name, random bytes and path lie |
| `InitialStack.StackIsAligned` | Emulator.cpp:249-287 | the final stack pointer is 16-byte aligned iff arguments and environment strings together are odd in number |
| `InitialStack.StringAreaLaid` | Emulator.cpp:225-247 | no later push overwrites an earlier string: every address points at its string when the area is done |
| `InitialStack.PushWordsHolds` | Emulator.cpp:274-287 | words pushed from last to first lie in order and readable from the new top |
| `InitialStack.HeldString` | SoftMMU.cpp:579-590 | reading a pushed string back gives it up to its first zero byte |
| `GuestEmulator.Emulator.PushStrings` | Emulator.cpp:230-238 | the reverse loop leaves the strings and their addresses in the original order |
| `GuestEmulator.Emulator.PushVector` | Emulator.cpp:273-287 | the pushes of auxiliary vector, environment, arguments and count are the pushes of one word list |
| `GuestEmulator.Emulator.SetupStack` | Emulator.cpp:225-288 | the loops leave the stack of `InitialStack.InitialStackRoundTrip`, or the fault |
| `GuestEmulator.Emulator.LoadStack` | Emulator.cpp:198-204 | with a free stack area and fitting strings, the program finds all of them from RSP, and every older cell is unchanged |
| `HeapHistory.MapsMeanHistory` | MallocTracer.cpp:45-311 | after every fair history: live and freed keys, sizes and written bits are exactly what the history says; live and freed keys are disjoint |
| `HeapHistory.ContainingIsExact` | MallocTracer.cpp:204-215 | the predecessor lookup finds block k iff the address lies in block k |
| `HeapHistory.FindingsMeanHistory` | MallocTracer.cpp:45-311 | after every fair history the log of findings is exactly what the history deserves, event by event |
| `HeapHistory.EventIsJudged` | MallocTracer.cpp:45-311 | one event is reported exactly as the history before it deserves: free, realloc, write or read |
| `HeapHistory.WriteIsJudgedByHistory` | MallocTracer.cpp:261-288 | a guest write is use after free iff the freed block with the greatest start at or below it contains it, else an overflow iff a live block ends at most 16 bytes before it, else nothing |
| `HeapHistory.LiveWriteMisreported` | MallocTracer.cpp:282-287 | two blocks 8 bytes apart: a write to the second, live one is reported as an overflow of the first |
| `HeapHistory.FreeIsJudgedByHistory` | MallocTracer.cpp:89-108 | a free, whatever its second argument register holds, is reported double iff the last call about the pointer freed it, invalid iff none made it live, else not at all |
| `HeapHistory.UninitializedReadIsExact` | MallocTracer.cpp:290-311 | a guest read outside freed blocks is reported iff its byte is tracked and the history has not written it |
| `HeapHistory.LeaveMatches` | MallocTracer.cpp:55-202 | every returning malloc, calloc, realloc and free keeps the maps equal to the history |
| `HeapHistory.WriteMatches` | MallocTracer.cpp:261-288 | every write keeps the maps equal to the history |
| `HeapHistory.ReallocIsStandardUnlessMisjudged` | MallocTracer.cpp:119-162 | after a realloc the tracer's live blocks are those of the C standard iff the call is none of: null for a nonzero size and a live pointer; a block for size 0 and a nonnull pointer |
| `HeapHistory.FailedReallocIsAFree` | MallocTracer.cpp:136-149 | after a realloc that returns null the old block has moved from the live to the freed map, and the free of it that follows is reported as double |
| `HeapHistory.ActiveIsPending` | MallocTracer.cpp:19-43 | the call the tracer is in is the one the history leaves open |
| `HeapTracer.MallocTracer.RecordAllocation` | MallocTracer.cpp:179-202 | a fresh record with its bitmap, the freed key erased, the MMU shadow of the range cleared as far as readable |
| `HeapTracer.MallocTracer.MoveToFreed` | MallocTracer.cpp:239-253 | the record moves from the live to the freed map, or nothing changes |
| `HeapTracer.MallocTracer.OnReallocLeave` | MallocTracer.cpp:119-162 | all branches of realloc, with the preserved prefix marked byte by byte |
| `HeapTracer.MallocTracer.Step` | MallocTracer.cpp:19-75 | records exactly the call entered or left at this instruction; the maps stay those of the history |
| `HeapTracer.MallocTracer.StepEventIsExact` | MallocTracer.cpp:19-53 | a call is entered at the start of its function from guest code with RDI and RSI, and left at the first guest instruction with RAX |
| `HeapTracer.DetectedIsExact` | MallocTracer.cpp:313-324 | with separate symbols each function is detected exactly at its own nonzero start |
| `HeapTracer.NewRangeIsBlock` | MallocTracer.cpp:179-202 | the shadow is cleared over exactly the block a call hands out |
| `HeapTracer.MallocTracer.OnMemoryWrite` | MallocTracer.cpp:261-288 | records the write; the maps stay those of the history |
| `HeapTracer.MallocTracer.OnMemoryRead` | MallocTracer.cpp:290-311 | records the read; only findings change |
| `HeapTracer.MarkingKeepsBytes` | MallocTracer.cpp:195-201 | clearing shadows changes no byte, protection or mapping of the guest |
| `HeapTracer.MallocTracer.ComputeReachableAllocations` | MallocTracer.cpp:480-538 | terminates with exactly the least set of live blocks closed under "pointed into" from registers, root words and words of blocks in the set; fails only on an unreadable heap word |
| `Leaks.LeastIsUnique` | MallocTracer.cpp:480-538 | there is one such set, so the worklist order does not matter |
| `Leaks.BaseIsExact` | MallocTracer.cpp:486-495 | the lookup of a value, with 0 for none, finds exactly the block it points into |
| `Leaks.PoppedStep` | MallocTracer.cpp:525-536 | one round of the worklist keeps every block queued or followed, adds nothing some closed set lacks, and makes progress |

## Left out

- Address ranges that wrap past 2^64 in unmap, protect, mmap and mremap.
- `GuestMmu.SoftMmu.Allocate`: alignments above a page, which no caller asks for; there, rounding up can wrap to 0 and the search of the source need not end.
- The read and write observers of the MMU: the tracer's entry points are called directly.
- The two region classes, merged into one with a backing; their code differs only in the file position.
- `std::sort`, modelled as insertion into a list that is already in order.
- `std::map`, modelled as a map with a greatest-key-below lookup; report text and backtraces are left out.
- The HeapOverflow finding does not name the block, so the order of the scan in `on_memory_write` is not modelled.
- Opcode byte fetch and decoding: programs are maps from address to decoded instruction, so self-modifying code is not covered.
- The once-per-site suppression of reports.
- `Taint.RunsAgree`: MUL and DIV, bit tests, string moves, shifts by CL, rotates, XMM and x87 are not in its instruction set; PUSH, POP, CALL and RET are covered only with a defined stack pointer.
- `TaintExact.StepIsSecureExactlyIfCovered`: says nothing of a PUSH, POP, CALL or RET whose stack pointer is undefined.
- `MulDiv.IdivIsExact`: the 64-bit dividend -2^127 divided by -1 is undefined in the source; the model calls it an overflow.
- STOS, CMPXCHG, BSF, BSR, SHLD, SHRD, two- and three-operand IMUL, and bit tests with an immediate offset: easy members beside the ones proved.
- PUSH, POP and CALL with a memory or indirect operand, and LEAVE.
- The call stack kept for backtraces, host signal forwarding and `set_signal_action`.
- ELF loading, symbol lookup, host system calls, file descriptors, time and tracing output: input and output.
