# A verified model of CV32E40P

CV32E40P is a 32-bit in-order RISC-V core with the CORE-V extensions. This project models its
hardest units in Dafny and proves what they are for. A clocked module becomes a state and a function
`Step` (or `Next`) for one rising edge; a class beside it holds the same registers as mutable fields and
its `Clock` method is proved to perform exactly that step. Combinational logic becomes functions.
The theorems are about all inputs and all runs.

| file | unit | main results |
|---|---|---|
| `Bits.dfy`, `IsaDivision.dfy` | words of any width; division as section 7.2 of the RISC-V Unprivileged ISA (20191213) defines it | bit reversal, two's complement, truncated division |
| `SerialDivider.dfy`, `AluDivide.dfy` | `cv32e40p_alu_div`, and the divisor normalisation of `cv32e40p_alu` | the loop invariant for divisors of either sign at any width; all four instructions give the ISA result |
| `AluAdder.dfy`, `AluCompare.dfy` | partitioned adder, comparators, min/max/abs, clip | lane-wise meaning in every vector mode |
| `AluShifter.dfy`, `AluVector.dfy`, `Bitfield.dfy` | vector shifter, rounding and normalisation, bit fields | lane-wise shifts at any lane width; when the documented rounding result is met; round trips of insert and extract |
| `Words.dfy`, `RvcSpec.dfy`, `CompressedDecoder.dfy`, `CompressedProofs.dfy` | `cv32e40p_compressed_decoder` against chapter 16 of the RISC-V Unprivileged ISA | expansion of every legal instruction; accepted if and only if legal |
| `Aligner.dfy`, `FrontEnd.dfy` | `cv32e40p_aligner` with a fetch contract, and with the decoder behind it | the sequential walk through memory; the round trip encode, align, expand |
| `Controller.dfy`, `ControllerUnit.dfy`, `DebugEntry.dfy` | `cv32e40p_controller`, as functions and as the block over the states it is written as | sticky debug requests, ranking to debug mode, single stepping |
| `TrapEntry.dfy`, `Instructions.dfy`, `StepEntry.dfy` | the controller with the fetch position, the IF/ID registers and the trap registers | every kind of instruction leaves the registers and the fetch position it means, through any waiting; interrupts are taken once and resumed; halts, single steps, boot and sleep |
| `HwLoop.dfy`, `HwLoopFetch.dfy` | the controller with loop counters and the IF/ID registers, over a fetch position and over the aligner registers | loop bodies run exactly the programmed number of times |
| `ApuDispatcher.dfy` | `cv32e40p_apu_disp` | refinement of a two-place queue, hazards, completion order, progress |
| `RvfiQueue.dfy`, `RvfiRuns.dfy` | `send_rvfi` and `empty_fifo` of the RVFI monitor | the trace is in order and complete; when one pass drains, and in which arrival orders every send does |
| `CsrTraps.dfy`, `PerfCounters.dfy` | `cv32e40p_cs_registers` | traps, nested handlers and mret; last writes; 64-bit counters as sums over the inputs |

## How the parts are modelled

**Division.** A negative divisor is never negated: the dividend is flipped to match its sign, the
comparison is inverted and the shift fills with ones. `Mag` reads a register as a magnitude under
either convention, and `Dividing` is the loop invariant in these magnitudes: the magnitude of the
sign-matched dividend is the quotient bits so far times twice the shifted divisor, plus AReg, and AReg is
below twice the shifted divisor. After the load, only the zero flag of the divisor has to be held.
`AluDivide` puts the leading-bit count, the reverse/shift/reverse and the operand swap of the
decoder in front, for any width that is a power of two.

**Hardware loops.** `Core` is the controller, the instruction in ID, what IF fetches next (an address and
a loop target that will replace its successor), and the two counters. IF hands an instruction over when ID is
ready, a word is valid and nothing is halted or redirected; a `hwlp_jump` pulse replaces the
successor of the next instruction; a counter goes down when the controller says so and the
instruction leaves ID. Every cycle chooses freely whether ID is ready, whether a word is there
and whether an interrupt is requested. An interrupt handler runs between taking the interrupt and the cycle `Return`;
it preserves the loop registers. The architectural reference `ArchNext` knows nothing of the two decode states.
The instructions executed are proved to be its walk, and for two nested loops that walk is the unrolling.
The documentation asks for bodies of at least three instructions; two are enough in this
model. One is not (`OneInstructionBody`), and ends that follow each other directly are not
(`AdjacentEnds`). Two cycles that nothing holds up execute an instruction, so a run with enough of them gets through the
nest; `BodiesRunExactly` returns the cycle in which it does. `HwLoopFetch` puts the aligner and its prefetcher in the
place of the fetch position: the controller's pulses and redirects are proved to come only when the aligner can take
them, so the result holds with its registers in the loop, for any memory with 32-bit code in the nest.

**Front end.** The aligner runs against a prefetcher that keeps presenting a word until it is
consumed. Any stalls, late words, jumps to even addresses and loop redirects are allowed; the trace of delivered
instructions follows memory, advancing by two or four. A program of 16- and 32-bit instructions comes out as the
list of its expansions.

**Debug.** The rank of a controller state bounds the cycles until debug mode while a request is pending, not
counting cycles that wait for the pipeline or a gated clock. Single stepping
needs the signals of the stepped instruction to be held through the flush; `FlushNeedsHeldSignals` says why.

**Traps and debug entries.** `TrapEntry.Core` joins the controller, the trap and debug registers, the IF/ID registers
and the fetch position. The IF/ID registers keep address and instruction while IF is halted, and a redirect moves the
fetch position to mepc, dpc, a loop start or an address that is an input. So what the trap registers save can be followed
back to the instruction, and where a return leads can be followed to the fetch unit. `Meant` says for every flushing
instruction what the registers and the fetch position are at its end; `Successor` says where a step leads. The conditions
of the theorems speak of the inputs of the controller and its state, not of its decisions. The interrupt controller asks only
while mstatus.mie is set (`rtl/cv32e40p_int_controller.sv:78-91`).

**Bookkeeping.** The dispatcher's two slots with their flags are a queue of at most two destinations. The
dependency outputs are raised exactly when an operand is a destination still outstanding. The RVFI reorder
queue is drained by repeated passes, but one pass need not drain it; `OnePassDrains` says when it does. Over a whole
sequence of sends, something deliverable is left parked at some point exactly if an instruction arrives before its
predecessor, both of them before an instruction that is still earlier in order, and every order up to it arrives in the
end (`DrainedIffNotReversed`).

## Where code and documentation differ

- `cv.addRN` and its relatives are documented by a formula, a sum shifted right. The code adds modulo 2^32 before the
  shift. Read over the integers, the formula gives the code's result exactly if there is no shift or the rounded sum
  fits (`AluVector.NormalisedAddIsExact`); `cv.addN` of 0x7FFFFFFF and 1, shifted by 1, is an input where it does not
  (`AluVector.NormalisedAddOverflows`).
- `cv.clipr` is documented with the sign of the bound cleared. The ALU does not clear it; the ID stage does, on the
  way into EX (`rtl/cv32e40p_id_stage.sv:1519`). `AluCompare.ClipNeedsBound` says exactly what would go wrong without.
- The loop documentation demands three instructions in a body; see above.
- The debug documentation lets a step execute one instruction and stop before the next. A status access that ends a loop body
  counts the loop down when it is stepped, but stops behind the loop, whatever the count (`StepEntry.StatusStepLeavesLoop`).

## Model

| member | source | states |
|---|---|---|
| IsaDivision.TruncIsEuclidean | rtl/cv32e40p_alu_div.sv:26-46 | the reference for the four opcodes satisfies the standard's identity and sign rule |
| IsaDivision.TruncIsUnique | rtl/cv32e40p_alu_div.sv:26-46 | no other quotient and remainder do |
| IsaDivision.OverflowIsTruncated | rtl/cv32e40p_alu_div.sv:99-102 | the overflow row of the table is what truncation and wrap-around give: the divider needs no special case |
| SerialDivider.CompareIsMagnitude | rtl/cv32e40p_alu_div.sv:104-105 | the unsigned comparison, or the inverted one on negative words, compares magnitudes |
| SerialDivider.SubtractIsMagnitude | rtl/cv32e40p_alu_div.sv:107-109 | the modular subtraction subtracts magnitudes, for either sign |
| SerialDivider.ShiftIsMagnitude | rtl/cv32e40p_alu_div.sv:89-90 | the shift that fills with the sign flag halves the magnitude |
| SerialDivider.DivideCycle | rtl/cv32e40p_alu_div.sv:84-117 | every DIVIDE cycle keeps dividend = quotient bits times divisor plus AReg and AReg < 2 BReg, for divisors of either sign at any width; the last leaves quotient and remainder |
| SerialDivider.RunNonZero | rtl/cv32e40p_alu_div.sv:123-213 | after the load and any number of cycles the invariant holds with the count left, until FINISH after shift + 2 cycles |
| SerialDivider.RunZero | rtl/cv32e40p_alu_div.sv:104-105 | dividing by zero: every quotient bit is set and the dividend is untouched |
| SerialDivider.DivisionRun | rtl/cv32e40p_alu_div.sv:123-213 | the output is invalid for shift + 1 cycles and then is the ISA result, both sign and zero cases, from any idle state |
| SerialDivider.ValidUntilTaken | rtl/cv32e40p_alu_div.sv:162-168 | from then on the output is valid and unchanged in every cycle until it is taken; after that it is valid exactly while nothing new is requested |
| SerialDivider.BusyForDivisions | rtl/cv32e40p_alu_div.sv:123-173 | over any run the cycles without a valid output are exactly shift + 2 for every division loaded |
| SerialDivider.IdleIsValid | rtl/cv32e40p_alu_div.sv:136-146 | from reset and without a request the output is valid in every cycle: the ALU is ready for everything else |
| SerialDivider.ValueResultIsIsa | rtl/cv32e40p_alu_div.sv:181-185 | the result on values is the register-level result of the standard's table |
| SerialDivider.Divider.constructor | rtl/cv32e40p_alu_div.sv:193-202 | the reset state |
| SerialDivider.Divider.Clock | rtl/cv32e40p_alu_div.sv:193-213 | one edge on the registers is one step |
| SerialDivider.Divider.DivideWord | rtl/cv32e40p_alu_div.sv:123-173 | clocking until the output is valid yields the ISA result |
| AluDivide.NormaliseNonNegative | rtl/cv32e40p_alu.sv:745-773 | leading-bit count and reverse/shift/reverse move a non-negative divisor's top bit to the top of the word, losing nothing |
| AluDivide.NormaliseNegative | rtl/cv32e40p_alu.sv:745-773 | a negative divisor is shifted until exactly one sign bit is left, losing nothing |
| AluDivide.DivisorIsNormalised | rtl/cv32e40p_alu.sv:887-917 | every divisor, zero included, arrives in the form the serial divider needs |
| AluDivide.DivisionIsIsa | rtl/cv32e40p_decoder.sv:969-992 | div, divu, rem and remu: for all operands the divider ends in FINISH with the result of section 7.2, divide by zero and overflow included, and not before |
| AluDivide.DivisionUntilTaken | rtl/cv32e40p_alu.sv:887-917 | and the ISA result stays valid at the output for as long as it is not taken |
| AluDivide.Execute | rtl/cv32e40p_alu.sv:887-917 | the same for the 32-bit core, clocked from idle |
| Bits.ReversedRightShiftIsLeftShift | rtl/cv32e40p_alu.sv:304-314 | reversing, shifting right and reversing is a left shift, at any width and amount |
| Bits.LeadingZeros | rtl/cv32e40p_alu.sv:749-773 | the lowest set bit of the reversed word counts the leading zeros |
| AluAdder.AdderIsLanewise | rtl/cv32e40p_alu.sv:115-175 | the 36-bit sum with guard bits is four 8-bit, two 16-bit or one 32-bit modular sum with the carry entering every lane |
| AluAdder.AddSubIsLanewise | rtl/cv32e40p_alu.sv:102-175 | addition and subtraction modulo the lane size in every lane of every mode |
| AluAdder.ExpandedSign | rtl/cv32e40p_alu.sv:168 | bit 36 is the sign of the exact a + b + 1 |
| AluCompare.ComparatorsAreLanewise | rtl/cv32e40p_alu.sv:345-408 | the cascaded byte comparators decide equality and order of the lanes, signed or unsigned, in every mode |
| AluCompare.CompareIsRelation | rtl/cv32e40p_alu.sv:410-427 | all six relations: every byte of the result is all ones or all zeros as the relation holds in its lane |
| AluCompare.MinMaxIsLanewise | rtl/cv32e40p_alu.sv:430-446 | minimum and maximum in every lane, signed or unsigned |
| AluCompare.AbsIsLanewise | rtl/cv32e40p_alu.sv:430-446 | the absolute value in every lane; the most negative number stays |
| AluCompare.ClipResult | rtl/cv32e40p_alu.sv:461-468 | for all a and b: -(b+1) if a is not above it, otherwise the smaller of a and b |
| AluCompare.ClipUResult | rtl/cv32e40p_alu.sv:455-460 | zero if a is not positive, otherwise the smaller of a and b |
| AluCompare.ClipIsClamp | rtl/cv32e40p_id_stage.sv:1517-1523 | cv.clipr clamps as documented for every pair of registers, because the sign of the bound is cleared |
| AluCompare.ClipUIsClamp | rtl/cv32e40p_id_stage.sv:1517-1523 | the same for cv.clipur |
| AluCompare.ClipNeedsBound | rtl/cv32e40p_alu.sv:461-468 | without the clearing the result is the documented one if and only if the bound is not negative, or at one operand by coincidence |
| AluShifter.ReverseJoin | rtl/cv32e40p_alu.sv:213-240 | reversing a word reverses the order of its lanes and each lane |
| AluShifter.VectorShiftIsLanewise | rtl/cv32e40p_alu.sv:213-314 | reverse, swap amounts, shift lanes right, reverse is a left shift of each lane by its own amount, for any lane width and count |
| AluShifter.ShiftIsFloor | rtl/cv32e40p_alu.sv:264-302 | the logical shift of the sign-extended double word divides the signed (or unsigned) number by 2^k, rounding down |
| AluShifter.FloorShiftIsFloor | rtl/cv32e40p_alu.sv:264-302 | that division is the floor: result times 2^k is the largest multiple not above |
| AluShifter.NormalisedIsExact | rtl/cv32e40p_alu.sv:179-186 | at any width: the modular rounded result equals the exact one if and only if there is no shift or the rounded sum fits |
| AluVector.VectorLeftIsLanewise | rtl/cv32e40p_alu.sv:216-302 | the three modes with their 3, 4 and 5 amount bits |
| AluVector.LaneIsReading | rtl/cv32e40p_alu.sv:345-427 | the lanes of adder and comparators are the bit-level lanes of the shifter, read in two's complement: both speak of the same numbers |
| AluVector.RoundIsHalfUnit | rtl/cv32e40p_alu.sv:182-186 | the rounding value taken from the bit-field mask is half of the unit left after the shift |
| AluVector.AdderIsWordOfSum | rtl/cv32e40p_alu.sv:102-175 | the 32-bit adder result is the exact sum or difference modulo 2^32, whichever way operands are read |
| AluVector.NormalisedAdd | rtl/cv32e40p_alu.sv:179-304 | the rounding variants give the floor of (modular sum plus half a unit) / 2^n, signed or unsigned by opcode |
| AluVector.NormalisedAddIsExact | docs/source/instruction_set_extensions.rst:802-870 | the documented formula, read over the integers, is met if and only if nothing is shifted or the rounded sum fits 32 bits |
| AluVector.NormalisedAddOverflows | docs/source/instruction_set_extensions.rst:802-870 | an input where it is not: 0x7FFFFFFF plus 1, signed, shifted by 1 |
| Bitfield.MaskIsField | rtl/cv32e40p_alu.sv:812-814 | the two-shift mask covers exactly the field |
| Bitfield.ExtractIsField | rtl/cv32e40p_alu.sv:816-821 | extract returns bits p to min(p+w, 31), extended with zeros or the highest extracted bit |
| Bitfield.InsertIsField | rtl/cv32e40p_alu.sv:816-821 | insert replaces the field and leaves every other bit |
| Bitfield.ClearAndSetAreInserts | rtl/cv32e40p_alu.sv:823-824 | clear and set are inserting zeros and ones |
| Bitfield.ExtractAfterInsert | rtl/cv32e40p_alu.sv:810-824 | extracting after inserting returns the inserted low bits |
| Bitfield.InsertAfterExtract | rtl/cv32e40p_alu.sv:810-824 | putting an extracted field back changes nothing |
| CompressedProofs.DecompressExpands | rtl/cv32e40p_compressed_decoder.sv:48-599 | every legal compressed instruction is expanded to the base instruction of chapter 16 |
| CompressedProofs.Parses | rtl/cv32e40p_compressed_decoder.sv:48-599 | everything the decoder accepts is the encoding of some legal instruction |
| CompressedProofs.AcceptedIffRvc | rtl/cv32e40p_compressed_decoder.sv:48-599 | the illegal flag is low if and only if the half-word encodes a legal compressed instruction |
| Aligner.StepFollows | rtl/cv32e40p_aligner.sv:66-226 | every cycle keeps the aligner at its position in memory, and what it delivers is the instruction there |
| Aligner.AlignerFollowsMemory | rtl/cv32e40p_aligner.sv:66-226 | over any run with stalls, late words, even jumps and loop redirects the deliveries are the sequential walk, no half-word lost or repeated |
| Aligner.EveryMoveDelivers | rtl/cv32e40p_aligner.sv:102-216 | without redirects every IF move delivers one instruction, but one after a jump into the middle of a word |
| Aligner.Entry | rtl/cv32e40p_aligner.sv:217-223 | reset and every even jump establish the position |
| Aligner.Unit.constructor | rtl/cv32e40p_aligner.sv:66-73 | the reset state |
| Aligner.Unit.Outputs | rtl/cv32e40p_aligner.sv:93-226 | the block over the four states, assignment by assignment, gives the specified next state and outputs |
| Aligner.Unit.Clock | rtl/cv32e40p_aligner.sv:66-91 | one edge on the registers is one step |
| FrontEnd.WalkDecodes | rtl/cv32e40p_compressed_decoder.sv:48-599 | a delivered walk decodes to the expansions of the program, in order, at its addresses |
| FrontEnd.RoundTrip | rtl/cv32e40p_aligner.sv:102-216 | any list of 16- and 32-bit instructions in memory comes back as the list of its expansions, under any stalls and late words |
| FrontEnd.RoundTripFromJump | rtl/cv32e40p_aligner.sv:217-223 | the same from a jump to any even address, whatever the aligner was doing |
| ControllerUnit.Unit.constructor | rtl/cv32e40p_controller.sv:1436-1448 | the reset state |
| ControllerUnit.Unit.Combinational | rtl/cv32e40p_controller.sv:225-1262 | the block over the states, assignment by assignment, gives each output the value its function says |
| ControllerUnit.Unit.Clock | rtl/cv32e40p_controller.sv:1432-1467 | one edge, fed by that block, is one step, the sticky request on its own clock |
| DebugEntry.HaltedIsDebugMode | rtl/cv32e40p_controller.sv:1495-1542 | every cycle keeps the halted output equal to the debug mode flag, from any sound state |
| DebugEntry.HaltedFromReset | rtl/cv32e40p_controller.sv:1495-1542 | in every state reached from reset halted is the debug mode flag, and havereset is shown until the first fetch or debug entry |
| DebugEntry.RequestStaysPending | rtl/cv32e40p_controller.sv:1484-1493 | a debug request of one cycle, clock gated or not, is pending until debug mode |
| DebugEntry.RequestIsForgotten | rtl/cv32e40p_controller.sv:1484-1493 | in debug mode a request is dropped, and none ever comes from nothing |
| DebugEntry.RankStep | rtl/cv32e40p_controller.sv:330-1262 | with a request pending every state moves to a lower rank or to debug mode, unless it waits for the pipeline |
| DebugEntry.RequestIsServed | rtl/cv32e40p_controller.sv:330-1262 | so debug mode is entered after at most five moving cycles, whatever the rest of the core does |
| DebugEntry.RequestFromReset | rtl/cv32e40p_controller.sv:330-1262 | the same in every state reached from reset |
| DebugEntry.TakenIsLeaving | rtl/cv32e40p_controller.sv:483-530 | an instruction is taken exactly when it is valid, ID is ready, no branch is taken in EX, and outside debug mode no request, trigger or interrupt is served |
| DebugEntry.TakenStops | rtl/cv32e40p_controller.sv:664-704 | on every path - plain, branch, trap, xret, hardware loop - a stepped instruction starts the way into debug mode |
| DebugEntry.StoppingStep | rtl/cv32e40p_controller.sv:1043-1163 | on that way no instruction is taken and the way is not left |
| DebugEntry.SingleStepTakesOne | rtl/cv32e40p_controller.sv:850-890 | with dcsr.step set, after one instruction outside debug mode no other is taken until debug mode |
| DebugEntry.SteppingReachesDebug | rtl/cv32e40p_controller.sv:1152-1252 | and debug mode is reached within three moving cycles |
| DebugEntry.FlushNeedsHeldSignals | rtl/cv32e40p_controller.sv:1043-1105 | in the last flush cycle of a step the way into debug mode is kept if and only if the ID signals still show a trapping or returning instruction, or a wfi with a request |
| TrapEntry.FlushRun | rtl/cv32e40p_controller.sv:903-1150 | every flush, through any waiting and gating, ends with the trap and debug registers, fetch position, mode and state that its instruction has yet to bring about |
| TrapEntry.InstructionIsExecuted | rtl/cv32e40p_controller.sv:528-1150 | exceptions, mret, uret, dret, fence.i, wfi and status accesses, from the cycle they stand in ID, through any waiting: the registers at the end and the redirects on the way are those the instruction means |
| TrapEntry.ExceptionIsTakenOnce | rtl/cv32e40p_controller.sv:903-950 | illegal instruction, ebreak and ecall: pc, cause and enable bit saved, interrupts off, exactly one jump, to the handler |
| TrapEntry.DebugModeKeepsTrapState | rtl/cv32e40p_controller.sv:928-950 | exceptions and returns in debug mode leave mstatus, mepc and mcause alone and go to the debug exception vector |
| TrapEntry.ReturnIsTakenOnce | rtl/cv32e40p_controller.sv:1076-1129 | mret: enable bit restored, exactly one jump, to mepc |
| TrapEntry.DretLeavesDebugMode | rtl/cv32e40p_controller.sv:1130-1140 | dret leaves debug mode and goes to dpc |
| TrapEntry.InterruptIsTakenOnce | rtl/cv32e40p_controller.sv:500-532 | an interrupt at any cycle cancels the instruction in ID and saves its address and the cause; through the whole handler these stay saved and the interrupt vector is not used again |
| TrapEntry.InterruptResumes | rtl/cv32e40p_controller.sv:1076-1129 | the mret that ends the handler brings the fetch unit back to the cancelled instruction, with the enable bit from before |
| TrapEntry.HaltStops | rtl/cv32e40p_controller.sv:489-499 | a halt request, a trigger match, or an ebreak that enters debug mode stops at the instruction in ID: debug mode is reached with the third cycle that moves, nothing else is taken, dpc is its address, the cause is 3, 2 or 1, and in debug mode an ebreak changes neither |
| Instructions.JumpIsTaken | rtl/cv32e40p_controller.sv:541-554 | a jump, from the cycle it stands in ID until it leaves, through stalls and waiting for its operand: one redirect, and its target is executed next |
| Instructions.BranchIsTaken | rtl/cv32e40p_controller.sv:445-459 | a taken branch in EX drops the instruction in ID and sends the fetch unit to the target, before anything else is served |
| Instructions.PlainIsTaken | rtl/cv32e40p_controller.sv:615-662 | a plain instruction outside loops leaves as soon as ID is ready, the next one is handed over in the same cycle, and nothing else moves |
| Instructions.EmptyIsFilled | rtl/cv32e40p_controller.sv:714-718 | an empty ID stage takes the next instruction as soon as its word is there, and nothing is served meanwhile |
| Instructions.LoopEndIsAnnounced | rtl/cv32e40p_controller.sv:822-841 | one instruction before the end of a body that runs again IF learns that the end is followed by the start |
| Instructions.LoopJumpIsTaken | rtl/cv32e40p_controller.sv:628-650 | the end of such a body met in DECODE sends the fetch unit back in its first cycle, and only then |
| Instructions.OnlyEndsCount | rtl/cv32e40p_controller.sv:594-612 | the loop counters go down for plain instructions and status accesses at the end of a body that leave ID, and for nothing else |
| Instructions.NothingElseCounts | rtl/cv32e40p_controller.sv:489-532 | an instruction kept from executing by a halt, an interrupt or a taken branch neither counts a loop down nor announces a jump |
| Instructions.Boots | rtl/cv32e40p_controller.sv:342-354 | out of reset the fetch unit goes to the boot address; with a debug request debug mode is entered there first, with cause 3 |
| Instructions.ResetWaits | rtl/cv32e40p_controller.sv:331-340 | nothing moves in reset until fetching is enabled |
| Instructions.FirstFetchCycle | rtl/cv32e40p_controller.sv:396-430 | the first fetch hands the instruction over and decoding starts, unless an interrupt is taken |
| Instructions.Sleeps | rtl/cv32e40p_controller.sv:356-395 | after wfi nothing is fetched, taken or changed until an enabled interrupt or a debug request comes |
| Instructions.Wakes | rtl/cv32e40p_controller.sv:366-390 | then the core goes on to fetch behind the wfi, or to debug mode with dpc there and cause 3 |
| Instructions.WfiHalts | rtl/cv32e40p_controller.sv:1103-1110 | a debug request that comes while a wfi is flushed leads to debug mode instead of sleep, with dpc behind the wfi and cause 3 |
| StepEntry.DpcIsLastEntry | rtl/cv32e40p_controller.sv:1165-1252 | over any run without a CSR write to it, dpc is the address saved by the last debug entry |
| StepEntry.StepSavesSuccessor | rtl/cv32e40p_controller.sv:664-704 | after a single step dpc is where the instruction leads - handler, mepc, jump, branch or loop target, or the next instruction -, the cause is 4, and the trap registers are those it leaves; a trigger match or an ebreak that enters debug mode stops at itself with cause 2 or 1 |
| StepEntry.OrderlyRun | rtl/cv32e40p_if_stage.sv:229-271 | without hardware loops, in every reachable state IF stands right behind the instruction in ID until a jump goes ahead |
| StepEntry.StepSavesFollowing | rtl/cv32e40p_controller.sv:1220-1252 | so dpc after a step of an instruction that does not trap, return, jump or branch is the address right behind it, compressed or not |
| StepEntry.StatusStepLeavesLoop | rtl/cv32e40p_controller.sv:594-704 | stepping over a status access at the end of a loop body leaves the loop, where without stepping the body runs again |
| HwLoop.CoreStep | rtl/cv32e40p_controller.sv:618-659 | every cycle, stalled, late or interrupted, keeps controller, fetch and counters in step with the architectural position; exactly the instruction that leaves moves it |
| HwLoop.Entry | rtl/cv32e40p_controller.sv:429-466 | any start in DECODE with an empty ID stage is such a state |
| HwLoop.ExecutesTheWalk | rtl/cv32e40p_controller.sv:822-846 | for any stalls, late words and interrupts the executed addresses are the architectural walk through both loops |
| HwLoop.WalkIsUnrolling | docs/source/corev_hw_loop.rst:1-120 | the walk of a loop nest is count1 times the outer body with inner times the inner body in it, and ends behind it with both counts zero |
| HwLoop.Progress | rtl/cv32e40p_if_stage.sv:229-257 | over any run every two cycles without a stall execute an instruction, but for one cycle that each interrupt costs |
| HwLoop.BodiesRunExactly | rtl/cv32e40p_controller.sv:1279-1304 | for any stalls and interrupts the executed addresses are a part of the unrolled nest, and all of it, with execution behind the nest and both counts zero, once enough cycles move or the run goes on |
| HwLoop.LoopStateIsLeft | rtl/cv32e40p_controller.sv:825-846 | in every reachable state DECODE_HWLOOP means a running loop: behind a nest the controller is in DECODE |
| HwLoop.ZeroOverhead | docs/source/corev_hw_loop.rst:1-40 | in the loop state every cycle without a stall executes one instruction, loop ends included |
| HwLoop.OneInstructionBody | rtl/cv32e40p_controller.sv:822-846 | from a proper start and without any stall, a body of one instruction is left although its count asks for more |
| HwLoop.AdjacentEnds | rtl/cv32e40p_controller.sv:1576-1581 | from a proper start, with ends that follow each other directly, one late word makes the executed addresses differ from the architectural walk |
| HwLoopFetch.FetchAgrees | rtl/cv32e40p_if_stage.sv:252-271 | every pulse and redirect of the controller is one the aligner can take, and the aligner delivers when and where the loop system fetches |
| HwLoopFetch.RunAgrees | rtl/cv32e40p_aligner.sv:93-226 | over any run the system with the aligner registers executes the same addresses as the loop system |
| HwLoopFetch.Entry | rtl/cv32e40p_aligner.sv:217-223 | a jump to a word address starts such a run, whatever the aligner was doing |
| HwLoopFetch.StaysInCode | rtl/cv32e40p_if_stage.sv:257-271 | while the program stands in a region of 32-bit code, everything fetched lies in it or in the word behind it |
| HwLoopFetch.BodiesRunExactly | rtl/cv32e40p_controller.sv:1279-1304 | the same with aligner and prefetcher in the loop, for any memory that holds 32-bit code from the start of the nest to one word behind its end |
| ApuDispatcher.RefinesQueue | rtl/cv32e40p_apu_disp.sv:88-143 | a cycle enqueues the accepted destination and dequeues the oldest on a response; waiting implies inflight; never more than two |
| ApuDispatcher.ResponsesInOrder | rtl/cv32e40p_apu_disp.sv:215-221 | over any run accepted equals returned plus outstanding, in order, and every response writes the oldest destination |
| ApuDispatcher.DependencyIsExact | rtl/cv32e40p_apu_disp.sv:166-191 | the dependency outputs are raised if and only if a valid operand is a destination still outstanding |
| ApuDispatcher.NoHazard | rtl/cv32e40p_apu_disp.sv:201-207 | decoding without stall and dependency, no operand is a destination an operation has yet to write |
| ApuDispatcher.TimedCycle | rtl/cv32e40p_apu_disp.sv:151-160 | behind units of fixed latency a cycle keeps at most one operation out and completes the oldest only |
| ApuDispatcher.TypeStallKeepsOrder | rtl/cv32e40p_apu_disp.sv:202-207 | over any run operations complete in issue order, at most one a cycle, and the waiting slot is never used |
| ApuDispatcher.StallIsExact | rtl/cv32e40p_apu_disp.sv:199-207 | the core is stalled if and only if two operations are out or a request is not accepted |
| ApuDispatcher.IdleAccepts | rtl/cv32e40p_apu_disp.sv:88-93 | with nothing outstanding every granted request is accepted, whatever its latency |
| ApuDispatcher.HeldBackForOrder | rtl/cv32e40p_apu_disp.sv:201-205 | behind units of fixed latency a request is held back if and only if it could overtake or meet the outstanding operation, or has latency 3 |
| ApuDispatcher.LatencyThreeWaits | rtl/cv32e40p_apu_disp.sv:201-205 | that is more than the order needs: latency 3 waits behind latency 2, which it could not overtake |
| ApuDispatcher.RequestIsAccepted | rtl/cv32e40p_apu_disp.sv:88-143 | over any run a request that stays and is granted is accepted at the latest in the cycle after the outstanding operation completes |
| ApuDispatcher.FromReset | rtl/cv32e40p_apu_disp.sv:102-143 | from reset: accepted equals returned plus outstanding, and behind units of fixed latency the waiting slot is never used |
| ApuDispatcher.Dispatcher.constructor | rtl/cv32e40p_apu_disp.sv:102-108 | the reset state |
| ApuDispatcher.Dispatcher.Clock | rtl/cv32e40p_apu_disp.sv:102-143 | one edge on the registers is the queue operation |
| RvfiQueue.PassProperties | bhv/cv32e40p_rvfi.sv:667-689 | a pass emits consecutive orders from the wanted one, emits the wanted one if parked, keeps the rest in order, and loses nothing |
| RvfiQueue.EnoughPassesDrain | bhv/cv32e40p_rvfi.sv:667-689 | as many passes as there are parked instructions leave nothing deliverable |
| RvfiQueue.OnePassDrains | bhv/cv32e40p_rvfi.sv:673-687 | one pass is enough if and only if no deliverable instruction is parked behind its successor |
| RvfiQueue.OnePassNeedNotDrain | bhv/cv32e40p_rvfi.sv:673-687 | two instructions parked in the wrong order are not both emitted |
| RvfiQueue.TraceIsInOrder | bhv/cv32e40p_rvfi.sv:694-706 | after any sequence of sends the trace holds orders 1, 2, 3, ... below next_send, and sent equals traced plus parked as multisets |
| RvfiQueue.SendShowsFs | bhv/cv32e40p_rvfi.sv:667-706 | a send adds the instruction itself if it is wanted and then parked ones with the FS of this cycle; the simulation ends exactly if more than fifty are parked |
| RvfiQueue.FiftyAreSafe | bhv/cv32e40p_rvfi.sv:670-672 | fifty sends in any order never end it |
| RvfiRuns.DrainedIffNotReversed | bhv/cv32e40p_rvfi.sv:667-706 | over any sequence of sends nothing deliverable is ever left parked if and only if no instruction arrives before its predecessor, both before a still earlier one, with every order up to it arriving in the end |
| RvfiQueue.Monitor.constructor | bhv/cv32e40p_rvfi.sv:1507 | the first order wanted is 1 |
| RvfiQueue.Monitor.EmptyFifo | bhv/cv32e40p_rvfi.sv:667-689 | the loop that pops and pushes back in place is one pass |
| RvfiQueue.Monitor.SendRvfi | bhv/cv32e40p_rvfi.sv:694-706 | sending is a trace or park, then a pass |
| CsrTraps.TrapCycle | rtl/cv32e40p_cs_registers.sv:1040-1065 | a trap moves mie to mpie, clears it and saves pc and cause, whatever CSR write falls into the same cycle |
| CsrTraps.WriteLands | rtl/cv32e40p_cs_registers.sv:949-1017 | a CSR write changes the fields written and no other, bit 0 of an address dropped |
| CsrTraps.HandlersCompose | rtl/cv32e40p_cs_registers.sv:1040-1081 | however deeply traps nest, a handler that puts mstatus and mepc back leaves the trap state as it found it |
| CsrTraps.TrapAndReturn | rtl/cv32e40p_cs_registers.sv:1220-1235 | through any number of cycles, debug entries and nested traps, mie is 0 when the handler ends and its mret restores the mie from before the trap with mepc the trapped pc |
| CsrTraps.FlagsAccumulate | rtl/cv32e40p_cs_registers.sv:1027-1030 | fflags are the union of all flags raised since the last write |
| CsrTraps.DirtyUntilWritten | rtl/cv32e40p_cs_registers.sv:1032-1037 | once floating-point state changed, FS reads dirty until mstatus is written |
| CsrTraps.FsIsLastWrite | rtl/cv32e40p_cs_registers.sv:1032-1037 | FS is what the last mstatus write made it while nothing touches floating-point state |
| CsrTraps.FlagsFromWrite | rtl/cv32e40p_cs_registers.sv:1027-1030 | after a write to them the flags are the value written and all raised since; flags raised in that very cycle win over the write |
| CsrTraps.FrmIsLastWrite | rtl/cv32e40p_cs_registers.sv:930-947 | the rounding mode is that of the last write to frm or fcsr |
| CsrTraps.DcsrIsLastWrite | rtl/cv32e40p_cs_registers.sv:990-1009 | ebreakm, stepie and step are those of the last write to dcsr; no debug entry changes them |
| CsrTraps.AbsentStays | rtl/cv32e40p_cs_registers.sv:889-897 | without an FPU the floating-point registers never change, and without the FS field neither does FS |
| CsrTraps.Registers.constructor | rtl/cv32e40p_cs_registers.sv:1178-1210 | the reset state |
| CsrTraps.Registers.Clock | rtl/cv32e40p_cs_registers.sv:1211-1243 | one edge, with the exception controller over the CSR write, is one step |
| PerfCounters.LastWritten | rtl/cv32e40p_cs_registers.sv:1378-1388 | in every state reached from reset the inhibit bits and event selections are those last written |
| PerfCounters.CounterCounts | rtl/cv32e40p_cs_registers.sv:1408-1482 | over any run from reset and any later cycles without a write to it, a counter is the value it had plus the cycles that count, modulo 2^64; which cycles count is defined from the inputs alone |
| PerfCounters.CountsFromReset | rtl/cv32e40p_cs_registers.sv:1408-1540 | so an unwritten counter holds the cycles (mcycle), retired instructions (minstret) or selected events since reset in which it was not inhibited |
| PerfCounters.HalfWrite | rtl/cv32e40p_cs_registers.sv:1467-1471 | a half-write sets its half and the other survives |
| PerfCounters.HalvesMakeWhole | rtl/cv32e40p_cs_registers.sv:1413-1417 | two half-writes in either order set all 64 bits |
| PerfCounters.OthersAreZero | rtl/cv32e40p_cs_registers.sv:1461-1462 | counters that do not exist read zero after any run, and so do their inhibit bits and selections |
| PerfCounters.RunValid | rtl/cv32e40p_cs_registers.sv:1461-1482 | over any run counters fit 64 bits |
| PerfCounters.Registers.constructor | rtl/cv32e40p_cs_registers.sv:1464-1466 | counters start at zero and inhibited |
| PerfCounters.Registers.Clock | rtl/cv32e40p_cs_registers.sv:1454-1482 | one edge on all 32 counters is one step |

## Left out

- Physical memory protection, user mode (PULP_SECURE = 1), COREV_CLUSTER = 1 and cv.elw: tied off in the core.
- The decoder as a table: nearly every claim about it is settled by reading one branch; only the operand swap of division is taken from it.
- Stall and forwarding logic of the controller (rtl/cv32e40p_controller.sv:1306-1430): it depends on handshakes of ID and EX that are inputs here.
- Prefetch buffer, IF stage and ID stage: not part of this model; the aligner and the loop model state what they need of them.
- Controller outputs that only select or report (instr_req_o, ctrl_busy_o, irq_ack_o, irq_id_o, exc_cause_o, trap_addr_mux_o, performance events).
- StepEntry.StepSavesSuccessor: the targets of jumps and branches and the vectors are inputs of the fetch stage.
- TrapEntry.InstructionIsExecuted: returns, jumps, wfi and fence.i in DECODE_HWLOOP, where the source treats them as plain instructions.
- TrapEntry.InterruptResumes: a handler without CSR instructions and exceptions; nested traps and CSR writes are the subject of CsrTraps.TrapAndReturn.
- The rest of the ALU: rotation, complex arithmetic, shuffle and pack, bit reversal by radix, and the bit counting results as instructions.
- AluVector.NormalisedAdd: 32-bit mode only; the complex instructions also shift in the 16-bit mode.
- The remaining CSRs, the interrupt mask, vector table and triggers; PULP_PERF_COUNTERS = 1.
- HwLoop.BodiesRunExactly: loop bodies of straight-line 32-bit instructions; status-CSR accesses, ecall, ebreak, compressed instructions and branches in a body, and debug entry from one, are not covered.
- HwLoop.ExecutesTheWalk: addresses are unbounded integers, so a loop across the top of the address space is not covered; start and end registers stay as programmed before the counts.
- HwLoop.CoreStep: an interrupt handler is one gap in the run; that it preserves the loop registers and returns to the saved address is assumed of it.
- RvfiQueue.TraceIsInOrder: order numbers and next_send are unbounded, not 64 and 32 bits; a queue over its limit ends the simulation, so nothing is said of the instructions sent after that.
- RvfiRuns.DrainedIffNotReversed: for distinct order numbers from 1 on, and sequences that never push the queue over its limit.
- HwLoopFetch.BodiesRunExactly: 32-bit code at word addresses; what a handler does with aligner and prefetcher is free, but it returns by a jump.
- RvfiQueue.OnePassDrains: for distinct order numbers, as the tracer hands them out.
- CompressedProofs.DecompressExpands: c.fld and c.fsd expand to double-precision instructions as in the source, which the core's decoder then rejects without the D extension.
- The rest of the RVFI monitor and the tracers: simulation-time events, string formatting, CSR copying.
- Floating-point values, the multiplier, the load-store unit and clock gating beyond the sticky debug request.
