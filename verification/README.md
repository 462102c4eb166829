# InstaX: a verified model of the lifter and the process loader

InstaX translates x86-64 code to an intermediate representation (IR) and loads ELF executables into a
guest address space. This project models both halves in Dafny and proves what they are for: lifted code
computes what the processor computes, and a loaded process finds in memory what its file and its command
line say. `dafny verify dfyconfig.toml` checks everything.

## The lifter

| file | contents |
|---|---|
| `Bits.dfy` | machine integers, bitwise operators by their effect on every bit, little-endian byte memory |
| `IR.dfy` | instructions, the evaluator (`Step`, `Exec`), emission as a value (`Emitter`), `IRBasicBlock`, `IRFunction` |
| `FlagState.dfy` | module `Flags`: captured operands, the code emitted for each request, and what it evaluates to |
| `X86.dfy` | the reference semantics: Intel SDM Vol. 1, sections 3.4.1.1 and 3.4.3.1 and Appendix B, and the entries for IMUL, DIV, IDIV and the shifts in Vol. 2 |
| `Lifter.dfy`, `FunctionLifter.dfy` | what is emitted for an instruction, a block, a function: as functions, and as the object whose methods emit it |
| `Simulation.dfy`, `LiftMeans.dfy` | lifting preserves meaning |
| `Temporaries.dfy` | the ids of a whole function's temporaries |
| `FlagArithmetic.dfy`, `FlagLaws.dfy` | carry and overflow arithmetic, the eager flags, known flags and jumps |
| `JumpLaws.dfy`, `JumpCases.dfy` | every conditional jump behind every straight line: what it decides and exactly when it is right |
| `Deviations.dfy` | where else lifted code parts from the processor, exactly when it does not, and inputs on which it does |
| `Labels.dfy`, `Cfg.dfy` | labels, linear sweep, basic blocks |
| `Approximations.dfy` | one-operand IMUL, DIV, IDIV and shifts: what their code computes and exactly when that is right; calls |
| `Program.dfy` | lifted functions: no exception, one terminator at the end of every block, branches resolve |
| `Captured.dfy` | flags captured in one block and tested in another |
| `Runs.dfy` | blocks and whole runs of a lifted function follow the machine |
| `Detours.dfy` | jumps that test flags of a block control has not come through, and a function in which that goes wrong |
| `Pipeline.dfy` | from bytes to the lifted function: how blocks end, that labels are found, all steps in one method |

A register alias is a general-purpose register and a width; registers 0 to 15 of the IR hold the machine's
registers, 16 to 19 are reserved for flags, temporaries start at 20. `Related` ties an IR state to a machine
state: the sixteen registers and all of memory agree. The main theorem on code, `LiftAllMeans`, says that
running the emitted instructions leads from related to related states, for any straight line of supported
instructions, and that the lazy flags left behind are the processor's wherever a static account (`Know`,
`AfterAll`) says they are known.

For conditional jumps there is one law. `EveryJumpExact` takes any straight line of supported instructions and any of
the fourteen jumps behind it, whether the flags are set in the line or were captured before it, and says that the
emitted condition is the processor's exactly when `JumpRight` holds of the flag-setting instruction last executed, and
its opposite otherwise. `JumpRight` is a condition on operand values: the overflow is computed from the first operand
and the result alone, so signed jumps need the remembered operand to have the sign of the unbounded result; a 64-bit
register is remembered by name, so whatever it holds at the jump is what is compared; NEG remembers 0; INC and DEC lose
the carry; IMUL reports no overflow. After IMUL the processor leaves all but carry and overflow undefined, so only the
jumps on those two have an answer. `JumpCases.dfy` spells the law out right behind each kind of instruction.
`Deviations.dfy` adds the differences outside jumps (AH to DH, RIP-relative and 32-bit addresses, LEA) with their
conditions, and inputs on which the lifted code computes something else than the processor (`CompareMisjudged` and the
lemmas behind it); `Approximations.dfy` does the same for one-operand IMUL, DIV, IDIV and the shifts.

`RunSimulates` extends this to runs of any length. The captured flags are handed on in key order, not along control
flow: a block that sets no flags tests what the nearest flag-setting block before it in key order captured on its last
visit (`Source`, `SourceTold`). A `History` records those visits; with it, the decision of every jump of a run is
known (`Decision`), and while the machine runs through blocks that fall through or whose decision is the processor's
(`RightRun`), the lifted function runs through the same blocks in related states. `RightIffJumpRight` turns that into
`JumpRight` wherever the processor's flags come from the same instruction; `KnownGoesRight` says that jumps on known
flags always go right, `WrongJumpGoesAstray` that a jump that goes wrong takes its other successor, `ElsewhereDecides`
what is tested when the capture has not been visited at all, and `ElsewhereGoesWrong` gives a function in which that
sends control back into a loop the machine leaves. `Pipeline.LiftFunction` runs disassembly, block construction and
lifting in a row and delivers, without an exception, a function whose blocks hold the code that `RunSimulates` speaks
about.

## The loader

| file | contents |
|---|---|
| `Regions.dfy` | page arithmetic, the region list, protect as a refinement of a page-permission map, both forms of isMapped |
| `ByteStore.dfy`, `GuestMemory.dfy` | byte ranges and words; module `Memory` with the class `GuestMemory` |
| `Permissions.dfy` | runs of protect calls: the last writer decides |
| `Elf.dfy`, `ImageMapper.dfy`, `ImageLaws.dfy` | load span, segment copying, permissions, headers; what a mapped image holds |
| `Relocation.dfy` | the dynamic table, both relocation tables, what they leave in memory |
| `StackLayout.dfy`, `GuestStack.dfy`, `StackReader.dfy` | the initial stack (System V AMD64 psABI, sections 3.4.1 and 3.4.3): layout, builder, walk |
| `Loader.dfy`, `Process.dfy` | the phases of a load in order, and what the started program finds |

Guest memory is a list of regions and a map from addresses to bytes; `ValidRegions` (page-aligned, not empty,
pairwise disjoint) is the invariant, and 64-bit wrap-around is written out in every address computation. What
the host's mmap answers is a parameter. Copying, protecting and relocating are folds over headers and entries;
each method is proved equal to its fold, and the theorems say what the folds come to by the fields of the headers, the
words of the dynamic table and the numbers of the vector's keys.

`isMapped` rounds the last byte up to a page, so it also asks for the page behind it, while its header promises
a check of the bytes of the range. `IsMappedAsWrittenMeans` says exactly what the written form decides and
`WrittenFormRejectsTop` that it refuses the first write of every stack; everything else is built on the
documented form, which `IsMappedMeansBytes` proves to be "every byte is mapped". For a range that runs past the end
of the address space neither form asks for its bytes: `WrappedRangeMeans` says what each then decides and
`WrappedRangePasses` gives such a range that passes with nothing mapped.

Slips that keep the source from compiling are read as what they evidently mean: a comparison in `isIdentity`,
a range `for` and the condition of `buildCFG`, block parameters by reference, the missing `break` after MOV, the
missing read of the source operand of MOVSX,
`||`, an unconditional loop and a comparison with zero in `applyRelocation`, and a 64-bit write of the
relocated value.
`write64`, which has no body in the repository, is the little-endian inverse of `read64`; the undefined width
helpers follow the switch in the ADD/SUB case. The comment above `liftInstr` says that unrecognised
instructions become NOPs; the code emits nothing for a mnemonic without a case (RET, LOOP, JP, PUSH, SETcc and the
rest, `UNHANDLED` in the model) and keeps the captured flags, and so does the model. The body of `liftBlock` is empty;
the comment on `isTerminated` says what it does behind the instructions, and the model does that: a block left without
a terminator is closed with a JMP to the address behind it, which is the next block for straight-line code and for
calls, and also, wrongly, for RET, JP, LOOP and indirect jumps (`BlockEnd`).

## Model

| member | source | states |
|---|---|---|
| `Bits.BitwiseMeaning` | src/ir/IR.hpp:47-70 | the AND, OR and XOR the evaluator uses act on every bit position on its own |
| `IR.IRBasicBlock.PushInst` | src/ir/IR.cpp:326-345 | a push behind a terminator throws and changes nothing; any other push appends exactly the instruction |
| `IR.IRBasicBlock.Terminator` | src/ir/IR.cpp:297-324 | there is a terminator exactly when the last instruction is JMP, CJMP or RET, and it is that instruction |
| `IR.IRFunction.AllocVreg` | src/ir/IR.hpp:417 | ids are handed out one after the other |
| `IR.IRFunction.FindBlock` | src/ir/IR.cpp:252-267 | the first block of that name; none exactly when no block has it |
| `IR.FreshPreserves` | src/ir/IR.hpp:400-417 | code that only defines new temporaries changes no older register, no flag register and no memory, whatever it computes |
| `IR.FreshPush` | src/ir/IR.hpp:417 | inside one stretch of code that defines temporaries only, defining one more allocated temporary keeps the ids strictly increasing |
| `Temporaries.TemporariesAreDistinct` | src/ir/IR.hpp:417 | over a whole lifted function, calls included, everything defined is a general-purpose register or a temporary from 20 up to the counter, and the temporaries strictly increase in emission order across all blocks |
| `Flags.FlagState.Set` | src/ir/Flagstate.cpp:10-18 | remembers operation, result, operand and type, and becomes valid |
| `Flags.FlagState.Invalidate` | src/ir/Flagstate.cpp:20-22 | only the validity changes |
| `Flags.FlagState.MaterialiseInto` | src/ir/Flagstate.cpp:239-343 | the object appends to the block exactly the code of the specification and advances the counter with it, or throws where it does |
| `Flags.ZFYields` | src/ir/Flagstate.cpp:62-71 | the emitted ZF evaluates to "captured result is zero" |
| `Flags.CFYields` | src/ir/Flagstate.cpp:87-135 | the emitted CF evaluates to the comparison its operation calls for, and to 0 where the code gives a constant |
| `Flags.OFYields` | src/ir/Flagstate.cpp:137-226 | the emitted OF evaluates to: sign of lhs differs from sign of result (ADD, SUB), the one-sided sign change (INC, DEC), 0 otherwise |
| `Flags.MaterialiseMeans` | src/ir/Flagstate.cpp:239-343 | for every request the code only adds fresh temporaries and its value is the request's combination of the four lazy flags; false when no flags are set |
| `FlagArithmetic.CarryOfAdd` | src/ir/Flagstate.cpp:91-99 | the unsigned sum wrapped exactly when the result is below the first operand |
| `FlagArithmetic.BorrowOfSub` | src/ir/Flagstate.cpp:101-111 | borrow, "first below second" and "result above first" coincide |
| `FlagArithmetic.OverflowOfInc` | src/ir/Flagstate.cpp:178-195 | INC overflows exactly when the sign goes from non-negative to negative |
| `FlagArithmetic.OverflowOfDec` | src/ir/Flagstate.cpp:197-214 | DEC overflows exactly when the sign goes from negative to non-negative |
| `Simulation.ReadRegMeans` | src/backend/x86/X86Lifter.cpp:547-566 | the value read is the alias's part of the machine register |
| `Simulation.RelatedByNumber` | src/backend/x86/X86Lifter.cpp:153-175 | registers 0 to 15 of the IR hold RAX, RBX, RCX, RDX, RSI, RDI, RSP, RBP and R8 to R15, in that order |
| `Simulation.WriteRegMeans` | src/backend/x86/X86Lifter.cpp:575-626 | 64-bit writes replace, 32-bit writes zero-extend, 8- and 16-bit writes keep every other bit, and no other register or memory changes |
| `Simulation.ComputeAddrMeans` | src/backend/x86/X86Lifter.cpp:630-688 | for registers of any width the emitted address is base + index * scale + displacement modulo 2^64; with 64-bit registers that is the processor's |
| `Simulation.ReadOperandMeans` | src/backend/x86/X86Lifter.cpp:692-721 | register, immediate and memory operands evaluate to the processor's operand value |
| `Simulation.WriteOperandMeans` | src/backend/x86/X86Lifter.cpp:723-742 | a store or register write leads to the processor's state after the write |
| `LiftMeans.LiftExtendMeans` | src/backend/x86/X86Lifter.cpp:833-880 | MOVZX and MOVSX put the zero- or sign-extended source in the destination register and keep the captured flags |
| `LiftMeans.LiftAluMeans` | src/backend/x86/X86Lifter.cpp:892-924 | ADD, SUB, AND, OR, XOR leave the processor's registers and memory, and flags as far as `After` claims |
| `LiftMeans.LiftCompareMeans` | src/backend/x86/X86Lifter.cpp:1108-1143 | CMP and TEST change no register or memory and capture the flags |
| `LiftMeans.LiftImulMeans` | src/backend/x86/X86Lifter.cpp:944-969 | two- and three-operand IMUL give the truncated signed product and capture it; what jumps then decide is `ImulThenJump` |
| `LiftMeans.LiftUnaryMeans` | src/backend/x86/X86Lifter.cpp:1031-1053 | NOT and NEG; NOT leaves the captured flags alone, NEG captures 0 - x with first operand 0; what jumps then decide is `NegThenJump` |
| `LiftMeans.LiftIncDecMeans` | src/backend/x86/X86Lifter.cpp:1086-1106 | INC and DEC |
| `LiftMeans.LiftInstrMeans` | src/backend/x86/X86Lifter.cpp:790-1143 | every supported instruction: related states stay related, and what is known of the flags stays true |
| `LiftMeans.LiftAllMeans` | src/backend/x86/X86Lifter.cpp:770-1143 | any straight line of supported instructions computes what the processor computes, with the lazy flags correct wherever declared known |
| `LiftMeans.JccMeans` | src/backend/x86/X86Lifter.cpp:1145-1200 | the emitted condition of a jump is the processor's, for every jump that the known flags determine |
| `FlagLaws.EagerFlagsMean` | src/backend/x86/X86Lifter.cpp:417-544 | the eager code stores CF, ZF, SF and OF of the arithmetic in registers 16 to 19 and changes nothing else but temporaries |
| `JumpLaws.LazyRefinesEager` | src/ir/Flagstate.cpp:10-18 | across any number of later instructions that set no flags, lazy ZF and SF equal the eager ones; CF does too and lazy OF implies eager OF, always for 8-, 16- and 32-bit registers and memory, and for a compared 64-bit register while nothing has been written to it |
| `FlagLaws.OverflowChain` | src/ir/Flagstate.cpp:141-176 | true overflow implies lazy OF implies eager OF; lazy OF is right iff not (sign changed and the operands' signs rule overflow out); eager OF is right iff the second operand is 0 or the signs allow overflow |
| `JumpLaws.JumpDecides` | src/ir/Flagstate.cpp:239-343 | behind any straight line a jump tests the lazy flags of the flag-setting instruction last executed, in the line or before it, with its first operand as it is remembered at the jump |
| `JumpLaws.InheritedJump` | src/ir/Flagstate.cpp:239-343 | behind a line that sets no flags a jump tests whatever was captured before, with whatever the captured temporaries hold |
| `JumpLaws.UnsetThenJump` | src/ir/Flagstate.cpp:239-255 | while no instruction has set flags no jump is taken, whatever it tests |
| `JumpLaws.EveryJumpExact` | src/backend/x86/X86Lifter.cpp:1145-1200 | behind any straight line, whether it sets flags or inherits captured ones, each of the fourteen jumps is the processor's exactly when `JumpRight` holds and the opposite otherwise |
| `JumpLaws.DifferenceExact` | src/ir/Flagstate.cpp:87-176 | after ADD, SUB, CMP: unsigned jumps are right iff the carry reads right, signed and overflow jumps iff what is remembered has the sign of the unbounded result; a zero result settles those that include equality |
| `JumpLaws.StepExact` | src/ir/Flagstate.cpp:113-214 | after INC and DEC: carry jumps are right iff the carry was clear, overflow jumps by what is remembered |
| `JumpLaws.ImulExact` | src/ir/Flagstate.cpp:126-132 | after IMUL, JO, JNO, JB and JNB are right iff the signed product is in range |
| `JumpCases.StaleThenJump` | src/backend/x86/X86Lifter.cpp:556-559 | after ADD, SUB or CMP and any later code that sets no flags, the jump compares the result with whatever the remembered register has become |
| `JumpCases.CompareThenJump` | src/ir/Flagstate.cpp:256-338 | what each of the fourteen jumps emitted right after CMP decides: unsigned and equality jumps the right relation, JL only the sign of the first operand |
| `FlagLaws.CompareJumpExact` | src/ir/Flagstate.cpp:302-338 | the emitted jump agrees with the processor iff: always for equality, unsigned and sign jumps, and for signed jumps iff the first operand's sign settles the comparison |
| `FlagLaws.JccCondIsExact` | src/backend/x86/X86Lifter.cpp:750-768 | the direct table names the processor's condition, except that JS and JNS are right iff the subtraction does not overflow |
| `JumpCases.PlainAluThenJump` | src/backend/x86/X86Lifter.cpp:892-924 | what each jump decides after an ADD or SUB of an 8-, 16- or 32-bit register or of memory |
| `JumpCases.PlainAluExact` | src/ir/Flagstate.cpp:141-176 | such a jump is right always, except that signed and overflow jumps need the first operand to have the sign of the unbounded result |
| `JumpCases.NamedThenJump` | src/backend/x86/X86Lifter.cpp:556-559 | after a 64-bit register ADD or SUB the captured operand has become the result: what each jump then decides |
| `FlagLaws.NamedJumpExact` | src/backend/x86/X86Lifter.cpp:917-923 | such a jump is right iff the carry or overflow it tests is absent or does not matter |
| `JumpCases.NegThenJump` | src/backend/x86/X86Lifter.cpp:1033-1053 | what each jump decides after NEG: JL never, JNL always, JO the sign of the result, the unsigned ones as the processor |
| `JumpCases.NegJumpExact` | src/backend/x86/X86Lifter.cpp:1033-1053 | such a jump is right iff it does not depend on the overflow or the operand is not positive |
| `JumpCases.LogicThenJump` | src/ir/Flagstate.cpp:216-223 | after AND, OR, XOR and TEST the signed jumps decide the sign of the result, and all fourteen are the processor's |
| `JumpCases.ImulThenJump` | src/ir/Flagstate.cpp:126-132 | after IMUL every jump decides as if carry and overflow were clear |
| `JumpCases.IncDecThenJump` | src/ir/Flagstate.cpp:178-214 | after an 8-, 16- or 32-bit INC or DEC the signed jumps decide the sign of the unbounded lhs + 1 or lhs - 1, wrap point included, and the overflow jumps whether it left the range |
| `JumpCases.NamedIncDecThenJump` | src/backend/x86/X86Lifter.cpp:1088-1104 | after a 64-bit INC or DEC, whose captured operand has become the result, each jump sees the wrapped result only |
| `JumpCases.NamedStepExact` | src/backend/x86/X86Lifter.cpp:1088-1104 | such a jump is right iff, as far as it depends on them, the carry was clear and the step stays in the signed range |
| `FlagLaws.StraightLineThenJump` | src/backend/x86/X86Lifter.cpp:1145-1200 | a straight line and then a jump: the emitted condition is the processor's for every jump declared exact, logic, INC and DEC included |
| `Deviations.HighByteReadExact` | src/backend/x86/X86Lifter.cpp:34-53 | AH, BH, CH, DH are read as the low byte: right iff both bytes are equal |
| `Deviations.HighByteWriteExact` | src/backend/x86/X86Lifter.cpp:34-53 | a write to AH to DH lands in the low byte: right iff it changes nothing |
| `Deviations.RipRelativeExact` | src/backend/x86/X86Lifter.cpp:643-679 | a RIP-relative address is twice the displacement: right iff the displacement equals the next instruction's address |
| `Deviations.IncCarryExact` | src/ir/Flagstate.cpp:113-118 | INC and DEC report a clear carry: right iff it was clear before |
| `Deviations.NarrowAddressExact` | src/backend/x86/X86Lifter.cpp:643-679 | an address with 32-bit registers is not wrapped at 2^32: right iff the sum modulo 2^64 stays below it |
| `Deviations.LeaExact` | src/backend/x86/X86Lifter.cpp:882-889 | LEA puts the address through 16 bits: the destination is right iff the address fits them, always so for a 16-bit destination |
| `Deviations.CompareMisjudged` | src/ir/Flagstate.cpp:302-338 | CMP AL, BL with 1 and 2, then JL: the lifted code goes the other way |
| `Deviations.AddMisjudged` | src/ir/Flagstate.cpp:141-176 | ADD AL, BL with 1 and -2, then JL |
| `Deviations.NamedAddMisjudged` | src/backend/x86/X86Lifter.cpp:556-559 | ADD RAX, RBX with 2^64 - 1 and 1, then JB |
| `Deviations.StaleMisjudged` | src/backend/x86/X86Lifter.cpp:556-559 | CMP RAX, RBX with 2 and 1, MOV RAX, RCX with 0, then JB |
| `Deviations.NegMisjudged` | src/backend/x86/X86Lifter.cpp:1033-1053 | NEG AL with 1, then JL |
| `Deviations.ImulMisjudged` | src/ir/Flagstate.cpp:126-132 | IMUL AX, BX with 256 and 256, then JO |
| `Deviations.IncMisjudged` | src/backend/x86/X86Lifter.cpp:1088-1104 | INC RAX at 2^63 - 1, then JL or JO |
| `Deviations.IncCarryMisjudged` | src/ir/Flagstate.cpp:113-118 | INC AL with the carry set, then JB |
| `Deviations.HighByteMisread` | src/backend/x86/X86Lifter.cpp:34-53 | AH of 0x0100 is read as 0 |
| `Deviations.RipRelativeMisplaced` | src/backend/x86/X86Lifter.cpp:643-679 | [RIP + 8] in front of 0x1004 comes out as 16 |
| `FunctionLifter.FunctionLifter.ReadReg` | src/backend/x86/X86Lifter.cpp:547-566 | the method appends the specified code and advances the counter with it |
| `FunctionLifter.FunctionLifter.WriteReg` | src/backend/x86/X86Lifter.cpp:575-626 | the same for register writes |
| `FunctionLifter.FunctionLifter.ComputeAddr` | src/backend/x86/X86Lifter.cpp:630-688 | the same for addresses |
| `Approximations.WideImulMeans` | src/backend/x86/X86Lifter.cpp:927-942 | one-operand IMUL: RAX becomes the low half of the product, RDX 0, and the product is captured |
| `Approximations.WideImulExact` | src/backend/x86/X86Lifter.cpp:927-942 | these are the processor's registers iff the signed product lies in [0, 2^64) |
| `Approximations.WideImulJump` | src/ir/Flagstate.cpp:126-132 | the jumps on carry and overflow behind it are right iff the product is in the signed range |
| `Approximations.DivideMeans` | src/backend/x86/X86Lifter.cpp:977-1000 | DIV and IDIV by a divisor other than zero put quotient and remainder of RAX alone into RAX and RDX and invalidate the captured flags |
| `Approximations.DivideExact` | src/backend/x86/X86Lifter.cpp:977-1000 | where the processor yields a result, it is the same iff RDX extends RAX, or 2^63 with RDX clear is divided by -1 |
| `Approximations.ShiftMeans` | src/backend/x86/X86Lifter.cpp:1056-1084 | shifts of a register shift by the whole 8-bit count and capture the result |
| `Approximations.ShiftExact` | src/backend/x86/X86Lifter.cpp:1056-1084 | that is the processor's result iff the count is below the mask, or the masked count already shifts everything out |
| `Approximations.ShiftThenJump` | src/ir/Flagstate.cpp:126-132 | behind a shift every jump decides as if carry and overflow were clear |
| `Approximations.ShiftJumpExact` | src/ir/Flagstate.cpp:126-132 | with an unmasked count other than zero, a jump on defined flags is right iff the carry and overflow it depends on are clear |
| `Approximations.WideImulMisses` | src/backend/x86/X86Lifter.cpp:927-942 | -1 times 1 |
| `Approximations.DivideMisses` | src/backend/x86/X86Lifter.cpp:977-1000 | 2^64 divided by 2 comes out as 0 |
| `Approximations.ShiftMisses` | src/backend/x86/X86Lifter.cpp:1056-1084 | 1 shifted left by 33 in 32 bits comes out as 0 |
| `Approximations.CallMeans` | src/backend/x86/X86Lifter.cpp:1236-1280 | the code of a CALL ends in a call of the direct target, or of the address the operand holds at that point, and the move of the result into RAX; until then the machine state is unchanged, and behind it no flags are captured |
| `FunctionLifter.FunctionLifter.LiftLea` | src/backend/x86/X86Lifter.cpp:882-889 | the method appends the code whose meaning is `LeaExact` |
| `FunctionLifter.FunctionLifter.LiftCall` | src/backend/x86/X86Lifter.cpp:1236-1280 | the method appends the code that `CallMeans` gives meaning to |
| `FunctionLifter.FunctionLifter.LiftInstr` | src/backend/x86/X86Lifter.cpp:790-1280 | the dispatch over all cases appends the specified code, leaves the specified flag state, and throws exactly where a push is refused |
| `FunctionLifter.FunctionLifter.LiftJcc` | src/backend/x86/X86Lifter.cpp:1160-1202 | target search, label lookup with the fallback label, condition, CJMP |
| `FunctionLifter.FunctionLifter.LiftBlock` | src/ir/IR.cpp:286-297 | a block's instructions are lifted in order until one throws, and a block left without a terminator is closed with a JMP to the next address |
| `FunctionLifter.FunctionLifter.Lift` | src/backend/x86/X86Lifter.cpp:362-385 | one named block for each leader in key order, each holding its part of the lifted code, closed by a terminator |
| `Labels.LabelInjective` | src/backend/x86/X86Lifter.cpp:398-402 | distinct addresses have distinct labels, and none is the label of an unresolved target |
| `Cfg.Disassemble` | src/backend/x86/X86Lifter.cpp:233-265 | for every decoder the instructions tile the buffer exactly: each has the length, mnemonic and operands decoded at its offset, or is a one-byte NOP where nothing decodes, and its address is the base plus that offset |
| `Cfg.TilesAscend` | src/backend/x86/X86Lifter.cpp:239-263 | a buffer that does not wrap gives a gapless stream of ascending addresses |
| `Cfg.FindLeaders` | src/backend/x86/X86Lifter.cpp:285-300 | the loop computes the leader set |
| `Cfg.LeadersComeFromFlow` | src/backend/x86/X86Lifter.cpp:285-300 | a leader is the first address, the direct target of a jump, call, return or loop, or what follows one, and nothing else |
| `Cfg.BuildCFG` | src/backend/x86/X86Lifter.cpp:280-313 | the map holds the stream cut in front of leaders, each part under the address of its first instruction, keys ascending |
| `Cfg.SplitFlattens` | src/backend/x86/X86Lifter.cpp:302-312 | concatenating the blocks in key order gives back the stream |
| `Cfg.NoEmptyBlock` | src/backend/x86/X86Lifter.cpp:302-312 | no block is empty |
| `Cfg.CutsAreLeaders` | src/backend/x86/X86Lifter.cpp:306-311 | the cuts are exactly the leaders |
| `Cfg.ControlFlowEndsBlock` | src/backend/x86/X86Lifter.cpp:288-311 | jumps, calls, returns and loops occur only as the last instruction of a block |
| `X86.ControlFlowTransfers` | src/backend/x86/X86Lifter.cpp:318-337 | the instructions that end a block are JMP, the sixteen conditional jumps, CALL, RET, RETF and the three loops, and no others |
| `Cfg.FlowReachesBlocks` | src/backend/x86/X86Lifter.cpp:294-311 | every direct target on an instruction boundary, and whatever follows a control transfer, heads a block |
| `Program.LiftingNeverThrows` | src/ir/IR.cpp:326-345 | lifting the blocks of any stream never pushes behind a terminator, and every block ends in exactly one |
| `Program.BranchesResolve` | src/backend/x86/X86Lifter.cpp:1163-1200 | a jump that is not the last instruction and targets a boundary gets the labels of the blocks at the target and behind it, never the fallback |
| `Captured.SourceTold` | src/ir/Flagstate.cpp:10-18 | on entry to a block the captured flags are those of the nearest flag-setting block before it in key order, as of its last visit |
| `Captured.BlockKeepsTold` | src/ir/IR.hpp:417 | running a block changes nothing that another block captured |
| `Captured.BlocksCapture` | src/ir/Flagstate.cpp:10-18 | for any function the flags of a block refer to the flag-setting instruction nearest before it in key order, in temporaries of that instruction's block |
| `Runs.FallThroughIsRight` | src/ir/IR.cpp:286-297 | straight-line code in front of another block always goes on at that block |
| `Runs.SuccessorIsKey` | src/backend/x86/X86Lifter.cpp:1163-1229 | a jump taken goes on at a block iff its target is an instruction of the stream; anything else does if another block follows |
| `Runs.BlockSimulates` | src/backend/x86/X86Lifter.cpp:770-1229 | running a lifted block that falls through or decides as the processor does follows the machine through it, branches to the label of the address the machine is at, and keeps the history true |
| `Runs.RightIffJumpRight` | src/backend/x86/X86Lifter.cpp:1145-1200 | a block goes right iff `JumpRight`, when the processor's flags are those captured: always so for flags set in the block itself |
| `Runs.WrongJumpGoesAstray` | src/backend/x86/X86Lifter.cpp:1145-1200 | a lifted block whose jump does not decide as the processor still computes registers and memory, and branches to the jump's other successor |
| `Runs.KnownGoesRight` | src/backend/x86/X86Lifter.cpp:1145-1200 | a jump that tests known flags goes right from every machine state and history |
| `Runs.RunSimulates` | src/backend/x86/X86Lifter.cpp:362-385 | while the machine runs through blocks that fall through or whose jumps decide as the processor does, any number of blocks of the lifted function are matched by a run of the machine, ending related at the same place |
| `Detours.ElsewhereDecides` | src/ir/Flagstate.cpp:239-343 | a block that sets no flags, entered from anywhere: what its jump tests, down to the temporaries of the nearest flag-setting instruction in key order |
| `Detours.ElsewhereGoesWrong` | src/ir/Flagstate.cpp:239-343 | a function of five instructions in which a JZ tests a comparison that was jumped over: for any two different operands the machine goes on and the lifted function goes back |
| `Pipeline.BlockEnd` | src/ir/IR.cpp:286-324 | every block ends in exactly one terminator: a CJMP, a JMP to the target, or a synthesised JMP to the next address, the last also for calls, returns, JP, JNP, LOOP and unresolved JMPs |
| `Pipeline.LabelsExistIff` | src/ir/IR.hpp:500-506 | the labels of a block's terminator exist iff a conditional jump's target is an instruction of the stream and the next address starts a block, as it does iff another block follows (below the end of the address space); a resolved JMP needs nothing |
| `Pipeline.JccIsLifted` | src/backend/x86/X86Lifter.cpp:1160-1202 | every conditional jump but a last one closes a block whose code ends in a CJMP to the target's label, or the fallback iff the target is no instruction of the stream, and to the label of the next address |
| `Pipeline.JmpIsLifted` | src/backend/x86/X86Lifter.cpp:1205-1229 | every JMP closes a block whose code ends in a JMP to the target's label, or to the next address iff the target is no instruction of the stream |
| `Pipeline.LabelIsFound` | src/ir/IR.cpp:252-267 | looking up an address's label finds a block iff the address is a key, and it is the block that starts there |
| `Pipeline.FallbackIsNotFound` | src/ir/IR.cpp:252-267 | the fallback label finds no block |
| `Pipeline.StepFollowsLookup` | src/ir/IR.cpp:252-267 | the block a run of the lifted function continues at is the one the lookup finds |
| `Pipeline.LiftFunction` | src/backend/x86/X86Lifter.cpp:233-385 | disassembly, block construction and lifting in a row never throw and leave a function with one block per leader, holding the code of the decoded instructions |
| `Regions.FindRegionFinds` | src/runtime/GuestMemory.cpp:351-358 | a region is found exactly when one holds the address |
| `Regions.ProtectRefines` | src/runtime/GuestMemory.cpp:239-293 | protect updates an abstract page map: mapped addresses and total length stay, permissions change exactly inside the range, the list is valid, sorted and at most two longer |
| `Regions.RebuildSize` | src/runtime/GuestMemory.cpp:248-278 | the list grows by one for each end of the range that falls inside a region, which the reserved two entries cover |
| `Regions.MapExtends` | src/runtime/GuestMemory.cpp:187-237 | a region over unmapped pages keeps the list valid and adds exactly its addresses |
| `Regions.IsMappedMeansBytes` | include/runtime/GuestMemory.h:66-67 | for a range inside the address space the documented check holds iff every byte is mapped; `WrappedRangeMeans` has the others |
| `Regions.IsMappedAsWrittenMeans` | src/runtime/GuestMemory.cpp:360-377 | for a range inside the address space the written check holds iff every byte and the rounded-up page are mapped; in the last page it wraps and asks for at most page 0 |
| `Regions.WrappedRangeMeans` | src/runtime/GuestMemory.cpp:360-377 | what both forms decide for a range running past the end of the address space: nothing is asked, or only its first page and the page the last byte wraps to |
| `Regions.WrappedRangePasses` | src/runtime/GuestMemory.cpp:360-377 | sixteen bytes from 2^64 - 8 pass both forms with nothing mapped |
| `Regions.LastWordRejected` | src/runtime/GuestMemory.cpp:365 | the last word of a one-page region passes the documented form and fails the written one |
| `Regions.WrittenFormRejectsTop` | src/runtime/GuestMemory.cpp:365 | a range ending where its region ends passes the documented check and fails the written one when nothing is mapped behind |
| `Memory.GuestMemory.Reserve` | src/runtime/GuestMemory.cpp:90-147 | an empty span is refused; identity or fallback window with their offset and bounds |
| `Memory.WindowHolds` | src/runtime/GuestMemory.cpp:125-146 | the fallback window has room for the image and is at least as large as asked for, in whole pages: twice the image when the option is too small |
| `Memory.GuestMemory.Map` | src/runtime/GuestMemory.cpp:187-237 | records the page-rounded range and zero-fills it, or throws and changes nothing |
| `Memory.MapSizeReaches` | src/runtime/GuestMemory.cpp:193-195 | what map commits reaches from the page of the first byte to the end of the page of the last |
| `Memory.GuestMemory.Protect` | src/runtime/GuestMemory.cpp:239-293 | the list becomes the cut and sorted one, or the call throws because no region is touched |
| `Memory.GuestMemory.IsMappedWritten` | src/runtime/GuestMemory.cpp:360-377 | the page walk decides the written form |
| `Memory.GuestMemory.CheckMapped` | include/runtime/GuestMemory.h:66-67 | the page walk decides the documented form |
| `Memory.GuestMemory.Write` | src/runtime/GuestMemory.cpp:310-319 | exactly the bytes of the range change when it is mapped; otherwise it throws and nothing changes |
| `Memory.GuestMemory.Zero` | src/runtime/GuestMemory.cpp:333-342 | the same with zeros |
| `Memory.GuestMemory.Read` | src/runtime/GuestMemory.cpp:321-330 | the bytes of a mapped range |
| `Memory.GuestMemory.Read64` | src/runtime/GuestMemory.cpp:345-349 | the little-endian word at a mapped address |
| `ByteStore.WordWritten` | include/runtime/GuestMemory.h:63-64 | read64 gives back what write64 wrote |
| `Permissions.LastWriterWins` | src/runtime/GuestMemory.cpp:239-293 | after any run of protect calls the permission of a mapped address is that of the last call whose pages hold it |
| `Permissions.ProtectAllPasses` | src/runtime/GuestMemory.cpp:280-282 | a run of protect calls passes iff each of them reaches some mapped address |
| `ImageMapper.ComputeLoadSpan` | src/runtime/ElfMapper.cpp:127-151 | the minimum and maximum loop, rounded to pages; throws when nothing is loadable |
| `ImageMapper.SpanIsLeast` | src/runtime/ElfMapper.cpp:132-150 | the span contains every loadable segment and both ends are attained |
| `ImageMapper.ProtBits` | src/runtime/GuestMemory.cpp:43-49 | segment flags become guest permissions bit for bit, nothing else is set, and they print as r, w and x |
| `ImageMapper.CopySegment` | src/runtime/ElfMapper.cpp:181-208 | a loadable header with memory bytes, whatever its file size, gets its file bytes and then zeros; a file range past the end is refused |
| `ImageMapper.CopyAllMeans` | src/runtime/ElfMapper.cpp:181-209 | after the loop every address holds what the last segment covering it put there, and is otherwise unchanged |
| `ImageMapper.MapImage` | src/runtime/ElfMapper.cpp:160-271 | succeeds exactly when every step does; memory, regions and the record are what the steps make of them; what those are, `SegmentsLie`, `LastSegmentDecides` and `RecordOf` say by the fields of the headers |
| `ImageMapper.LastHeadersDecide` | src/runtime/ElfMapper.cpp:236-254 | the last PT_DYNAMIC header gives the dynamic table's biased address, the last PT_INTERP header the path up to its NUL, each flag says whether there is one, and the rest of the record stays |
| `ImageMapper.FirstSegmentDecides` | src/runtime/ElfMapper.cpp:255-266 | the header table's address is vaddr + bias + (phoff - offset) of the first PT_LOAD header whose file range holds its start, or 0 |
| `ImageMapper.ApplyRelro` | src/runtime/ElfMapper.cpp:429-438 | one read-only protect for each RELRO header, in order |
| `ImageLaws.ImageIsPlaced` | src/runtime/ElfMapper.cpp:160-233 | when no segment has more file than memory bytes, mapping succeeds iff every one ends inside the file; whenever it succeeds exactly the span is new, its bytes are the segments over zeros, its permissions the last writer's |
| `ImageLaws.SegmentShows` | src/runtime/ElfMapper.cpp:181-209 | byte k of any loadable header with memory bytes is the file's byte at offset + k, or zero behind the file part, at every address that no later header covers, overlapping segments included |
| `ImageLaws.SegmentsLie` | src/runtime/ElfMapper.cpp:181-209 | with disjoint segments the byte at vaddr + bias + k is the file's byte at offset + k below filesz and zero from there to memsz, for every PT_LOAD header; every other byte of the span is zero |
| `ImageLaws.TableIsPlaced` | src/runtime/ElfMapper.cpp:255-266 | the program header table lies at the recorded address when the first segment that holds its start holds all of it |
| `ImageLaws.LastSegmentDecides` | src/runtime/ElfMapper.cpp:212-233 | the permission of an address is that of the flags of the last PT_LOAD header whose pages, from vaddr + bias rounded down to the end of memsz rounded up, hold it |
| `ImageLaws.NoSegmentDecides` | src/runtime/ElfMapper.cpp:165-166 | addresses in no such pages stay read-write |
| `Relocation.ScanTable` | src/runtime/ElfMapper.cpp:291-334 | the unbounded scan ends in front of the first entry that is DT_NULL or not mapped, and finds for every tag the value of the last entry that carries it: biased for RELA and JMPREL, plain for the sizes, by default 0 and for RELAENT 24 |
| `Relocation.LastEntryDecides` | src/runtime/ElfMapper.cpp:291-334 | by position: the value is the second word of the last entry in front of the end whose first word is the tag, or the default when there is none |
| `Relocation.TableEnds` | src/runtime/ElfMapper.cpp:291-304 | every dynamic table ends, at the latest where mapped memory does |
| `Relocation.EntriesAre` | src/runtime/ElfMapper.cpp:356-418 | the entries applied are those at table + k * RELAENT below RELASZ / RELAENT and before the first unmapped one, then the same for JMPREL and PLTRELSZ, by the last words in the dynamic table |
| `Relocation.ProcessTable` | src/runtime/ElfMapper.cpp:356-415 | the walk applies the entries before the first unmapped one in order and counts each as applied or skipped |
| `Relocation.ApplyRelocations` | src/runtime/ElfMapper.cpp:273-427 | both tables in order, as the words of the dynamic table describe them; an image without a dynamic table is left alone |
| `Relocation.RelocationSettles` | src/runtime/ElfMapper.cpp:364-413 | without overlaps every mapped target, first word + bias, of an entry whose type is RELATIVE holds bias + third word, every other byte is unchanged, applied + skipped grows by the entries walked |
| `GuestStack.PushStrings` | src/runtime/GuestStack.cpp:58-68 | strings pushed last to first all lie at the addresses returned in order, none overwritten by a later one |
| `GuestStack.WriteBlock` | src/runtime/GuestStack.cpp:128-159 | argc, argv, null, envp, null and the vector are consecutive words, and nothing else changes |
| `StackLayout.AuxValues` | src/runtime/GuestStack.cpp:80-110 | the vector has nineteen entries, AT_NULL last, and by the numbers of the keys: header address, entry size and count, page size 4096, entry point, base and flags 0, ids 1000, secure 0, 100 clock ticks, hardware capabilities 0, and the three pointers |
| `GuestStack.RandomBits` | src/runtime/GuestStack.cpp:70-78 | the sixteen bytes behind AT_RANDOM are, bit for bit, 0xA5 exclusive-or 31 times their position |
| `GuestStack.BuildInitialStack` | src/runtime/GuestStack.cpp:27-162 | succeeds iff the stack is granted and the layout fits above its low end; then the strings, the vector with the value of every key, and the sixteen bytes are in memory, rsp is 16-byte aligned, only stack bytes changed, and the region invariant holds |
| `StackReader.StackRoundTrips` | src/runtime/GuestStack.cpp:191-253 | walking up from rsp alone recovers argc, all strings, both terminators, a vector with the value of every key, the path, "x86_64" and the sixteen bytes |
| `StackReader.VerbatimStrings` | src/runtime/GuestStack.cpp:191-202 | strings without NULs that fit the limit come back whole |
| `StackReader.ReadGuestString` | src/runtime/GuestStack.cpp:191-202 | stops at a NUL, an unmapped byte or the limit |
| `StackReader.DescribeStack` | src/runtime/GuestStack.cpp:206-253 | the report on a built stack shows argc, the first eight arguments, the number of environment strings and the first three, cut after 128 bytes, and a vector with the value of every key |
| `Loader.StackCheckMeans` | src/runtime/Loader.cpp:45-46 | the check passes iff the stack ends at or below the image or begins at or above its end |
| `Loader.RoundedStackIsClear` | src/runtime/Loader.cpp:45-52 | passing the overlap check on unrounded values keeps the page-rounded stack off the image; for a page-aligned top it passes iff the rounded stack is clear |
| `Loader.StackRefusedThoughClear` | src/runtime/Loader.cpp:45-46 | a stack with an unaligned top that the check refuses although rounding would move it off the image |
| `Loader.SealedImage` | src/runtime/ElfMapper.cpp:429-438 | after RELRO an image address is read-only if in a RELRO page, else the last segment's, else read-write |
| `Loader.StackJoins` | src/runtime/Loader.cpp:54-56 | mapping the stack changes no permission of the image, and image and stack are all that is mapped |
| `Loader.RecordOf` | src/runtime/ElfMapper.cpp:160-271 | every field of the record: path, kind, bias, biased entry, span, break, header table, dynamic table and interpreter |
| `Loader.MappedBytesIff` | src/runtime/ElfMapper.cpp:181-209 | copying passes iff every loadable header's file range ends inside the file |
| `Loader.GuestProcess.Load` | src/runtime/Loader.cpp:14-63 | succeeds iff the image phases pass and the stack lies off the image, is granted and is large enough (`ImageLoads`, `StackLoads`); then the bias is 0 for fixed files and the option otherwise, image and stack are disjoint and all that is mapped, image bytes are the relocated segments, permissions are the last writer's, the stack is laid out, rip and rsp point at both |
| `Process.ProgramSeesItsStack` | src/runtime/GuestStack.cpp:27-162 | the loaded program recovers exactly its arguments, environment and path from rsp, and a vector with this file's biased entry point and header table and the value of every other key |
| `Process.PermissionsAfterLoad` | src/runtime/Loader.cpp:34-56 | an image address in a page of a RELRO header is read-only; otherwise the flags of the last PT_LOAD header with a page there decide; otherwise it is read-write |
| `Process.RelocationsAreSettled` | src/runtime/Loader.cpp:34-36 | in the loaded process every relocation is settled and the counters add up to the entries, which are those of the two tables that the words at the last PT_DYNAMIC header's address describe |
| `Process.CodeIsFileBytes` | src/runtime/Loader.cpp:65-70 | bytes of a PT_LOAD header's file part that no relocation writes are mapped and are the file's own bytes |
| `Process.ReadCode` | src/runtime/Loader.cpp:65-70 | the bytes of a mapped range, otherwise an exception |

## Left out

- Host calls: mmap, mprotect, munmap and sysconf are answers given as parameters; a host page is taken to be a guest page, and host protection, which may fail silently, is not modelled.
- `Memory.GuestMemory.Map`: like the source it does not check that its range is free; `MapExtends` and `BuildInitialStack` ask for unmapped pages.
- `GuestStack.BuildInitialStack`: asks that the layout does not wrap below address 0; wrapped string addresses are not modelled.
- `Loader.GuestProcess.Load`: asks for a page-aligned bias and for segments, RELRO ranges and a stack layout that do not wrap; which of several exceptions comes first is left to the phases' own contracts.
- `Cfg.BuildCFG`: asks for ascending addresses, which `TilesAscend` gives for every buffer that does not wrap around the address space.
- `StackReader.DescribeStack`: reports on stacks that were laid out; on other memory its walk may throw.
- `Relocation.RelocationSettles`: says nothing about targets that overlap an entry or each other; `ApplyAll` still defines the outcome.
- `LiftMeans.LiftAllMeans`: covers MOV, MOVZX, MOVSX, ADD, SUB, AND, OR, XOR, CMP, TEST on registers and on memory with a plain 64-bit address, register NOT, NEG, INC, DEC, and IMUL with two or three operands.
- `Runs.RunSimulates`: covers runs through blocks of supported instructions; a conditional jump must test flags whose capture the run has visited (`ElsewhereDecides` says what it tests otherwise), and what RET, CALL, JP, LOOP and indirect jumps do on the processor is not modelled.
- `FunctionLifter.FunctionLifter.LiftInstr`: a callee is its address even where the program has a symbol for it; floats and vectors have no case in the source.
- `Approximations.CallMeans`: covers relative targets and 64-bit register and memory operands; what the callee does is not modelled.
- `Approximations.WideImulMeans`: covers 64-bit operands, as does `DivideMeans`; narrower ones go through the same 64-bit code. A division by zero is given a value by the evaluator, and `DivideMeans` excludes it.
- `Approximations.ShiftMeans`: covers register destinations; the source takes the type of a memory destination from its empty register field.
- `Pipeline.LiftFunction`: asks for a buffer that does not run past the end of the address space.
- `Relocation.ApplyRelocations`: omits the reads of DT_NEEDED names, which use the loop index as length and can throw.
- `lift` and `liftBlock` have empty loop bodies in the source; they are taken to lift every instruction of every block in order and to close blocks as the comment on `isTerminated` says.
- The 32-bit wrap of the register counter, debug names, memory flags and source addresses of IR instructions.
- The decoder is any function returning a failure or a length within the remaining bytes; its internals and those of ELFIO are not part of this model.
- Parsing the ELF header and header tables from file bytes; `ElfFile` starts from the parsed headers.
- Relocation notes, dumps and printed reports other than the stack's data.
- `src/optimizer/DDG.hpp` declares a dependence graph that no code builds.
