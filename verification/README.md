# Verification of the Pawn abstract machine and its library

A Dafny model of the Pawn abstract machine (AMX): the bytecode verifier and the interpreter that trusts it, the
expansion of compact files, and the parts of the native library and the compiler's support code that hold a
self-contained algorithm. Cells have 32 bits and are stored little endian.

`dafny verify dfyconfig.toml` checks the whole project. Inside proofs, `hide` keeps function bodies away from the
verifier where only contracts are needed.

## The modules

| module | subject |
|---|---|
| Cells, Arithmetic | cells, wrap-around and byte access; products and quotients |
| Opcodes, Alu, AluLaws | the opcode, handler and size tables; register arithmetic and what it computes |
| Verifier, VerifierTheorems, Acceptance | the two passes over the code, in place and as functions; what acceptance means, and exactly which programs are accepted |
| Machine, Interpreter | the interpreter with run-time checks: as a step function over states, and in place on fields and an array |
| InstructionSet, ControlInstructions | what every instruction of the step function does to registers and bytes, and when it is refused |
| Calls | what returning from a procedure undoes |
| MemorySafety, ControlFlow, SafeRuns, Relocation | theorems over whole runs of accepted programs |
| CaseTables | what the binary search does with long case tables |
| Specimens | small accepted programs that go wrong where a condition of the run theorems is not met |
| Sessions, Sleep, PlainCore | sleeping and continuing in the interpreter with checks, and in the plain one; where the two agree |
| Expand | the compact format: the compiler's encoder, and the expansion in place |
| FixedPoint | double-word division, multiplication, square root |
| GcTable | the garbage collector's hash table |
| PackedCells, PackedStrings, Strings | packed and unpacked strings |
| Glob | file name patterns |
| Utf8, Uuencode | codecs |
| XorLaws, Crc | the CRC-32 of files |
| MemFile, PtrArray | memory files read by lines; the pool of handles |

## Conditions of the run theorems

The verifier and the interpreter disagree in a few places. The theorems over whole runs name them as conditions that
can be tested on a program before it runs, except for the last one; each has a lemma that shows what happens without it.

- `Regular`: the first pass ends exactly on the end of the code (`Specimens.OperandOutsideCode`), and case tables have
  at most 126 records (`VerifierTheorems.TableSizesAgree`).
- `Confined`: no INC.I, DEC.I, SCTRL 6 or 8 and CALL.PRI (`Specimens.IndirectStepGoesAstray`, `ControlJumpGoesAstray`,
  `CallPriGoesAstray`), no case table for the binary search (`CaseTables.AcceptedTableStrays`), and a last instruction
  that does not fall through (`Specimens.RunsOffTheEnd`).
- `Careful`: CONST only stores inside the block; the count of PUSH.R is from 0 to 2^29, beyond which the pushed size
  wraps around, or one of the few others that are harmless; MOVS and CMPS have no negative size, unless it exceeds the
  block. This is exact (`MemorySafety.CarefulIff`), and `RepeatWrapsAround` and `NegativeSizePasses` violate it.
- `Ordered`: the stack top lies below 0x3fff_ffdf, so that sums of addresses and sizes wrap around at most once
  (`MemorySafety.OrderedIff`).
- `Restartable`, for runs that sleep: a HALT that sleeps is not the last instruction (`Sessions.SleepAtTheEndStrays`).
- `Movable`, for programs at two load addresses: the address of each CONST lies in the data section, or outside the
  block for both machines, or the bases differ by a multiple of 2^32. This is exact
  (`Relocation.RunsSurviveRelocationIff`), and `Specimens.ConstDoesNotMove` violates it.
- `Orderly`, about the run itself: what RETN, SYSREQ.N and SCTRL 2 find and do not test is in order, and natives that go
  on keep the size of the block. This too is exact (`MemorySafety.ExecuteSoundIff`, `SafeRuns.RunIsSafeIff`).

Addresses of the host are taken to be wider than a cell. Where they have 32 bits, the end address that PUSH.R computes
for 2^30 cells wraps around as well, and nothing is written.

Runs start at a marked cell: the verifier tests the addresses of public functions against the size of the code only.

## Where code and documentation disagree

The model follows the code.

- `gc_settable` does not store its flags and the fill count is never raised, so the test for a full table and the
  growth on demand cannot happen; the invariant of `Collector` says so.
- `uuencode` accepts 63 bytes, not the 64 its comment mentions.
- The square root of a value below one is the value itself; there the assertion on the upper neighbour fails.
- The remainder of SDIV is taken from the quotient.
- An unpacked C string whose first character is not 7-bit is later read as a packed one.

## Model

| member | source | states |
|---|---|---|
| Cells.RebaseRoundTrip | source/amx/amx_verifier.c:42-51 | adding a load address to a cell, with wrap-around, and subtracting it again gives the cell back: relocation loses nothing |
| Cells.ReadAfterWrite | source/amx/amx_exec.c:61-71 | a cell stored at any byte address, aligned or not, is read back unchanged from its little-endian bytes |
| Cells.Overflows | source/amx/amx_internal.h:185-195 | an address sum that leaves the signed range comes out 2^32 too small, which is what the address tests then see |
| Opcodes.TablesAgreeOnKinds | source/amx/amx_verifier.c:486-660 | the handler table and the size table agree on which opcodes are no instructions |
| Opcodes.CaseTablesHaveTheirHandler | source/amx/amx_verifier.c:664-838 | exactly the opcode with the table-size marker has the case-table handler |
| Opcodes.TablesAgreeOnSizes | source/amx/amx_verifier.c:664-838 | for every other opcode the size in the first pass is one more than the operands the second pass steps over |
| Alu.SdivAltIsFloored | source/amx/amx_exec.c:1056-1077 | SDIV.ALT, for every pair of cells with a non-zero divisor and a quotient that is a cell, is floored division with the remainder that belongs to it |
| Alu.SdivIsFlooredIff | source/amx/amx_exec.c:1032-1053 | SDIV overwrites its dividend before it takes the remainder: where the quotient is a cell, it is floored division with its remainder exactly when dividend and quotient leave the same remainder by the divisor |
| Alu.SdivExample | source/amx/amx_exec.c:1032-1053 | 6 divided by 2 leaves remainder 1 with SDIV and 0 with SDIV.ALT |
| Alu.FloorCorrects | source/amx/amx_exec.c:1032-1077 | the sign correction turns a truncated quotient and remainder into floored ones |
| AluLaws.SumsAre | source/amx/amx_exec.c:1104-1114 | ADD, SUB, SUB.ALT and IDXADDR leave in PRI the sum, the two differences and the element address, modulo 2^32, and ALT as it was |
| AluLaws.StepsAre | source/amx/amx_exec.c:1228-1284 | INC and DEC of a register add and subtract one modulo 2^32 and leave the other register alone |
| AluLaws.NegationsAre | source/amx/amx_exec.c:1132-1138 | NEG and INVERT leave -PRI and -1-PRI modulo 2^32 |
| AluLaws.ProductsAre | source/amx/amx_exec.c:1028-1030 | SMUL and UMUL leave the product modulo 2^32, which is the same for signed and unsigned operands |
| AluLaws.ConstantsAre | source/amx/amx_exec.c:1140-1146 | the forms with a constant add, multiply and load their operand |
| AluLaws.MovesAre | source/amx/amx_exec.c:761-775 | MOVE copies, XCHG undoes itself, ZERO clears, each in the register of its name |
| AluLaws.SignsAre | source/amx/amx_exec.c:1170-1178 | SIGN keeps the lowest byte and extends it with its sign if that is set; other cells are left as they are |
| AluLaws.UnsignedDivisionIs | source/amx/amx_exec.c:1084-1102 | UDIV and UDIV.ALT leave quotient and remainder of the unsigned readings, with a remainder below the divisor; every division stops exactly if its divisor is zero |
| AluLaws.LogicIs | source/amx/amx_exec.c:1116-1126 | AND, OR and XOR, bit by bit, for every bit |
| AluLaws.ShiftedLeft | source/amx/amx_exec.c:1000-1018 | shifting left by one place doubles, and by one place more is one more such shift |
| AluLaws.ShiftedRight | source/amx/amx_exec.c:1004-1026 | the unsigned shift to the right by one place halves the unsigned reading, and by one place more is one more such shift |
| AluLaws.ShiftedSigned | source/amx/amx_exec.c:1008-1010 | the signed shift to the right by one place halves and rounds downwards, and by one place more is one more such shift |
| AluLaws.ShiftInstructionsAre | source/amx/amx_exec.c:1000-1026 | which register each shift instruction shifts, by what, and in which direction |
| AluLaws.ElementAddressIs | source/amx/amx_exec.c:656-662 | IDXADDR.B with elements of four bytes is IDXADDR |
| AluLaws.EqualityIs | source/amx/amx_exec.c:1128-1186 | EQ, NEQ and NOT leave 1 or 0 |
| AluLaws.SignedComparisonsAre | source/amx/amx_exec.c:1204-1218 | the signed comparisons leave 1 or 0 for the order of PRI before ALT |
| AluLaws.UnsignedComparisonsAre | source/amx/amx_exec.c:1188-1202 | the unsigned comparisons do so with negative cells above all others |
| AluLaws.SignedJumpsAsCompared | source/amx/amx_exec.c:968-998 | each conditional jump on a signed order is taken exactly if the comparison of its name leaves 1 |
| AluLaws.UnsignedJumpsAsCompared | source/amx/amx_exec.c:936-966 | the same for the unsigned order |
| AluLaws.EqualityJumpsAsCompared | source/amx/amx_exec.c:904-934 | the same for equality, and for zero |
| AluLaws.AlignIs | source/amx/amx_exec.c:664-682 | ALIGN counts characters of one or two bytes from the other end of their cell, done twice it changes nothing, and whole cells stay where they are |
| Verifier.CollectStarts | source/amx/amx_verifier.c:945-967 | the loop of the first pass rejects exactly when its walk meets a cell of size zero, stops there, and otherwise sets exactly the bits of the cells it visits |
| Verifier.HandlerFrame | source/amx/amx_verifier.c:85-484 | a handler writes nothing but the operands of its own instruction, and keeps the length of the image |
| Verifier.RelocateData | source/amx/amx_verifier.c:115-293 | the operand loops of the data handlers do, in place, the checks and relocations in order, up to the first address that fails |
| Verifier.RelocateCases | source/amx/amx_verifier.c:454-484 | the loop over the records of a case table checks and relocates every jump address in order, up to the first one that fails |
| Verifier.RunHandler | source/amx/amx_verifier.c:85-484 | a handler, run in place, reports the number of operands or the rejection, and leaves the image, that the handler table specifies; when that passes is `Acceptance.HandlerDecides` |
| Verifier.CheckInstructions | source/amx/amx_verifier.c:969-986 | the loop of the second pass relocates in place to the image of the specified walk, or stops at the cell it reports |
| Verifier.VerifyRelocate | source/amx/amx_verifier.c:937-986 | both passes together: acceptance, the bitmap, the relocated image and, on rejection, the reported cell and the image as far as it was relocated are those of the specified walks; what those accept is `Acceptance.AcceptedIff` |
| Verifier.DataRunEffect | source/amx/amx_verifier.c:115-293 | a run over data operands relocates each of them once, changes no other cell, and passes exactly if every address passes |
| Verifier.CaseRunEffect | source/amx/amx_verifier.c:454-484 | a run over a case table relocates each jump address once, leaves counts and values alone, and passes exactly if every address is a marked start |
| VerifierTheorems.TableSizesAgree | source/amx/amx_verifier.c:955-962 | for every cell: the first pass, which computes the size of a case table in an unsigned char, agrees with the second exactly for counts from -1 to 126, up to multiples of 2^31 |
| VerifierTheorems.HandlerSettles | source/amx/amx_verifier.c:85-484 | a handler that passes leaves its operands checked against the bitmap and the data section and relocated by exactly the two bases |
| VerifierTheorems.SecondWalk | source/amx/amx_verifier.c:969-986 | from any point where the passes are in step, an accepting second pass visits exactly the starts ahead, settles each, and changes nothing behind |
| VerifierTheorems.PassesVisitTheSameStarts | source/amx/amx_verifier.c:945-986 | on every accepted program whose first walk ends on the end of the code and whose tables have at most 126 records, both passes visit the same cells |
| VerifierTheorems.AcceptedIsSettled | source/amx/amx_verifier.c:945-986 | in the relocated image of such a program, the instruction at every marked start lies in the code, has passed its handler and holds the relocated operands |
| VerifierTheorems.ConstIsNotTested | source/amx/amx_verifier.c:157-164 | the handler of CONST lets every data address pass, because it drops the result of its test |
| Acceptance.HandlerDecides | source/amx/amx_verifier.c:85-484 | every handler passes if and only if its operands are as its opcode demands, each in literal terms: an address below the data size, a width of 1, 2 or 4, an offset below the stack size in either direction, a marked start, a native that exists, a case table of marked starts, no mix of SYSREQ.C and SYSREQ.N |
| Acceptance.FirstPassRejectsIff | source/amx/amx_verifier.c:945-963 | the first pass rejects exactly at the opcodes that are no instructions, and at a case table whose count lies behind the code |
| Acceptance.WalkAcceptsIff | source/amx/amx_verifier.c:969-986 | from any start the second pass accepts if and only if all instructions ahead are as their opcodes demand, in the image as it was before relocation |
| Acceptance.AcceptedIff | source/amx/amx_verifier.c:937-986 | a program that ends on an instruction boundary is accepted if and only if it starts with HALT and every marked instruction is as its opcode demands |
| Specimens.LocalsAreAcceptedIff | source/amx/amx_verifier.c:351-361 | STACK with a negative operand, which allocates locals, is accepted exactly if they are smaller than heap and stack |
| Interpreter.Core.FindCase | source/amx/amx_exec.c:1511-1543 | up to 30 records, the search ends on the address of the first record whose value is PRI, or on the default if there is none; beyond, both loops end where the specified search does |
| Interpreter.Core.Turn | source/amx/amx_exec.c:427-1880 | one turn of the loop, on fields and an array, refines the step function: same next registers and memory, same error, same stop |
| Interpreter.Core.Exec | source/amx/amx_exec.c:427-1880 | the loop refines the specified run, whatever natives answer |
| MemorySafety.DataAddrInside | source/amx/amx_internal.h:192-195 | an address that passes the data/stack/heap test, a single unsigned comparison included, has all four bytes in the block, because of the sentinel cell above the stack |
| MemorySafety.StackAddrInside | source/amx/amx_internal.h:188-191 | an address that passes the frame test has all its bytes in the block |
| MemorySafety.PushValuesSound | source/amx/amx_exec.c:120-134 | pushes keep heap and stack in order and write inside the block, or report the collision |
| MemorySafety.PopSound | source/amx/amx_exec.c:125-139 | pops keep the stack at or below its top |
| MemorySafety.MovesSound | source/amx/amx_exec.c:825-837 | STACK and HEAP, with an operand the verifier lets pass, keep heap and stack in order, or report an error |
| MemorySafety.ReturnSound | source/amx/amx_exec.c:844-858 | RET keeps the stack in order and goes only to marked addresses |
| MemorySafety.BlockInside | source/amx/amx_exec.c:1328-1410 | the tests of MOVS, CMPS and FILL on the first and last byte, by wrapped sums, put the whole block inside for every non-negative size |
| MemorySafety.ExecuteSoundIff | source/amx/amx_exec.c:427-1880 | every instruction with operands the verifier has tested keeps data <= heap <= stack <= top and touches no byte outside the block, exactly if what neither the verifier nor the instruction tests is in order |
| MemorySafety.CarefulIff | source/amx/amx_verifier.c:85-293 | the test of a program before it runs is exact: the operands of CONST, PUSH.R, MOVS and CMPS pass it if and only if they are harmless in every state |
| MemorySafety.ReturnArgsSoundIff | source/amx/amx_exec.c:861-877 | RETN, unless it stops, keeps the stack in order exactly when the argument size it pops neither overflows nor drops the stack below the heap |
| MemorySafety.HeapControlSoundIff | source/amx/amx_exec.c:721-760 | SCTRL 2 keeps the heap below the stack, for every value of PRI, exactly when the margin sum does not overflow |
| MemorySafety.PushRepeatedSoundIff | source/amx/amx_exec.c:785-793 | with addresses wider than a cell: PUSH.R is safe, for every count and state, exactly if the wrapped size collides with the heap, or the copies fit below the stack pointer, or what a negative count frees was in use |
| MemorySafety.RepeatsSafelyIff | source/amx/amx_exec.c:785-793 | the counts of PUSH.R that are safe in every state are exactly those from 0 to 2^29, and of the others those whose wrapped size always collides with the heap or, for negative counts, never moves the stack up |
| MemorySafety.RepeatWrapsAround | source/amx/amx_exec.c:785-793 | with addresses wider than a cell: the count 2^30 passes the test in every state, as its size wraps around to zero, and writes below the block |
| MemorySafety.OrderedIff | source/amx/amx_exec.c:831-837 | the bound on the size of the block is exact, for a program without data: HEAP, with every operand the verifier lets pass, keeps the heap below the stack in every state if and only if the stack top is below 0x3fff_ffdf |
| MemorySafety.NativeWithArgsSoundIff | source/amx/amx_exec.c:1573-1591 | SYSREQ.N, which does not test the stack again, keeps it in order, for every size and reply, exactly when its push collides or its native stops the run, or the size it removes leaves the stack between heap and top |
| MemorySafety.BlocksSoundIff | source/amx/amx_exec.c:1328-1410 | FILL is always safe; MOVS and CMPS are exactly if the size is not negative or the tests on first and last byte stop it |
| MemorySafety.SizesSafelyIff | source/amx/amx_exec.c:1328-1387 | a negative size passes those tests in some state, unless it exceeds the block |
| MemorySafety.NegativeSizePasses | source/amx/amx_exec.c:1328-1387 | a size of minus one cell that passes them |
| MemorySafety.StoreSoundIff | source/amx/amx_exec.c:542-633 | stores are safe; CONST, tested neither at load time nor at run time, exactly for an address inside the block |
| Calls.WriteElsewhere | source/amx/amx_exec.c:67-71 | a store changes no byte outside its own cell |
| Calls.PopUndoesPush | source/amx/amx_exec.c:120-129 | popping undoes pushing, into either register |
| Calls.Entered | source/amx/amx_exec.c:839-885 | a call and the entry of the procedure leave the return address and the old frame on top of the stack, and nothing above changed |
| Calls.ReturnUndoesCall | source/amx/amx_exec.c:839-885 | a procedure that keeps those two cells and restores the stack pointer returns behind the call with the frame and the stack of the caller, whatever else it did |
| Calls.ReturnRemovesArguments | source/amx/amx_exec.c:861-885 | RETN also removes the arguments that the caller has pushed |
| InstructionSet.TestsRefuseIff | source/amx/amx_internal.h:185-195 | on a machine in order the two address tests refuse exactly the addresses outside data, heap and stack, and outside the stack |
| InstructionSet.OperandsAre | source/amx/amx_exec.c:83-85 | operand k is the cell k places behind the opcode, as a number, or less the base of its section |
| InstructionSet.LoadsAre | source/amx/amx_exec.c:430-438 | LOAD puts the cell at its operand into its register, touches nothing else and goes on behind the operand |
| InstructionSet.ReferencesAre | source/amx/amx_exec.c:458-476 | LREF loads the cell whose address LOAD would load, or refuses the address |
| InstructionSet.StackLoadsAre | source/amx/amx_exec.c:440-456 | LOAD.S the same in the frame, refused outside the stack |
| InstructionSet.StackReferencesAre | source/amx/amx_exec.c:478-500 | LREF.S, refused for either address |
| InstructionSet.IndexedLoadsAre | source/amx/amx_exec.c:502-654 | LOAD.I, LIDX and LIDX.B load through PRI, or the element PRI of the array at ALT |
| InstructionSet.LoadsOfTwoAre | source/amx/amx_exec.c:1802-1819 | LOAD.BOTH and LOAD.S.BOTH load two cells into two registers |
| InstructionSet.ByteLoadsAre | source/amx/amx_exec.c:508-524 | LODB.I loads the byte at PRI, that and the next as its higher byte, or the cell |
| InstructionSet.StoresAre | source/amx/amx_exec.c:542-1159 | STOR and ZERO write their one cell and nothing else |
| InstructionSet.StoredReferencesAre | source/amx/amx_exec.c:570-588 | SREF writes where LREF reads |
| InstructionSet.StackStoresAre | source/amx/amx_exec.c:552-1168 | STOR.S and ZERO.S write where LOAD.S reads |
| InstructionSet.StackStoredReferencesAre | source/amx/amx_exec.c:590-612 | SREF.S writes where LREF.S reads |
| InstructionSet.IndirectStoresAre | source/amx/amx_exec.c:614-636 | STOR.I and STRB.I write the cell, or the lowest one or two bytes, at ALT |
| InstructionSet.StepsAre | source/amx/amx_exec.c:1236-1326 | INC and DEC in memory add and subtract with wrap-around; INC.I and DEC.I step over a cell they do not have |
| InstructionSet.ConstantsAre | source/amx/amx_exec.c:1821-1833 | CONST and CONST.S store their second operand at their first |
| InstructionSet.RegisterPushesAre | source/amx/amx_exec.c:777-783 | a push puts the register below the stack, where it is read back, and changes no other byte, unless heap and stack would collide |
| InstructionSet.RepeatedPushIs | source/amx/amx_exec.c:785-794 | PUSH.R pushes as many copies of PRI as its operand says; a negative count takes cells away |
| InstructionSet.ConstantPushesAre | source/amx/amx_exec.c:1566-1800 | PUSH.C to PUSH5.C and PUSH.ADR to PUSH5.ADR push all operands, or frame addresses, in order, and change no other byte |
| InstructionSet.CellPushesAre | source/amx/amx_exec.c:800-1692 | PUSH to PUSH5 push the cells at their operands, as they were unless the pushes overwrite them |
| InstructionSet.StackPushesAre | source/amx/amx_exec.c:808-1762 | the same in the frame: PUSH.S tests its address before the stack moves, PUSH2.S to PUSH5.S after it |
| InstructionSet.PopsAre | source/amx/amx_exec.c:817-823 | POP takes the top of the stack, refused exactly if it is empty |
| InstructionSet.SwapsAre | source/amx/amx_exec.c:1550-1564 | SWAP exchanges a register with the top of the stack |
| InstructionSet.MovesAre | source/amx/amx_exec.c:825-837 | STACK and HEAP move their pointer and tell the old one, refused exactly if fewer than 16 cells would be left between heap and stack or a bound of the block be passed |
| InstructionSet.ProcedureStartIs | source/amx/amx_exec.c:839-842 | PROC saves the frame and starts a new one there |
| InstructionSet.CallsAre | source/amx/amx_exec.c:880-892 | CALL and CALL.PRI push the address of the next instruction and go to their target |
| InstructionSet.ReturnsAre | source/amx/amx_exec.c:844-859 | RET goes back to the address under the saved frame, refused exactly if the stack has no two cells or the address is no marked start |
| InstructionSet.ReturnWithArgumentsIs | source/amx/amx_exec.c:861-878 | RETN also drops the arguments, of the size found behind them |
| InstructionSet.BlockMoveIs | source/amx/amx_exec.c:1328-1358 | MOVS copies the block at PRI to ALT and changes no other byte, with the exact tests |
| InstructionSet.ComparisonIs | source/amx/amx_exec.c:1379 | comparing blocks gives zero exactly if they are equal, and else the sign of the first difference of unsigned bytes |
| InstructionSet.BlockComparisonIs | source/amx/amx_exec.c:1360-1388 | CMPS compares the block at ALT with the one at PRI |
| InstructionSet.FillIs | source/amx/amx_exec.c:1390-1411 | FILL: every cell that starts in the block reads back as PRI, and no other byte changes |
| ControlInstructions.RegisterInstructionsAre | source/amx/amx_exec.c:526-1284 | instructions on registers touch nothing else, and stop on a division by zero |
| ControlInstructions.AddressAndBoundsAre | source/amx/amx_exec.c:534-1437 | ADDR tells a frame address; BOUNDS stops exactly if PRI is not from 0 to its operand |
| ControlInstructions.ControlLoadsAre | source/amx/amx_exec.c:684-719 | LCTRL: which register each number reads |
| ControlInstructions.ControlStoresAre | source/amx/amx_exec.c:721-740 | SCTRL sets heap, stack and frame exactly within their margins and bounds |
| ControlInstructions.ControlJumpsAre | source/amx/amx_exec.c:741-760 | SCTRL 6 and 8 test the address in PRI against the bitmap, and go on one cell behind it |
| ControlInstructions.JumpsAre | source/amx/amx_exec.c:894-998 | JUMP, JREL and the conditional jumps change nothing but the instruction pointer |
| ControlInstructions.IndirectJumpIs | source/amx/amx_exec.c:1499-1509 | JUMP.PRI goes to PRI exactly if that is a marked start |
| ControlInstructions.SwitchIs | source/amx/amx_exec.c:1511-1544 | SWITCH with up to 30 records goes to the address of the first record for PRI, or to the default if there is none |
| ControlInstructions.HaltIs | source/amx/amx_exec.c:1413-1432 | HALT stops with its operand, or sleeps behind it |
| ControlInstructions.NativesAre | source/amx/amx_exec.c:1439-1479 | after a native: its result in PRI behind the call, its error, or the state in which the call is made again |
| ControlInstructions.NativesWithArgumentsAre | source/amx/amx_exec.c:1573-1591 | SYSREQ.N pushes the size of the arguments and afterwards takes the size and the arguments away |
| ControlInstructions.RefusedIff | source/amx/amx_exec.c:354-381 | a stored state is refused exactly if heap and stack are out of bounds or less than 16 cells apart, and with which error |
| ControlInstructions.EntryIs | source/amx/amx_exec.c:354-381 | a public function starts with a zero return address on top of the size of its parameters, refused exactly without room for both and the margin |
| ControlFlow.NextIsStart | source/amx/amx_verifier.c:945-986 | the cell behind an accepted instruction is a marked start or the end of the code |
| ControlFlow.ExecuteFlow | source/amx/amx_exec.c:427-1880 | an instruction leaves the instruction pointer at one of the targets of its opcode: the next instruction, its operand, a checked return address, a case; and falls asleep behind a HALT or on the call of a native |
| ControlFlow.TableAtStart | source/amx/amx_verifier.c:454-484 | all jump addresses of an accepted case table are marked starts |
| ControlFlow.SwitchMarked | source/amx/amx_exec.c:1499-1525 | the linear SWITCH goes to a marked start for every value of PRI |
| ControlFlow.JumpMarked | source/amx/amx_exec.c:894-998 | jumps, conditional jumps, JREL and calls go to marked starts |
| ControlFlow.StepStaysOnStarts | source/amx/amx_exec.c:844-998 | one step of an accepted, confined program leads from a marked start to a marked start, and fetches inside the code |
| ControlFlow.RunStaysOnStarts | source/amx/amx_verifier.c:945-986 | for every run, of any length and with any answers of natives: the instruction pointer is only ever at cells marked by the verifier, and no fetch leaves the code |
| ControlFlow.IndirectStepStrays | source/amx/amx_exec.c:1267-1328 | INC.I and DEC.I continue two cells further, which the verifier takes for one; that is a marked start exactly if the instruction they skip has no operands and is not the last one |
| Specimens.IndirectStepGoesAstray | source/amx/amx_exec.c:1267-1328 | an accepted program in which INC.I continues at an operand |
| ControlFlow.ControlJumpStrays | source/amx/amx_exec.c:739-759 | SCTRL 6 and 8 go on exactly if the cell in PRI is marked, and continue at the one behind it, which is marked exactly if the instruction there has no operands and is not the last one |
| Specimens.ControlJumpGoesAstray | source/amx/amx_exec.c:739-759 | an accepted program in which SCTRL 6 continues at an operand |
| ControlFlow.CallPriStrays | source/amx/amx_exec.c:887-892 | CALL.PRI reaches a start exactly when the bitmap, which it does not consult, marks the target |
| Specimens.CallPriGoesAstray | source/amx/amx_exec.c:887-892 | an accepted program in which CALL.PRI calls an operand |
| Specimens.RunsOffTheEnd | source/amx/amx_verifier.c:969-986 | an accepted program whose last instruction falls through: the next fetch is outside the code |
| Specimens.OperandOutsideCode | source/amx/amx_verifier.c:945-986 | an accepted program whose first walk ends behind the code: the operand of its last instruction is a cell of the data, which relocation changes |
| CaseTables.BinarySearchMisreads | source/amx/amx_exec.c:1526-1541 | for every number of records above 30, even or odd: the search takes the address of a record for a value, and jumps to the value of the next record, whenever PRI holds that address and, for even numbers, lies on the side of the middle value where the half has an odd number of records |
| CaseTables.EvenTableHits | source/amx/amx_exec.c:1526-1541 | with an even number of records the middle value itself leads to its own address |
| CaseTables.LinearSwitchIs | source/amx/amx_exec.c:1517-1524 | the linear search finds the first record with the value of PRI, or the default if there is none, in every table of up to 30 records |
| CaseTables.BinarySearchEnds | source/amx/amx_exec.c:1526-1541 | wherever the binary search looks, it ends behind a cell that holds the value, an address or a value, or else on the default |
| CaseTables.FiveCells | source/amx/amx_exec.c:1526-1541 | of five cells it looks at the third, and above that at the last one |
| CaseTables.AcceptedTableStrays | source/amx/amx_exec.c:1509-1541 | for every number of records from 31 to 126 there is an accepted program whose SWITCH goes where no instruction starts |
| SafeRuns.VerifiedAtStart | source/amx/amx_verifier.c:85-484 | acceptance supplies everything the memory invariant needs to know about the operands at every marked start |
| SafeRuns.RunIsSafeIff | source/amx/amx_exec.c:427-1880 | a run of an accepted, confined and careful program from a marked start never fetches outside the code, never touches a byte outside the data/heap/stack block and keeps heap and stack in order at every step, exactly if each RETN, SYSREQ, and SCTRL 2 finds in order what it does not test |
| SafeRuns.RunIsSafe | source/amx/amx_exec.c:427-1880 | where such a run has got to: at a marked start with heap and stack in order, or asleep with both in order, or stopped with an error |
| SafeRuns.ExecSafely | source/amx/amx_exec.c:427-1880 | the in-place interpreter, on an accepted, confined and careful program, never signals an access or a fetch outside, and has heap and stack in order whenever it goes on or sleeps |
| Sessions.SessionIsSafeIff | source/amx/amx_exec.c:336-383 | the same over any number of sleeps, with the tests of each entry made again and whatever frame was kept |
| Sessions.ContinuesOnStart | source/amx/amx_exec.c:1413-1479 | a session that continues after a sleep stands on a marked start with heap and stack in order |
| Sessions.SessionIsAwakeRunIff | source/amx/amx_exec.c:1413-1430 | over whole sessions of any program in which no native sleeps: at every moment the session is where the run is in which HALT does nothing instead of sleeping, if and only if at each sleep the frame kept since the last call of a native is its own and the entry is not refused |
| Sessions.OnlyHaltsSleep | source/amx/amx_exec.c:1413-1591 | unless a native sleeps, nothing but a HALT does |
| Sessions.NativeIsRepeated | source/amx/amx_exec.c:1439-1591 | a native that sleeps is called again when the run continues, with SYSREQ.N on a stack that still holds its argument size |
| Sessions.SleepAtTheEndStrays | source/amx/amx_exec.c:1427-1430 | a HALT that sleeps at the end of the code continues behind it |
| Sessions.Amx.Turn | source/amx/amx_exec.c:336-383 | in place: what is kept when the run falls asleep or calls a native, and what comes back, follow the specified session |
| Sessions.Amx.Host | source/amx/amx_exec.c:336-383 | a host that continues whenever the run sleeps follows the specified session |
| SafeRuns.EntrySound | source/amx/amx_exec.c:354-381 | entering a program either reports an error or starts with heap and stack in order |
| Relocation.AcceptanceIgnoresBases | source/amx/amx_verifier.c:945-986 | the verifier accepts a regular program at every load address or at none |
| Relocation.OperandsSurviveRelocationIff | source/amx/amx_verifier.c:42-51 | at every marked start of a confined program, two images relocated for different load addresses give the same operands, except that those of CONST are the same exactly if its address lies in the data section or the bases differ by a multiple of 2^32 |
| Relocation.StepSurvivesRelocation | source/amx/amx_exec.c:141-159 | one step of a confined, movable program has the same outcome at either load address |
| Relocation.RunSurvivesRelocation | source/amx/amx_exec.c:141-159 | for every run of a confined, movable program and any two load addresses, the machines pass through the same states; with bases zero the second one works on raw offsets, and return addresses on the stack are relative in both |
| Relocation.RunsSurviveRelocationIff | source/amx/amx_exec.c:141-159 | a confined program accepted at two load addresses runs alike at both, from every state at a start and with all answers of natives, if and only if it is movable: the address of each CONST lies in the data section, or the bases differ by a multiple of 2^32, or neither machine finds it in the block |
| Specimens.ConstDoesNotMove | source/amx/amx_verifier.c:157-164 | an accepted, confined program whose CONST writes to different places at two load addresses, as the verifier leaves an address outside the data section unrelocated |
| Expand.EncodeRoundTrip | source/compiler/sc6.c:238-276 | every cell's encoding is one to five bytes with the continuation bit in all but the last, and decodes to the cell |
| Expand.EncodeShortest | source/compiler/sc6.c:238-276 | no code of a cell is shorter than its encoding |
| Expand.DecodeLast | source/amx/amx.c:325-377 | the backward loop with its sign extension decodes the last code of the file, and finds where it starts |
| Expand.CellBytesRead | source/amx/amx.c:363-371 | the four bytes stored for an expanded cell are read by the machine as that cell |
| Expand.SignExpand | source/amx/amx.c:325-377 | the sign loop fills exactly the bits above the collected ones |
| Expand.Flush | source/amx/amx.c:325-377 | postponed stores are performed in order, and only where no unread byte of the file is touched |
| Expand.Expand | source/amx/amx.c:325-377 | in-place expansion equals out-of-place decoding: the buffer ends up holding exactly the cells of the file, in order, and the queue is empty; the assertion on the queue fails exactly if some code, with more cells behind it than the queue has entries, starts a full queue or more ahead of its cell; read back by the machine, cell after cell, they are the decoded values |
| Expand.WriterStaysWithinMargin | source/compiler/sc6.c:278-300 | a file that passes the test the compiler makes after each cell never overfills the queue |
| Expand.Store | source/amx/amx.c:363-373 | the end of a round stores or postpones a cell, or finds the queue full exactly where the condition on the file fails |
| Expand.LongestCodesIff | source/amx/amx.c:325-377 | a file of five-byte codes expands exactly up to 320 cells, though from 256 on it is a full queue ahead of its cells |
| Expand.LoadCompact | source/amx/amx.c:325-377 | from the compiler to the machine: what the compiler writes for any cells, unless it gave up on compression, expands in place to those cells, as the machine reads them |
| FixedPoint.QuotientFitsIff | source/amx/fixed.c:151-162 | a double-word quotient fits a cell exactly when the divisor exceeds the high word; the assertion in the code also lets equality pass |
| FixedPoint.BorrowTest | source/amx/fixed.c:169-171 | the wrapped comparison after a subtraction tells exactly whether it borrowed |
| FixedPoint.Underestimate | source/amx/fixed.c:166-168 | the estimate of a half quotient fits a word and is never too large |
| FixedPoint.HighHalf | source/amx/fixed.c:163-181 | the high half: estimate, subtraction with borrows and correction loop leave less than a shifted divisor, and the half quotient fits a word |
| FixedPoint.LowHalf | source/amx/fixed.c:182-200 | the low half leaves less than the divisor, and the half quotient fits a word |
| FixedPoint.Div64By32 | source/amx/fixed.c:151-204 | for every divisor greater than the high word: the result is the floor of the quotient, and the remainder is left in the low word |
| FixedPoint.FMulNearestIff | source/amx/fixed.c:247-250 | the product, as the cell that is returned, is rounded to nearest exactly if it fits a cell and is not below minus half a unit or lies halfway |
| FixedPoint.FMulOverflows | source/amx/fixed.c:247-250 | two million squared, which does not fit |
| FixedPoint.CloserNeighbour | source/amx/fixed.c:617-631 | the closer of two neighbours around the root is nearest among all arguments |
| FixedPoint.FSqRoot | source/amx/fixed.c:600-634 | for every argument up to the cell limit of its products: the root minimises the distance of its square over all candidates exactly if the argument is zero or at least 0.999; negative arguments are refused |
| FixedPoint.OwnRootIff | source/amx/fixed.c:600-634 | an argument below one, which is returned unchanged, is the nearest root of itself only for 0 and 0.999 |
| GcTable.ProbeVisits | source/amx/amxgc.c:181-191 | whatever the value, its probe sequence visits every slot, as the increments come down to one |
| GcTable.FoldIs | source/amx/amxgc.c:166-176 | what a value is folded to before it is hashed: all its bytes in the smallest table, its halves up to 2^15 slots, all of it beyond |
| GcTable.SearchEndsIff | source/amx/amxgc.c:186-191 | a search ends, within a bounded number of steps, exactly if the table has an empty slot or stores the value |
| GcTable.SearchableIsDistinct | source/amx/amxgc.c:148-203 | a table in which every value is found where it is stored holds no value twice |
| GcTable.MarkKeeps | source/amx/amxgc.c:148-203 | marking adds exactly the value and leaves every stored value where its search finds it |
| GcTable.RoomIff | source/amx/amxgc.c:156-163 | a searchable table has an empty slot exactly if it holds fewer values than slots |
| GcTable.ScanCounts | source/amx/amxgc.c:205-259 | scanning raises the count of a stored value by the number of cells that hold it, and changes nothing else |
| GcTable.CollectionExact | source/amx/amxgc.c:205-308 | one collection frees exactly the stored values that no scanned cell holds, once each, and keeps exactly the others with their counts reset |
| GcTable.CycleExact | source/amx/amxgc.c:148-308 | of all values marked in an empty table that they do not fill, exactly those absent from the scanned cells are freed, once each |
| GcTable.RehashKeeps | source/amx/amxgc.c:89-133 | rehashing keeps the set of values, whatever holes sweeps have left, and makes every value findable again |
| GcTable.EveryBirthDiesOnce | source/amx/amxgc.c:89-308 | over any number of cycles that rehash, mark new values, scan and sweep: every value that came in has been freed exactly once, or is alive, and no other is ever freed |
| GcTable.LastScanned | source/amx/amxgc.c:205-308 | each of these cycles frees exactly the old and new values that its scan does not meet, once each |
| GcTable.FoundAfterSweepIff | source/amx/amxgc.c:284-308 | a value that survives a sweep is still found exactly if no slot its search passed was freed |
| GcTable.CollidedIsMarked | source/amx/amxgc.c:148-203 | marking 1 and then 256 in an empty table of 128 slots makes the table of the next row |
| GcTable.LiveObjectFreed | source/amx/amxgc.c:284-308 | two values that collide: after the first is swept, the second is freed although every scan meets it |
| GcTable.Collector.Find | source/amx/amxgc.c:166-191 | the search loop ends on the slot that the specification of the search gives |
| GcTable.Collector.Mark | source/amx/amxgc.c:148-203 | marks in place; reports a duplicate exactly if a searchable table already stores the value |
| GcTable.Collector.ScanSection | source/amx/amxgc.c:205-259 | counts the cells of a section in place, as specified |
| GcTable.Collector.Scan | source/amx/amxgc.c:261-282 | scans globals, heap and stack, which together count like one section of all their cells |
| GcTable.Collector.Clean | source/amx/amxgc.c:284-308 | calls the callback with exactly the specified values in slot order and empties their slots, or reports the missing table or callback with nothing changed |
| GcTable.Collector.SetTable | source/amx/amxgc.c:89-133 | resizing gives the rehashed table; bad exponents and lack of memory leave everything as it was |
| GcTable.Collector.DropTable | source/amx/amxgc.c:91-99 | exponent zero drops the table after a sweep |
| PackedCells.LeftChars | source/amx/amxstring.c:103-112 | shifting a cell by whole characters moves its characters and brings in zeros |
| PackedStrings.PackAligned | source/amx/amxstring.c:83-100 | packed source, aligned destination: moving cells and clearing bytes gives the concatenation, cell by cell |
| PackedStrings.PackUnaligned | source/amx/amxstring.c:101-116 | packed source, unaligned destination: shifting and masking across cells gives the concatenation, although the loop reads past the source |
| PackedStrings.PackFromUnpacked | source/amx/amxstring.c:117-143 | unpacked source: collecting characters from the top of each cell gives the concatenation, also when source and destination are the same array |
| PackedStrings.StrPack | source/amx/amxstring.c:79-145 | in all three branches the destination keeps its first characters, continues with those of the source, ends with zeros to the end of its last cell, and is unchanged elsewhere |
| PackedStrings.PackConcatenates | source/amx/amxstring.c:79-145 | read as a packed string, the result is the old first characters followed by those of the source |
| PackedStrings.StrUnpack | source/amx/amxstring.c:147-166 | every character of the source lands in its own cell, also when destination and source are the same array |
| PackedStrings.UnpackUndoesPack | source/amx/amxstring.c:79-166 | unpacking a packed text gives its characters back |
| Strings.StrLen | source/amx/amx.c:3809-3842 | the length is that of the text in both formats, although the bytes of a packed cell lie in the opposite order of its characters |
| Strings.SetPacked | source/amx/amx.c:3857-3880 | copying bytes and swapping cells stores the text in packed form, with the rest of the last cell cleared |
| Strings.SetString | source/amx/amx.c:3846-3901 | stores the longest prefix that fits with its terminator, in either format, and nothing else; the array then holds a terminated string |
| Strings.GetString | source/amx/amx.c:3905-3961 | fetches the text in either format, cut to the longest prefix that fits with a terminator |
| Strings.FitIsLongest | source/amx/amx.c:3857-3887 | what is stored of a text is the longest beginning that leaves room for its terminator in the given cells, four characters to a cell if packed; the two largest sizes stand for no limit |
| Strings.FetchedIsLongest | source/amx/amx.c:3945-3960 | the same for the characters that are fetched |
| Strings.StoreAndFetch | source/amx/amx.c:3846-3961 | what fits of a text comes back when it is stored and fetched again: always from the packed form, from the unpacked one unless it starts with a character from 128 on |
| Strings.UnpackedRoundTripIff | source/amx/amx.c:3882-3961 | the unpacked form gives a text back exactly if it is empty or starts with a 7-bit character |
| Strings.HighText | source/amx/amx.c:3882-3961 | a text that starts with a character from 128 on is read as a packed string, four characters for each leading one |
| Glob.ReadMember | source/amx/fpattern.c:348-370 | reads one member of a set, quotes and ranges included, or runs into the end of the pattern |
| Glob.MatchSet | source/amx/fpattern.c:344-376 | compares a character with a whole set, up to its bracket; a missing bracket ends at the end of the pattern |
| Glob.MatchClosureItem | source/amx/fpattern.c:288-304 | the star succeeds exactly if the rest of the pattern matches some end of the name |
| Glob.Submatch | source/amx/fpattern.c:258-490 | matching terminates and succeeds exactly if the name can be cut into pieces so that each item of the pattern matches its piece; it leaves through a missing-bracket exit only if the pattern has such a place; what single items match is `PlainMatchesIff`, `WildcardsMatch`, `RangeMatchesIff` and `NegatedMatchesIff` |
| Glob.IsValid | source/amx/fpattern.c:172-239 | a pattern is accepted exactly if it has no set without its bracket and no quote without its character |
| Glob.Match | source/amx/fpattern.c:521-544 | valid patterns never take a missing-bracket exit; the result is the relation, except for the empty name; a pattern without special characters matches exactly the name with the same letters, upper and lower case being told apart exactly with keepcase |
| Glob.EmptyNameIff | source/amx/fpattern.c:539-540 | the empty name matches, by the relation, exactly the patterns of stars alone; the special case for it accepts only the empty pattern |
| Glob.PlainMatchesIff | source/amx/fpattern.c:150-155 | a pattern without special characters matches exactly the name of the same length with the same characters in all places: with keepcase equal ones, without it also those that are the upper and lower case of a letter |
| Glob.CaseMakesNoDifference | source/amx/fpattern.c:150-155 | without keepcase, changing the case of letters in pattern or name changes no result |
| Glob.WildcardsMatch | source/amx/fpattern.c:278-304 | a question mark matches one character, whatever it is; a star any name |
| Glob.QuotedMatchesIff | source/amx/fpattern.c:325-340 | behind a backslash every character stands for itself |
| Glob.RangeMatchesIff | source/amx/fpattern.c:344-376 | a range in brackets matches exactly the characters from its first to its last, with keepcase |
| Glob.NegatedMatchesIff | source/amx/fpattern.c:344-376 | an exclamation mark behind the bracket makes a set match exactly the other characters |
| Utf8.EncodeEncodes | source/amx/amx.c:4058-4113 | what is emitted for a value is a lead byte and followers whose bits make up the value, in the shortest form of section 2 of RFC 2279 |
| Utf8.EncodingUnique | source/amx/amx.c:3975-4049 | a value has one encoding in the shortest form |
| Utf8.ReservedIff | source/amx/amx.c:4036-4038 | what is refused of well-formed encodings are exactly those from ED A0 80 to ED BF BF, EF BF BE and EF BF BF |
| Utf8.Get | source/amx/amx.c:3975-4049 | accepts exactly the strings that start with an encoding of a value that is not reserved, and returns that value and its end |
| Utf8.Put | source/amx/amx.c:4058-4113 | emits the encoding exactly if the value is not reserved and the room suffices; negative values come out as one byte |
| Utf8.PutThenGet | source/amx/amx.c:3975-4113 | what is emitted is accepted again as the same value, in any surroundings |
| Utf8.GetThenPut | source/amx/amx.c:3975-4113 | what is accepted is what would be emitted for its value, and nothing else could have been accepted in its place |
| Utf8.Check | source/amx/amx.c:4120-4131 | terminates, accepts exactly the texts that encode a sequence of values, and counts that sequence |
| Crc.TableIs | source/amx/amxfile.c:1124-1190 | every entry of the table is eight steps of the division from its index |
| Crc.ShiftLinear | source/amx/amxfile.c:1195-1201 | a step of the division is linear |
| Crc.ByteIsEight | source/amx/amxfile.c:1195-1201 | feeding the eight bits of a byte one at a time is eight steps on the register combined with the byte |
| Crc.TableStep | source/amx/amxfile.c:1195-1201 | one table look-up does what eight bits do |
| Crc.PartialCrc | source/amx/amxfile.c:1195-1201 | the table-driven loop equals the division of the message bit by bit (section 8 of RFC 1952), from any register |
| Crc.BitwiseChunks | source/amx/amxfile.c:1195-1201 | the checksum is compositional over chunks |
| Crc.FileCrc | source/amx/amxfile.c:1219-1227 | the loop over chunks of 256 bytes computes the checksum of the whole file |
| Crc.CheckValue | source/amx/amxfile.c:1195-1227 | the checksum of the digits 1 to 9 is 0xCBF4_3926 |
| Crc.BurstDetected | source/amx/amxfile.c:1195-1227 | files whose bits differ only within 32 consecutive ones never have the same checksum |
| Uuencode.Encode | source/amx/amxstring.c:785-817 | writes the length and, for each triple of bytes, its digits to base 64, with one digit more than bytes in a partial group; refuses more than 63 bytes |
| Uuencode.KnownLines | source/amx/amxstring.c:785-817 | the lines of the texts C, Ca and Cat, with partial groups |
| Uuencode.Decode | source/amx/amxstring.c:767-783 | decodes as many bytes as the first character says, reading no character they do not need |
| Uuencode.RoundTrip | source/amx/amxstring.c:767-817 | decoding undoes encoding for every block of up to 63 bytes |
| MemFile.File.Read | source/compiler/memfile.c:62-85 | returns the next bytes of the file, at most as many as there are, and moves behind them |
| MemFile.File.Write | source/compiler/memfile.c:87-109 | overwrites or extends the file at the offset; growth keeps all other bytes; without memory nothing changes |
| MemFile.File.Seek | source/compiler/scmemfil.c:74-107 | the target is clamped to the file |
| MemFile.File.Puts | source/compiler/scmemfil.c:156-165 | overwrites or extends the file at the offset by the text, and moves behind it |
| MemFile.File.Gets | source/compiler/scmemfil.c:119-154 | returns the text up to the first newline, or what fits, and leaves the offset exactly behind it |
| MemFile.File.ReadLines | source/compiler/sc6.c:1032-1036 | reading until there is nothing left gives the lines of the rest of the file |
| MemFile.LinesPartition | source/compiler/scmemfil.c:119-154 | repeated reading returns chunks whose concatenation is the file; each holds a newline at most at its end, and all but the last end there or fill the buffer |
| PtrArray.LeastFreeIs | source/amx/amx_ptrarray.h:124-149 | the least free index is determined by the slots, and its handle is the smallest one not live |
| PtrArray.StoreKeepsLeastIff | source/amx/amx_ptrarray.h:158-165 | storing over a slot keeps the cached index exact exactly if the slot is not the cached one |
| PtrArray.Pool.Acquire | source/amx/amx_ptrarray.h:95-109 | the first acquisition gives an empty pool, later ones leave it alone |
| PtrArray.Pool.Release | source/amx/amx_ptrarray.h:111-122 | the last release empties the pool, earlier ones leave it alone |
| PtrArray.Pool.Grow | source/amx/amx_ptrarray.h:72-92 | growth keeps all slots and adds free ones |
| PtrArray.Pool.Insert | source/amx/amx_ptrarray.h:124-139 | returns the smallest handle that is not live and maps it to the value; the cached index stays exact; without memory nothing changes |
| PtrArray.Pool.Remove | source/amx/amx_ptrarray.h:141-149 | removes exactly the handle, if it is live; the cached index stays exact |
| PtrArray.Pool.Get | source/amx/amx_ptrarray.h:151-156 | returns what the handle is mapped to, or the null pointer |
| PtrArray.Pool.Set | source/amx/amx_ptrarray.h:158-165 | remaps any handle in range; the cached index stays exact exactly unless its own slot is stored to |
| Sleep.Amx.Interpret | source/amx/amx.c:1517-1518 | runs to the first instruction that does not just go on |
| Sleep.Amx.Begin | source/amx/amx.c:1448-1518 | the first entry: tests, pushed parameter count and return address, and what the fields hold when the run stops |
| Sleep.Amx.Continue | source/amx/amx.c:1466-1515 | the entry for a continued run takes every register from the fields, tests them, and gives up to the first entry's stack and heap at the end |
| Sleep.Amx.RunThrough | source/amx/amx.c:1375-2340 | a run cut by any number of sleeps in which the margins hold ends with the result, registers and memory of the run in which sleeping does nothing, and restores the stack and heap of the first entry; each sleep is saved behind the operands of the instruction that slept |
| Sleep.SleepsBehind | source/amx/amx.c:2208-2340 | whatever sleeps is saved behind its own operands, and would have gone on there |
| PlainCore.EntryAgrees | source/amx/amx.c:1473-1515 | the entry of the plain interpreter pushes the same cells and starts in the same state as the other, or refuses with the same error |
| PlainCore.HaltAgrees | source/amx/amx.c:2208-2225 | on a program: a HALT that sleeps saves the state behind its operand, which is that in which the interpreter with checks goes on |
| PlainCore.NativeAgrees | source/amx/amx.c:2236-2278 | on a program: a native called by SYSREQ.PRI or SYSREQ.C goes on, or stops, as in the interpreter with checks; sleeping, it goes on behind the call in one and calls again in the other |
| PlainCore.NativeWithArgsAgrees | source/amx/amx.c:2319-2340 | the same for SYSREQ.N, whose arguments are gone from what the plain interpreter goes on with and not from what it saved |
| PlainCore.StepAgrees | source/amx/amx.c:1517-2345 | whatever the interpreter with checks goes on to, the plain one does, instructions that neither sleep nor call natives being the same in both |
| PlainCore.PlainRunAgrees | source/amx/amx.c:1517-2345 | under the same condition a run of any length of the interpreter with checks is one of the plain interpreter |
| PlainCore.PlainRunEnds | source/amx/amx.c:2208-2225 | and both end with the same HALT |
| Sleep.SavedIsContinuedIff | source/amx/amx.c:2208-2340 | what an instruction saves when it sleeps is what it would have gone on with: always for HALT, SYSREQ.PRI and SYSREQ.C; for SYSREQ.N only if its arguments take minus one cell |
| Sleep.WakesIff | source/amx/amx.c:2208-2340 | over a whole run, for any program and any natives: every sleep wakes up as it fell asleep exactly if its stack and heap pass the tests of an entry wherever it sleeps and no native of SYSREQ.N does |

## Left out

- Alu.SdivAltIsFloored: the smallest cell divided by -1, whose quotient is no cell, is excluded; C leaves it open.
- Alu.SdivIsFlooredIff: the smallest cell divided by -1, whose quotient is no cell, is excluded; C leaves it open.
- Verifier.RunHandler: CONST and SYSREQ.N whose second operand lies behind the loaded image are reported as running off it, although the first is read alone.
- Interpreter.Core.Exec: like `Turn`, says nothing of registers and memory after an error.
- Interpreter.Core.Turn: opcodes that differ only in register, comparison, count or sign share a constructor, and registers and memory after an error are left open.
- FixedPoint.FSqRoot: arguments above 2930.859, whose first product already overflows a cell, are not modelled.
- FixedPoint.Div64By32: a divisor equal to the high word, which the code's assertion admits, is excluded, as the quotient does not fit.
- GcTable.Collector.SetTable: requires that the new table can hold the old values, which the test of the fill count was meant to ensure; otherwise the search for room does not end.
- GcTable.Collector.Mark: requires that the search ends; by `SearchEndsIff` it would otherwise loop.
- Glob.IsValid: says nothing of patterns with `!` or `{}`, see `Glob.Submatch`.
- Glob.Match: patterns with `!` or `{}` are excluded, see `Glob.Submatch`.
- Glob.Submatch: patterns with `!` outside sets or with `{}` are not modelled: the scan for validity skips the character after `!`, and multi-sets are greedy.
- Expand.Expand: the `|` on groups that share no bits is an addition.
- MemorySafety.RepeatWrapsAround: on a host with 32-bit addresses the loop of PUSH.R does not write anything for this count.
- MemorySafety.PushRepeatedSoundIff: counts whose size wraps around are modelled for addresses wider than 32 bits only.
- Strings.SetString: wide characters are left out, and a size of zero, in which no terminator fits, is excluded.
- PackedStrings.PackUnaligned: sources whose array ends at the terminator cell are excluded, as the code reads one cell further.
- PackedStrings.StrPack: like it, and sources that overlap the destination at another offset are excluded.
- Sleep.Amx.RunThrough: runs that do not end are not covered, and neither is what a host or a native does to the fields.
- PlainCore.StepAgrees: the other instructions of the plain interpreter are taken to do what those with checks do where these go on; its SWITCH searches linearly and its SCTRL, INC.I and SYMTAG are not compared.
- PlainCore.PlainRunAgrees: like `PlainCore.StepAgrees`.
- InstructionSet.CellPushesAre: a pushed cell that an earlier push of the same instruction overwrites is left open.
- InstructionSet.RepeatedPushIs: counts from 2^28 on are left to `MemorySafety.PushRepeatedSoundIff`.
- InstructionSet.BlockMoveIs: sizes below zero are left to `MemorySafety.BlocksSoundIff`.
- Sleep.Amx.Interpret: instructions other than HALT and calls of natives are arbitrary, but do not sleep; the debug hook could.
- Sleep.Amx.Begin: a stack pointer that passes the first tests but leaves no room for two cells, which the plain code writes below the block, is excluded.
- Sessions.Amx.Turn: what is given up at the end of a run is only modelled in `Sleep`.
- VerifierTheorems.PassesVisitTheSameStarts: counts outside 0 to 126 for which both passes agree are not admitted by `Regular`.
- Verifier.VerifyRelocate: the checks of the file header and of the address tables, the table of native functions, the replacement of opcodes by jump addresses and the packing of the bitmap into bytes are left out; operands behind the loaded image are reported as such instead of being read.
- Sums of addresses wrap around as cells; shift counts are taken modulo 32, where C leaves both open.
- Native functions are arbitrary answers: an error code, a result and a memory of the same size.
- The debug hook, the JIT and assembler cores, the patching of SYSREQ.C to SYSREQ.D, and memory after an aborted instruction.
- What the square root, the string functions and the codecs do around these cores: parameter checks, addresses, files, locale.
- The portable forms of fixed-point multiplication and division for compilers without a double-width integer, and powers.
- Handle pools without allocation, the clean-up function and iteration; after a reallocation the code copies from the released block once more, which is taken to be unchanged.
- Reading lines into a buffer of one byte makes no progress, and is not part of the partition result.
- Simple helpers of the repository (searches, byte swaps, string copies, dates, URL decoding).
