# Verified models of the dynamic recompiler and its surroundings

Dafny models of the hardest parts of this Nintendo DS emulator for Android, with machine-checked proofs.
`dafny verify dfyconfig.toml` checks everything.

**The ARM recompiler.** `Words`, `Flags`, `Shifter` and `InstructionWords` give 32-bit arithmetic, the condition
flags, the barrel shifter and the instruction words, packed as the emitter packs them and decoded as the ARM
Architecture Reference Manual (ARM DDI 0100, sections A3.2, A4.1.5, A5.1 and A5.4) prescribes. `HostMachine`
runs decoded words, and `Bitwise` says what the bitwise operations compute. `Constants` and `Emission` split and load
constants, `ChunkCount` says into how many pieces; `Translation`, `BlockTransfer`, `ThumbBlocks`, `Branches` and
`Blocks` are the emitter's code sequences, and prove that running them on a host state that represents a guest
state ends in one that represents the guest afterwards. `BlockEmitter` and `ThumbEmitter`, with the methods of
`Emission`, `Translation` and `Branches`, are the emitting macros as code that appends to the translation buffer, and
`Translator` is the loop that drives them over a conditional block. `Interpreter` and `ArmInterpreter` are the
reference interpreter. `DataProcMeaning`, `BlockMeaning` and `ThumbMeaning` say in
numbers, bits and addresses what the instructions do.

**The FIFOs.** `IpcLink` is the link between the two processors as programs see it: two queues, with every status
bit derived. `IpcFifo` is the rings and control registers in place, kept equal to it by every call. `GfxFifo` is the
geometry command FIFO. Both use `Rings`.

**Small controllers.** `AddressTable` (guest address to code), `RegisterList` (disassembly of register lists),
`AudioQueue` (two-buffer hand-off), `Throttle` (pacing and frame-skip amounts) and `FrameSkip` (the main loop).

What the proofs brought out:

- Emitter and interpreter differ on a Thumb store-multiple whose base register is in its list: one stores the
  written-back base, the other the original (`ThumbBlocks.ThumbAgreement`).
- The interpreter does not set C from a rotated immediate (`Interpreter.ImmediateCarryGap`), and shifts by a whole
  register where hardware uses its low byte (`Shifter.LowByteAgreement`).
- A patched branch reaches from 2^25 - 8 bytes back to 2^25 + 4 ahead, not 2^25 either way
  (`Branches.PatchRoundTrip`).
- A constant that one rotated immediate could hold, but across both ends of the word, is loaded with two instructions
  (`ChunkCount.WrappedByteTakesTwo`).
- TST and TEQ with a register shift are emitted as CMN (`Translation.EmittedOpExact`).
- A frame is paced at 16 milliseconds at full speed, of the 16.7 it should take, since the period is rounded down
  (`Throttle.FrameLength`).
- Skipping more than 255 instructions of one conditional block counts their cycles modulo 256
  (`Branches.ConditionalBlockCycles`, `Blocks.ConditionalBlockPreserves`).
- A change of the skip rate to 0 while a skip is pending still skips one frame: `FrameSkip.Ready` is the exact
  condition. Turning automatic frame skip off in mid-run can leave one gap of the wrong length; `FrameSkip.Steady` and
  `FrameSkip.Settled` are the exact conditions for none from the first and from the second step on, and every run
  settles (`FrameSkip.RhythmSettles`).
- Both allocation tables lack a comma after the entry for r15, which makes it `ARMREG_R0 -1`, the marker for
  memory; the models keep that. The comment on `ARMCOND_LE` says "&&" where the manual, and the proofs, have "or".

## Model

| member | source | states |
|---|---|---|
| Flags.AddFlagsExact | app/src/main/jni/android/dynarec/cpu.cpp:367-371 | the interpreter's C and V after an addition are the exact unsigned carry and signed overflow, for all operands |
| Flags.SubFlagsExact | app/src/main/jni/android/dynarec/cpu.cpp:361-365 | after a subtraction C is "no borrow" and V the exact signed overflow; the flags are those of the architecture's adder on the complement |
| Flags.ConditionsDecideOrder | app/src/main/jni/android/dynarec/arm_codegen.h:220-237 | after a compare the condition codes decide equality, the unsigned and signed order, the sign of the difference and its signed overflow |
| Flags.OppositeNegates | app/src/main/jni/android/dynarec/arm_emit.h:817-832 | the opposite-condition table and flipping the low bit are both logical negation |
| Shifter.OneShift | app/src/main/jni/android/dynarec/cpu.cpp:374-461 | one place of each shift in numbers: the bit shifted out and the rest are the word, unsigned or signed |
| Shifter.ImmediateClosedForm | app/src/main/jni/android/dynarec/cpu.cpp:463-614 | value and carry of every immediate shift equal shifting one place at a time, with #0 meaning 32 for LSR and ASR and rotate-with-extend for ROR; the form without flags gives the same value |
| Shifter.RegisterClosedForm | app/src/main/jni/android/dynarec/cpu.cpp:374-461 | the same for shifts by a register, with any 32-bit amount (a rotation by 0 to 31) |
| Shifter.LowByteAgreement | app/src/main/jni/android/dynarec/cpu.cpp:347-352 | shifting by the whole register is shifting by its low byte, as hardware does, in value and carry on all words exactly when the amount is below 256 or its low byte already shifts everything out |
| Shifter.LowByteValueAgreement | app/src/main/jni/android/dynarec/cpu.cpp:347-352 | the exact amounts for the value alone: also a low byte of 32 for LSL and LSR, and of 31 for ASR |
| InstructionWords.PackDpiSum | app/src/main/jni/android/dynarec/arm_codegen.h:426-436 | a data-processing word is the sum of its fields at their places |
| InstructionWords.PackOperandSum | app/src/main/jni/android/dynarec/arm_codegen.h:455-502 | so is each of the three operand forms |
| InstructionWords.ShiftCodes | app/src/main/jni/android/dynarec/arm_codegen.h:455-462 | the shift types encode as 0 to 3 and decode back |
| InstructionWords.PackedSums | app/src/main/jni/android/dynarec/arm_codegen.h:743-767 | the word transfers, branches, BX and BLX as sums of their fields, the fixed bits in hexadecimal |
| InstructionWords.DecodePackDataProc | app/src/main/jni/android/dynarec/arm_codegen.h:426-502 | decoding a packed data-processing word gives back opcode, S bit, registers, operand and condition, for all three operand forms |
| InstructionWords.DecodePackTransfer | app/src/main/jni/android/dynarec/arm_codegen.h:743-767 | the same for the word loads and stores the emitter uses |
| InstructionWords.DecodePackBranch | app/src/main/jni/android/dynarec/arm_codegen.h:351-358 | the same for branches |
| InstructionWords.DecodePackExchange | app/src/main/jni/android/dynarec/arm_codegen.h:361-366 | the same for BX and BLX |
| Constants.DisectImm32 | app/src/main/jni/android/dynarec/arm_emit.h:241-312 | the in-place loop terminates with one to four chunks and writes exactly the chunks of the specification |
| Constants.DisectExact | app/src/main/jni/android/dynarec/arm_emit.h:241-312 | for every 32-bit constant the chunks are bytes with even rotations, and or-ing or adding them gives the constant, wrap-around merge included |
| ChunkCount.CountExact | app/src/main/jni/android/dynarec/arm_emit.h:241-312 | a constant takes one chunk for every byte-wide piece found from the right, and one less exactly when there are three or more, the last starts above 24 and the first lies low enough to share its byte |
| ChunkCount.PiecesFewest | app/src/main/jni/android/dynarec/arm_emit.h:255-262 | the pieces cover every set bit, and no fewer bytes at even places do |
| ChunkCount.OneInstruction | app/src/main/jni/android/dynarec/arm_emit.h:241-312 | a constant is one chunk if and only if its bits lie in one byte at an even place |
| ChunkCount.WrappedByteTakesTwo | app/src/main/jni/android/dynarec/arm_emit.h:282-283 | a constant that is one byte rotated across both ends takes two chunks |
| Emission.Emitter.LoadImm32 | app/src/main/jni/android/dynarec/arm_emit.h:314-327 | the words written to the buffer are the MOV and ORR words of the chunks |
| Emission.LoadConstantExact | app/src/main/jni/android/dynarec/arm_emit.h:314-327 | running those words leaves exactly the constant in the register and changes nothing else; there are one to four |
| Emission.OffsetChunks | app/src/main/jni/android/dynarec/arm_emit.h:1468-1489 | a 12-bit offset needs at most two chunks, all that the two-word form handles |
| Emission.Emitter.AdjustImm | app/src/main/jni/android/dynarec/arm_emit.h:1468-1489 | the emitting macro writes the words that AdjustExact is about |
| Emission.AdjustExact | app/src/main/jni/android/dynarec/arm_emit.h:1468-1489 | for every 12-bit offset the emitted ADD or SUB words give base plus or minus offset modulo 2^32 |
| Emission.CycleUpdateExact | app/src/main/jni/android/dynarec/arm_emit.h:421-431 | for every count the cycle register gains exactly the pending cycles modulo 65536, flags untouched |
| Translation.ArmTableValid | app/src/main/jni/android/dynarec/arm_emit.h:161-196 | the ARM allocation table, as the compiler reads it, gives distinct host registers R3-R8 and keeps r15 in memory |
| Translation.ThumbTableValid | app/src/main/jni/android/dynarec/arm_emit.h:198-233 | the same for the Thumb table |
| Translation.SlotAddress | app/src/main/jni/android/dynarec/arm_emit.h:546-547 | a guest register in memory is the word 1024 + 4r bytes above the frame pointer |
| Translation.WriteGuestReg | app/src/main/jni/android/dynarec/arm_emit.h:564-580 | writing one guest register, in its host register or memory slot, disturbs no other |
| Translation.LoadDoes | app/src/main/jni/android/dynarec/arm_emit.h:541-562 | the emitted loads leave a guest register, or the value r15 reads as, in the register they name and keep the representation |
| Translation.TranslationPreserves | app/src/main/jni/android/dynarec/arm_emit.h:1187-1221 | from any host state that represents a guest, running the emitted words for an opcode that writes a register below r15, or only the flags, ends in a state that represents the guest after the operation emitted, flags included; r15 reads as pc+8, or pc+12 under a register shift |
| Translation.EmittedOpExact | app/src/main/jni/android/dynarec/arm_dpimacros.h:1580-1591 | the operation emitted means the guest's in every state, for every opcode and operand but TST and TEQ with a register shift, which become CMN |
| Translation.PcWritePreserves | app/src/main/jni/android/dynarec/arm_emit.h:582-592 | an instruction that writes r15 without setting flags leaves for the branch stub with the new pc in A0, standing for the guest after it |
| Translation.GenerateOpReg | app/src/main/jni/android/dynarec/arm_emit.h:1187-1208 | cutting the fields out of the guest opcode and emitting gives the code that TranslationPreserves and PcWritePreserves are about, tests included |
| Translation.GenerateOpImm | app/src/main/jni/android/dynarec/arm_emit.h:1215-1221 | the same for the immediate form |
| DataProcMeaning.OperandMeaning | app/src/main/jni/android/dynarec/cpu.cpp:180-184 | the shifter operand in all forms: rotated immediate, shift by a constant with its special cases for 0, rotate with extend in numbers, shift by the low byte of a register, r15 8 or 12 bytes ahead |
| DataProcMeaning.LogicBits | app/src/main/jni/android/dynarec/cpu.cpp:774-787 | each bit of the word written by AND, EOR, ORR, BIC and MVN is that function of the operands' bits, and MOV writes the operand |
| DataProcMeaning.LogicFlags | app/src/main/jni/android/dynarec/cpu.cpp:794-803 | N and Z of the result, C of the shifter, V kept; TST sets Z exactly when no bit is common, TEQ exactly when the operands are equal |
| DataProcMeaning.AddMeaning | app/src/main/jni/android/dynarec/cpu.cpp:805-815 | ADD, ADC and CMN: the sum modulo 2^32, C its carry out and V its signed overflow |
| DataProcMeaning.SubtractMeaning | app/src/main/jni/android/dynarec/cpu.cpp:817-827 | SUB, SBC, RSB, RSC and CMP: the difference modulo 2^32 in its order, C no borrow and V signed overflow |
| DataProcMeaning.NothingElse | app/src/main/jni/android/dynarec/cpu.cpp:774-857 | only rd changes, tests change no register, and without the S bit the flags stay |
| Interpreter.InterpreterMatches | app/src/main/jni/android/dynarec/cpu.cpp:774-857 | the interpreter macros, tests included, compute what the architecture does wherever the shift amount, by the exact condition for the value or for value and carry, and the immediate's carry agree |
| Interpreter.ImmediateCarryGap | app/src/main/jni/android/dynarec/cpu.cpp:768-769 | a flag-setting logical instruction with a rotated immediate: the interpreter leaves C alone, and agrees with the architecture exactly when C already had the right value |
| ArmInterpreter.ShiftImm | app/src/main/jni/android/dynarec/cpu.cpp:1353-1401 | the in-place immediate shift leaves the architecture's value and carry |
| ArmInterpreter.ShiftReg | app/src/main/jni/android/dynarec/cpu.cpp:1287-1351 | the in-place register shift leaves the value and carry of shifting one place at a time |
| ArmInterpreter.DataProc | app/src/main/jni/android/dynarec/cpu.cpp:774-857 | the in-place macro takes registers, flags and pc to those of the specification; a result in r15 is the new pc |
| ArmInterpreter.ThumbShiftReg | app/src/main/jni/android/dynarec/cpu.cpp:1403-1410 | a Thumb shift by a register writes the shifted value, sets N, Z and C from it and keeps V |
| ArmInterpreter.ThumbShiftImm | app/src/main/jni/android/dynarec/cpu.cpp:1403-1410 | the same with an immediate amount |
| Blocks.EmittedMatchesInterpreter | app/src/main/jni/android/dynarec/arm_emit.h:1187-1221 | emitted code and interpreter agree: the words end in a state that represents what the interpreter's macro makes of the guest, under the exact conditions of InterpreterMatches and EmittedOpExact |
| Blocks.BlockPreserves | app/src/main/jni/android/dynarec/cpu_threaded.cpp:3993-4050 | running a block of data-processing and LDM/STM translations, one after the other, does what its instructions do; without transfers the cycle register is left alone |
| Blocks.ConditionalBlockPreserves | app/src/main/jni/android/dynarec/cpu_threaded.cpp:254-271 | a block of up to 8192 instructions behind one skip branch, with its accounting, does what running each instruction under the condition does; cycles rise by the block's cost and the helpers' waits, or by one for each skipped instruction modulo 256 |
| Translator.TranslateInstr | app/src/main/jni/android/dynarec/cpu_threaded.cpp:4001-4015 | an opcode is fetched, translated, and its cycles, as the emitting macros count them, added to those pending |
| Translator.TranslateBlock | app/src/main/jni/android/dynarec/cpu_threaded.cpp:3993-4050 | the loop over the opcodes, each 4 bytes after the last, emits the code of BlockPreserves and adds the total cost |
| Translator.TranslateConditional | app/src/main/jni/android/dynarec/cpu_threaded.cpp:254-271 | header, instructions and patch emit, after the cycles pending before, exactly the code of ConditionalBlockPreserves with the block's own cost |
| Translator.CostLast | app/src/main/jni/android/dynarec/cpu_threaded.cpp:4015 | the cycles of a block add up over its instructions |
| Translator.RunGuestLast | app/src/main/jni/android/dynarec/cpu_threaded.cpp:254-271 | the k-th instruction of a block runs at the pc 4k bytes on, under the condition |
| BlockTransfer.Processor.BlockMemory | app/src/main/jni/android/dynarec/cpu.cpp:1183-1206 | the interpreter's loop, with write-back, the loaded pc and the stored pc+8, as a function of the old state |
| BlockTransfer.CountIsRank | app/src/main/jni/android/dynarec/cpu.cpp:1128-1129 | the table lookup counts the listed registers, at most 16 |
| BlockTransfer.LoadMeaning | app/src/main/jni/android/dynarec/cpu.cpp:1192-1206 | a load fills every listed register from its own address, the lowest register at the lowest address, and changes nothing else |
| BlockTransfer.StoreMeaning | app/src/main/jni/android/dynarec/cpu.cpp:1192-1206 | a store puts every listed register at its own address and leaves every other address alone |
| BlockMeaning.AddressRange | app/src/main/jni/android/dynarec/cpu.cpp:1156-1172 | the four address modes: where the words start or end around the base, its low two bits ignored, and where the base moves to |
| BlockMeaning.LoadMultipleMeaning | app/src/main/jni/android/dynarec/cpu.cpp:1183-1206 | after LDM every register is its own word if listed, the moved base if written back, and else unchanged; memory is unchanged |
| BlockMeaning.StoreMultipleMeaning | app/src/main/jni/android/dynarec/cpu.cpp:1183-1206 | after STM every listed register is at its own word, the base as written back and r15 eight bytes ahead; nothing else has changed |
| BlockMeaning.LastIsHighest | app/src/main/jni/android/dynarec/arm_emit.h:1644 | the emitter's test for the last register holds exactly when none is listed above |
| BlockMeaning.CallsFollowed | app/src/main/jni/android/dynarec/arm_emit.h:1552-1572 | an STM ends with the checking store helper and the address of the next instruction; a load call is followed by that of the one after |
| BlockTransfer.AccessesDo | app/src/main/jni/android/dynarec/arm_emit.h:1639-1655 | running the emitted accesses from any register on does what the interpreter's loop does |
| BlockTransfer.BlockTransferRefines | app/src/main/jni/android/dynarec/arm_emit.h:1621-1671 | LDM and STM, every list and address mode, with and without write-back, base in the list or not: the emitted words end in a state that represents the interpreter's result; a loaded pc reaches the branch stub in A0 |
| BlockEmitter.BlockMemory | app/src/main/jni/android/dynarec/arm_emit.h:1621-1671 | the emitting macro, with its early exit at the last listed register, writes the code that BlockTransferRefines is about |
| ThumbEmitter.InterpretBlock | app/src/main/jni/android/dynarec/cpu.cpp:1504-1526 | the interpreter's Thumb block transfer as a function of the old state |
| ThumbBlocks.ThumbAgreement | app/src/main/jni/android/dynarec/arm_emit.h:1975-2005 | emitter and interpreter give the same guest exactly when the form is not a store-multiple whose base is in the list |
| ThumbMeaning.PushListMeaning | app/src/main/jni/android/dynarec/cpu.cpp:1472-1526 | PUSH {list}: SP is moved down n words and aligned, each register is at its own word from it, and nothing else has changed |
| ThumbMeaning.PushLinkMeaning | app/src/main/jni/android/dynarec/cpu.cpp:1475-1526 | PUSH {list, LR}: the same with one word more that holds LR |
| ThumbMeaning.PopListMeaning | app/src/main/jni/android/dynarec/cpu.cpp:1480-1526 | POP {list}: each register is loaded from its own word, SP moves past them, nothing else changes |
| ThumbMeaning.PopLinkMeaning | app/src/main/jni/android/dynarec/cpu.cpp:1486-1526 | POP {list, PC}: the same with one word more that goes to PC without bit 0 |
| ThumbMeaning.StoreUpMeaning | app/src/main/jni/android/dynarec/cpu.cpp:1480-1526 | STMIA rb!: each register, the base as it was, is at its own word from the aligned base, which moves past them |
| ThumbMeaning.LoadUpMeaning | app/src/main/jni/android/dynarec/cpu.cpp:1480-1526 | LDMIA rb!: each register is loaded, and the base moves past them unless it is loaded itself |
| ThumbMeaning.PushPopList | app/src/main/jni/android/dynarec/cpu.cpp:1467-1526 | PUSH {list} and a later POP {list} that finds the stack kept restore every listed register and the aligned SP |
| ThumbMeaning.ThumbCallsFollowed | app/src/main/jni/android/dynarec/arm_emit.h:1943-1973 | without LR a store form ends with the checking helper and the next address; with LR no store is checked |
| ThumbBlocks.PushPopRoundTrip | app/src/main/jni/android/dynarec/cpu.cpp:1467-1526 | a PUSH and a later POP that finds the stack kept restore every listed register, return to LR with bit 0 clear and give back the aligned SP, for every list |
| ThumbBlocks.ThumbBlockRefines | app/src/main/jni/android/dynarec/arm_emit.h:1975-2005 | running the emitted words ends in a state that represents the interpreter's result, same slots and final SP, if and only if the form is not a store-multiple with its base in the list |
| ThumbEmitter.EmitBlock | app/src/main/jni/android/dynarec/arm_emit.h:1975-2005 | the emitting macro writes the code that ThumbBlockRefines is about |
| Branches.DecodersAgree | app/src/main/jni/android/dynarec/cpu.cpp:269-270 | interpreter and disassembler read the same target from every branch word |
| Branches.PatchRoundTrip | app/src/main/jni/android/dynarec/arm_emit.h:457-459 | patching keeps the top byte, and each decoder recovers the target, if and only if the aligned target is between 2^25-8 bytes back and 2^25+4 ahead |
| Branches.CacheReaches | app/src/main/jni/android/dynarec/cpu.h:159 | any two words of the 10 MiB translation cache reach each other |
| Branches.ConditionalBlockCycles | app/src/main/jni/android/dynarec/arm_emit.h:421-448 | running through a conditional block adds exactly its cycles (modulo 65536); taking the patched branch lands after the subtraction and adds exactly one for each skipped instruction (modulo 256); the accounting leaves the flags alone |
| Branches.ConditionalHeader | app/src/main/jni/android/dynarec/arm_emit.h:2020-2025 | the header flips the condition, spends the pending cycles and emits the unpatched branch |
| Branches.PatchConditional | app/src/main/jni/android/dynarec/arm_emit.h:443-448 | patching in place turns the buffer into the code that ConditionalBlockCycles is about |
| Rings.WindowPush | app/src/main/jni/desmume/src/FIFO.cpp:61-64 | writing at the tail of a ring appends to its contents, wrap-around included |
| Rings.WindowPop | app/src/main/jni/desmume/src/FIFO.cpp:101-104 | stepping the head drops the oldest entry |
| IpcLink.NothingLost | app/src/main/jni/desmume/src/FIFO.cpp:41-124 | over every run of both processors, the words received since the last clear followed by those still queued are the accepted words in order; no queue exceeds 16 |
| IpcLink.StepTraffic | app/src/main/jni/desmume/src/FIFO.cpp:41-124 | a send is accepted exactly when enabled and below 16 words, a receive delivers the oldest word exactly when enabled and not empty, and else returns 0 |
| IpcLink.StepBits | app/src/main/jni/desmume/src/FIFO.cpp:148-149 | only a processor's own control writes change its enable and interrupt bits |
| IpcLink.ErrorMeaning | app/src/main/jni/desmume/src/FIFO.cpp:47-52 | in every reachable state the error bit is set if and only if an enabled step was refused and since then no word has moved and it was not acknowledged |
| IpcLink.StepRaises | app/src/main/jni/desmume/src/FIFO.cpp:75-76 | a step raises only interrupts that are due after it, and every one that it makes due |
| IpcLink.StepRaisesExactly | app/src/main/jni/desmume/src/FIFO.cpp:75-158 | of the interrupts a step concerns it raises each that is due after it, once, and no other |
| IpcLink.NoLostInterrupt | app/src/main/jni/desmume/src/FIFO.cpp:109-158 | in every reachable state an interrupt is due if and only if it was raised by some step and has been due ever since |
| IpcFifo.Layout | app/src/main/jni/desmume/src/registers.h:354-363 | the place of every bit in the register and in a write to it |
| IpcFifo.SendForgotten | app/src/main/jni/desmume/src/FIFO.cpp:59 | the mask 0xBFFC clears empty and full of the queue sent into, and the error bit, and nothing else |
| IpcFifo.RecvForgotten | app/src/main/jni/desmume/src/FIFO.cpp:60 | the mask 0xBCFF does so for the queue received from |
| IpcFifo.Written | app/src/main/jni/desmume/src/FIFO.cpp:148-149 | a control write replaces exactly the three writable bits |
| IpcFifo.Fifo.InitBoth | app/src/main/jni/desmume/src/FIFO.cpp:35-39 | initialising both processors, in either order, gives the reset link |
| IpcFifo.Fifo.Send | app/src/main/jni/desmume/src/FIFO.cpp:41-79 | ring, both registers and interrupts move as the link does; afterwards every empty and full bit again says what the queues say; disabled and full are the error cases |
| IpcFifo.Fifo.Recv | app/src/main/jni/desmume/src/FIFO.cpp:81-124 | the same for receiving, with the word returned and 0 in the error cases |
| IpcFifo.Fifo.Cnt | app/src/main/jni/desmume/src/FIFO.cpp:126-164 | the same for a control write: acknowledge, clear, the writable bits and the interrupts they make due |
| GfxFifo.BusyExactly | app/src/main/jni/desmume/src/FIFO.cpp:198 | the count is non-zero exactly while a matrix push or pop is queued |
| GfxFifo.StatusMeaning | app/src/main/jni/desmume/src/FIFO.cpp:188-198 | low up to 127 entries, empty with none, busy while a command 0x11 or 0x12 is queued |
| GfxFifo.MatrixOpsHead | app/src/main/jni/desmume/src/FIFO.cpp:266-271 | the oldest command takes its own share of the count, so the decrement never underflows |
| GfxFifo.Fifo.HandleEvents | app/src/main/jni/desmume/src/FIFO.cpp:186-201 | low, empty and busy agree with the queue; a low FIFO triggers the DMA and a change of low or empty a reschedule |
| GfxFifo.Fifo.Send | app/src/main/jni/desmume/src/FIFO.cpp:208-249 | the pair is appended, the count and all flags agree with the queue, and sent remains popped followed by queued |
| GfxFifo.Fifo.Recv | app/src/main/jni/desmume/src/FIFO.cpp:252-280 | the oldest pair is returned, or failure when there is none; popped pairs stay in send order |
| GfxFifo.Fifo.Control | app/src/main/jni/desmume/src/FIFO.cpp:282-301 | bit 29 empties pipe, FIFO and count and leaves the flags; otherwise only the register changes |
| AddressTable.IndicesAreKey | app/src/main/jni/android/dynarec/cpu.h:252-263 | page and slot together are bits 1 to 27 of the address |
| AddressTable.LastAddedMeaning | app/src/main/jni/android/dynarec/cpu.h:236-273 | the value is that of the last add for the key with no flush since, and null when there is none |
| AddressTable.Table.Retrieve | app/src/main/jni/android/dynarec/cpu.h:275-282 | the value last added for the key since the last flush, or null, after any sequence of adds and flushes |
| AddressTable.Table.AddAdr | app/src/main/jni/android/dynarec/cpu.h:250-273 | the entry for its key becomes the value and every other entry is as before, whether the page existed or not |
| AddressTable.Table.FlushPageTable | app/src/main/jni/android/dynarec/cpu.h:236-248 | every page is freed and every entry null |
| AudioQueue.Output.Callback | app/src/main/jni/android/sndopensl.cpp:93-105 | enqueues the newest block and frees the other buffer, or silence when the newest buffer is marked free |
| AudioQueue.Output.Finished | app/src/main/jni/android/sndopensl.cpp:93-105 | once playing, a callback gives the player the newest submitted block and never silence |
| AudioQueue.Output.UpdateAudio | app/src/main/jni/android/sndopensl.cpp:204-226 | a block goes to a buffer the player does not hold, whose block stays intact; played blocks are submitted ones in order, at most one behind; without space the block is dropped |
| AudioQueue.Output.GetAudioSpace | app/src/main/jni/android/sndopensl.cpp:228-236 | no space exactly while one block waits behind the one held; the buffer held is never free |
| AudioQueue.Output.NonePassedOver | app/src/main/jni/android/sndopensl.cpp:103-104 | once playing, every submitted block has been played, except a newest one still waiting |
| RegisterList.NamesAre | app/src/main/jni/desmume/src/Disassembler.cpp:45-62 | the register names: R and the decimal number up to 12, then SP, LR, PC |
| RegisterList.TextReadBack | app/src/main/jni/desmume/src/Disassembler.cpp:238-265 | every list of ranges can be read back from its text |
| RegisterList.MaximalRuns | app/src/main/jni/desmume/src/Disassembler.cpp:238-265 | ascending ranges that do not touch are determined by the set they cover |
| RegisterList.RegList | app/src/main/jni/desmume/src/Disassembler.cpp:238-265 | for every mask and count the printed text reads back as the maximal runs of the set bits, and fits the 100-character buffer |
| Throttle.FourPeriodsNear | app/src/main/jni/android/throttle.cpp:192 | four frames rounded down once lie within three ticks of four rounded frames |
| Throttle.FrameLength | app/src/main/jni/android/throttle.cpp:175 | a frame is 65536000 over the rate, rounded down: 16 ticks at full speed |
| Throttle.Speeds | app/src/main/jni/android/throttle.cpp:42-56 | the thirteen speeds as 256ths of 3920763 |
| Throttle.Pacer.SpeedThrottle | app/src/main/jni/android/throttle.cpp:165-196 | returns at the first reading a period late, or set back behind ltime; then the clock is 0 to 3P+2 ticks ahead of ltime; over any run ltime is never past the clock nor behind start + (waits - credits) * P, where a clock set back starts afresh; no sleep exceeds half a period |
| Throttle.Pacer.NextFrame | app/src/main/jni/android/throttle.cpp:267-271 | a late frame gives back exactly one period, and the run bound is kept |
| Throttle.Pacer.RunBound | app/src/main/jni/android/throttle.cpp:165-196 | over every run the clock is at least one period past the start for each frame waited for and not given back, and ltime is that due time modulo 2^64 |
| Throttle.Pacer.SetSpeed | app/src/main/jni/android/throttle.cpp:103-129 | the speed index stays in its table and the bound starts afresh |
| Throttle.Settle | app/src/main/jni/android/throttle.cpp:277-293 | the two loops stop where the request settles, conserving returned plus carried |
| Throttle.SettlesOnce | app/src/main/jni/android/throttle.cpp:282-293 | a request settles in one place only |
| Throttle.SettlesAt | app/src/main/jni/android/throttle.cpp:284-293 | where a request settles in one formula: the error paid as far as one past the last amount and the range allow |
| Throttle.TruncatedTowardZero | app/src/main/jni/android/throttle.cpp:279 | the whole part of a request is toward zero |
| Throttle.CutNearest | app/src/main/jni/android/throttle.cpp:296-299 | the amount is the nearest in range to where the request settles; an empty range gives its upper end |
| Throttle.ClampedNearest | app/src/main/jni/android/throttle.cpp:302-311 | so are the limits on the carried error and on the request |
| Throttle.Conserved | app/src/main/jni/android/throttle.cpp:277-305 | for a request whose whole part is in range the amount is in range, and returned plus carried is requested plus carried before, exactly while the rest is within four frames |
| Throttle.Skipper.GetSkipAmount | app/src/main/jni/android/throttle.cpp:277-317 | the amount is where the request settles cut to the range, with the carried error and the request limited |
| FrameSkip.NeverTooMany | app/src/main/jni/android/main.cpp:258-318 | at a fixed rate N, whatever automatic frame skip asks for, no N+1 consecutive steps all skip |
| FrameSkip.ReadyExact | app/src/main/jni/android/main.cpp:263-288 | the start states from which no run at rate N skips more than N frames in a row are exactly those with at most N frames left to skip and, at rate 0, no skip pending |
| FrameSkip.RhythmSettles | app/src/main/jni/android/main.cpp:258-318 | with automatic frame skip off at a rate N above 0, every run from every state, skips pending or frames left, falls after a stated number of steps into one shown frame and N skipped ones |
| FrameSkip.SettlingSoon | app/src/main/jni/android/main.cpp:314-318 | that number is at most N+1 when at most N frames are left |
| FrameSkip.RhythmExact | app/src/main/jni/android/main.cpp:263-288 | from the second step on exactly N frames are skipped after each one shown, in every run, if and only if a skip pending has a frame to skip and no frame is owed (at rate 0: nothing to skip) |
| FrameSkip.SteadyExact | app/src/main/jni/android/main.cpp:263-318 | from the first step on they are, if and only if a skip pending has a frame to skip, or N frames are left and none pending |
| FrameSkip.EveryNthShown | app/src/main/jni/android/main.cpp:314-318 | the pattern of two shown frames, then N skipped for each one shown, holds in every run if and only if no skip is pending and no frame is left at the start |
| FrameSkip.FastForwardRhythm | app/src/main/jni/android/main.cpp:290-299 | while fast-forwarding, from every state, after the skips ahead one frame is shown and exactly 9 (or a positive forced rate) skipped, over and over; from the initial state from the first step |
| FrameSkip.FastOwes | app/src/main/jni/android/main.cpp:290-299 | the frames left owed should fast-forwarding end: one while the count runs, then as many as it skips at a time |
| FrameSkip.ForcedOwesNone | app/src/main/jni/android/main.cpp:260-261 | fast-forwarding with the rate forced to 0 schedules nothing |
| FrameSkip.MustShowNeverSkips | app/src/main/jni/android/main.cpp:269-288 | a step with rate 0 forced, a frame advance, or a continuous advance without fast-forward never skips; any other skips exactly when a skip is pending |
| FrameSkip.SkippedCounted | app/src/main/jni/android/main.cpp:271-285 | the skip counter is the number of skips since the last frame shown |
| FrameSkip.AskedIsSkipped | app/src/main/jni/android/main.cpp:305-312 | when automatic frame skip asks for a frames with none left, one more frame is shown and then exactly a are skipped |
| FrameSkip.AdvanceSchedulesNone | app/src/main/jni/android/main.cpp:307-312 | while frames are advanced by hand automatic frame skip schedules none |
| FrameSkip.MainLoop.Step | app/src/main/jni/android/main.cpp:258-324 | the loop's step on its variables, the skip it makes and the amount it draws, within 0 to N |

## Left out

- JNI, EGL and GL, OpenSL setup, cache flushing, `mprotect` and the 7-Zip wrappers: foreign calls.
- The memory helpers are atomic accesses that keep R3-R10, the stack pointer and the flags; their self-modifying-code exits and the data words they read are not modelled. `NDS_Reschedule` of the IPC FIFO has no effect here.
- The block scanner, and the grouping of instructions by condition; Translator takes one group. Multiplies, PSR moves and single transfers are not translated.
- `ror` is defined nowhere in the repository; it is taken as a 32-bit rotation.
- Translation.TranslationPreserves: not for r15 as the shift amount, which the architecture leaves unpredictable; rd = 15 is PcWritePreserves, and with the S bit ends in the helper that restores the saved status register, which is not modelled.
- Translation.GenerateOpReg: not for rd = 15 with the S bit, for the same reason.
- Translation.GenerateOpImm: not for rd = 15 with the S bit, for the same reason.
- BlockTransfer.BlockTransferRefines: not for r15 as base, whose memory slot the emitted code reads and the interpreter's register file keeps separately; the S bit is outside the model.
- Blocks.BlockPreserves: LDM that loads r15, and other instructions that leave the block, end it.
- A branch condition 14 or 15 has no conditional block (`app/src/main/jni/android/dynarec/cpu_threaded.cpp:265`); code 15 never executes here.
- Interpreter.InterpreterMatches: the repository has no use of the interpreter's flag-setting macros for ADC, SBC and RSC, so there are no operands to model for them; a register rotation by more than 31 is undefined there.
- Blocks.EmittedMatchesInterpreter: as InterpreterMatches.
- ArmInterpreter.DataProc: does not model the copy of pc kept in `reg[15]` between instructions, nor rd = 15 with the S bit, which restores the saved status register; flag-setting ADC, SBC and RSC as above.
- Shifter.RegisterClosedForm: a register rotation by more than 31 is undefined in the interpreter's C text, so it is required to be below 32.
- ArmInterpreter.ShiftReg: the same.
- ArmInterpreter.ThumbShiftReg: the same.
- The C text's `bit_count` table is its meaning, the number of bits set, not 256 literals.
- GfxFifo.Fifo.Send: requires room. Past capacity the code overwrites the oldest entries, and between a clear and the next event check its flags are stale; it handles neither.
- The display FIFO and `wipe_bios`, whose index is always 0.
- AddressTable.Table.AddAdr: a failed page allocation, after which the code writes through null, is not modelled.
- AudioQueue.Output.UpdateAudio: a step is atomic; a callback between marking the buffer full and publishing its index breaks the order. Clearing the player's queue before the first block has no effect in the model.
- Throttle.Pacer.SpeedThrottle: the clock readings lie within about 2^64 ticks of `ltime`, ahead or behind; the 32-bit wrap of the tick counter after 49 days is such a step back. When the readings run out first the method says so.
- Throttle.Pacer.NextFrame: the controller that comes to the adjustment is floating-point tuning and a parameter here; only the credit it leads to is modelled.
- Throttle.Skipper.GetSkipAmount: floats are reals.
- FrameSkip.MainLoop.Step: without the wait, the halt after a frame advance and the safety net, none of which touches the skip variables.
- Triple buffering, microphone buffers, and instruction text other than register lists and branch targets: easy or not injective.
