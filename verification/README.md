# A Dafny model of the qx86 virtual machine

qx86 is an embeddable interpreter for a subset of 32-bit x86. It decodes
instructions ahead into a fixed array of slots (the pipeline), follows direct
jumps while it decodes, and then executes the slots without looking back. This
project models that machine and proves what it computes.

## How it is built

Three layers, each proved against the next.

* **Objects.** `VirtualMachine.VM`, `FlagBits.X86Flags`, `Memory.MemorySystem`,
  `Execution.PrefixesActivated` and `OpcodeTable.OpcodeDefiner` are classes with
  the fields of the Rust structs; the pipeline and the register file are arrays.
  The opcode functions (`OpcodeFunctions`), the pipeline fill, the cycle and the
  main loop (`Execution`) are methods that change them in place. Each `ensures`
  equates the new state and the result with a function of the old state.
* **Values.** `VMState.State` is the machine as a value. `Fetch`, `Decoding` and
  `Ops` say what decoding and each opcode do to it, `Pipeline` defines fill,
  cycle and run over any `Machine`, and `Step`, the reference machine that
  fetches, decodes and runs one instruction at a time.
* **Theorems.** `Refinement`, `Runs`, `Gas` and `Termination` hold for any machine
  that meets stated obligations; `X86`, `X86Gas` and `Programs` discharge them
  for the modelled opcodes and state the results for `Qx86`.
* **Instructions.** `Places` says what reading and storing an operand does,
  `OpcodeMap` and `Encoding` which instruction some bytes are, `Instructions` and
  `Transfers` what executing it does, in arithmetic and in terms of the operands,
  and `Assembled` joins them for whole steps. `Compare`, `Bcd`, `Rotate`, `MulDiv`,
  `Stack` and the string modules hold what they rest on.

Words are bounded integers and every wrap-around of the release build
(`overflow-checks = false`, Cargo.toml:29) is written out. The opcode table is a
function from opcode bytes to entries; the refinement holds for every table that
is `Sane`, so bytes the modelled table leaves undefined weaken nothing. Function
pointers are an opcode datatype. The hypervisor is an arbitrary function of the
whole machine and its own memory; each theorem states the frame it assumes of it
(`RespectsFrozen`, `GasOblivious`, `NeverRefunds`). Where the Rust program panics
the model returns the error `Panicked`.

The members of `OpcodeFunctions` are the opcode functions in the form the source
gives them: each changes the objects, and its `ensures` says that the new state
and the result are those of its meaning on values. Their rows say which function
it is and what is peculiar to it.

Reading ahead is described by `FreshRun`: from every read-only address a run
reaches, an instruction the decoder can get to with n cells is, when the run gets
there, fetched as it was decoded. In read-only memory that is always so, but for
`rep` before `int`. In writable memory it takes a free surcharge and an
instruction that has not been overwritten since (`StillFresh`). `FreshCycle` says
it of one cycle. A program that does not lead on from read-only into writable
memory, except at branches the decoder stops at, runs freshly (`SoundRun`).

The rep loops look their opcode up in the fixed table, as the source does
(src/ops.rs:1957-1959); "any sane table" concerns decoding.

## Where the code and its documentation part

* src/vm.rs:525-528 says the pipeline size never affects results. It does when
  the decoder reads on from read-only into writable memory, because whether code
  is writable is decided once for a fill. Two things go wrong. The surcharge is
  not paid: as long as nothing is overwritten, a cycle agrees with one-at-a-time
  execution exactly if the surcharge is free or nothing in writable memory is run
  (`LongCrossing`; `CrossingAgreesIff` when the gas ends there). And filling is not
  stopped after the first instruction there, against src/pipeline.rs:184-189, so
  that code may be overwritten after it was decoded, even with a free surcharge
  (`PipelineSizeMattersThere`). Where neither happens the size does not matter
  (`FreshRun`, `PipelineSizeDoesNotMatter`).
* A rep slot keeps the arguments of whatever its cell held. That changes at most
  how it fails (`RepSlotsForgiveArgs`), except before `int`, where it may decide
  which interrupt is called (`LeftoverOperandMatters`).
* src/opcodes.rs:285 says an opcode cannot be defined twice. A plain definition
  after group definitions is accepted and hides them (`ConflictsAreCaughtIff`).
* src/memory.rs:33 limits blocks to 64K, which nothing enforces; only the
  termination bound needs it.
* More gas before a rep that finishes leaves exactly that much more after it if
  and only if the gas covers every turn in full, the last one included
  (`ExtraGasIsKept` without and `ExtraGasIsKeptAtStop` with a flag test); over a
  whole run one fixed shortfall is taken off (`MoreGasHaltsAlike`).
* Going on after OutOfGas, with any amount of gas and any number of times, comes to
  what an uninterrupted run comes to (`SlicesStayOnCourse`), except when a rep in
  writable memory has overwritten its own bytes (`OnlyRepsOverwrite`,
  `OwnBytesSuffice`, `ResumeDiffersHere`).
* The carry of `adc` is lost when CF is set and the destination is all ones
  (`AdcCarry`); packed BCD addition never meets that case. `adc` stores destination
  + CF before it reads the source, so an operand added to itself takes the carry
  twice (`AdcOfItself`).

## Model

| member | source | states |
|---|---|---|
| Execution.PrefixesActivated.GetPrefixes | src/pipeline.rs:27-59 | sets the size, two-byte and rep prefixes found and gives the number of prefix bytes, or panics on 0x67 and at the end of the window, exactly as the prefix scan on values does |
| Execution.ClearPipeline | src/pipeline.rs:92-96 | only cell 0 becomes the default, every other cell keeps its contents |
| Execution.ChargeFields | src/pipeline.rs:131-182 | adding the Mod R/M, base, branch, memory and writable-memory charges one by one, with wrap-around, is the wrapped sum of all of them |
| Execution.ReadOperands | src/pipeline.rs:122-143 | picks the table entry by opcode byte and reg field and decodes its operands into the old arguments, with the same error and panic cases as the decoder on values |
| Execution.FillSlot | src/pipeline.rs:111-187 | the slot, the next eip and the stop decision for one cell, for all four pipeline behaviours and rep prefixes, or the error |
| Execution.FillPipeline | src/pipeline.rs:100-194 | the array ends holding what the recursive fill gives from the old array, or the call returns its error; the virtual machine is untouched |
| Execution.RunPipelineSlot | src/vm.rs:432-451 | charges, calls the function, turns the stop escape into a halt, records error_eip on errors and advances eip, as RunSlot does on values |
| Execution.RunCycle | src/vm.rs:429-456 | one call ends in the outcome and state of Cycle on the old array and state; when it goes on the array holds the fill |
| Execution.Execute | src/vm.rs:459-468 | the loop over cycles ends as that many cycles of a fresh 16-cell pipeline do |
| Execution.ExecuteToTheEnd | src/vm.rs:459-468 | with charged instructions, 64K blocks and no refunds execute ends, whatever the program does, having begun at most (gas+1)*65522 instructions; on a fresh run in the outcome of as many instructions one at a time (a failure other than OutOfGas may be a different one) |
| Programs.PipelineSizeDoesNotMatter | src/vm.rs:525-540 | for any two pipeline lengths, on every run that is fresh for both, execute halts with one iff it does with the other, in the same registers, flags, eip, memory and gas; the same for OutOfGas; and it breaks otherwise with one iff with the other |
| Programs.FreshRunIsSound | src/pipeline.rs:184-189 | if code reached by reading on into writable memory costs nothing extra and decodes as it did when it was read ahead, and no rep stands before int, then everything read ahead is what one-at-a-time execution fetches |
| Programs.SameBytesDecode | src/pipeline.rs:111-158 | an instruction decodes as it did when its own eip_size bytes are unchanged, whatever has been written behind it in the window |
| Programs.SoundRunIsFresh | src/pipeline.rs:104-105 | a run whose read-only instructions do not lead on into writable memory unless the decoder stops at them is fresh, whatever the surcharge |
| Programs.CycleRefinesSteps | src/vm.rs:429-456 | a cycle whose own read-ahead is fresh, whatever the run meets later, and whose fill succeeds is exactly k reference steps for some k between 1 and the number of cells, or both break at a rep before an opcode that is no string opcode |
| Programs.GasIsCountedAlike | src/pipeline.rs:103-192 | for every program: when the first i filled slots have run, eip is the address slot i was decoded at and the gas left is what the fill counted there; only the last decoded slot can run out of gas; if its charge fails, the cycle ends with every earlier slot run, no gas and nothing else done |
| Programs.FillDoesNotRemember | src/pipeline.rs:92-110 | what the array held before changes no cell's function, size or gas, and nothing at all of a decoded cell without a rep prefix |
| Programs.ReadOnlyMemoryIsSafe | src/vm.rs:402-424 | no number of cycles changes a byte below 0x80000000, the set of blocks, a block length or the gas schedule |
| Programs.SoundCodeRunsSoundly | src/pipeline.rs:104-105 | a condition on the read-only bytes alone makes every run of them sound, and so fresh, because they never change |
| Refinement.CycleIsSteps | src/pipeline.rs:100-194 | for any machine with the stated obligations and a cycle whose own read-ahead is what is fetched: k is the number of decoded cells, padding runs as nothing, and a failing fill means the reference breaks within k + 1 steps |
| Refinement.FilledRunsAsSteps | src/vm.rs:432-454 | running the cells filled in an earlier state is as many reference steps, wherever what was read ahead is what is fetched |
| Refinement.GasCoherence | src/pipeline.rs:190-191 | the same gas count for any machine whose decoder predicts the instructions it reads past, with no hypothesis on the program |
| Refinement.FillForgets | src/pipeline.rs:92-96 | two fills from different arrays agree cell by cell, for any decoder that forgets history |
| Refinement.CyclesKeepReadOnlyMemory | src/vm.rs:459-468 | what single instructions keep, whole runs keep |
| Runs.CyclesAreSteps | src/vm.rs:459-468 | any number of cycles is some number of reference steps |
| Runs.StepsAreCycles | src/vm.rs:459-468 | a reference run that ends is matched by at most as many cycles |
| Runs.ExecuteIsReference | src/vm.rs:459-468 | execute with n cells ends in an outcome iff one-at-a-time execution does, up to which breaking error is reported |
| Runs.PipelineLengthIndependence | src/vm.rs:525-540 | two lengths have the same outcomes, for any conforming machine and sound program |
| Runs.OneCellIsReference | src/vm.rs:459-468 | a pipeline of one cell is the reference machine, on every machine and program without a hypothesis |
| X86.MachineConforms | src/opcodes.rs:70-82 | the x86 machine over any sane opcode table meets every obligation of the refinement: plain opcodes keep eip, direct jumps go where the decoder went on, nobody writes low memory, errors are ordinary |
| X86.FillHistoryIndependence | src/decoding.rs:220-223 | decoding into two different cells gives the same next eip, stop flag and slot, up to the arguments of a rep slot |
| X86.DirectJump | src/ops.rs:400-429 | jmp_rel and call_rel compute the same target as the decoder did |
| X86.PlainOpsQuiet | src/opcodes.rs:70-72 | every modelled opcode function that the table marks as plain leaves eip and read-only memory alone and raises neither the stop escape nor OutOfGas |
| X86.ExecFrozen | src/vm.rs:402-406 | no opcode function, rep loop or (by hypothesis) interrupt changes read-only memory or the shape of memory |
| LongCrossing.CycleAgreesIff | src/pipeline.rs:184-189 | a cycle that reads on into writable memory any distance, over code without rep and interrupt that is not overwritten before it runs, and that does not end for want of gas, agrees with as many steps iff the surcharge is 0 or it runs nothing there |
| LongCrossing.RunAgreesIff | src/vm.rs:525-528 | the same iff for execute with one cell and with n, when such a cycle is the whole run |
| LongCrossing.SavedSurchargeShows | src/vm.rs:525-528 | and when the run goes on freshly and halts with gas left, one cell does not halt in the same state: the documented claim fails for every such run |
| Crossing.CrossingAgreesIff | src/pipeline.rs:104-105 | the crossing at one instruction, with its outcomes OutOfGas: onto an instruction that ends the fill or into the last cell, with any number of cells from 2 on the cycle agrees with two steps iff the surcharge is 0 or the landing cannot be paid for |
| Crossing.CrossingRunsAgreeIff | src/vm.rs:525-528 | the same for whole runs of execute onto a hlt, with one cell and with any larger number |
| Crossing.PipelineSizeMattersHere | src/vm.rs:525-528 | the concrete program: jmp at 0x7FFFFFF0, hlt at 0x80000000, and any number of cells from 2 on |
| StaleCells.PipelineSizeMattersThere | src/pipeline.rs:184-189 | the landing that does not end the fill, with a free surcharge: jmp onto stosb, nop, hlt in writable memory, the stosb writing a hlt over the nop; one cell halts on the written hlt, three or more run the stale nop and halt on the next |
| StaleCells.LeftoverOperandMatters | src/pipeline.rs:122-128 | rep before int in read-only code: with two cells it finds the displacement of a jump in its cell and halts as the hypervisor does on that interrupt, with one it finds no operand and fails |
| Programs.RepElsewhereFails | src/ops.rs:1974-1981 | rep before an opcode that is no string opcode, hlt or int calls its function once, on the arguments left in the cell, and then fails |
| Programs.RepSlotsForgiveArgs | src/ops.rs:1956-1984 | so whatever its cell held before, a rep slot has one effect or fails one way or another, unless it stands before int |
| Refinement.StoppedFill | src/pipeline.rs:107-110 | cells filled after the stop run as nothing |
| Refinement.PredictedRun | src/pipeline.rs:159-183 | a slot the decoder read past leaves the eip, the gas and the read-only memory the decoder counted on, or fails with an ordinary error |
| Refinement.WriteableCycle | src/pipeline.rs:184-189 | in writable memory a cycle is exactly one reference step |
| Example.HltProgramHalts | src/ops.rs:1408-1410 | a hypervisor and a program that meet the hypotheses together: execute halts on hlt with every number of cells, charging its cost |
| Example.TestScheduleCharges | src/vm.rs:80-95 | the schedule of the original's tests makes every instruction that does something cost something, so the bound on runs applies |
| Fuel.MoreGasHaltsAlike | src/vm.rs:459-468 | if execute halts on a fresh run, it halts with any larger amount of gas in the same registers, flags, eip and memory; d more gas leaves d more, less one shortfall that is 0 unless the run ended with no gas |
| Fuel.RefuelledExecutionAgrees | src/vm.rs:432-468 | a run out of gas, called again with any gas at all where the interrupted instruction is still fetched as it was, runs out again or halts in the registers, flags, eip and memory of an uninterrupted run that halts; it cannot break |
| Fuel.RefuelledExecutionHalts | src/vm.rs:432-468 | with at least the gas the uninterrupted run has left at that point it does halt |
| Fuel.SlicesStayOnCourse | src/vm.rs:432-468 | the same after any number of interruptions and refuels of any sizes: every slice runs out of gas or halts as the one call does, and with the whole gas it halts |
| Fuel.OwnBytesSuffice | src/pipeline.rs:111-158 | the interrupted instruction is fetched as it was if its own eip_size bytes are as they were |
| Fuel.OnlyRepsOverwrite | src/vm.rs:434-442 | it always is but for a rep in writable memory: any other instruction that runs out of gas has changed nothing but the gas |
| Gas.MoreGasSameRun | src/vm.rs:432-454 | the same for one-at-a-time execution of any gas-transparent machine, with the shortfall as a number independent of d |
| Gas.SpareGasIsKept | src/vm.rs:432-454 | a halting run that has gas left keeps all of any extra gas |
| Gas.HaltingRunsAgree | src/vm.rs:432-454 | two halting runs from states equal up to gas halt in states equal up to gas |
| Gas.HaltsWithMore | src/vm.rs:432-454 | more gas halts after the same number of steps |
| Gas.ResumeAfterOutOfGas | src/vm.rs:440-442 | going on from where the gas ended with what the uninterrupted run has left there halts as it does, as long as the interrupted instruction is still fetched the same |
| Gas.ResumedEnds | src/vm.rs:440-442 | with any gas at all it runs out again or halts alike |
| X86Gas.MachineIsGasTransparent | src/ops.rs:1956-2013 | the x86 machine meets the gas obligations under a hypervisor that neither looks at nor changes the gas: rep loops are the only code that looks at it |
| X86Gas.RepLoopRestLasts | src/ops.rs:1968-1973 | the rest of an interrupted rep loop costs no more than the whole loop |
| SelfModifying.ResumeDiffersHere | src/ops.rs:1956-1984 | the exception: rep stosb over its own code, interrupted after one byte and refuelled, halts on the byte it wrote with ECX 1, uninterrupted with ECX 0 |
| Termination.StepsEnd | src/vm.rs:459-467 | when no charge of a tier from VeryLow to High is 0 or wraps to 0, blocks have at most 64K and no one refunds, one-at-a-time execution is over after (gas+1)*65522 instructions |
| Termination.CyclesEnd | src/vm.rs:459-467 | under the same conditions alone, sound program or not, execute with a pipeline of any length begins at most (gas+1)*65522 instructions in any number of cycles, and is over after as many cycles |
| Termination.FilledComeCloser | src/vm.rs:432-454 | a run of filled slots lowers the same measure by one for every decoded slot, whatever has happened to the code since it was decoded |
| Termination.StepComesCloser | src/opcodes.rs:388-397 | each instruction lowers gas*65522 plus the room left in the block: only nop and lock are free, and a free run cannot leave its block |
| Strings.RepGasBound | src/ops.rs:1956-1984 | a rep of a non-flag string op on count n whose accesses succeed as far as it gets finishes iff n is at most the number k of turns the gas affords; otherwise it does exactly k turns and stops with OutOfGas, no gas and the rest of the count |
| Strings.FinishesIff | src/ops.rs:1968-1973 | that condition without the quotient: n = 0 or gas > (n-1)*cost |
| Strings.ExtraGasIsKept | src/ops.rs:1973-1973 | d more gas leaves exactly d more iff the gas covers every turn in full |
| Strings.ExtraGasIsKeptAtStop | src/ops.rs:1972-1976 | the same iff for repe and repne with a flag test that stop after j + 1 turns: the gas covers j + 1 turns |
| Strings.RepRunsOut | src/ops.rs:1968-1976 | a flag-testing rep that still waits when the gas is gone has done exactly the turns the gas affords |
| Strings.RepFailsAt | src/ops.rs:1971-1971 | a failing access ends any rep with its error, after the elements before it, which are paid for |
| Strings.RepStopsAt | src/ops.rs:1974-1977 | a rep with a flag test stops after the first element that sets the zero flag as awaited, or at the end of the count |
| StringResults.RepMovsb | src/ops.rs:1956-2051 | the executed rep movsb, with enough gas at the price of its table entry, copies all ECX bytes, advances ESI and EDI by the count, leaves ECX 0 and nothing else changed |
| StringStops.RepStops | src/ops.rs:1956-2013 | the executed repe or repne before A6, A7, AE or AF stops just past the least element that compares unlike (like), or at the end of the count |
| StringResults.CopiedBytes | src/ops.rs:2039-2051 | byte k of the destination is byte k of the old source, or byte k mod d when the destination lies d < n ahead in the same block |
| StringResults.MovsbCopies | src/ops.rs:2039-2051 | the same after every number of turns |
| StringStops.RepComparesStop | src/ops.rs:1966-2006 | repe and repne over cmps and scas stop just past the least element that compares unlike (like): count, EDI, ESI and ZF are those of that element, memory is untouched; the last element stands for exhaustion |
| StringStops.ComparingTurn | src/ops.rs:2060-2149 | one element of cmps or scas of any width and direction: it succeeds when the element can be read, ZF says whether it is equal, the pointers move by one element |
| OpcodeFunctions.RepeatWhileEqual | src/ops.rs:1956-1984 | the while loop of repe ends in the state and result of the recursive loop on values |
| OpcodeFunctions.RepeatWhileNotEqual | src/ops.rs:1985-2013 | the same for repne, and InvalidOpcodeEncoding for opcodes without a flag test |
| OpcodeFunctions.OneTurn | src/ops.rs:1968-1973 | string function, ECX, gas, in that order; a failing function leaves count and gas |
| EffectiveAddress.AddressIsManual | src/decoding.rs:52-129 | for all instruction bytes and registers, parse, decode and resolve give base + index*scale + sign-extended displacement mod 2^32 and the length of Tables 2-2 and 2-3 of the Intel SDM, volume 2A, section 2.1.5 |
| EffectiveAddress.DecodeEncode | src/decoding.rs:170-199 | an encoder of register, absolute, base+displacement and scaled-index operands is undone by the decoder, length and reg field included |
| EffectiveAddress.EncodedAddress | src/vm.rs:225-254 | an encoded operand, decoded and resolved, is at its address |
| Decoding.ParseFromBytes | src/decoding.rs:170-199 | the slice-advancing parser gives FromBytes: Mod R/M, SIB, displacement and size, or DecodingOverrun |
| Decoding.DecodeArgsWithModRM | src/decoding.rs:207-282 | the loop over three operands gives DecodeArgs: arguments, length, errors |
| Decoding.DecodeArgsOverwrites | src/decoding.rs:220-223 | no argument keeps anything of what its place held before |
| Locality.DecodeIsLocal | src/pipeline.rs:111-158 | a successful decode is the same for every window that agrees on its first eip_size bytes |
| Locality.FivePrefixesFit | src/pipeline.rs:115-158 | with at most five prefix bytes the operands of every opcode of a sane table are inside the 16-byte window and the instruction is at most 16 bytes long |
| Opcodes.Lookup | src/opcodes.rs:378-1586 | every row of the modelled table is sane: honest pipeline behaviour, operands of at most 4 bytes, nothing free but nop and ways to stop |
| OpcodeTable.OpcodeDefiner.constructor | src/opcodes.rs:351-362 | a definer starts with nothing told but opcode and length |
| OpcodeTable.OpcodeDefiner.WithArg | src/opcodes.rs:186-198 | appends an argument and notes a Mod R/M byte or a register suffix |
| OpcodeTable.OpcodeDefiner.IsTwoByteOp | src/opcodes.rs:169-172 | notes the second opcode page and nothing else |
| OpcodeTable.OpcodeDefiner.Calls | src/opcodes.rs:181-184 | notes the function and nothing else |
| OpcodeTable.OpcodeDefiner.Behaves | src/opcodes.rs:200-213 | notes the pipeline behaviour and nothing else |
| OpcodeTable.OpcodeDefiner.WithGas | src/opcodes.rs:215-218 | notes the gas tier and nothing else |
| OpcodeTable.OpcodeDefiner.FillCells | src/opcodes.rs:302-347 | the loop over opcode bytes, passing over a defined 0x90 |
| OpcodeTable.OpcodeDefiner.IsGroup | src/opcodes.rs:175-179 | a group opcode has a Mod R/M byte |
| OpcodeTable.OpcodeDefiner.FillEntries | src/opcodes.rs:323-345 | the nested loops write the covered entries of one cell and their arguments, or panic |
| OpcodeTable.OpcodeDefiner.IntoTable | src/opcodes.rs:286-348 | the array ends holding what the definition writes to the old one, or the call panics as the recursive description does |
| OpcodeTable.CellWritten | src/opcodes.rs:313-345 | a cell is accepted iff it is new or has a Mod R/M byte and no entry reached is defined; then exactly those entries hold the new opcode |
| OpcodeTable.DefinedEntriesStay | src/opcodes.rs:285-285 | an accepted definition never overwrites an entry, in any cell of the table |
| OpcodeTable.ConflictsAreCaughtIff | src/opcodes.rs:285-285 | what the decoder found stays found iff the row keeps its Mod R/M byte or held nothing else: the documented check for double definitions misses exactly the other case |
| OpcodeTable.GroupIsShadowed | src/opcodes.rs:313-317 | an instance: 0xFF /2 and then plain 0xFF is accepted and hides the group opcode |
| OpcodeTable.WholeIsWritten | src/opcodes.rs:320-329 | rows of the modelled table with one definition are what a definition writes into an empty cell |
| OpcodeTable.GroupGrows | src/opcodes.rs:320-332 | group rows grow by one entry a definition |
| Compare.ConditionCodes | src/ops.rs:447-468 | after cmp a, b of width 8, 16 or 32 the sixteen codes decide overflow, unsigned and signed order, equality, sign, parity and their negations as in Appendix B of the Intel SDM, volume 1 |
| Compare.CmpFlags | src/ops.rs:2238-2263 | carry, zero, parity, sign and overflow after cmp in terms of the exact unsigned and signed difference |
| Compare.AdcCarry | src/ops.rs:1299-1325 | the result of adc is the three-way sum; its carry is right iff not (CF set and destination all ones) |
| Compare.AdcLosesCarry | src/ops.rs:1299-1308 | an instance: 0xFF + 0 with CF set leaves no carry |
| Bcd.AddBytesIsDecimal | src/ops.rs:1219-1243 | for any length, folding adc then daa over packed BCD bytes gives packed BCD, and result plus 100^n times final CF is the exact decimal sum with the CF at the start |
| Bcd.AddByteIsDecimal | src/ops.rs:1219-1243 | one byte of that |
| Bcd.AdcThenDaa | src/ops.rs:1299-1308 | executing adc AL, source and daa is that byte step on AL, flags and nothing else, when the source does not overlap AL |
| Bcd.AdcOfPacked | src/ops.rs:1369-1377 | sum, carry and adjust of adc on packed bytes digit by digit |
| Rotate.RclTurnsRing | src/ops.rs:805-871 | rcl by a reduced count c is c single-bit turns of the ring of CF and operand, at widths 8, 16 and 32 |
| Rotate.RcrTurnsBack | src/ops.rs:873-935 | c turns to the left of what rcr leaves give operand and CF before it |
| Rotate.RcrUndoesRcl | src/ops.rs:805-935 | rcr undoes rcl: operand and CF come back |
| MulDiv.MulIsExact | src/ops.rs:559-612 | mul leaves the exact product in the register pair; CF and OF say whether it needs the upper half |
| MulDiv.DivIsExact | src/ops.rs:477-516 | div fails iff the divisor is at most the upper half of the pair, and otherwise leaves the quotient and the remainder |
| MulDiv.DivUndoesMul | src/ops.rs:477-612 | div after mul by the same operand gives the accumulator back and remainder 0 |
| Stack.PopAllUndoesPushAll | src/ops.rs:13-72 | popa after pusha restores all eight registers whatever the code between put into seven of them; only the 32 bytes below ESP have changed |
| Stack.PushAllStacks | src/ops.rs:13-35 | pusha leaves the eight registers, ESP as it was, in order on the stack |
| Stack.PopFlagsUndoesPushFlags | src/ops.rs:150-161 | popf after pushf restores all nine flags; only the 4 bytes below ESP have changed |
| Stack.RetResumesAfterCall | src/ops.rs:385-415 | a ret that finds the stack as call_rel or call_abs left it resumes after the call with ESP restored plus the bytes it releases; only the 4 bytes below ESP have changed |
| Stack.StoreThenLoad | src/memory.rs:125-150 | a stored dword is read back, and cells that share no byte with it read as before |
| Places.LoadIsLittleEndian | src/vm.rs:382-401 | a load of one, two or four bytes succeeds exactly when they are there, and gives their little-endian number |
| Places.StoreIsLittleEndian | src/vm.rs:402-424 | a store succeeds exactly in writable memory that is there, leaves the little-endian number and changes no other byte of any block |
| Places.RegisterReadsBack | src/vm.rs:333-381 | a register of any width reads back what was written, and no other byte of any register changes; 4 to 7 are the second bytes |
| Places.ReadsItsAddress | src/vm.rs:257-283 | an operand in memory reads the number at the address that lea computes for it |
| Places.StoresAtItsAddress | src/vm.rs:307-332 | a store to an operand in memory succeeds exactly if the address lea computes is writable and there and the value converts; the number modulo the width is then at that address and nothing else has changed |
| Places.StoresInRegister | src/vm.rs:315-317 | a store to a register operand changes the bytes it names and no others |
| Places.StoreThenRead | src/vm.rs:307-332 | whatever the operand, after a store it reads as the number stored and nothing but it has changed; a value of its width is refused only where the operand cannot be stored to |
| Places.NothingChanged | src/vm.rs:257-332 | if an operand reads as before and nothing else has changed, then no register and no byte of memory has |
| Places.EncodedOperandStored | src/vm.rs:321-328 | a store to an operand decoded from its encoding goes to base + index * scale + displacement, nowhere else, and reads back |
| Encoding.PrefixesAreFound | src/pipeline.rs:27-59 | the scan of the prefix bytes an assembler writes gives those prefixes: 66 is the size, F3 repe, F2 repne, 0F the second page |
| Encoding.ArgsDecode | src/decoding.rs:204-286 | the operands an instruction is assembled from are decoded in table order: register, suffix, Mod R/M, immediates and displacements at their own offsets |
| Encoding.DecodesInstruction | src/pipeline.rs:111-187 | decoding undoes assembling, for every table: the slot has the function of the entry that the opcode byte and the reg field select, the encoded operands, the length in bytes and the price of its tier with all surcharges; reading goes on behind it, or at the target of a direct jump, or stops |
| Encoding.DecodesRep | src/pipeline.rs:118-129 | the same behind a rep prefix: repe for F3, repne for F2, the opcode to repeat, the length and the price; filling stops there |
| OpcodeMap.ArithmeticBlock | src/opcodes.rs:598-947 | 8k + form is add, adc, sub or cmp for k = 0, 2, 5, 7: bit 0 is the width, bit 1 tells which operand is the register, 4 and 5 are accumulator and immediate |
| OpcodeMap.ArithmeticGroups | src/opcodes.rs:580-959 | 80, 81 and 83 with reg field k are the same operations with an immediate, of one byte for 83 |
| OpcodeMap.MovesRegMem | src/opcodes.rs:411-430 | 88 to 8B by their low two bits |
| OpcodeMap.MovesAbsolute | src/opcodes.rs:431-450 | A0 to A3: accumulator and absolute address, which goes to which by bit 1 |
| OpcodeMap.MovesImmediate | src/opcodes.rs:401-410 | B0 to BF: the low three bits are the register |
| OpcodeMap.MovesToRegMem | src/opcodes.rs:451-461 | C6, C7 and 8D (lea, src/opcodes.rs:1428) |
| OpcodeMap.StackRegisters | src/opcodes.rs:462-483 | 50 to 5F: push and pop of the register in the low three bits |
| OpcodeMap.StackOperands | src/opcodes.rs:466-490 | push of immediates, pop of a Mod R/M operand |
| OpcodeMap.StackAll | src/opcodes.rs:965-972 | 60 is pusha and 61 popa |
| OpcodeMap.StackFlags | src/opcodes.rs:1433-1438 | 9C is pushf and 9D popf |
| OpcodeMap.Conditions | src/opcodes.rs:534-543 | 70 to 7F and 0F 80 to 0F 8F are conditional jumps with displacements of a byte and of a word or dword |
| OpcodeMap.RelativeJumps | src/opcodes.rs:514-528 | EB is read through by the decoder, E3 is not |
| OpcodeMap.RelativeCalls | src/opcodes.rs:491-533 | E8 is read through by the decoder, E9 is not |
| OpcodeMap.IndirectJumps | src/opcodes.rs:474-523 | FF /2, /4 and /6 |
| OpcodeMap.Returns | src/opcodes.rs:504-513 | C2 with a word to release, C3 without |
| OpcodeMap.StringMoves | src/opcodes.rs:1534-1552 | A4 and A5 are movs; the other string opcodes have a lemma each |
| OpcodeMap.Rotates | src/opcodes.rs:750-805 | C0, D0, D2 with reg field 2 rotate left and with 3 right, by an immediate, by one, by CL |
| OpcodeMap.Products | src/opcodes.rs:838-856 | F6 and F7 with reg field 4 multiply and with 6 divide |
| OpcodeMap.Stops | src/opcodes.rs:397-400 | F4 is hlt, which the decoder stops at without a surcharge |
| OpcodeMap.Interrupts | src/opcodes.rs:1378-1388 | CC is int 3, CD int with an immediate |
| OpcodeMap.NoOps | src/opcodes.rs:388-396 | 90 and the lock prefix F0 are free and do nothing; 27 is daa |
| OpcodeMap.TiersInOrder | src/vm.rs:38-78 | the nine prices stand in the schedule in the order the tiers are declared |
| StringStops.RepListsAreTheTable | src/ops.rs:1911-1933 | the two lists of the rep loops are exactly the string opcodes of the table, and those of them that compare |
| Instructions.CmpDecides | src/ops.rs:1604-1637 | the executed cmp a, b succeeds, changes nothing but flags, and then every condition code holds iff its relation holds between a and the sign-extended b, in every width |
| Instructions.JumpsRelatively | src/ops.rs:417-429 | once the main loop has added the size, jmp has gone to the next instruction plus the signed displacement (cut to 16 bits before the size is added, with the size prefix) |
| Instructions.JumpsAbsolutely | src/ops.rs:431-438 | jmp to an operand goes to the number it reads as |
| Instructions.JumpsIf | src/ops.rs:470-475 | a conditional jump goes to that target if its condition code holds and does nothing otherwise |
| Instructions.JumpsIfEcxZero | src/ops.rs:440-445 | jecxz does so iff ECX is 0 |
| Instructions.CmpThenJump | src/ops.rs:470-475 | cmp a, b and then a conditional jump: execution goes on at the next instruction plus the signed displacement modulo 2^32 if the relation the code names holds between a and b, and at the next instruction otherwise |
| Instructions.CallsRelatively | src/ops.rs:400-406 | call goes where the jump would, with the return address pushed |
| Instructions.CallsAbsolutely | src/ops.rs:408-415 | call to an operand goes to what it reads as when the return address is on the stack |
| Instructions.ReturnsTo | src/ops.rs:385-398 | ret in both widths goes to the number on top of the stack, and ESP moves over it and over the bytes to release |
| Instructions.Interrupts | src/ops.rs:1844-1848 | int hands the byte in its operand, and the machine, to the hypervisor |
| Instructions.Adds | src/ops.rs:1369-1406 | the destination becomes the sum modulo the width, with all six flags stated in exact arithmetic and nothing else changed; it fails exactly where the destination cannot be stored to |
| Instructions.Subtracts | src/ops.rs:1456-1492 | the same for destination minus source |
| Instructions.AddsWithCarry | src/ops.rs:1299-1325 | the destination becomes destination + source + CF if storing to it does not change the source; the flags are those of adding the source to destination + CF |
| Instructions.AdcOfItself | src/ops.rs:1299-1325 | adc of an operand to itself takes the carry twice |
| Instructions.RotatesLeft | src/ops.rs:805-871 | the executed rcl: the ring of the new destination and CF is the old ring turned left by the count, nothing else but the overflow flag changes; a reduced count of 0 does nothing |
| Instructions.RotatesRight | src/ops.rs:873-935 | the executed rcr: what it leaves, turned left by the count, is what it found |
| Instructions.RotatesThereAndBack | src/ops.rs:805-935 | rcl and then rcr of one operand by one count give back every register, every byte of memory and every flag but overflow, for register and memory operands |
| Transfers.Moves | src/ops.rs:8-11 | mov: the first operand reads as the second did, cut to its width, and nothing else has changed |
| Transfers.LoadsAddress | src/ops.rs:1866-1875 | lea: the first operand reads as the address of the second |
| Transfers.Pushes | src/ops.rs:120-124 | push: it succeeds exactly if there is writable memory below ESP; ESP is there, the operand's number lies there, and nothing else has changed |
| Transfers.Pops | src/ops.rs:126-142 | pop: ESP moves up and then the operand, resolved with the new ESP, reads as what lay there |
| Transfers.MovesString | src/ops.rs:2014-2051 | movs in three widths and both directions: exactly when it succeeds, and that the element at EDI is then the one that was at ESI |
| Transfers.ComparesStrings | src/ops.rs:2060-2111 | cmps: every condition code then decides its relation between the element at ESI and the one at EDI |
| Transfers.ScansString | src/ops.rs:2136-2222 | scas: the same between the accumulator and the element at EDI |
| Transfers.StoresString | src/ops.rs:2113-2170 | stos: the element at EDI is then the accumulator |
| Transfers.LoadsString | src/ops.rs:2124-2193 | lods: the accumulator is then the element at ESI, in its width, and only ESI moves besides |
| Transfers.Multiplies | src/ops.rs:559-612 | mul: AH:AL, DX:AX or EDX:EAX hold the product of the accumulator and the operand, carry and overflow tell whether it needs the upper half, no other register byte changes |
| Transfers.Divides | src/ops.rs:477-516 | div: it fails exactly when the quotient would not fit, and otherwise leaves quotient and remainder of the pair in its halves |
| Assembled.StepRuns | src/vm.rs:429-456 | one step on the bytes of an instruction: the price is charged or the gas is gone, the function of its entry runs on its operands, eip moves past its bytes, an error records eip |
| Assembled.StoresRegister | src/ops.rs:8-11 | the bytes of mov [m], r: a step stores the register at base + index * scale + displacement and changes no other byte, iff the price can be paid and the address stored to |
| Assembled.StepAdds | src/ops.rs:1369-1406 | the bytes of add r/m, imm8 (83 /0): a step adds the signed byte to the operand and changes nothing else but flags, eip and gas |
| Assembled.ComparesAndJumps | src/ops.rs:470-475 | the bytes of cmp r/m, r and a conditional jump: two steps end at the target if the relation holds between operand and register, and behind the jump otherwise; only flags, eip and gas change |
| FlagBits.DeserializeSerialize | src/flags.rs:50-74 | all nine flags survive being stored and loaded |
| FlagBits.SerializeDeserialize | src/flags.rs:50-74 | of an arbitrary word loading and storing keeps the nine flag bits, sets bit 1 and clears the rest |
| FlagBits.X86Flags.CalculateParity | src/flags.rs:17-25 | parity is whether an even number of the low eight bits is set; no other flag changes |
| FlagBits.X86Flags.CalculateSign8 | src/flags.rs:26-32 | sign is the top bit of a byte; no other flag changes |
| FlagBits.X86Flags.CalculateSign16 | src/flags.rs:33-39 | the same for a word |
| FlagBits.X86Flags.CalculateSign32 | src/flags.rs:40-46 | the same for a dword |
| FlagBits.X86Flags.CalculateZero | src/flags.rs:47-49 | zero is whether the result is 0; no other flag changes |
| FlagBits.X86Flags.SerializeFlagStorage | src/flags.rs:50-63 | the ten set_bit calls build the word whose bits SerializedBits gives |
| FlagBits.X86Flags.DeserializeFlagStorage | src/flags.rs:64-74 | all nine flags come from their bits |
| FlagBits.SerializedBits | src/flags.rs:50-63 | which flag each bit of the stored word is, for every bit index |
| BitManip.GetAfterSet | src/bitmanip.rs:12-26 | setting bit i is read back at i and changes no other bit |
| BitManip.SetBitStaysInWord | src/bitmanip.rs:19-25 | setting a bit stays within the width |
| BitManip.SameBitsSameWord | src/bitmanip.rs:12-15 | a word is determined by the bits get_bit reads |
| BitManip.OnesAreTheSetBits | src/flags.rs:17-25 | the parity loop counts the set bits |
| Memory.MemorySystem.AddMemory | src/memory.rs:34-50 | unaligned and conflicting additions fail and change nothing; otherwise a block of that size appears, all zero but a first byte of 10, and other blocks are untouched; a size of 0 panics after inserting it |
| Memory.MemorySystem.SetBytes | src/memory.rs:90-97 | writes the bytes inside one block or fails with the source's error and address, leaving the map as it was |
| VMState.StoreAt | src/vm.rs:402-424 | a store keeps read-only blocks, the set of blocks and their lengths, eip and the other fields, and fails with an ordinary error |
| Memory.LowReadsAgree | src/memory.rs:67-89 | reads below 0x80000000 depend only on what no instruction changes |
| Memory.MemorySystem.constructor | src/memory.rs:26-29 | no blocks at first |
| FlagBits.X86Flags.constructor | src/flags.rs:3-14 | all flags clear at first |
| Execution.PrefixesActivated.constructor | src/pipeline.rs:20-25 | no prefixes at first |
| VirtualMachine.VM.constructor | src/vm.rs:11-27 | zero registers, clear flags, no memory and no gas at first |
| VirtualMachine.VM.SetReg32 | src/vm.rs:494-496 | a whole register and nothing else |
| VirtualMachine.VM.SetReg | src/vm.rs:359-381 | byte, high-byte, word and dword writes keep the other bits of the register and the other registers |
| VirtualMachine.VM.SetMem | src/vm.rs:402-424 | refuses addresses below 0x80000000 and otherwise stores the little-endian bytes or fails as the memory does |
| VirtualMachine.VM.SetArg | src/vm.rs:307-332 | zero-extension, truncation and error cases for every kind of location |
| VirtualMachine.VM.PushStack | src/vm.rs:215-224 | ESP moves before conversion and store, and stays moved when they fail |
| VirtualMachine.VM.PopStack | src/vm.rs:205-214 | ESP moves even when the read fails |
| OpcodeFunctions.Mov | src/ops.rs:8-11 | mov, with the error of either operand |
| OpcodeFunctions.Lea | src/ops.rs:1866-1875 | lea stores the address, truncated under the size prefix |
| OpcodeFunctions.PushOne | src/ops.rs:120-124 | push |
| OpcodeFunctions.PopOne | src/ops.rs:126-142 | pop resolves its destination after ESP has moved |
| OpcodeFunctions.Pusha | src/ops.rs:13-35 | pusha in both sizes, stopping at the first failing store |
| OpcodeFunctions.Popa | src/ops.rs:37-72 | popa in both sizes; registers are set only after all eight pops |
| OpcodeFunctions.Pushf | src/ops.rs:150-154 | pushf |
| OpcodeFunctions.Popf | src/ops.rs:156-161 | popf |
| OpcodeFunctions.SetFlags | src/ops.rs:2238-2263 | get_flags sets the six arithmetic flags and leaves trap, interrupt and direction |
| OpcodeFunctions.AddTo | src/ops.rs:1369-1406 | add in three widths; the flags are set even when the store fails |
| OpcodeFunctions.AddWithCarry | src/ops.rs:1299-1325 | adc stores the destination plus carry first and then adds |
| OpcodeFunctions.SubFrom | src/ops.rs:1456-1492 | sub in three widths |
| OpcodeFunctions.Compare | src/ops.rs:1604-1637 | cmp in three widths changes the flags only |
| OpcodeFunctions.DecimalAdjust | src/ops.rs:1219-1243 | daa on AL and the flags |
| OpcodeFunctions.RotateLeft | src/ops.rs:805-871 | rcl in three widths; a reduced count of 0 changes nothing |
| OpcodeFunctions.RotateRight | src/ops.rs:873-935 | rcr in three widths |
| OpcodeFunctions.Multiply | src/ops.rs:559-612 | mul in three widths |
| OpcodeFunctions.Divide | src/ops.rs:477-516 | div in three widths |
| OpcodeFunctions.JmpRel | src/ops.rs:417-429 | jmp relative, masked under the size prefix |
| OpcodeFunctions.JmpAbs | src/ops.rs:431-438 | jmp absolute |
| OpcodeFunctions.CallRel | src/ops.rs:400-406 | call relative: the return address is pushed before the jump is computed |
| OpcodeFunctions.CallAbs | src/ops.rs:408-415 | call absolute: the target is read again after the push |
| OpcodeFunctions.Return | src/ops.rs:385-398 | ret and ret imm16 |
| OpcodeFunctions.Jcc | src/ops.rs:470-475 | jumps iff the condition code holds |
| OpcodeFunctions.Jecxz | src/ops.rs:440-445 | jumps iff ECX is 0 |
| OpcodeFunctions.MoveString | src/ops.rs:2014-2051 | movs in three widths and both directions |
| OpcodeFunctions.CompareString | src/ops.rs:2060-2111 | cmps in three widths and both directions |
| OpcodeFunctions.StoreString | src/ops.rs:2113-2170 | stos in three widths and both directions |
| OpcodeFunctions.LoadString | src/ops.rs:2124-2193 | lods in three widths and both directions |
| OpcodeFunctions.ScanString | src/ops.rs:2136-2222 | scas in three widths and both directions |
| OpcodeFunctions.DecrementRegW | src/ops.rs:1943-1954 | ECX or CX less one, wrapping, with the upper half of ECX kept |
| OpcodeFunctions.Undefined | src/opcodes.rs:117-119 | an undefined opcode reports the byte at eip, or the error of reading it |
| OpcodeFunctions.Call | src/ops.rs:1844-1848 | hlt raises the stop escape, an interrupt hands the whole machine to the hypervisor, everything else works on the cpu alone |
| OpcodeFunctions.Function | src/vm.rs:445-445 | calling a slot's function pointer, rep loops included, has the meaning of Exec on the old state |

## Left out

- Programs.PipelineSizeDoesNotMatter: states that breaking runs break with every length, not that they report the same error, because a failing fill aborts the cycle before earlier slots run; runs that are not fresh are excluded, as they may differ.
- Programs.CycleRefinesSteps: assumes `FreshCycle`, without which a cycle need not be steps.
- Execution.Execute: takes a ghost number of cycles after which the run has ended, because the Rust loop need not terminate; `ExecuteToTheEnd` needs none.
- Execution.FillPipeline: says nothing of what the array holds after a failing fill; execute returns then, and the array is its own.
- Fuel.RefuelledExecutionHalts: assumes that the interrupted instruction is still fetched as it was, as do the other results on going on; `ResumeDiffersHere` shows why.
- Crossing.CrossingAgreesIff: is about a landing that ends the fill or sits in the last cell, and is neither rep nor interrupt.
- LongCrossing.CycleAgreesIff: leaves out cycles that end in OutOfGas, which may agree by chance when one instruction cannot be paid for at either price, cycles with a rep or an interrupt, and code overwritten within the cycle, for which `StaleCells` has an instance.
- LongCrossing.SavedSurchargeShows: leaves out runs that halt with no gas at all, where the last rep may have swallowed the difference.
- Stack.PopAllUndoesPushAll: is about the 32-bit forms without the size prefix.
- X86.PlainOpsQuiet: covers the opcode functions of the modelled table.
- Rotate.RclTurnsRing: is about the reduced count; for bytes and words the code reduces counts modulo 8 and 16, not modulo 9 and 17 as the architecture does.
- Decoding.DecodeArgsWithModRM: returns the argument array instead of writing through a borrowed slice, so what a failing decode leaves half written is not modelled.
- Opcodes.Lookup: the table is a subset: mov, lea, push, pop, pusha, popa, pushf, popf, add, adc, sub, cmp, daa, rcl, rcr, mul, div, jumps, calls, ret, string opcodes, nop, lock, hlt, int, cld, std. All other bytes decode to the undefined opcode.
- `enter` advances eip itself although the table marks it as plain (src/ops.rs:74-108), so it would break the refinement; it is undefined here.
- Prefix 0x67 and opcode 0F FF panic in the original; both are the error `Panicked` here.
- Hypervisor implementations, `Display`, diagnostics and benchmarks.
- The bitwise opcodes, shifts, rol, ror, bit tests, imul, idiv, sbb, neg, inc, dec, xchg, setcc, cmovcc, movsx and movzx: they follow the patterns of the modelled ones. Several of them differ from the architecture (`test` writes its destination, the carry of 16-bit `shl`, the dividend of 32-bit `idiv`, `cwde` at 0x8000, `sahf`), so that conformance could not be claimed for them.
- The `with_rm8`-style shorthands of the opcode builder, which only call `with_arg`.
- `get_bit_big_endian`, which nothing in the modelled code calls.
- `cycle` and `execute` are methods beside the VM class instead of in it, as modules cannot depend on each other in a circle.
