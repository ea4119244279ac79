# WUT-4 verification

Dafny models of the WUT-4, a 16-bit hobby computer, and of the tools around it, with
proofs of what those tools are for:

- **The emulator** (`Words`, `Isa`, `AluBits`, `Emulator`, `MachineRuns`, `Witnesses`,
  `Instructions`, `SpecialRegisters`, `Traps`, `UserIsolation`, `ByteMemory`).  The emulator runs each instruction through five stages that share
  mutable state.  `Isa.Step` gives the meaning of a whole machine cycle in one
  transition, and the class `Emulator.Machine` is proved to perform exactly that
  transition whatever its pipeline registers hold on entry.  On top of it: the laws that
  every assembled instruction obeys when it is run, where an exception takes the machine,
  precise exceptions, what every run from reset keeps, exactly when the emulator itself fails,
  that an exception and its return compose to the identity on the interrupted program,
  that user mode neither depends on nor changes anything of the kernel's, and that word
  memory behaves as a flat little-endian byte array.
- **The assembler and disassembler** (`Assembler`, `Encoding`, `Disassembler`, `RoundTrip`,
  `TextRoundTrip`, `Aliases`).  The law of the instruction test framework, that reassembling a
  disassembly gives back the binary, with its exact condition for all binaries and for
  all assembler output; the text that comes back for every line; and what the multi-word
  aliases do when the machine runs them.
- **The Nano firmware and its host** (`SerialRing`, `Reversal`, `Nano`, `Firmware`,
  `NanoRuns`, `PollProgress`, `Protocol`, `HostLink`).  The serial task over its ring buffers refines a transition on
  queues; over every run no byte is lost, reordered or made up and every reply is its
  command's, panics happen in exactly three ways, replies get out however few bytes at a
  time the line takes, and host and Nano stay in lockstep however their steps are
  interleaved, every transaction ending and the host giving up exactly on a bad register id.
- **The circuit simulator** (`Circuit`, `Settling`, `Synchronous`).  Recursive evaluation with
  memory agrees with evaluation without it; a simulated cycle is the synchronous next
  state whatever the order of the component lists; a network can be evaluated if and
  only if it has no feedback.
- **The YAPL-1 symbol table and lexer** (`Symbols`, `SymbolTable`, `Lexing`, `Lexer`).
  Interning over packed arrays, and the token stream of a whole input.

Integers are unbounded in Dafny, so 16-bit wrap-around, the 64-bit and 32-bit cycle
counters and the 8-bit mode byte are written out.  Clocks, the serial line, the log and
the hardware registers are inputs.  Nothing here executes the original programs.

## Where the code departs from its documentation

The models follow the code.

- An unaligned word access raises the memory exception (18), not a separate alignment
  exception.
- The assembler's `sxt` and `swb` run as each other's operation (`SxtAndSwbExchanged`).
- The carry of a three-operand instruction is lost, so `add` then `adc` is a double-word
  sum only without a carry (`DoubleWordSum`).
- The address one past the end of physical memory passes the translation check, a kernel
  read of special registers 24 and 26 to 30 reaches an assertion, `rti` with a mode byte
  above 1 indexes past the register files, and `brk` prints memory that may not be there:
  these stop the emulator itself (`StepDeath`), each within four instructions from
  power-up (`Witnesses`).
- A store to special register 16 changes the user's r0, which otherwise stays 0
  (`UserZero`, `UserZeroKept`, `SpoilsUserZero`).
- The disassembler's table misnames `y05` and gives `y06` no operands, and it joins a
  `lui` of one register with an `lli` of another into one `ldi` (`AccidentalLoad`).
- The firmware refuses a register id above 15 and then serves the command all the same: a
  refused id does not end the session (`RefusedExactly`), the host gives up with the rest
  of the reply still on its way (`ReceiveKeeps`), and a refused get that finds room for two
  bytes only stops the firmware (`BadGetStops`).
- A register that is enabled and depends on its own output passes every check and is never
  evaluated (`BuildLoops`), although registers are meant to break cycles.
- A string longer than 16 bytes is entered but never found, so every entry of it makes a
  symbol of its own (`SameIndexSameKey`).

## Model

| member | source | states |
|---|---|---|
| `Words.BitwiseBit` | emul/exec.go:461-472 | each of the n bits of a computed and-not, or, exclusive-or is that boolean of the operands' bits, and no higher bit is set |
| `Isa.FieldBits` | emul/util.go:31-33 | the octal digits the model decodes with are the bit ranges the emulator extracts |
| `Isa.ImmediateBits` | emul/util.go:31-33 | opcode, 7-bit and 10-bit immediate are bits 15-13, 12-6 and 12-3 of the word |
| `Isa.DigitsUnique` | emul/util.go:31-33 | a word is built from its digits in only one way, which makes every instruction format invertible |
| `Emulator.StagedIsExec` | emul/exec.go:82-288 | executing, accessing memory and writing back in three stages, each suppressed by an earlier exception, is the one-step meaning of the instruction |
| `Emulator.Recognize` | emul/exec.go:68-72 | testing for leading ones, longest first, recognizes exactly the words that decode to each extended group |
| `Emulator.OneOperand` | emul/exec.go:520-559 | the method computes the one-operand results and the hidden carry; `AluBits.Alu1Bits` says what those are |
| `AluBits.Alu1Bits` | emul/exec.go:520-559 | bit by bit, the one-operand instructions complement, exchange bytes, extend the sign of the low byte and shift, and negation gives what adds up to 0 |
| `Emulator.MaskedCycles` | emul/exec.go:194-195 | masking bits 16 to 31 of the counter and shifting gives its second word |
| `Emulator.Machine.constructor` | emul/emul.go:115-121 | a powered-up machine: registers zero, kernel mode, nothing pending, memory as loaded |
| `Emulator.Machine.TranslateAddress` | emul/util.go:54-74 | the page register of the current mode gives the physical word or a memory fault |
| `Emulator.Machine.FetchStage` | emul/exec.go:21-47 | a pending exception becomes a kernel entry, then the word there is fetched, or the fetch faults; `Traps.TrapEntry` says where the kernel is entered |
| `Emulator.Machine.DecodeStage` | emul/exec.go:54-77 | the decoder's signals describe the instruction that the word decodes to |
| `Emulator.Machine.ExecuteBase` | emul/exec.go:361-407 | base instructions leave the effect and address of the instruction set, whose laws are in `Instructions` and `Aliases.Branches` |
| `Emulator.Machine.JumpAndLink` | emul/exec.go:409-435 | system calls, linked and plain jumps, and everything else illegal |
| `Emulator.Machine.ExecuteAlu3` | emul/exec.go:439-476 | the seven three-operand results, whose laws `Instructions.ThreeOperand` states, the hidden carry always ending at 0 |
| `Emulator.Machine.ExecuteYop` | emul/exec.go:480-516 | special-register and I/O operations pass address and data on; the rest are illegal |
| `Emulator.Machine.ExecuteAlu1` | emul/exec.go:520-559 | one-operand result and hidden carry |
| `Emulator.Machine.Dump` | emul/emul.go:270-340 | printing the rows around the program counter and at data address 0 indexes past memory if and only if the next instruction cannot be fetched or data address 0 is just past the end |
| `Emulator.Machine.ExecuteVop` | emul/exec.go:563-634 | return, link return, interrupt enables, halt, breakpoint, and the user-mode refusals |
| `Emulator.Machine.ExecuteStage` | emul/exec.go:82-103 | nothing after an exception; otherwise the effect of the right group |
| `Emulator.Machine.AccessData` | emul/exec.go:120-160 | loads deliver and stores change the addressed word or byte; faults, unaligned words and the end of memory |
| `Emulator.Machine.LoadSpecial` | emul/exec.go:179-228 | the value, exception or failure of reading each special register in each mode |
| `Emulator.Machine.StoreSpecial` | emul/exec.go:235-262 | which register of which mode a special store changes, or the exception |
| `Emulator.Machine.MemoryStage` | emul/exec.go:109-174 | nothing after an exception; otherwise the memory effect and the value to write back |
| `Emulator.Machine.WritebackStage` | emul/exec.go:270-288 | only the instruction's own target register changes, never r0 and never after an exception |
| `Emulator.Machine.Cycle` | emul/exec.go:21-288 | refinement: from any leftover pipeline contents, the five stages perform exactly one step of the instruction set, or die as it says |
| `Emulator.Machine.Simulate` | emul/emul.go:180-212 | the loop of cycles ends where the run of single steps ends, with the cycle counter and the double-fault break as in the code |
| `Emulator.RunSettled` | emul/emul.go:198-212 | a run that has halted, double-faulted or died stays so |
| `MachineRuns.PreciseException` | emul/exec.go:21-47 | a cycle that ends with an exception pending changed nothing since kernel entry but the program counter, and not even that if the fetch faulted |
| `MachineRuns.RunInv` | emul/emul.go:180-212 | for every run from power-up: user mode has exceptions enabled, only real exceptions are pending, the carry is a bit, kernel r0 is 0, double faults strike only the kernel and are never found by fetch |
| `MachineRuns.PowerUp` | emul/emul.go:115-212 | constructing, resetting and simulating the machine for any time ends where the run of single steps from the boot state ends, with the invariant of every run |
| `MachineRuns.StepDeath` | emul/exec.go:21-288 | exactly when, told before the cycle, the emulator itself dies, and of what |
| `MachineRuns.ExecDeath` | emul/exec.go:109-228 | the same for one instruction, breakpoints included: it dies of the stated cause if and only if the registers it names say so |
| `MachineRuns.UserZero` | emul/exec.go:246-250 | over any run the user's r0 is what the kernel last stored in special register 16, or what it held at the start |
| `MachineRuns.UserZeroKept` | emul/exec.go:246-250 | from power-up the user's r0 is 0 after every turn if and only if every store to special register 16 is of 0 |
| `Witnesses.SpoilsUserZero` | emul/exec.go:246-250 | a program of three instructions after which the user's r0 is any chosen value below 64 |
| `Witnesses.DiesOfMissingSpr` | emul/exec.go:208-228 | a program of three instructions that reads a special register with no case |
| `Witnesses.DiesOfBadMode` | emul/exec.go:563-580 | a program of four instructions that returns to a mode that is neither kernel nor user |
| `Witnesses.DiesBeyondMemory` | emul/util.go:67-73 | a program of four instructions that loads the word just past physical memory |
| `Witnesses.DiesInDump` | emul/exec.go:613-621 | a program of four instructions whose breakpoint dumps past physical memory |
| `Traps.RunKeepsFrame` | emul/exec.go:22-35 | any number of kernel cycles that raise nothing and spare the return and mode registers keep the return frame |
| `Traps.RtiReturns` | emul/exec.go:563-580 | with the frame intact, rti resumes at its address in its mode with exceptions enabled |
| `Traps.TrapRoundTrip` | emul/exec.go:22-35 | exception, any such handler, rti: the interrupted program continues at its program counter, in its mode, with its registers if the handler spared them |
| `Traps.TrapEntry` | emul/exec.go:22-47 | an exception pending with exceptions on runs the kernel code at the address of its own number, with cause, address and mode recorded and exceptions off |
| `Traps.SystemCallEnters` | emul/exec.go:22-47 | running sys v with exceptions on runs the instruction at kernel address v and leaves the program counter at v + 1, knowing who called |
| `Traps.EnablesDecide` | emul/exec.go:586-602 | after di the next exception is a double fault and ends the run, after ei it is pending to be taken |
| `Traps.HaltEnds` | emul/exec.go:604-611 | hlt ends the run, however long it is left to go on |
| `Traps.EmptyMemoryStops` | emul/util.go:77-90 | exceptions are off after a reset, so empty memory double-faults at once |
| `SpecialRegisters.ReadableExactly` | emul/exec.go:179-228 | which special registers each mode may read, which reads are illegal, and that the unused ones are 0 |
| `SpecialRegisters.StoreThenRead` | emul/exec.go:179-262 | what is stored in a special register the mode may store to is read back and no other reads differently; any other store is illegal |
| `SpecialRegisters.UserRegisters` | emul/exec.go:205-212 | special registers 16 to 23 are the user's general registers and 25 the user's link, both ways |
| `SpecialRegisters.SspThenLsp` | emul/exec.go:480-502 | running ssp and lsp of one special register carries a value from one general register to another |
| `SpecialRegisters.ReadsCounters` | emul/exec.go:182-195 | running lsp of the program counter, link and cycle counter gives the next address, the link and the two low words of the counter |
| `SpecialRegisters.TurnCounts` | emul/emul.go:198-208 | every turn counts one cycle except one that ends in a double fault |
| `SpecialRegisters.CountsTurns` | emul/emul.go:198-208 | from power-up the counter is one more than the turns made |
| `SpecialRegisters.FetchesCode` | emul/util.go:54-74 | the word fetched is the one at the offset of the program counter in the page that the code page register names, with the exact faults |
| `SpecialRegisters.MapsPage` | emul/exec.go:254-261 | a kernel store to a page register remaps that page and no other, of the mode the control register chooses |
| `UserIsolation.TranslateMapped` | emul/util.go:54-74 | every translated address lies in a page that the mode's own page registers name |
| `UserIsolation.NonInterference` | emul/exec.go:109-262 | machines that agree on the user's registers, page registers and mapped memory run user stretches of any length to agreeing states or the same death |
| `UserIsolation.KernelUntouched` | emul/exec.go:235-262 | a user stretch of any length changes no kernel register, no page register and no memory outside the user's data pages |
| `ByteMemory.ReadBytes` | emul/exec.go:120-160 | word and byte loads read a little-endian byte array at the physical byte address, with the exact fault conditions |
| `ByteMemory.WriteBytes` | emul/exec.go:120-160 | a store changes the bytes of its width at its physical byte address and no other byte |
| `ByteMemory.RunBytes` | emul/exec.go:109-174 | after any run each physical byte is the one last stored there, or the initial one |
| `ByteMemory.LoadsReturnLastStores` | emul/exec.go:120-160 | after any run, a load that reaches memory delivers the bytes last stored, through whatever page |
| `Disassembler.RowMatches` | dsm/dsm.go:65-112 | every one of the 65536 opcodes is claimed by exactly one row of the key table |
| `Disassembler.TopBitsShift` | dsm/dsm.go:334-347 | the compared top bits are the word shifted right, as under the table's masks |
| `Disassembler.Decode` | dsm/dsm.go:334-388 | the search always finds the one matching row and renders the word under it |
| `Disassembler.Condense` | dsm/dsm.go:254-332 | the peephole rewrites its own line and blanks the line before exactly when the pair fuses |
| `Disassembler.LineStep` | dsm/dsm.go:228-252 | after each position the listing is final behind the peephole and first-pass ahead of it |
| `Disassembler.Disassemble` | dsm/dsm.go:184-226 | the listing stops at the first zero word or 64k, and each line is the final line of its position |
| `RoundTrip.DecodedReassembles` | dsm/dsm.go:334-388 | first-pass text of any word assembles back to it, except y05, y06 and jlr, for which the result is stated |
| `RoundTrip.PlainReassembles` | dsm/dsm.go:254-332 | a finished line for one word assembles to that word if and only if the word is not y05 or y06 and its jlr, if it is one, has a spelling |
| `RoundTrip.FusedReassembles` | dsm/dsm.go:254-332 | a fused line assembles to both its words if and only if they name the same register, not r0 for a jump |
| `RoundTrip.ListingReassembles` | dsm/dsm.go:184-252 | from every position that splits no pair the rest of the listing assembles to as many words, and to the same words if and only if every position is in order |
| `RoundTrip.TestRoundTrip` | itf/itf.go:34-80 | disassembling and reassembling reproduces a binary if and only if it fits the code bank, has no zero word and every position is in order |
| `RoundTrip.LineWellJumped` | asm/asm:209-285 | the assembler emits jlr only in forms that have a spelling or complete a pair |
| `RoundTrip.EmittedWellJumped` | asm/asm:209-285 | so does every program |
| `RoundTrip.AssembledRoundTrips` | README.md:21-25 | for every binary the assembler can emit, however it fills negative six-bit immediates, the round trip holds if and only if there is no zero word, y05, y06 or lui before a self-adi on another register |
| `RoundTrip.AccidentalLoad` | dsm/dsm.go:263-271 | programs, one for every pair of registers and immediates, that assemble and do not survive the round trip |
| `TextRoundTrip.LineText` | dsm/dsm.go:254-388 | every line that assembles to one word, not standing after a lui, is printed as it was written, in the stated preferred spelling |
| `TextRoundTrip.PairText` | dsm/dsm.go:254-332 | an ldi, or a jsr or jmp to a target, is printed as that one line |
| `TextRoundTrip.UnspelledText` | dsm/dsm.go:284-322 | jlr words that no line spells are printed as die if illegal and as jlr otherwise |
| `Encoding.RriDecodes` | asm/asm:132-143 | the machine decodes an assembled load, store, beq or adi to the same registers and sign-extended immediate, except the all-zero word |
| `Encoding.UpperDecodes` | asm/asm:143 | the machine decodes an assembled lui to its immediate shifted by six |
| `Encoding.JlrDecodes` | asm/asm:232-267 | the machine decodes an assembled jsr, jmp or sys word to its flavour, register and offset |
| `Encoding.RrrDecodes` | asm/asm:152-161 | and a three-register instruction to its operation and registers |
| `Encoding.RrDecodes` | asm/asm:165-174 | and a two-register instruction |
| `Encoding.R1Decodes` | asm/asm:178-187 | and a one-register instruction |
| `Encoding.R0Decodes` | asm/asm:195-205 | and an instruction without operands |
| `Instructions.ThreeOperand` | emul/exec.go:439-476 | running add, adc, sub, sbb, bic, bis or xor gives rA, and nothing else, the value that undoes to rC by rB and the carry, or that has the stated bits of both |
| `Instructions.OneOperand` | emul/exec.go:520-559 | running not, neg, sxt, swb, lsr, lsl or asr gives its register, and nothing else, the stated bits or the value that undoes to its own, with the carry shifted out |
| `Instructions.AddImmediate` | emul/exec.go:400-403 | running adi adds its immediate, read with its sign, to rB in rA |
| `Instructions.LoadUpper` | emul/exec.go:405-407 | running lui loads its immediate times 64 |
| `Instructions.LoadShort` | asm/asm:209-228 | running lli adds and lsi loads a positive immediate |
| `Instructions.DoNothing` | asm/asm:230 | running nop moves on and clears the hidden carry |
| `Instructions.Load` | emul/exec.go:109-174 | running ldw or ldb delivers to rA the little-endian bytes at the physical address of rB plus a signed offset, with the exact faults |
| `Instructions.Store` | emul/exec.go:109-174 | running stw or stb changes exactly those bytes to those of rA |
| `Instructions.JumpThrough` | emul/exec.go:409-435 | running jsr or jmp through a register goes to its value, jsr alone setting the link |
| `Instructions.SystemCall` | emul/exec.go:409-427 | running sys raises its own number, those below 32 being illegal |
| `Instructions.UnspelledJump` | emul/exec.go:409-435 | jlr words that no line spells as sys, jsr or jmp are illegal |
| `Instructions.ZeroWord` | emul/exec.go:361-367 | the zero word is illegal |
| `Instructions.NoOperand` | emul/exec.go:582-634 | running rtl goes to the link, di, ei and hlt switch their flags, brk dies or moves on, each in which mode, and the rest are illegal |
| `Instructions.NoDevices` | emul/exec.go:480-516 | running lio gives 0, sio does nothing and y04 to y06 are illegal |
| `Aliases.LdiLoads` | asm/asm:216-222 | running ldi puts exactly its 16-bit operand in its register and changes nothing else |
| `Aliases.JsrArrives` | asm/asm:241-247 | running jsr arrives at exactly its target with the link past the pair |
| `Aliases.JmpArrives` | asm/asm:255-261 | running jmp arrives at exactly its target and links nothing |
| `Aliases.BranchArrives` | asm/asm:138-141 | a taken beq reaches the target it was assembled for if and only if that is within -64 to 63 words of the next instruction |
| `Aliases.Branches` | emul/exec.go:392-398 | a beq changes nothing but the program counter: with different registers it moves on, with equal ones it goes to its target if and only if that is in range |
| `Aliases.CallReturns` | emul/exec.go:582-584 | after a jsr, an rtl that finds the link intact resumes past the pair |
| `Aliases.SpecialAliases` | asm/asm:269-283 | what running ior, iow, srr and srw does to both registers and the special register they reach |
| `Aliases.Reach` | asm/asm:138-141 | the truncated distance, sign-extended and added with wrap-around, is the target under the same condition |
| `Aliases.SxtAndSwbExchanged` | emul/exec.go:531-540 | what the assembler's sxt and swb compute; they agree only on 0 and 0xFFFF |
| `Aliases.DoubleWordSum` | emul/exec.go:445-460 | add then adc gives the high word of a double-word sum if and only if the low words do not carry |
| `SerialRing.Ring.constructor` | exer/fw/serial_task.h:44-57 | a new ring is empty |
| `SerialRing.Ring.Len` | exer/fw/serial_task.h:59-66 | the number of bytes queued, wherever the ring has wrapped |
| `SerialRing.Ring.Avail` | exer/fw/serial_task.h:68-76 | the bytes that still fit, one slot being kept free |
| `SerialRing.Ring.IsFull` | exer/fw/serial_task.h:128-131 | full exactly at fifteen bytes |
| `SerialRing.Ring.Consume` | exer/fw/serial_task.h:79-92 | drops the n oldest bytes |
| `SerialRing.Ring.Peek` | exer/fw/serial_task.h:95-100 | the oldest byte |
| `SerialRing.Ring.Copy` | exer/fw/serial_task.h:113-125 | up to max of the oldest bytes, in order |
| `SerialRing.Ring.Put` | exer/fw/serial_task.h:134-140 | appends, leaving the queued bytes as they are |
| `Reversal.ReverseBits` | exer/fw/port_utils.h:172-209 | each of the 256 entries of the table is its index with the bits in opposite order |
| `Reversal.ReverseTwice` | exer/fw/port_utils.h:172-209 | looking a byte up twice gives it back |
| `Nano.TableRow` | exer/fw/serial_task.h:462-502 | the jump table gives every command byte the handler and length of the protocol |
| `Nano.StepInv` | exer/fw/serial_task.h:543-574 | every call on any bytes keeps the rings within bounds, nothing queued outside a session, and a poll reply in progress exactly while some of it is unsent |
| `Firmware.Device.CanSend` | exer/fw/serial_task.h:191-193 | more than n bytes fit in the transmit ring |
| `Firmware.Device.Send` | exer/fw/serial_task.h:186-189 | queues a byte, or panics 7 exactly when the ring is full |
| `Firmware.Device.SendAck` | exer/fw/serial_task.h:203-208 | queues the complement of the command |
| `Firmware.Device.StateUnsync` | exer/fw/serial_task.h:168-175 | both rings emptied and the session closed, from any state; the poll buffer is left as it was, in order if and only if no reply was in progress |
| `Firmware.Device.StBadCmd` | exer/fw/serial_task.h:306-322 | refuses as the transition says: a NAK first, a reset on the next call, panic 0xC without room |
| `Firmware.Device.AllocPollBuffer` | exer/fw/serial_task.h:255-266 | the log message becomes the pending reply |
| `Firmware.Device.FreePollBuffer` | exer/fw/serial_task.h:268-278 | nothing pending or in progress |
| `Firmware.Device.PollResponseInProgress` | exer/fw/serial_task.h:354-365 | moves as much of the pending reply as fits with one byte to spare, in order, and frees the buffer when none is left |
| `Firmware.Device.StSync` | exer/fw/serial_task.h:334-339 | consumes the command and queues exactly its reply |
| `Firmware.Device.StGetVer` | exer/fw/serial_task.h:343-348 | consumes the command and queues exactly its reply |
| `Firmware.Device.StPoll` | exer/fw/serial_task.h:368-383 | acknowledges with the length of the log message, or 0, and starts sending it |
| `Firmware.Device.StPulse` | exer/fw/serial_task.h:392-407 | consumes three bytes, refuses a bad id, toggles the output as often as asked and acknowledges in any case |
| `Firmware.Device.StSet` | exer/fw/serial_task.h:413-430 | consumes three bytes, refuses a bad id, acts as `Protocol.HardwareTouched` says a set does, and acknowledges in any case |
| `Firmware.Device.StGet` | exer/fw/serial_task.h:435-450 | consumes two bytes, reads the register and replies with it, reversed for the reversed get |
| `Firmware.Device.ProcessByte` | exer/fw/serial_task.h:518-533 | dispatching through the table is the transition on the byte at the head of the receive queue |
| `Firmware.Device.WriteOut` | exer/fw/serial_task.h:544-549 | writes the oldest queued bytes as far as the line takes them; a failed write is panic 9 |
| `Firmware.Device.ReadIn` | exer/fw/serial_task.h:551-553 | takes offered bytes in order until the ring is full |
| `Firmware.Device.Handle` | exer/fw/serial_task.h:555-573 | continues a poll reply, or reacts to the next byte as the session demands |
| `Firmware.Device.SerialTask` | exer/fw/serial_task.h:543-574 | refinement: one call performs exactly one transition on queues, with the same bytes written and taken, the same panics, and the hardware touched as the command handled says |
| `Firmware.Device.SerialReset` | exer/fw/serial_task.h:280-286 | from any state, the empty closed session |
| `Firmware.RunTask` | exer/fw/serial_task.h:543-599 | calls without number go where the run on queues goes, with the same bytes, and touch the hardware exactly as the commands handled say, in order |
| `Firmware.ServeStream` | exer/fw/serial_task.h:543-599 | the firmware from its start on a synchronising byte and protocol commands: it stops if and only if a call meets a refused get with two bytes of room, with good ids never, and until then every byte taken is accounted for and answered |
| `NanoRuns.PanicsExactly` | exer/fw/serial_task.h:186-216 | a call panics if and only if the line fails, a refused byte finds the ring all but full, or a get of a bad id overruns it; and with which code |
| `NanoRuns.SessionAccounts` | exer/fw/serial_task.h:543-574 | from a reset or an open session, whatever arrives in whatever pieces, as long as nothing is refused the bytes taken are the commands handled then those waiting, the bytes written, queued or pending are their replies, and each reply is the one for its command and the call that handled it |
| `NanoRuns.SessionOpens` | exer/fw/serial_task.h:560-573 | a synchronising byte takes the reset to a session just opened, its acknowledgement written |
| `NanoRuns.ValidSession` | exer/fw/serial_task.h:518-574 | for a stream of protocol commands with any ids in pieces of any size, from the reset and the synchronising byte on: the session lasts if and only if no call meets a refused get with two bytes of room, which good ids rule out; and while it lasts everything is accounted for as above |
| `NanoRuns.ValidStep` | exer/fw/serial_task.h:518-533 | a call that finds only protocol commands stays in the session if and only if it does not meet a refused get with two bytes of room |
| `NanoRuns.StaysExactly` | exer/fw/serial_task.h:518-574 | a call that does not panic leaves the session if and only if it comes upon a byte that is no protocol command |
| `NanoRuns.RefusedId` | exer/fw/serial_task.h:392-450 | a reply starts with a refusal if and only if the id is bad, and goes on with the acknowledgement all the same |
| `NanoRuns.RefusedExactly` | exer/fw/serial_task.h:392-450 | a bad id is refused and served and does not end the session; only an undefined byte does, and only a refused get without room panics |
| `NanoRuns.BadGetStops` | exer/fw/serial_task.h:435-450 | a run of two calls on protocol commands that stops the firmware if and only if the id is above 15 |
| `NanoRuns.BadByteRefused` | exer/fw/serial_task.h:306-322 | an undefined byte is answered with a NAK, not consumed, and closes the session |
| `NanoRuns.RefusalEndsSession` | exer/fw/serial_task.h:306-322 | the call after a refusal throws everything away and waits for a new session |
| `NanoRuns.CommandHandled` | exer/fw/serial_task.h:518-533 | a whole protocol command is handled, consuming exactly its bytes, if and only if there is room for a fixed reply; otherwise nothing changes |
| `PollProgress.PollStep` | exer/fw/serial_task.h:354-365 | whatever the line takes, a call moves exactly as much of the pending reply as there is room for, in order, with nothing lost and nothing else handled |
| `PollProgress.PollRun` | exer/fw/serial_task.h:354-365 | over any calls, whatever the line takes in each, the reply comes out in order and is in progress if and only if more than fourteen bytes of it are left unwritten |
| `PollProgress.PollCompletes` | exer/fw/serial_task.h:354-365 | with a byte or more taken in every call a reply of any length completes, within a stated number of calls |
| `Protocol.AckInverts` | exer/fw/serial_task.h:203-208 | an acknowledgement is the command with every bit inverted |
| `Protocol.HardwareTouched` | exer/fw/serial_task.h:392-450 | a pulse toggles its output as often as its count says, a set makes one write of its data, bit-reversed for the reversed set, and a get one read, all at the id that is checked; no other command touches the hardware |
| `Protocol.Replied` | exer/fw/serial_task.h:334-450 | each reply byte by byte: acknowledgement, version, message length and message, or the register, bit-reversed for the reversed get |
| `Protocol.WritesAndTakesAll` | exer/fw/serial_task.h:544-553 | a call writes until the line takes no more or nothing is queued, and takes until nothing is offered or the ring is full |
| `HostLink.DoFixedCommand` | exer/cex/dev/nano.go:199-233 | which result or error the host reports for every command, expectation and incoming bytes, what it has sent and how much it has read |
| `HostLink.DoCountedReceive` | exer/cex/dev/nano.go:264-285 | succeeds if and only if the acknowledgement, the count and that many bytes arrive, returns exactly those, and otherwise which error after how many bytes |
| `HostLink.FireKeeps` | exer/cex/dev/nano.go:199-285 | every step of host, wires or Nano, for commands with any ids, keeps the lockstep and causes no panic |
| `HostLink.AlwaysLockstep` | exer/cex/dev/nano.go:199-285 | however commands with any ids, calls and reads are interleaved, the Nano never panics, every byte underway belongs to the current command, and what is underway is its reply |
| `HostLink.ReceiveKeeps` | exer/cex/dev/nano.go:168-177 | the host gives up if and only if the id is bad, and then with the rest of the reply still underway |
| `HostLink.CompleteTransaction` | exer/cex/dev/nano.go:199-285 | once the Nano has answered, the host accepts the answer if and only if the id is good, with no byte missing or left over; of the answer to a bad id it reads the refusal and leaves a whole reply |
| `HostLink.ReplyComes` | exer/fw/serial_task.h:543-574 | no deadlock: while the host waits, two calls in which the line takes a byte put the next reply byte on the wire |
| `HostLink.TransactionEnds` | exer/cex/dev/nano.go:199-285 | every transaction ends: after as many rounds as the longest reply has bytes the host has all of it and both wires and rings are empty, or, if and only if the id is bad, has given up |
| `Circuit.Component.Evaluate` | SAVE/sim/parts.go:139-149 | evaluating with memory yields what evaluating without it yields, which `Synchronous.OutIsWire` says is what is on the wire, and everything remembered stays right |
| `Circuit.Component.Remember` | SAVE/sim/parts.go:233-242 | keeping a right value keeps all remembered values right |
| `Circuit.Component.AddInput` | SAVE/sim/parts.go:99-108 | refuses exactly a wrong width and keeps the register rightly wired |
| `Circuit.Component.AddControl` | SAVE/sim/parts.go:194-205 | accepts one narrow control and then has one empty input for each of its values |
| `Circuit.Component.AddData` | SAVE/sim/parts.go:209-215 | refuses exactly what is missing, too wide or out of range and keeps the multiplexer rightly wired |
| `Circuit.Component.Check` | SAVE/sim/parts.go:118-123 | on whatever the wiring methods leave, the check passes if and only if everything is connected with equal widths, although for a multiplexer it looks for missing inputs only |
| `Circuit.System.CheckAll` | SAVE/sim/sim.go:74-99 | passes if and only if every component is so connected |
| `Circuit.GivesOnce` | SAVE/sim/parts.go:139-149 | an evaluation that ends yields one value, however deep the recursion is allowed to go |
| `Circuit.System.EvaluateAll` | SAVE/sim/sim.go:127-129 | after evaluating the state list in its order every register holds its right next value |
| `Circuit.System.OneCycle` | SAVE/sim/sim.go:122-135 | whatever the order of the lists, all registers move together to the synchronous next state that `Synchronous.NextState` describes |
| `Circuit.System.Simulate` | SAVE/sim/sim.go:114-137 | n cycles take the registers n synchronous steps from reset or where they were, and none if the 32-bit counter would wrap |
| `Settling.SettlesExactly` | SAVE/sim/parts.go:139-149 | a closed network can be evaluated if and only if the demands of its components have no feedback and none is stuck |
| `Settling.LoopNeverEnds` | SAVE/sim/parts.go:139-146 | a loop of demands, even through registers, is not evaluated at any recursion depth |
| `Settling.BuildLoops` | SAVE/sim/parts.go:86-149 | two circuits, built and wired step by step, that pass every check and are never evaluated: a register fed by itself, and one through a multiplexer it controls |
| `Settling.AcyclicRuns` | SAVE/sim/sim.go:74-99 | a network that passes the checks and has no loop of wires settles in every cycle for ever |
| `Settling.SimulateAcyclic` | SAVE/sim/sim.go:101-137 | checking, resetting and simulating a network without loops of wires needs no further condition and ends in exactly the synchronous state |
| `Synchronous.OutIsWire` | SAVE/sim/parts.go:136-149 | evaluation yields the constant of a source, the visible state of a register, or what the data input selected by the control yields |
| `Synchronous.NextState` | SAVE/sim/parts.go:136-157 | after a cycle an enabled register shows what the register, source or multiplexer feeding it had on its wire, and any other what it showed |
| `Synchronous.Shifts` | SAVE/sim/parts.go:136-157 | in a shift register every stage shows after n cycles what the stage n places before it showed |
| `Symbols.Find` | yapl-1/sym.go:94-101 | the first position of a key, or the table's length |
| `Symbols.EnteredInterned` | yapl-1/sym.go:69-90 | entering a key keeps all entries distinct if and only if it is not an over-long string that is there already with room for another |
| `Symbols.EnteredExactly` | yapl-1/sym.go:69-90 | a known key that can be found keeps its first index, a full table turns others away with the error, and otherwise the key gets the next index |
| `Symbols.IndexDenotes` | yapl-1/sym.go:69-142 | over any sequence of entries from any table, an index handed out denotes its key in every later table |
| `Symbols.SameIndexSameKey` | yapl-1/sym.go:69-142 | over any sequence of entries from any table, two that got indexes got the same one if and only if the keys are equal and not over-long |
| `SymbolTable.KeysAppended` | yapl-1/sym.go:69-90 | adding a packed entry and committing its bytes leaves all earlier keys as they were |
| `SymbolTable.Table.NumLookup` | yapl-1/sym.go:94-101 | the first entry for a number, or the error |
| `SymbolTable.Table.SameString` | yapl-1/sym.go:117-142 | byte by byte comparison decides whether an entry spells a string |
| `SymbolTable.Table.SymLookup` | yapl-1/sym.go:117-142 | the first entry for a string, and the errors for none, an empty and an over-long string |
| `SymbolTable.Table.SymEnter` | yapl-1/sym.go:69-90 | the index handed back and the table after it are those of interning; string bytes are committed only for a new entry |
| `SymbolTable.Table.PutWaiting` | yapl-1/lex.go:157-227 | writing past the committed strings changes no entry |
| `Lexing.SmallTable` | yapl-1/lex.go:157-227 | single-byte symbols and digits can never make more than 266 entries, so the lexer cannot fill the table |
| `Lexing.TokenOk` | yapl-1/lex.go:157-227 | a token is never 0, is an error if and only if its byte is invalid, carries its kind's tag, and its index leads to its byte |
| `Lexing.TokensDenote` | yapl-1/lex.go:110-112 | in the finished table every token of the stream still leads back to its source byte |
| `Lexing.TokensMean` | yapl-1/lex.go:157-227 | in the finished table the token of a digit is a number of that value, of a lower-case letter a user symbol and of an upper-case letter or punctuation mark a keyword of that byte, and anything else is the invalid-byte error |
| `Lexing.SignificantNext` | yapl-1/lex.go:170-190 | a byte is significant if and only if it is no space, tab, newline or hash and no hash comes before it on its line |
| `Lexing.NewlinesCounted` | yapl-1/lex.go:176-180 | lines are counted by the newlines of the input, in comments too |
| `Lexing.TokensDistinguish` | yapl-1/lex.go:157-227 | two valid bytes of a stream give the same token if and only if they are equal |
| `Lexer.LanguageDistinct` | yapl-1/sym.go:212-233 | the language's symbols are all different, so each is new when it is defined |
| `Lexer.ScanIsSignificant` | yapl-1/lex.go:157-190 | the scan splits off the first byte outside whitespace and comments and counts the lines before it |
| `Lexer.Scanner.constructor` | yapl-1/lex.go:112-116 | a scanner at line 1 with nothing pushed back and the language's symbols in the table |
| `Lexer.Scanner.SymInit` | yapl-1/sym.go:212-233 | every language symbol gets the index its token value says |
| `Lexer.Scanner.AddLangSymbol` | yapl-1/sym.go:172-188 | a new symbol is appended at the expected index, so the checks that stop the compiler never fail |
| `Lexer.Scanner.TokenOf` | yapl-1/lex.go:190-227 | the token of a significant byte and the table after it |
| `Lexer.Scanner.NextSignificant` | yapl-1/lex.go:157-190 | the loop stops at the first significant byte or the end, counting lines modulo 65536 |
| `Lexer.Scanner.GetToken` | yapl-1/lex.go:149-227 | a pushed-back token first, otherwise the next significant byte's, otherwise end of file or an input error |
| `Lexer.Scanner.ReadAgain` | yapl-1/lex.go:141-144 | reading a token, pushing it back and reading it again is reading it once |
| `Lexer.LexAll` | yapl-1/lex.go:149-227 | lexing a whole input, whichever tokens are pushed back and read again, gives the tokens of its significant bytes and then the end, and one more than its newlines as a 16-bit count |

## Left out

- The emulator's command line, prompt, core files, signal handling and loading of binaries; the dumps it prints of its own accord, before and after a run and when interactive; the disassembler that a dump runs.
- I/O space: `lio` reads 0 and `sio` does nothing, as in the code, which has only stubs for them.
- Emulator.Machine.Simulate: takes a bound on the number of turns, because the loop need not end; the contract covers every bound.
- Emulator.Machine.Cycle: registers and memory are one record field that the stages reassign, so update in place of the register and memory slices, and aliasing between them, are not captured.
- Assembler text: a line is a mnemonic and its operands; how numbers, labels, banks and comments are written and customasm itself are not modelled.
- Assembler.AssembleLine: a negative six-bit immediate of `lli`, `lsi`, `ior`, `iow`, `srr` or `srw` has no words of its own, because how customasm fills the seven bits is not in the repository; `AssembledRoundTrips` covers every way of filling them.
- The end address of the assembler's code bank, 0xFFFF, is taken as exclusive, so that the bank holds 65535 words; customasm itself is not in the repository.
- SerialRing.Ring.Put: the ring's panics on misuse are preconditions; proving the callers proves that they cannot happen.
- Firmware.Device.StPulse: toggles, writes and reads of the ports are recorded as actions; what they do to the pins, the LEDs and the display is not modelled, and the register value of a get and the log message of a poll are inputs.
- HostLink.DoFixedCommand: timeouts are the end of the incoming bytes; session set-up, retries, draining and counted sends by the host are not modelled, and a host that has met an unexpected response does nothing more.
- Circuit.Component.Evaluate: enable functions are functions of the visible register states; the component interface is one class with three kinds, and logging is left out.
- Circuit.Component.MakeSource: the zero generator is generalised to a source of any constant bits of its width.
- Circuit.Component.AddInput: the panic on a missing argument is a precondition.
- Lexer.Scanner.SymInit: seventeen separate calls in the source are a loop over a table here.
- Lexer.Scanner.GetToken: the source's single routine is split into its scan loop and the token of the byte found.
- The YAPL-1 parser and code generator, the second compiler, the older assembler and compiler under SAVE, and the hardware design files.
