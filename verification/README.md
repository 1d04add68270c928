# WiFly light: a verified model of the firmware and client algorithms

WiFly light drives an RGB LED strip of 32 LEDs over Wi-Fi. A C++ client library sends framed commands to a
PIC firmware; a bootloader protocol updates that firmware. This project models the algorithms of both sides
and proves what they guarantee. `dafny verify dfyconfig.toml` checks all of it with Dafny 4.11.

## Main results

Each of these is a statement over all inputs, all runs or all reachable states.

- **Scripts** (`ScriptPlay.PlayAfter`, `ScriptCalls.ScriptConserves`, `ScriptTheorems.FiniteScript`,
  `ScriptTheorems.AnyScript`): however adding and running are interleaved, and whatever was sent before the last
  clear, the led strip gets exactly the actions of the script's loops written out; and exactly when the ring is
  empty again. How long each action lasts (`ScriptCalls.WaitLasts`, `ScriptCalls.NextTurn`), and what a client is told
  (`ScriptCtrl.ScriptBuf.Add`).
- **CRC** (`Crc.AddCrc`, `Crc.RegisterIsRemainder`, `CrcTheorems.AdjacentBytesDetected`,
  `CrcByteOrder.TwoBytesDetected`): the nibble-swapping code is division by the CCITT generator; which changes of
  adjacent bytes it detects in either byte order, exactly.
- **Framing** (`FramingTheorems.ParserReceivesAll`, `FramingTheorems.ParserRecovers`,
  `FramingTheorems.ParserSound`): outside an escape every frame that fits is delivered, however it is cut; garbage
  costs at most one frame more; and whatever bytes arrive nothing but payloads with their CRC and two short frames
  ever is delivered.
- **From end to end** (`Link.SendCommand`, `Link.FramesArrive`, `ComProxy.Recv`): encoder, ring and parser, and
  decoder and socket, composed.
- **Receive ring** (`RingBufInterrupts.NothingReordered`, `RingBufInterrupts.LossReported`,
  `RingBufInterrupts.LossHidden`): with an interrupt between any two loads and stores no byte is doubled or out of
  order, and exactly when a byte that found no room is reported.
- **Fades and gradients** (`Fade.FadeArrives`, `Ledstrip.LedBuffer.FadeAndWait`, `Gradient.GradientRight`): when a
  color is reached, to the tick, and which gradients come out right.
- **Flash** (`Flash.ProgramMemory.WriteBlock`, `BlProgram.Device.ProgramFlash`): every cell after a write.
- **HEX files** (`HexPlaces.ExactRoundTrip`, `IntelHexTheorems.FileDecodes`): what comes back from a written file,
  for every content, and exactly when it is what was written.
- **Script files and arithmetic** (`ScriptText.RoundTrip`, `ScriptText.ReadAgain`, `Math16.DivU16By16`): what is read
  back from a written script and from any text at all, and what the carry-flag loops compute.

## Structure

**Script engine** (`firmware/ScriptCtrl.c`). `ScriptMachine.dfy` is the engine on unbounded positions with its
invariant, `ScriptSemantics.dfy` gives scripts their structured meaning (loops written out) and proves that
one run performs exactly the next event, `ScriptTheorems.dfy` has the statements over whole histories.
`ScriptRing.dfy` is the 64-slot ring as a value with every operation of the C code, and what it has to do with
that machine, also where the loop stack is not in order. `ScriptCalls.dfy` is about whole histories of that ring, with
clears and refused commands. `ScriptCtrl.dfy` is the code itself, and `ScriptPlay.dfy` puts a client and a main cycle
around it: a script is sent, run, and performed exactly. Infinite loops are reached through every finite bound.

**Framing and CRC** (`firmware/crc.c`, `firmware/CommandIO.c`, `library/MaskBuffer.cpp`,
`library/ComProxy.cpp`). `Bits.dfy` has bytes and polynomials over GF(2) as lists of bits. `Crc.dfy` proves
the nibble-swap update equal to the remainder modulo the CCITT generator (section 2 of ITU-T V.41),
`CrcTheorems.dfy` its detection properties and `CrcByteOrder.dfy` what is left of them when the CRC comes low byte
first. `Framing.dfy` specifies frames, the firmware's parser and the client's decoder, `FramingTheorems.dfy` proves
them inverse to every encoder, self-synchronising, sound and independent of fragmentation. `CommandIO.dfy`,
`MaskBuffer.dfy` and `ComProxy.dfy` are the code, `Link.dfy` puts it together.

**LED fades** (`firmware/ledstrip.c`). `Fade.dfy` is one color channel with its exact timing, `Gradient.dfy` the
running color and the 8-bit positions of a gradient, `Ledstrip.dfy` the buffers with the packed direction bits and
the rotating mask.

**Receive ring** (`firmware/RingBuf.c`, `firmware/main.c`). `RingBuf.dfy` is the buffer used by one thread,
`RingBufInterrupts.dfy` interleaves an atomic receive interrupt with the single loads and stores of the main
program.

**Flash** (`firmware/Flash.c`, `library/WiflyControl.cpp`, `library/intelhexclass.cpp`). `Flash.dfy` writes
ranges into erase-then-program memory, `BlProgram.dfy` is the client's chunking and vector relocation; its methods
`EraseArea`, `WriteBlock` and `WriteEepromBlock` state what the bootloader, which is not part of the repository, is
assumed to do. `IntelHex.dfy` specifies the HEX reader and writer, `IntelHexRecords.dfy` and `IntelHexTheorems.dfy`
prove the round trip (sections 2, 3 and 5 of the Intel Hexadecimal Object File Format Specification, Revision A),
`HexPlaces.dfy` for which contents the exchange of the upper address bytes makes no difference,
`IntelHexWriter.dfy` and `IntelHexFile.dfy` are the stream operators.

**Script text and arithmetic** (`library/Script.cpp`, `library/FwCommand.h`, `firmware/wifly_cmd.h`,
`firmware/MATH16.H`). `Streams.dfy` and `NumberText.dfy` model words and numbers on streams, `ScriptText.dfy`
prints and parses scripts, `Numbers.dfy` and `Math16.dfy` are the carry-flag multiplication and division.
`Division.dfy` and `Keys.dfy` are shared helpers.

Code that updates state in place is a class or a method with loops, proved equal to a specification function;
the theorems are about those functions.

## Where the code does not do what one would expect

Each of these is kept as the code has it. The theorem named last in each entry says, for all inputs, when it
happens.

- The loop stack of the script engine is not reset by a clear, and a refused loop command moves it all the same. Its
  depth is always the number of LOOP_ONs less the number of LOOP_OFFs that were sent since power-up while no clear was
  pending (`ScriptCalls.DepthCounts`). Scripts that are sent after a clear are still performed exactly, but their
  loops never free their slots if the depth is not 0 (`ScriptCalls.ClearedLoopLeaks`, `ScriptCalls.NeverFreed`): the
  buffer is empty after a script exactly if as many LOOP_OFFs as LOOP_ONs were sent before it, accepted or not, or the
  script has no loop (`ScriptPlay.PlayAfter`).
- Without a clear, exactly a refused loop command puts the loop stack out of step with the stored loops
  (`ScriptRing.AddTracks`); outside all loops the drained buffer is then as after a clear at that depth
  (`ScriptCalls.RefusedLoopOn`, `ScriptCalls.DrainedRebased`).
- Slots that were never freed run again after a power loss (`ScriptCalls.ReplayPerforms`).
- `STX ETX` passes the CRC test, and the script controller runs what is left in the command buffer: the last command
  once more, or one that the CRC test has just refused (`FramingTheorems.EmptyFrameRepeats`,
  `FramingTheorems.EmptyFrameRunsRefused`). A delivered frame carries its CRC exactly if it has at least two bytes,
  and there are two shorter ones (`FramingTheorems.ResidueIsTrailer`, `FramingTheorems.ShortResidues`).
- With the CRC low byte first, two changed adjacent bytes can go unnoticed (`FramingTheorems.HiddenChange`), and
  exactly which ones is `CrcByteOrder.TwoBytesDetected`.
- `RingBuf_Get` always leaves the error flag down, so that it hides an error exactly if the flag was up when it began
  or more interrupts found a byte during it than there was room for (`RingBufInterrupts.LossHidden`).
- The 8-bit positions of a gradient wrap round (`Gradient.LastColorOnLedOne`); for which offsets and lengths the
  gradient is right all the same is `Gradient.GradientRight`. A gradient over fewer than two leds changes two
  (`Gradient.GradientReaches`).
- A fade time of 0 makes the firmware divide by zero where a selected channel differs from its target
  (`Fade.SearchEnds`). The client never sends it, and a script with such a time does not come back equal from its
  file, and every other one does (`ScriptText.RoundTrip`).
- A script file that ends in the middle of a command, or has a wrong number, is not refused: the command is stored with
  what its variables held before (`ScriptText.Script.ReadList`).
- The HEX writer puts the upper address bytes in the opposite order to the reader
  (`IntelHexTheorems.SegmentRoundTrip`), and compares only the lower halves of addresses, so that a record can hold
  bytes of two 64 KiB segments; a file is read back at the exchanged addresses exactly if none does
  (`IntelHexTheorems.FileDecodes`), and as it was written exactly if, besides, each byte is matched by the same byte at
  the exchanged address (`HexPlaces.ExactRoundTrip`). The reader forgets start linear addresses
  (`IntelHexRecords.StartLinearDecodes`).
- Erasing covers exactly the application flash only for aligned bootloader addresses of at least 8192
  (`BlProgram.EraseIsExact`), and an image that reaches the relocated vector is combined with it
  (`BlProgram.OverlapIsIntersection`).

## Model

| member | source | states |
|---|---|---|
| `ScriptPlay.Play` | firmware/ScriptCtrl.c:71-321 | every finite script that fits the 64-slot ring and nests at most 4 loops, counting the entries left on the loop stack, added command by command to an empty buffer and then run with waits in between, hands exactly the actions of its written-out loops to the led strip, in order; all slots are free again exactly if the loop stack was empty or the script has no loop |
| `ScriptPlay.PlayAfter` | firmware/ScriptCtrl.c:71-321 | after every history from power-up, accepted or refused, that does not index the loop stack out of bounds, followed by a clear, the same holds; all slots are free again exactly if as many LOOP_OFFs as LOOP_ONs were sent in that history or the script has no loop |
| `ScriptPlay.AddScript` | firmware/ScriptCtrl.c:71-103 | all commands of such a script are accepted and stored in compiled form; the loop depth is back where it was |
| `ScriptPlay.Drain` | firmware/ScriptCtrl.c:194-305 | repeated runs from any state without infinite loops perform exactly the actions still to come and end with an empty buffer |
| `ScriptCalls.NextPerformed` | firmware/ScriptCtrl.c:207-304 | a run moves the next action from what is to come to what has been performed, and what is to come gets shorter |
| `ScriptCalls.DepthCounts` | firmware/ScriptCtrl.c:71-103 | in every history of commands, runs, clears and timer interrupts the depth of the loop stack is what it was plus the LOOP_ONs less the LOOP_OFFs sent while no clear was pending, accepted or refused |
| `ScriptCalls.CallsConserve` | firmware/ScriptCtrl.c:71-321 | conservation on the ring, for every sequence of commands, runs and timer interrupts without a clear in which loops are closed only after they were opened and sent while there is room: what was performed and what is to come are what there was and one pass over the accepted commands |
| `ScriptCalls.ScriptConserves` | firmware/ScriptCtrl.c:71-321 | however a finite script is sent to an empty ring and run in between: what was performed and what is to come are together its written-out actions |
| `ScriptCalls.ReplayPerforms` | firmware/ScriptCtrl.c:184-191 | after a restart exactly one pass over the constructs that the ring has not freed runs again, and then what was to come from the start of the pending one |
| `ScriptTheorems.FiniteScript` | firmware/ScriptCtrl.c:84-103 | for every interleaving of the Adds of a finite script with runs: done and to-come are together the unrolled loops; drained exactly after Cost runs, with read = execute = write and outside every loop |
| `ScriptTheorems.AnyScript` | firmware/ScriptCtrl.c:226-264 | with infinite loops (count 0): for every bound k beyond the length of the run, what is done is a beginning of the script with each infinite loop written out k times; such a script never drains |
| `ScriptTheorems.RunScript` | firmware/ScriptCtrl.c:194-305 | a stored finite script performs the first n events of its unrolling in n runs, and exactly Cost runs drain it |
| `ScriptTheorems.RunsPerformFuture` | firmware/ScriptCtrl.c:207-304 | from every reachable state n runs perform exactly the next n events; a run is never stuck on a stored command |
| `ScriptTheorems.RestartDrains` | firmware/ScriptCtrl.c:184-191 | a restart resumes at the start of the pending top-level construct and the remaining run terminates after a known number of runs |
| `ScriptTheorems.HistoryKeepsInv` | firmware/ScriptCtrl.c:194-321 | every history of Adds, runs and restarts keeps the invariant of the buffer and all commands stored before |
| `ScriptTheorems.HistoryConserves` | firmware/ScriptCtrl.c:194-321 | conservation over every interleaving of Adds and runs: done plus to-come is what was there plus one pass over what was stored |
| `ScriptTheorems.HistoryKeepsFresh` | firmware/ScriptCtrl.c:253-261 | without a restart every loop that has not been entered keeps its full count |
| `ScriptTheorems.HistoryFollows` | firmware/ScriptCtrl.c:228-231 | a history with infinite loops goes hand in hand with its counted copy for fewer than k operations |
| `ScriptTheorems.FutureEmpty` | firmware/ScriptCtrl.c:207-210 | nothing is to come exactly when execute has reached write |
| `ScriptSemantics.StepPerformsHead` | firmware/ScriptCtrl.c:216-304 | one run performs exactly the first of the events to come, whatever loop it is in |
| `ScriptSemantics.JumpPerformsBody` | firmware/ScriptCtrl.c:232-243 | jumping back leaves exactly the remaining passes over the loop body |
| `ScriptSemantics.AppendExtendsFuture` | firmware/ScriptCtrl.c:307-321 | storing a command only appends to what is to come |
| `ScriptSemantics.CompiledMeansUnrolled` | firmware/ScriptCtrl.c:84-103 | the flat form with jump targets, depths and counters means the structured loops |
| `ScriptSemantics.UnrollPerforms` | firmware/ScriptCtrl.c:216-304 | the unrolled events contain the unrolled actions, and there are 1 + n * (cost of the body + 1) of them for a loop |
| `ScriptSemantics.LoopPerforms` | firmware/ScriptCtrl.c:220-251 | element by element, the actions of a loop are n passes over its body, and then what follows it |
| `ScriptMachine.StepKeepsInv` | firmware/ScriptCtrl.c:216-304 | a run keeps nesting, counters and pointers consistent |
| `ScriptMachine.AppendKeepsInv` | firmware/ScriptCtrl.c:84-103 | adding a command keeps the invariant, wherever execution is |
| `ScriptMachine.RestartKeepsInv` | firmware/ScriptCtrl.c:184-191 | a restart keeps the invariant |
| `ScriptMachine.LoopStartInside` | firmware/ScriptCtrl.c:88-95 | a stored LOOP_OFF jumps just behind its LOOP_ON, inside the live window |
| `ScriptMachine.StepKeepsFresh` | firmware/ScriptCtrl.c:253-261 | an inner loop is re-armed before it is entered again |
| `ScriptMachine.DrainedIsEmpty` | firmware/ScriptCtrl.c:243-251 | when execution reaches the end and no loop is open, all slots are free |
| `ScriptCtrl.ScriptBuf.Add` | firmware/ScriptCtrl.c:71-172 | whatever a client sends, as far as the 4-entry stack reaches: a script or loop command is answered OK exactly if it is stored, in the next slot and in its final form, and else SCRIPTBUFFER_FULL; while a clear is pending nothing changes and the answer is SCRIPTBUFFER_FULL; what a client sends that closes only its own loops is appended to the machine in compiled form, and exactly a refused loop command makes the loop stack disagree with the stored loops |
| `ScriptCtrl.ScriptBuf.Run` | firmware/ScriptCtrl.c:194-305 | a pending clear empties the buffer; otherwise a run does nothing while stopped, waiting or empty, and else is one step of the machine, passes its action on and then waits for the time of a WAIT or of a fade or gradient without its parallel bit |
| `ScriptCalls.WaitLasts` | firmware/ScriptCtrl.c:265-303 | a command that is to wait for time t: until t ticks of timer 5 have come no turn of the main cycle performs anything else, whatever is sent |
| `ScriptCalls.StillWaiting` | firmware/ScriptCtrl.c:323-335 | while time is left, whatever is sent, no turn of the main cycle does anything; timer 5 alone counts it down, and timer 1 cuts only what is below 8 |
| `ScriptCalls.NextTurn` | firmware/ScriptCtrl.c:202-210 | when the time is over the next turn performs the command that was next, whatever was sent in between |
| `ScriptRing.AnswerTells` | firmware/ScriptCtrl.c:71-172 | the answer says whether a command is stored, and the slot holds its final form |
| `ScriptRing.ActionsLast` | firmware/ScriptCtrl.c:265-303 | WAIT, and fades and gradients without their parallel bit, set the waiting time, and the parallel forms leave it alone |
| `ScriptCtrl.ScriptBuf.Clear` | firmware/ScriptCtrl.c:174-182 | from every state the buffer is empty, in RAM and EEPROM; the entries left on the loop stack become the base of all depths stored from then on |
| `ScriptCtrl.ScriptBuf.Init` | firmware/ScriptCtrl.c:184-191 | everything but the loop stack is restored from EEPROM; the machine is the one that begins at the first slot that is not free, for any number of entries left on the stack |
| `ScriptCtrl.ScriptBuf.PowerUp` | firmware/main.c:203-215 | whatever the RAM holds, the machine is the one restarted at the first slot that is not free; loop commands can be added exactly if no loop was open and nothing was left on the stack |
| `ScriptCtrl.ScriptBuf.PowerCycle` | firmware/main.c:203-215 | a power loss between any two calls keeps the machine, restarted, for every loop depth |
| `ScriptRing.RestartTracks` | firmware/ScriptCtrl.c:184-191 | the restored ring holds the machine with its pointers at the first slot that is not free, and every counter there is the full count |
| `ScriptRing.RingPointers` | firmware/ScriptCtrl.c:35-35 | within the live window the 6-bit pointers tell apart what the positions tell apart |
| `ScriptRing.AppendHeld` | firmware/ScriptCtrl.c:313-318 | writing the next slot keeps every live slot |
| `ScriptRing.WriteTracks` | firmware/ScriptCtrl.c:307-321 | a write never overwrites a live slot and refuses exactly in a full ring |
| `ScriptRing.AddTracks` | firmware/ScriptCtrl.c:71-172 | adding to the ring is adding to the machine, with any number of entries left on the stack; exactly a refused loop command leaves the stack wrong |
| `ScriptRing.CarryTracks` | firmware/ScriptCtrl.c:212-304 | what is done with a fetched slot is one step of the machine, with any number of entries left on the stack; with some left the read pointer stops at the first loop |
| `ScriptRing.ClearTracks` | firmware/ScriptCtrl.c:174-182 | after a clear at any loop depth the ring holds the empty machine, on top of that depth |
| `ScriptRing.StepFrees` | firmware/ScriptCtrl.c:245-252 | which slots are freed: those behind the machine's read position, or with entries left on the stack only those before the first loop |
| `ScriptCalls.NeverFreed` | firmware/ScriptCtrl.c:245-252 | once a loop has run on top of left-over entries, no sequence of Adds, runs and waits frees a slot before the next clear |
| `ScriptCalls.RefusedLoopOn` | firmware/ScriptCtrl.c:84-87 | a LOOP_ON that is refused outside all loops leaves the machine as it was and the loop stack with one entry more |
| `ScriptCalls.DrainedRebased` | firmware/ScriptCtrl.c:84-87 | after a LOOP_ON that was refused outside all loops, the drained buffer is one on top of one more entry, with the loop stack in order |
| `ScriptCalls.ClearedLoopLeaks` | firmware/ScriptCtrl.c:174-182 | LOOP_ON, CLEAR_SCRIPT, a run, and then a loop with one fade: the fade is performed and the three slots are never freed |
| `Crc.AddCrc` | firmware/crc.c:22-82 | the nibble-swap code is eight bitwise steps of the CCITT remainder, for every register and byte |
| `Crc.RegisterIsRemainder` | firmware/crc.c:22-82 | the bitwise register is the remainder of the message times x^16 modulo x^16 + x^12 + x^5 + 1, with an explicit quotient |
| `Crc.GeneratorCoefficients` | firmware/crc.c:21-22 | the generator is x^16 + x^12 + x^5 + 1 |
| `Crc.AddByteByNibbles` | firmware/crc.c:53-78 | how the two nibbles that are shifted out come back in the register |
| `Crc.BuildCrc` | firmware/crc.c:100-116 | the CRC of a buffer from an all-ones register |
| `CrcTheorems.CrcIsRemainder` | firmware/crc.c:22-82 | the CRC of every byte sequence is its remainder modulo the generator |
| `CrcTheorems.FrameResidue` | firmware/CommandIO.c:154-168 | a message with two bytes behind it has residue 0 exactly if they are its CRC, high byte first |
| `CrcTheorems.BurstDetected` | firmware/crc.c:22-82 | messages that differ only within 16 consecutive bits have different CRCs |
| `CrcTheorems.AdjacentBytesDetected` | firmware/CommandIO.c:154-168 | changing one byte or two adjacent bytes of a frame of any length always makes the residue nonzero |
| `CrcByteOrder.OneByteDetected` | library/MaskBuffer.cpp:132-141 | with the CRC low byte first, one changed byte is always noticed |
| `CrcByteOrder.TwoBytesDetected` | library/MaskBuffer.cpp:132-141 | with the CRC low byte first, two changed adjacent bytes go unnoticed exactly if they are the last payload byte, changed by 0x89, and the first CRC byte, changed by 0xa1 |
| `CrcByteOrder.SameHigh` | firmware/crc.c:22-82 | two different bytes leave the same high half of the register exactly if they differ by 0x89 |
| `CrcTheorems.DifferenceStays` | firmware/crc.c:22-82 | registers that differ once differ for ever: the step is injective |
| `FramingTheorems.ParserReceives` | firmware/CommandIO.c:103-179 | from every state outside an escape the firmware receives exactly the payload and CRC of a frame that fits |
| `FramingTheorems.ParserReceivesAll` | firmware/CommandIO.c:114-178 | every sequence of frames is delivered completely and in order |
| `FramingTheorems.ParserRecovers` | firmware/CommandIO.c:114-178 | after any garbage and at most one lost frame the next frame arrives |
| `FramingTheorems.AnyFrameSynchronises` | firmware/CommandIO.c:114-178 | from every state at all, one frame of any length brings the parser back to waiting |
| `FramingTheorems.OverlongAnswered` | firmware/CommandIO.c:37-46 | a frame longer than the command buffer is answered with BAD_PACKET as soon as the buffer is full, whatever follows |
| `FramingTheorems.NoiseIgnored` | firmware/CommandIO.c:117-127 | between frames everything but STX is ignored |
| `FramingTheorems.IdentAnswers` | firmware/CommandIO.c:54-60 | of any number of STX in a row every second one is answered with FW_IDENT |
| `FramingTheorems.LoopEndFilledIn` | firmware/ScriptCtrl.c:88-95 | which bytes of a LOOP_OFF the script controller fills in, and that it changes no other command |
| `FramingTheorems.Codes` | firmware/wifly_cmd.h:38-53 | the control characters and the code of LOOP_OFF as numbers |
| `FramingTheorems.EscapeLength` | library/MaskBuffer.cpp:44-50 | exactly the control characters are escaped, each with one more byte |
| `FramingTheorems.FragmentsJoin` | firmware/CommandIO.c:114-178 | how the bytes are cut into calls makes no difference |
| `FramingTheorems.ParserSound` | firmware/CommandIO.c:103-179 | whatever bytes arrive, each frame given to the script controller is some payload with its CRC, at the beginning of the buffer, or empty, or the single byte 0 |
| `FramingTheorems.ResidueIsTrailer` | firmware/CommandIO.c:154-158 | a frame that passes the CRC test is some payload with its CRC exactly if it has at least two bytes |
| `FramingTheorems.ShortResidues` | firmware/CommandIO.c:154-158 | the shorter ones that pass are exactly the empty frame and the single byte 0 |
| `FramingTheorems.EmptyFrameIsDelivered` | firmware/CommandIO.c:146-165 | STX ETX passes the CRC test from every state outside an escape, and the script controller is given the buffer as it is |
| `FramingTheorems.EmptyFrameRepeats` | firmware/CommandIO.c:146-165 | behind a frame it runs that frame's command once more; a LOOP_OFF has changed only in the fields that were filled in |
| `FramingTheorems.EmptyFrameRunsRefused` | firmware/CommandIO.c:146-165 | behind a frame that failed the CRC test it runs what the test has refused |
| `FramingTheorems.UnmaskerReceives` | library/MaskBuffer.cpp:92-141 | the client's decoder recovers every payload in both byte orders and accepts its CRC |
| `FramingTheorems.UnmaskerReceivesUnchecked` | library/MaskBuffer.cpp:102-107 | without the CRC test the client recovers everything between STX and ETX |
| `FramingTheorems.ShortFrameFaults` | library/MaskBuffer.cpp:82-90 | with the CRC test, a frame of less than two bytes is a fault or empty, and which one |
| `FramingTheorems.UnmaskerOverflows` | library/MaskBuffer.cpp:26-31 | more bytes than the buffer holds are the exception for a full buffer, whatever follows |
| `FramingTheorems.UnmaskBounded` | library/MaskBuffer.cpp:26-31 | the decoder holds no more bytes than it was given, and cannot overflow while those fit its capacity |
| `FramingTheorems.UnmaskAppend` | library/MaskBuffer.cpp:92-123 | decoding in fragments is decoding the whole |
| `FramingTheorems.UnmaskerRefuses` | library/MaskBuffer.cpp:82-141 | the client throws away every frame in which one byte or two adjacent bytes are changed, high byte first always, low byte first with exactly one exception |
| `FramingTheorems.HiddenChange` | library/MaskBuffer.cpp:132-141 | two frames of the bootloader that differ in two adjacent bytes and both pass the test |
| `FramingTheorems.CorruptFrameIsRefused` | firmware/CommandIO.c:146-172 | the firmware answers every frame in which one byte or two adjacent bytes are changed with a CRC failure, and delivers nothing |
| `CommandIO.CommandBuffer.WriteByte` | firmware/CommandIO.c:37-46 | stores the byte and keeps the CRC of the buffered prefix; a full buffer is answered with BAD_PACKET and resets the parser |
| `CommandIO.CommandBuffer.EndOfFrame` | firmware/CommandIO.c:146-172 | hands the buffer to the script controller exactly if the residue is 0, and sends its answer; otherwise answers that the CRC failed |
| `CommandIO.CommandBuffer.Receive` | firmware/CommandIO.c:117-176 | the code takes one step of the parser for every state and byte, also for an overflow on an escaped byte, which leaves it saving characters |
| `CommandIO.CommandBuffer.GetCommands` | firmware/CommandIO.c:103-179 | all received bytes are parsed in order; after a receive overflow everything buffered is dropped and the answer is BAD_PACKET |
| `CommandIO.SendResponse` | firmware/CommandIO.c:182-214 | the bytes sent are one frame of the response with its CRC, high byte first |
| `CommandIO.CommandBuffer.Drain` | firmware/CommandIO.c:114-178 | all bytes of the receive buffer are parsed in order |
| `MaskBuffer.Masker.Mask` | library/MaskBuffer.cpp:33-67 | a new buffer holds exactly the frame of the payload in the wanted byte order, or overflows exactly if the frame is longer than the buffer |
| `MaskBuffer.Unmasking.UnmaskBytes` | library/MaskBuffer.cpp:92-123 | the loop over a fragment is the decoder applied to its bytes, with its completion, rejection and overflow |
| `MaskBuffer.Unmasking.GetCrc16` | library/MaskBuffer.cpp:132-141 | the register, also the one recomputed from two bytes back, is 0 exactly if the CRC matches in the given byte order |
| `MaskBuffer.Unmasking.CheckAndRemoveCrc` | library/MaskBuffer.cpp:82-90 | a matching CRC is removed, otherwise everything is thrown away |
| `MaskBuffer.Unmasking.UnmaskByte` | library/MaskBuffer.cpp:94-121 | one byte is one step of the decoder |
| `ComProxy.Recv` | library/ComProxy.cpp:37-54 | never overflows the buffer for any fragmentation of any input; returns exactly what the decoder completes; with and without the CRC test, a frame from a socket that is never silent yields its payload if what is between STX and ETX is shorter than the buffer, and is never received completely if it is not |
| `ComProxy.FrameReceived` | library/ComProxy.cpp:44-51 | a frame is received exactly when all its bytes have been taken |
| `ComProxy.FrameArrives` | library/ComProxy.cpp:37-54 | if payload and CRC are shorter than the buffer and every read returns something, the frame arrives |
| `Link.SendCommand` | firmware/CommandIO.c:103-179 | encoder, receive ring and parser together: the client raises its exception exactly if the frame does not fit its buffer, and else the script controller is given exactly payload and CRC if the frame fits the ring, and nothing if not |
| `Link.FramesArrive` | firmware/main.c:124-142 | with the receive interrupt at any place, as long as every interrupt finds room the script controller is given the sent payloads in order and nothing else, and all of them once register and ring are empty |
| `Fade.FadeArrives` | firmware/ledstrip.c:190-229 | a channel shows its target from tick number ceil(d / s) * P on, and not before |
| `Fade.FadeInTime` | firmware/ledstrip.c:71-96 | that is at most one period later than the time asked for, and less than one tick per whole step early |
| `Fade.TickSteady` | firmware/ledstrip.c:190-229 | a tick keeps value and remaining distance aimed at the same target, never wraps round in 8 bits and never moves away |
| `Fade.TicksAre` | firmware/ledstrip.c:190-229 | the state after n ticks in closed form |
| `Fade.AimedSteady` | firmware/ledstrip.c:71-96 | the parameters fit their 8 and 16 bits and aim at the new color without changing the value |
| `Fade.AimedAtRest` | firmware/ledstrip.c:71-96 | a channel that shows the color already is aimed with no distance left, for every time |
| `Fade.StepSizeIsLeast` | firmware/ledstrip.c:71-96 | the step size found is the least one that needs no more steps than ticks |
| `Fade.SearchEnds` | firmware/ledstrip.c:71-96 | the search for a step size succeeds exactly for a positive time; with time 0 it goes on to a division by zero |
| `Ledstrip.LedBuffer.SetFade` | firmware/ledstrip.c:236-266 | exactly the selected leds are aimed at the color, blue, green and red in this order; the others keep their whole state and their direction bits |
| `Ledstrip.LedBuffer.SetGradient` | firmware/ledstrip.c:284-340 | wherever the 8-bit positions lie inside the strip, which channels get which color of the gradient; if they stand for the right leds, led offset + i gets color i, led offset + n - 1 the last color, and all others keep their state |
| `Gradient.GradientReaches` | firmware/ledstrip.c:289-292 | a gradient over n leds changes max(n, 2) leds: the first gets the first color, the last the last one, and the others do not change |
| `Gradient.GradientRight` | firmware/ledstrip.c:308-340 | for every offset and length whose loop stays inside the strip: all gradients on all strips come out right exactly if the wrapped positions stand for the right leds |
| `Gradient.StaysInsideIs` | firmware/ledstrip.c:312-340 | the loop stays inside its arrays exactly if the first led it writes is aligned or behind the strip, or the last one ends in it |
| `Gradient.LastColorOnLedOne` | firmware/ledstrip.c:308-340 | 87 leds from the first one on: the last color is on led 1 and nothing follows |
| `Gradient.SpreadSteady` | firmware/ledstrip.c:284-340 | a gradient keeps all channels within their bounds, also with wrapped positions |
| `Ledstrip.LedBuffer.DoFade` | firmware/ledstrip.c:190-229 | one tick for every channel, without wrapping round and with the same targets |
| `Ledstrip.LedBuffer.FadeAndWait` | firmware/ledstrip.c:190-266 | after a fade command and n calls of DoFade a selected channel shows the color exactly if n is at least the duration; the others go on as if there had been no command |
| `Ledstrip.LedBuffer.SetColorDirect` | firmware/ledstrip.c:165-188 | every channel shows its value of the red-green-blue message at once and rests there |
| `Ledstrip.LedBuffer.CalcColor` | firmware/ledstrip.c:71-96 | the parameters and the direction bit of one channel change, and no other; pointer and mask move on by one bit |
| `Ledstrip.LedBuffer.Search` | firmware/ledstrip.c:83-92 | the loop ends without dividing by zero and finds the least step size and its period |
| `Ledstrip.IncBitCounter` | firmware/ledstrip.c:33-39 | pointer and rotating mask stay at the bit of their channel |
| `Ledstrip.MaskWrites` | firmware/ledstrip.c:74-82 | setting or clearing at the mask changes exactly one bit of the packed array |
| `Ledstrip.BitOfNumber` | firmware/ledstrip.c:74-82 | led k is selected by bit k % 8 of address byte k / 8, taken as a number |
| `Gradient.BlendNext` | firmware/ledstrip.c:268-282 | the running color of a gradient follows c1 + i * floor(distance / (n - 1)) towards c2 without wrapping round or overshooting |
| `Ledstrip.LedBuffer.MoveChannel` | firmware/ledstrip.c:205-228 | one turn of the second loop, in 8-bit arithmetic |
| `Ledstrip.LedBuffer.DoFades` | firmware/ledstrip.c:190-229 | n calls are n ticks of every channel |
| `RingBuf.Buffer.Get` | firmware/RingBuf.c:30-41 | returns and removes the oldest byte and clears the error flag |
| `RingBuf.Buffer.Put` | firmware/RingBuf.c:43-53 | appends the byte, or keeps the contents and raises the flag exactly if the buffer is full |
| `RingBuf.Buffer.IsEmpty` | firmware/RingBuf.c:60-63 | empty exactly if no byte was put that was not taken |
| `RingBufInterrupts.NothingReordered` | firmware/main.c:124-142 | under every interleaving of the receive interrupt with single loads and stores of the main program, bytes taken followed by bytes in the ring are the accepted bytes in order |
| `RingBufInterrupts.NothingVanishes` | firmware/main.c:124-142 | in every run each byte that arrives is accepted, still in the receive register, or counted as lost |
| `RingBufInterrupts.NextKeepsInv` | firmware/RingBuf.c:23-53 | every step of either side keeps the invariant |
| `RingBufInterrupts.GetReturnsOldest` | firmware/RingBuf.c:30-41 | a Get interrupted anywhere returns the byte that was the oldest when it began |
| `RingBufInterrupts.FindsByte` | firmware/RingBuf.c:63-66 | the main program finds a byte exactly if the ring held one when it looked, whatever arrives meanwhile |
| `RingBufInterrupts.NoticesError` | firmware/RingBuf.c:55-58 | the main program calls Init exactly if it finds the flag up |
| `RingBufInterrupts.InitEmpties` | firmware/RingBuf.c:23-28 | after an error the three stores of Init leave an empty ring and the flag down, with any interrupts in between |
| `RingBufInterrupts.InitIsLocked` | firmware/RingBuf.c:23-28 | between the stores of Init an interrupt changes nothing but the register and the counts: the error flag is its lock |
| `RingBufInterrupts.LossRaisesFlag` | firmware/main.c:128-139 | a byte is lost exactly if an interrupt reads it while the flag is up or Init throws it away; the flag goes up exactly if an interrupt finds a byte and no room, which leaves the byte in the receive register, and down exactly at the last store of Get or Init |
| `RingBufInterrupts.LossReported` | firmware/CommandIO.c:105-112 | from every state, in every run, the error flag is up at the end exactly if a flag at the beginning or a byte that an interrupt did not store has no clearing store behind it |
| `RingBufInterrupts.LossHidden` | firmware/RingBuf.c:30-41 | from every state, with the flag up or down, a whole Get leaves the flag down; an error was up before its last store exactly if the flag was up at the beginning, or more interrupts found a byte than there were free slots before its store to read, or more than one above that in all; and exactly when it has lost a byte |
| `RingBufInterrupts.LossBefore` | firmware/RingBuf.c:30-41 | up to its store to read a Get has as many free slots fewer as interrupts found a byte; the flag goes up at the first one for which there is no room, and exactly the ones after it lose their bytes |
| `Flash.ProgramMemory.WriteBlock` | firmware/Flash.c:56-121 | an accepted range gets exactly the data, every other byte is kept, also in partly written pages, and nothing outside 0x5000..0xefff ever changes |
| `Flash.ProgramMemory.WritePage` | firmware/Flash.c:65-120 | read, erase, merge and program of one page is a plain write of the bytes that fall into it |
| `Flash.ProgramMemory.EraseBlock64` | firmware/Flash.c:123-146 | erases the 64-byte page of an address in the valid region, and nothing else |
| `Flash.AcceptedRanges` | firmware/Flash.c:60-65 | a range is written exactly if it and the byte behind it lie in the valid region; ranges that wrap round never are |
| `Flash.ProgramMemory.ReadBlock` | firmware/Flash.c:33-47 | the bytes of the range are copied and the rest of the buffer is kept |
| `BlProgram.Device.ProgramFlash` | library/WiflyControl.cpp:398-488 | an image is programmed exactly if it has its first four bytes and ends below the bootloader; then every cell from 4 to the relocated vector holds its byte of the image, or 0xff in a gap, the reset vector is a GOTO to boot + 2, and an image that ends below the relocated vector has its own first four bytes there; any other image is refused and changes nothing |
| `BlProgram.Device.EraseFlash` | library/WiflyControl.cpp:164-180 | which cells are erased, for every bootloader address |
| `BlProgram.EraseIsExact` | library/WiflyControl.cpp:164-180 | exactly the cells below the bootloader are erased exactly if its address is a multiple of 64 and at least 8192 |
| `BlProgram.ResultIsExact` | library/WiflyControl.cpp:455-488 | an image that ends below boot - 4 leaves the reset vector at 0..3, the image with 0xff in its gaps, and its own first four bytes at boot - 4..boot - 1 |
| `BlProgram.OverlapIsIntersection` | library/WiflyControl.cpp:477-487 | where image and relocated vector overlap, the cell is right for one of them exactly if that one has no bit set that the other has cleared |
| `BlProgram.ResetVectorGoesToBootloader` | library/WiflyControl.cpp:428-437 | the reset vector decodes as a GOTO to boot + 2 |
| `BlProgram.Device.WriteFlash` | library/WiflyControl.cpp:335-364 | exactly the buffer is programmed, block by block, and the padding of the last block changes nothing |
| `BlProgram.Device.ReadFlash` | library/WiflyControl.cpp:287-310 | the chunks joined are the requested range; out of range is refused |
| `BlProgram.Device.WriteEeprom` | library/WiflyControl.cpp:366-396 | the chunks write exactly the buffer; out of range is refused and changes nothing |
| `Math16.DivU16By16` | firmware/MATH16.H:135-154 | the Euclidean quotient, for every nonzero divisor and every carry flag at the beginning |
| `Math16.DivU16By8` | firmware/MATH16.H:114-132 | the Euclidean quotient, also where the 8-bit remainder overflows into the carry |
| `Math16.RemU16By16` | firmware/MATH16.H:240-257 | the Euclidean remainder, whatever the carry flag was |
| `Math16.RemU16By8` | firmware/MATH16.H:221-237 | the Euclidean remainder, whatever the carry flag and the scratch byte were |
| `Math16.Mult16By16` | firmware/MATH16.H:97-110 | the product modulo 65536, whatever the accumulator held |
| `Math16.DividesNext` | firmware/MATH16.H:139-152 | one turn of the loop is one digit of a long division that never overflows 16 bits |
| `IntelHexTheorems.RoundTrip` | library/intelhexclass.cpp:305-787 | every content below 64 KiB comes back as it was, with its start segment address, without errors or warnings |
| `IntelHexTheorems.SegmentRoundTrip` | library/intelhexclass.cpp:821-825 | a content within one 64 KiB segment comes back as it was exactly if the two upper address bytes are equal and below 0x80, because the encoder writes them in the opposite order |
| `IntelHexTheorems.FileDecodes` | library/intelhexclass.cpp:792-1069 | after reading the file of any content the object holds it, with the upper address bytes exchanged, exactly if every data record holds bytes of one segment; start addresses, and one error exactly if both kinds are written |
| `IntelHexTheorems.ContentIs` | library/intelhexclass.cpp:806-995 | the same for the content alone: it lands where it should exactly if no record crosses a segment |
| `HexPlaces.ExactRoundTrip` | library/intelhexclass.cpp:792-1069 | for every content: the file comes back as it was exactly if no record crosses a 64 KiB boundary and each byte is matched by the same byte at the address with the upper bytes exchanged |
| `HexPlaces.UncleanDiffers` | library/intelhexclass.cpp:932-954 | no exchange of addresses makes up for a record that crosses a boundary: what is read then differs from what was written |
| `HexPlaces.ClosedIs` | library/intelhexclass.cpp:821-825 | the content with exchanged addresses is the content exactly if each byte is so matched |
| `IntelHexTheorems.StrayByte` | library/intelhexclass.cpp:945-950 | if some record holds bytes of two segments, reading finds a byte behind the end of the first one, where none was written |
| `IntelHexTheorems.BodyDecodes` | library/intelhexclass.cpp:860-994 | the records of the loop are decoded into the content they came from, if none crosses a segment |
| `IntelHexTheorems.RunIsConsecutive` | library/intelhexclass.cpp:933-954 | a data record that begins and ends in one segment holds consecutive addresses |
| `IntelHexTheorems.ReadingExtends` | library/intelhexclass.cpp:245-787 | whatever the text, reading changes no address that has a byte already, no known start segment address, and takes no error or warning back |
| `IntelHexRecords.RecordSums` | library/intelhexclass.cpp:372-405 | every written record sums to 0 modulo 256 |
| `IntelHexRecords.DataRecordDecodes` | library/intelhexclass.cpp:452-459 | a written data record is decoded as its offset and bytes |
| `IntelHexRecords.LinearRecordDecodes` | library/intelhexclass.cpp:617-663 | a written linear address is decoded with its bytes exchanged |
| `IntelHexRecords.AddressRecords` | library/intelhexclass.cpp:872-1054 | start and linear addresses are written in records of their kind with an offset of 0 |
| `IntelHexRecords.StartLinearDecodes` | library/intelhexclass.cpp:665-746 | a start linear address is read, but the object does not note it and complains after a start segment address |
| `IntelHexRecords.StartSegmentDecodes` | library/intelhexclass.cpp:527-574 | a written start segment address is read back |
| `IntelHexRecords.EndRecordDecodes` | library/intelhexclass.cpp:461-479 | a written end record is read back |
| `IntelHexRecords.HexCharIs` | library/intelhexclass.cpp:190-207 | records are written with capital hexadecimal digits |
| `IntelHexRecords.ExtendedDecodes` | library/intelhexclass.cpp:481-525 | records 2 and 4 set the base address to 16 and to 65536 times their number, high byte first |
| `IntelHexRecords.StartDecodes` | library/intelhexclass.cpp:527-574 | records 3 and 5 hold CS and IP, and EIP, high bytes first; that the other start address is known is one error |
| `IntelHexRecords.RecordsRefused` | library/intelhexclass.cpp:461-525 | second end records, extended addresses of wrong lengths and unknown kinds are one error and nothing else |
| `IntelHexRecords.StartsRefused` | library/intelhexclass.cpp:527-607 | start addresses of a wrong length and repeated ones are not taken, and the errors are one for each of that and one for a known address of the other kind |
| `IntelHexRecords.KnownAddress` | library/intelhexclass.cpp:275-296 | a byte for a known address changes no content: a warning if equal and an error if not |
| `IntelHexRecords.KeyExtends` | library/intelhexclass.cpp:270-271 | the key of an address is its lower 32 bits, extended by their sign to 64 |
| `IntelHexRecords.ReadsTooFar` | library/intelhexclass.cpp:407-764 | for which lines with good digits and a right checksum the source reads past the end of the line |
| `IntelHexRecords.BytesAccounted` | library/intelhexclass.cpp:245-300 | each byte of a data record is inserted, or a warning, or an error |
| `IntelHexRecords.MarkMissing` | library/intelhexclass.cpp:346-368 | a line without its colon is a warning; as the first line it ends reading with an error |
| `IntelHexRecords.RunIsMaximal` | library/intelhexclass.cpp:932-954 | a data record ends only where it holds 16 bytes or the next address does not follow |
| `IntelHex.PairOfDigits` | library/intelhexclass.cpp:97-144 | what a pair of digits is read as, and how many errors it is, whichever of them is bad |
| `IntelHexRecords.OnlyData` | library/intelhexclass.cpp:860-890 | within a 64 KiB segment nothing but data records is written |
| `IntelHexTheorems.FileEnds` | library/intelhexclass.cpp:1065-1066 | every file ends with the line :00000001FF |
| `IntelHexRecords.ChangedByteRefused` | library/intelhexclass.cpp:404-405 | a written record in which any one byte is changed is refused: nothing but the number of errors changes |
| `IntelHexFile.IntelHexFile.Read` | library/intelhexclass.cpp:305-787 | operator>> decodes word by word with the error, warning and abort rules of the specification function |
| `IntelHexFile.IntelHexFile.ReadKind` | library/intelhexclass.cpp:450-764 | what each record type changes, including wrong lengths and repeated records |
| `IntelHexFile.IntelHexFile.DecodeDataRecord` | library/intelhexclass.cpp:245-300 | inserts the bytes at consecutive addresses; what is there is kept, with a warning if equal and an error if not |
| `IntelHexFile.IntelHexFile.Write` | library/intelhexclass.cpp:792-1069 | operator<< writes the records of the content in the order of its addresses |
| `IntelHexFile.IntelHexFile.ReadByte` | library/intelhexclass.cpp:97-144 | the value of two digits of either case; a bad digit is an error and makes what was read 0 |
| `IntelHexFile.IntelHexFile.ReadStartSegment` | library/intelhexclass.cpp:527-607 | the first start segment address is kept; repeated, badly long and conflicting ones are errors |
| `IntelHexFile.IntelHexFile.ReadStartLinear` | library/intelhexclass.cpp:665-740 | the address is read but not noted; badly long and conflicting ones are errors |
| `IntelHexWriter.WriteRecord` | library/intelhexclass.cpp:957-993 | the running checksum and text of a record come out as its bytes and their complement |
| `IntelHexWriter.Collect` | library/intelhexclass.cpp:932-954 | collects bytes at consecutive lower address halves, 16 or as many as there are |
| `IntelHexWriter.WriteContent` | library/intelhexclass.cpp:806-995 | the records of the whole content |
| `ScriptText.RoundTrip` | library/Script.cpp:86-117 | reading a written script gives the same commands exactly if all times are at least 1, whatever the unset variables hold |
| `ScriptText.ScriptReads` | library/Script.cpp:138-154 | for all commands, nesting and indentation: the name and the commands come back, with times of at least 1 |
| `ScriptText.CommandsAloneRead` | library/Script.cpp:86-117 | the commands of any script are read without a header as well |
| `ScriptText.HeaderReads` | library/Script.cpp:93-99 | any line that begins with a digit and the name behind it are a header; such a line alone is no commands and no name |
| `ScriptText.CommandForm` | firmware/wifly_cmd.h:89-126 | the text of each command: token, 0x and hexadecimal colors, decimal numbers |
| `ScriptText.LineForm` | library/FwCommand.h:79-86 | the indentation of a line, and how loops change it |
| `ScriptText.GradientReads` | library/FwCommand.h:276-282 | a gradient from any numbers: colors without alpha, the lowest 7 bits of the offset and 8 of the length |
| `ScriptText.CutShort` | library/FwCommand.h:92-282 | a text that ends behind a token gives a command of what its variables hold |
| `ScriptText.UnknownStops` | library/Script.cpp:101-116 | reading ends at an unknown token, and the commands before it stay |
| `ScriptText.FileNameIs` | library/Script.cpp:79-83 | the name from a path is what is behind its last slash |
| `ScriptText.ReadAgain` | library/Script.cpp:86-154 | what was read from any text at all is read back as it is once it has been written |
| `ScriptText.CommandReads` | library/FwCommand.h:88-287 | each command is read back from what its Write method wrote |
| `ScriptText.LineReads` | library/FwCommand.h:79-86 | the indentation of a line, also one that underflows, makes no difference |
| `ScriptText.Script.Serialize` | library/Script.cpp:138-154 | the text written is the one that is read back |
| `ScriptText.Script.ReadList` | library/Script.cpp:101-116 | the loop reads commands until the stream ends or a token is unknown, and keeps what it has read; a command at which the stream ends is kept too, with the values its extractions store or leave |
| `ScriptText.Script.Deserialize` | library/Script.cpp:69-99 | a header gives the name, unless its first line ends the text; a text that does not begin with a digit is commands from its first character on; without a name, and without an unknown command, the script is named after what is behind the last slash of its path |
| `NumberText.PrintRoundTrip` | firmware/wifly_cmd.h:89-126 | printed numbers are digits only and have the value they were printed from, in decimal and hexadecimal |
| `NumberText.HexWordIs` | library/WiflyColor.h:48-54 | a printed color is read back as the same number |
| `NumberText.HexWordPlain` | library/WiflyColor.h:48-54 | colors without the prefix, with a minus sign, and those that do not fit 32 bits |
| `NumberText.NumbersRead` | library/FwCommand.h:92-95 | what reading makes of every written number, with a sign, too large or not |
| `NumberText.FlagsRead` | library/FwCommand.h:226-236 | a bool is read from 0 and 1, and other numbers store true and end the stream |
| `NumberText.NoNumberRead` | library/FwCommand.h:92-95 | a word that is no number stores 0, at the end of the text nothing is stored, and both end the stream |
| `NumberText.ColorRead` | library/WiflyColor.h:79-85 | every word is taken as a color, also the last one of a text; at the end there is none |
| `NumberText.DigitsAre` | library/intelhexclass.cpp:97-144 | the digits, in small and capital letters, and no other characters |
| `NumberText.PrintedForm` | library/FwCommand.h:108-110 | numbers are printed without leading zeros and with small letters |

## Left out

- ScriptCtrl.ScriptBuf.Add: START_BL, the RTC, color-direct and GET commands are one case that leaves the script buffer alone; a fifth LOOP_ON and a LOOP_OFF on an empty stack are excluded, because the source then indexes its 4-entry stack out of bounds.
- ScriptCtrl.ScriptBuf.Init: an EEPROM that was never written, or whose pointers were interrupted between two writes, is not modelled; restarts happen between calls.
- ScriptCtrl.ScriptBuf.Run: fade and gradient commands are passed on as their payload; times are numbers, so the network byte order of their fields is not modelled.
- CommandIO.CommandBuffer.EndOfFrame: the script controller is any sequence of replies, and a response is its command byte and error code; the data of a response and the reset after START_BL are not modelled.
- MaskBuffer.Unmasking.GetCrc16: in little-endian order the source reads two bytes behind the start of a buffer with fewer than two; the model requires two bytes there, and its caller reports the fault.
- ComProxy.Recv: timeouts and the socket are a list of fragment sizes; the loop ends when the list does.
- Ledstrip.LedBuffer.SetGradient: gradients whose wrapped positions make the loop write past the last channel are excluded (`Gradient.StaysInside`), because the source then writes outside its arrays.
- Link.SendCommand: a command is received while the main program is busy and parsed afterwards; any other interleaving is `Link.FramesArrive`.
- RingBufInterrupts.NothingReordered: the interrupt is atomic, bytes thrown away by RingBuf_Init no longer count as accepted, and an overrun of the receive register itself is not modelled.
- BlProgram.Device.ProgramFlash: the bootloader itself is not part of the repository; it is assumed to erase whole pages downwards from the given address and to program whole blocks by clearing bits. Its address must be a multiple of 64, because what it does with an unaligned block is not known.
- BlProgram.Device.WriteFlash: the start address must be a multiple of 64 for the same reason.
- BlProgram.Device.ReadFlash: communication failures, retries and wrong response codes are not modelled.
- IntelHexFile.IntelHexFile.Read: where the source reads past the end of a line the model stops with a flag; error and warning texts are counted, not composed; verbose output is not modelled.
- IntelHexFile.IntelHexFile.Write: linear mode only; segment mode, which nothing in the repository selects, is not modelled.
- ScriptText.Script.ReadList: what an unset variable holds is a parameter; reading it is undefined in C++.
- ScriptText.Script.Deserialize: opening and closing files is not modelled; a file is its path and its text.
- Math16.Mult16By16: the signed and the 8-bit variants of MATH16.H are not modelled.
- Sockets, UDP broadcast, telnet, FTP, SPI, I2C, timers, the real-time clock and the user interfaces are not modelled.
- StartupManager, the responses' contents and retries of FwSend, BlReadCrcFlash, BlEnableAutostart and BlEraseEeprom are not modelled: single-branch facts.
