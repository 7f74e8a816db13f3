# FreeMCAN: a verified model of the device, the host and the line between them

FreeMCAN is a radiation counter: an AVR device that counts pulses in interrupt handlers, and a host
program that drives it over a serial line. This project models both programs and the line between
them in Dafny and proves what they promise each other, from an interrupt on the device to a number
on the host.

| part of the system | modules |
|---|---|
| bytes, words, 16-bit registers | `Bytes`, `Bits` |
| the checksum, device and host version | `Checksum` |
| frames, the device's sender, the host's parser | `FrameDefs`, `UartComm`, `FrameParser`, `FrameProtocol` |
| commands, the host's sender, the reference for the firmware's parser | `CommandParser` |
| the interrupt side of the Geiger time series, the ring buffer | `TimeSeries`, `RingBuffer` |
| the lock-free reading of the measurement timer | `Duration` |
| the firmware's main loop: transition system, whole-run properties, the parameter buffer, the answers to commands and the end of a measurement, the EEPROM, the loop as it runs | `Firmware`, `FirmwareRuns`, `ParameterEcho`, `PassOutcomes`, `EepromStore`, `Packets`, `MainLoop` |
| value tables and the personality on the host, and end to end | `ValueTable`, `PersonalityInfo`, `TimeSeriesExport`, `TableTransport`, `Conversation` |
| the analyser and sampling personalities | `Histogram`, `AdcSampling` |
| display statistics and number formatting | `GeigerStats`, `Decimal` |

## How the model is built

Code that works by changing things in place is a class whose methods change the same variables with
the same branches: both frame parsers, the UART, the checksum object, the interrupt handlers, the
ring buffer, the main loop, the packet object. Each of these methods is proved against a reference
that knows nothing about offsets, states or pointers. For the two parsers (`FrameParser.Accept`,
`CommandParser.Take`) the reference keeps the raw bytes of the frame being collected and compares
them with an encoding. For the interrupt handlers it is a closed form of the history of interrupts
(`TimeSeries.Counts`, `Countdown`, `Elements`). For the main loop it is the transition system of
`Firmware`, and what has gone over the wire is the encoding of the packets in its log. The
properties are then proved about the references, over every byte stream, every list of frames, every
history of interrupts and every run.

`Firmware.Pass` is one pass through the main loop. It says whether the switch is down, which byte is
waiting, and which interrupts fire before the finish flag is tested, between that test and the
handler, from there to the first read of the table size, until its second read, and between the two
bytes of either read. It also says between which of these interrupts each byte of the countdown is
read. A run is any list of passes, starting at a reset and ending at the next one. Interrupts do not
nest and do nothing while they are disabled.

The 16-bit checksum registers are sequences of sixteen booleans; bytes and words are bounded
integers, and every wrap-around and truncation is written out (`U8`, `U16`, `U32`).

## What was found

The following hold of the code as it is and are proved here.

* **Frames without payload.** The device can send a parameter frame with no payload
  (firmware/main.c:208-218); the host parser then reaches `abort()` on the frame's checksum byte
  (hostware/frame-parser.c:218-229, 267-268). A list of frames is delivered if and only if no payload
  is empty (`FrameProtocol.RoundTrip`).
* **Tables that grow while they are sent.** An intermediate table announces its size before it is sent
  and may have grown by then (firmware/main.c:182-188). What a device sends between two resets is
  delivered if and only if no parameter block among it is empty and every intermediate table announces
  the size it has (`Conversation.RunReachesHost`); `Conversation.GrownTableIsLost` is a run that is not.
* **The statistics race with the timer.** The main loop sums up the record while the timer interrupt
  writes to it (firmware/perso-geiger-lcd.c:118-130). The sum is that of the record at the snapshot,
  for every history, if and only if each read comes before the new samples have gone around to its
  place (`GeigerStats.SumIsTheSnapshots`). With a full record of 80 samples, the usual case at
  background rates, a single tick during the sum puts the newest sample in place of the oldest
  (`OneTickAtFullRecord`).
* **A stray 'F' right before a frame** costs that frame: the parser does not back up to a second
  possible beginning (`FrameProtocol.DeliveredExactlyWhenSynchronised`).
* **The transmitted checksum byte** is sure to expose a wrong byte only at every sixteenth position,
  counted from the end of the payload. For every other position there are two bytes it confuses
  (`Checksum.DetectionGuaranteed`, `FrameProtocol.ProtectedPositions`).
* **A frame object is dropped** on every checksum mismatch without being released
  (hostware/frame-parser.c:257-261); `FrameParser.Parser.Balanced` counts it.
* **The host takes a parameter only if more bytes follow it** (hostware/packet-value-table.c:80, 90).
  With a parameter block of exactly the personality's own size the slot length reads as undefined,
  and the elapsed time is wrong unless there is a single slot (`TableTransport.ElapsedTimeIsTicks`).
* **An abort that races with the timer** leaves the finish flag set, and the device resets itself in
  its next pass (`FirmwareRuns.AbortRace`). In every other case a finished or aborted measurement stays
  and can be asked for again until a reset command is completed (`PassOutcomes.MeasurementEnds`).
* **The minimum of a resent table.** The host leaves the slot that may be incomplete out of the minimum
  of an aborted measurement, but not when the same table is sent again
  (hostware/freemcan-export.c:267-284, `TableTransport.MinimumOverCompleteSlots`).
* **A rejected switch press in the middle of a command** overwrites the parameter buffer. The handler
  of a command finds its parameters in the buffer, and every table of the measurement it starts echoes
  them, if and only if no press was rejected between that frame's length and checksum bytes; earlier
  frames do not matter (`ParameterEcho.HandlerFindsTheFrame`, `TablesEchoTheStart`). On a device that
  has never stored parameters such a measurement echoes 255 bytes (`TornFrameEchoesTooMuch`).
* **An empty sample table** stops the host. The sampling personality starts with a table of no bytes,
  so an abort or an intermediate request before the first sample sends one, and the host ends at its
  size assertion (hostware/packet-parser.c:151). It decodes the table if and only if more conversions
  than the skip count have been made (`AdcSampling.SamplesReachHost`).
* **The table size is read byte by byte.** A single read is 256 too much when a slot begins between
  its bytes and carries (`FirmwareRuns.SizeReadTorn`). An intermediate table announces the size it
  sends, with fewer than 127 slots' ticks in between, if and only if no slot begins between the low
  bytes of the two reads and none carries before the last high byte (`FirmwareRuns.DeclaredSizeHolds`).
* **Fixed-width statistics.** The tolerance, the short-term test and the long-term test wrap at high
  rates. The tolerance has the exact condition under which it is still right; past the bounds of a
  test the true answer no longer depends on the data, so the test is wrong exactly when it says the
  opposite (`GeigerStats.ToleranceRightExactly`, `Test1Exact`, `Test2Exact`). A count of zero divides
  by zero in the tolerance (firmware/perso-geiger-lcd.c:139): the model takes the quotient as a
  parameter, `byZero`.
* **The comment in firmware/timer1-get-duration.c:96** says that two equal reads are a valid value.
  That is proved for the counter that stops at zero. For the one that reloads, the loop ends as well,
  and two equal reads are a value held meanwhile if at most a full turn of the counter falls between
  their first and last byte, or the start value fits one byte. For every start value from 256 on, one
  tick more is too many (`Duration.GetSeriesDuration`, `TicksBetweenReads`, `MoreThanATurnIsTooMuch`).
* **include/frame-defs.h:108** allows parameter lengths of 0 or more; the firmware accepts 0 and the
  lengths from the personality's parameter size to 15 (firmware/main.c:573-582). The model follows
  the code.

## Model

| member | source | states |
|---|---|---|
| Checksum.DeviceMatchIsEquality | firmware/checksum.h:50-59 | The device's comparison through an 8-bit difference with a signed byte accepts exactly the accumulator's low byte. |
| Checksum.HostChecksum.UpdateByte | hostware/freemcan-checksum.c:108-115 | The host's two shifts and an or leave the accumulator the device's update function gives. |
| Checksum.HostChecksum.Match | hostware/freemcan-checksum.c:85-90 | Accepts exactly the byte the device sends for the same accumulator. |
| Checksum.SumConcat | firmware/checksum.c:43-50 | The checksum of a concatenation is the checksum continued, so buffers may be sent in any pieces. |
| Checksum.SingleByteDifference | firmware/checksum.c:43-50 | Two streams that differ in one byte have accumulators that differ by the rotated difference of the two bytes, whatever surrounds them. |
| Checksum.SingleByteErrorChangesAccumulator | firmware/checksum.c:43-50 | Two streams that differ in exactly one byte never have the same 16-bit accumulator. |
| Checksum.SingleByteErrorMissed | firmware/checksum.c:43-50 | The transmitted low byte misses a single-byte error exactly when the two bytes are confusable at that distance from the end. |
| Checksum.ConfusedPairIsConfused | firmware/checksum.c:43-50 | For every distance that is not a multiple of sixteen, two distinct bytes the transmitted byte cannot tell apart. |
| Checksum.DetectionGuaranteed | firmware/checksum.c:43-50 | No single wrong byte goes unnoticed if and only if the number of bytes after it is a multiple of sixteen. |
| UartComm.Uart.PutBuffer | firmware/uart-comm.c:149-154 | A buffer goes out unchanged and the running checksum becomes that of everything sent. |
| UartComm.Uart.FrameStart | firmware/frame-comm.c:40-56 | Puts magic, little-endian size and type on the wire and restarts the checksum with them. |
| UartComm.Uart.FrameSend | firmware/frame-comm.c:68-74 | Exactly the encoding of the frame is appended to the wire, whatever the checksum state was before. |
| UartComm.Uart.RecvMatches | firmware/uart-comm.c:184-187 | The received byte is accepted if and only if it is the low byte of the receive accumulator. |
| FrameParser.Parser.StepMagic | hostware/frame-parser.c:164-186 | A byte moves the magic offset as the reference on raw bytes does, and the checksum covers exactly the magic bytes seen. |
| FrameParser.Parser.StepPayload | hostware/frame-parser.c:218-229 | Payload bytes land in place inside the buffer; a byte after a header of size zero is the abort. |
| FrameParser.Parser.StepChecksum | hostware/frame-parser.c:230-262 | Delivers the collected frame or counts an error as the reference does, and keeps created objects equal to released ones plus dropped ones plus the one being filled. |
| FrameParser.Parser.HandleBytes | hostware/frame-parser.c:277-288 | For any chunk the in-place parser ends in the state the reference reaches; all writes stay in the buffer of one byte more than the payload, and every delivered frame is released once. |
| FrameParser.RunConcat | hostware/frame-parser.c:277-288 | How the input is cut into chunks makes no difference. |
| FrameProtocol.ConsumedToItsEnd | hostware/frame-parser.c:187-262 | With magic and size intact a frame is consumed exactly to its own end, and delivered if and only if its checksum byte is right. |
| FrameProtocol.RoundTrip | firmware/frame-comm.c:40-74 | For every list of frames, the host delivers exactly those in order without checksum error if and only if none is empty, and aborts if and only if one is. |
| FrameProtocol.Sound | hostware/frame-parser.c:163-263 | For every byte stream, each delivered frame is the decoding of a contiguous stretch of it, the stretches are disjoint and in order, and what is held is the end of the input and can begin a frame. |
| FrameProtocol.AbortExactly | hostware/frame-parser.c:187-268 | Over every byte stream the abort is reached exactly when some byte follows a header with size field zero. |
| FrameProtocol.NoiseIgnored | hostware/frame-parser.c:181-185 | Noise without the first magic byte leaves a synchronised parser as it was. |
| FrameProtocol.LastGapByte | hostware/frame-parser.c:164-186 | A byte outside the first three magic bytes brings any hunting parser that keeps hunting back to magic offset zero. |
| FrameProtocol.DeliveredExactlyWhenSynchronised | hostware/frame-parser.c:164-186 | A good frame that reaches a hunting parser is delivered if and only if the magic offset is zero when it begins. |
| FrameProtocol.DamageStaysLocal | hostware/frame-parser.c:218-262 | Damage to type, payload or checksum of one frame never costs a later frame. |
| FrameProtocol.CorruptedByteOutcome | hostware/frame-parser.c:230-262 | A single wrong payload byte is delivered exactly when it is confusable with the right one at its distance from the end, and counted as an error otherwise. |
| FrameProtocol.ProtectedPositions | hostware/frame-parser.c:230-262 | A payload position is protected against every single-byte error if and only if its distance from the end is a multiple of sixteen. |
| CommandParser.HostDevice.UpdateIovec | hostware/freemcan-device.c:175-182 | The checksum of one buffer is the device's checksum continued over its bytes. |
| CommandParser.HostDevice.SendCommand | hostware/freemcan-device.c:215-241 | Puts exactly the encoding of the parameterless command on the line, or nothing when the device is closed. |
| CommandParser.HostDevice.SendCommandWithParams | hostware/freemcan-device.c:244-274 | Puts the encoding of the command on the line, with the length byte truncated and the parameters complete. |
| CommandParser.CommandsArrive | firmware/main.c:518-631 | Every list of commands with no parameter bytes, or from the personality's size m up to 15 of them, arrives at the handler once each and in order. |
| CommandParser.CommandsSound | firmware/main.c:518-631 | For every byte stream, the commands handed on have 0 or m to 15 parameter bytes and were on the line as contiguous encodings, one for each, disjoint and in order. |
| CommandParser.ArrivesExactlyByLength | firmware/main.c:573-586 | A command of the host reaches the handler if and only if it has 0 or m to 15 parameter bytes, for lengths that do not fit the length byte too. |
| TimeSeries.EndTestIsExact | firmware/perso-geiger-time-series.c:104-107 | For every table size and element width the rounded end test admits a write exactly when the whole element fits. |
| TimeSeries.TickClosedForm | firmware/perso-geiger-time-series.c:190-216 | One tick counts down, opens the next slot with a reloaded countdown, or fills the table, and the closed form moves the same way. |
| TimeSeries.GeigerSeries.OnInt0 | firmware/perso-geiger-time-series.c:167-183 | After a count event every table cell still holds the counts of its slot modulo 65536, for any history and start value of at least two. |
| TimeSeries.GeigerSeries.OnTimer | firmware/perso-geiger-time-series.c:190-216 | After a tick table, pointer, countdown, size, flag and ring buffer are the closed form of the longer history; once the flag is set nothing changes. |
| TimeSeries.GeigerSeries.Start | firmware/timer1-init-simple.c:60-69 | A start value of at least two establishes the closed form; the guard is the caller's. |
| TimeSeries.SamplesAreTicks | firmware/perso-geiger-time-series.c:196-200 | The samples pushed for the display are, tick by tick, the count events of each tick modulo 65536, and what is pending those since the last tick. |
| TimeSeries.SlotIsItsTicks | firmware/perso-geiger-time-series.c:167-216 | A slot of the table counts exactly what its ticks count, so table and display account for the same events. |
| TimeSeries.CountsConserved | firmware/perso-geiger-time-series.c:167-216 | The slots of the table and the events after it was full add up to all count events. |
| Duration.CountdownTimer.OnTimer | firmware/timer1-countdown-and-stop.c:48-61 | The counter falls by one until it is zero and then stays, with the flag set exactly at zero. |
| Duration.CountdownTimer.GetDuration | firmware/timer1-get-duration.c:88-99 | With interrupts between any two byte reads the loop ends, and the result is the start value minus a value the counter held during the call. |
| Duration.MatchingReads | firmware/timer1-get-duration.c:91-97 | Two torn reads of a falling counter that agree are the value at the second low byte. |
| Duration.ReloadingReads | firmware/timer1-get-duration.c:88-99 | For the reloading counter two torn reads that agree are the value held at one of their low bytes, if at most one full turn falls between the first byte and the last, or the start value fits one byte. |
| Duration.MoreThanATurnIsTooMuch | firmware/timer1-get-duration.c:88-99 | For every start value from 256 on, one tick more than a full turn lets both reads agree on zero, which the counter does not hold. |
| Duration.TicksBetweenReads | firmware/timer1-get-duration.c:91-97 | Every pair of agreeing reads with at most n ticks in between is right if and only if n is at most a full turn or the start value is below 256. |
| Duration.GetSeriesDuration | firmware/timer1-get-duration.c:88-99 | Around the reloading countdown, with any number of ticks before every byte read, the loop ends; the result is the start value minus a value held between the bytes of the two reads that agreed, under the condition above. |
| FirmwareRuns.RunKeeps | firmware/main.c:492-636 | In every run the tables sent fit the state, and the clockwork invariant of the state holds up to a reset. |
| FirmwareRuns.ReasonGrammar | firmware/main.c:266-442 | Between two resets the tables sent are intermediate ones, then at most one of done or aborted, then resends equal to it but for the reason; in Done interrupts are off. |
| FirmwareRuns.AbortRace | firmware/main.c:409-416 | An aborted measurement is Done with interrupts off; it resets in the next pass when the timer had set the flag, and stays as it is otherwise. |
| FirmwareRuns.DoneResets | firmware/main.c:419-442 | In Done the device resets exactly on a pending finish flag or a completed reset command. |
| FirmwareRuns.RunParses | firmware/main.c:518-636 | Over any run the loop parses exactly the bytes it takes from the UART, whatever finish events, switch presses and interrupts fall between them. |
| FirmwareRuns.CommandsReachHandler | firmware/main.c:518-631 | Host-to-device round trip: encoded commands with 0 or 2 to 15 parameter bytes call the handler once each, in order, in every interleaving. |
| FirmwareRuns.InterruptsTick | firmware/perso-geiger-time-series.c:190-216 | While measuring every timer interrupt is a tick, until the table is full. |
| FirmwareRuns.InterruptsCount | firmware/perso-geiger-time-series.c:167-183 | While measuring every count event is recorded. |
| PassOutcomes.EveryByteTaken | firmware/main.c:518-631 | In every run a pass takes the waiting byte unless it finds the finish flag or, in Ready, the switch down; the byte continues its frame silently, completes its command, or draws the complaint about a length other than 0 or 2 to 15 or about a wrong checksum. |
| PassOutcomes.EveryCommandAnswered | firmware/main.c:323-442 | Every command completed in any run is answered in the same pass: unless it resets the device, the last packet names the state then reached; the letter and the timer value decide state, reset and whether one table of which reason is among the answer; the personality is sent exactly when asked for. |
| PassOutcomes.EndsExactly | firmware/main.c:409-416 | A pass ends a measurement if and only if it finds the finish flag or completes an abort; the table sent shows what the device holds, all its slots when the flag was found. |
| PassOutcomes.DoneRun | firmware/main.c:419-442 | From Done without a pending flag no run resets the device unless a reset command is completed, and tables and resend requests are equally many. |
| PassOutcomes.MeasurementEnds | firmware/main.c:520-525 | Over every run: the closing table shows what the device holds; a flag raised during an abort resets the device in the next pass, and otherwise it resets only on a completed reset command and answers every resend request with a repetition of that table. |
| EepromStore.StoredExactly | firmware/main.c:343-350 | A store command completed in Ready leaves exactly its parameters and their number in the EEPROM if and only if no switch press was rejected during its frame; the device stays ready. |
| EepromStore.StoredStays | firmware/main.c:334-442 | No run without a completed store command changes the EEPROM. |
| EepromStore.StoredSurvives | firmware/main.c:643-671 | Nor do any number of resets. |
| EepromStore.PressOutcome | firmware/main.c:287-309 | A press in Ready copies the stored block and starts a measurement if its length is at most 16 and its timer value at least 2, resets the device if the value is below 2, and is turned down for longer blocks. |
| EepromStore.StoredAreUsed | firmware/main.c:351-356 | In every run: reading stored parameters back sends exactly them and leaves them in the buffer, and a switch press starts slots of as many ticks as their first two bytes say and puts exactly them into every table. |
| ParameterEcho.HandlerFindsTheFrame | firmware/main.c:564-602 | In every run, the handler of a command completed in Ready finds exactly the sent bytes and their number in the buffer if and only if no pass of that frame after its length byte rejects a switch press. |
| ParameterEcho.FrameOutcome | firmware/main.c:286-309 | At any point of a frame the buffer has followed it if no pass since its length byte has rejected a switch press; otherwise the buffer's length stays out of range until the frame ends. |
| ParameterEcho.FrameBegins | firmware/main.c:554-586 | Every frame that is coming in during a run has a pass of that run that took its length byte, from which on it has been collected in Ready. |
| FirmwareRuns.ParamsFrozen | firmware/main.c:564-602 | From the pass that leaves Ready until the reset the parameter buffer never changes. |
| ParameterEcho.StartOrigin | firmware/main.c:286-309 | A measurement starts from the valid stored block on a switch press, and on a measure command from the buffer as the completed frame has left it. |
| ParameterEcho.TablesEchoTheStart | firmware/main.c:172-189 | Over a whole run every table of a measurement echoes the stored block if the switch started it; if a command did, every table echoes exactly the command's parameters if and only if no switch press was rejected during that command's frame. |
| ParameterEcho.TornFrameEchoesTooMuch | firmware/main.c:291-296 | A concrete run from boot, with the switch pressed after a measure command's length byte, starts a measurement whose tables all echo 255 bytes. |
| FirmwareRuns.DeclaredSizeHolds | firmware/main.c:182-188 | With both sizes read byte by byte, an intermediate table announces the size it sends if and only if low bytes and high bytes agree; in ticks, if no slot begins between the low bytes and none carries before the last high byte. |
| FirmwareRuns.SizeReadTorn | firmware/main.c:184-187 | With up to a turn of ticks between its two bytes, a read of the table size is the old size, or 256 more when a slot begins there and carries into the high byte. |
| FirmwareRuns.DurationWasHeld | firmware/main.c:174-181 | The elapsed time of an intermediate table is the one held at some moment of the loop that reads it, if at most a full turn falls between the reads that agreed or the start value fits one byte. |
| MainLoop.Loop.SendTable | firmware/main.c:172-189 | Header, echoed parameters and table memory go over the wire as the table packet of the transition system, with interrupts between the bytes of the elapsed time and of both reads of the table size. |
| MainLoop.Loop.ReadSettled | firmware/timer1-get-duration.c:88-95 | The loop in place, with interrupts between any two bytes, ends with the value the transition system says two agreeing reads have, and every interrupt takes its effect. |
| MainLoop.Loop.HandleFinished | firmware/main.c:267-282 | The handler's effect on all state and on the wire is that of the transition system. |
| MainLoop.Loop.HandleSwitch | firmware/main.c:287-309 | Copies the stored block, and starts or rejects, as the transition system does. |
| MainLoop.Loop.HandleCommand | firmware/main.c:323-442 | For every state and command byte the in-place effect, the EEPROM's too, and the packets sent are those of the transition system, which `PassOutcomes.EveryCommandAnswered` and `EepromStore.StoredExactly` characterise. |
| MainLoop.Loop.HandleByteFromUart | firmware/main.c:518-631 | The parser's five states and three variables accept a byte as the reference on raw bytes does. |
| MainLoop.Loop.LoopPass | firmware/main.c:505-634 | One pass, with interrupts at every point the code allows, is one step of the transition system, whose finish flag `PassOutcomes.MeasurementEnds` shows to be cleared and whose bytes `PassOutcomes.EveryByteTaken` shows to be taken. |
| MainLoop.Loop.MainEventLoop | firmware/main.c:492-636 | Any number of passes up to a reset is a run of the transition system, and the wire holds the encodings of exactly the packets in its log. |
| MainLoop.Loop.StartUp | firmware/main.c:665-668 | After a reset the device announces its personality and that it is ready. |
| ValueTable.PacketValueTable.ReadParams | hostware/packet-value-table.c:79-108 | Duration, skip count and token come out as the strict length tests leave them (`ParamsShareTheBlock` says what that is), or the size assertion fails exactly when a recognised parameter is not 16 bits wide. |
| ValueTable.ParamsShareTheBlock | hostware/packet-value-table.c:79-108 | For every personality the block is the bytes of the parameters that are read, in order, then the token; a parameter is read exactly when more bytes follow its two, and there is no token exactly when the block is empty. |
| ValueTable.DecodesExactly | hostware/packet-value-table.c:72-156 | A table is decoded if and only if it has a byte of values of 8, 16, 24 or 32 bits, the personality is known, and every parameter that is read takes two bytes. |
| ValueTable.PacketValueTable.ReadElements24 | hostware/packet-value-table.c:134-142 | Every element is the little-endian number its three bytes stand for. |
| ValueTable.HandleValueTable | hostware/packet-parser.c:145-164 | The packet object shows what the reference decoding of the payload says, and the host stops exactly where the reference reports a failure. |
| ValueTable.CountFits | hostware/packet-parser.c:149-152 | The element count computed in bits is the number of whole elements, and all of them lie inside the table. |
| TimeSeriesExport.Totals | hostware/freemcan-export.c:249-285 | The total is the sum of all values modulo 2^32, the maximum and the minimum are attained bounds over the values the reason lets count. |
| TableTransport.TableRoundTrip | hostware/packet-value-table.c:49-160 | For 1 to 4 bytes per value, any parameter block and any non-empty list of values, the host decodes the same header fields and every value modulo its width. |
| TableTransport.DecodedWasEncoded | hostware/packet-value-table.c:49-160 | Whatever the host decodes, the payload was, byte by byte, the header fields, parameters, token and values it shows, up to a last value that is cut short. |
| TableTransport.IntermediateReachesHost | firmware/main.c:371-396 | An intermediate table that has the size it announced is delivered and shows, slot by slot, the counts at the moment its cells are sent, the slot length and the token. |
| TableTransport.MinimumOverCompleteSlots | hostware/freemcan-export.c:267-284 | The host takes the minimum over exactly the complete slots of a finished, aborted or running measurement; a resent table lets the open slot in as well. |
| PersonalityInfo.InfoReachesHost | hostware/packet-parser.c:116-131 | The device's personality packet is delivered and read as the table's size, 16-bit values, one unit a second, the two parameter sizes its tables are decoded with, and the name. |
| PersonalityInfo.HostKnowsPersonality | firmware/main.c:665-668 | In every run, whatever is sent and lost later, the first frame the host delivers describes that personality and the second says READY. |
| TableTransport.TicksFromTable | firmware/perso-geiger-time-series.c:203-214 | Elapsed ticks of the open slot and the closed slots make up all ticks since the start. |
| TableTransport.ElapsedTimeIsTicks | hostware/freemcan-export.c:254-256 | For every buffer length, overlong ones too, the host's elapsed time is the number of ticks if and only if the echoed parameters are longer than two bytes or there is only one slot. |
| TableTransport.TotalIsCountEvents | hostware/freemcan-export.c:257-282 | Where no slot overflows, the host's values add up to the count events that came in time. |
| TableTransport.MeasurementReachesHost | firmware/main.c:172-189 | Over any run, every table sent after the measurement ended is delivered by a synchronised host, and the decoded elements, slot length, token and elapsed time are what the interrupts counted and the buffer held. |
| Packets.WireIsFrame | firmware/packet-comm.c:50-65 | A packet that announces the size it has is an ordinary frame on the wire. |
| Conversation.HostHears | firmware/main.c:172-218 | The host delivers all packets of a conversation in order if and only if none is an empty parameter block and each announces, modulo 2^16, the size it has. |
| Conversation.SentAnnounces | firmware/main.c:172-218 | In every run all packets announce the size they have, except perhaps intermediate tables. |
| Conversation.RunReachesHost | firmware/main.c:492-671 | Everything a device sends between two resets is delivered packet by packet if and only if no empty parameter block is among it and every intermediate table announces the size it has. |
| Conversation.GrownTableIsLost | firmware/main.c:182-188 | A concrete run from boot in which a slot begins between the two size reads of an intermediate table, and the host does not deliver what was sent. |
| Histogram.Mca.ElementInc | firmware/table-element.h:99-132 | The three bytes of the bin become the next number modulo 2^24, and every other bin keeps its bytes. |
| Histogram.Mca.OnConversion | firmware/perso-adc-int-mca-ext-trig.c:107-139 | After any number of conversions every bin holds the number of conversions with its index modulo 2^24. |
| Histogram.CarryChain | firmware/table-element.h:104-114 | Incrementing the low word and adding the carry to the top byte gives the encoding of the next number, with wrap-around. |
| Histogram.SumOfBins | firmware/perso-adc-int-mca-ext-trig.c:107-139 | The bins share out all conversions; a sum of wrapped bins is too small exactly when one has wrapped. |
| Histogram.HistogramReachesHost | hostware/packet-value-table.c:134-142 | Bin i on the host is the number of conversions with result i modulo 2^24, and the bins add up to all conversions exactly when none has wrapped. |
| AdcSampling.OneMoreConversion | firmware/perso-adc-int-log-timed-trig.c:139-161 | From the closed form: a conversion is skipped, becomes the sample whose turn it is, or finds the table full. |
| AdcSampling.AdcLogger.OnConversion | firmware/perso-adc-int-log-timed-trig.c:139-168 | After any number of conversions sample j counts the whole units of 2^(10-resolution) in conversion (j+1)*(skip+1)-1, the size is twice the number of samples, and nothing is written after the finish flag is set. |
| AdcSampling.SamplesReachHost | hostware/packet-parser.c:145-164 | The host decodes the table if and only if there is a sample and stops on an empty one; value j is conversion (j+1)*(skip+1)-1 itself at ten bits, and v with v*2^(10-r) <= x < (v+1)*2^(10-r) at r bits; number of values, finish flag, skip count and token are given in numbers. |
| RingBuffer.Ring.Update | firmware/perso-geiger-lcd.h:100-115 | The buffer holds the newest 80 samples of the push history, cut to 16 bits; the count grows up to 80 and never exceeds the pushes. |
| RingBuffer.Ring.Sample | firmware/perso-geiger-time-series.c:196-198 | The timer interrupt's part for the display: the evaluation flag is set and the newest counts are in the buffer. |
| RingBuffer.Ring.Shrink | firmware/perso-geiger-time-series.c:285-299 | Forgetting old samples keeps the buffer's account of the history. |
| GeigerStats.CSqrt32 | firmware/perso-geiger-lcd.c:89-105 | For every 32-bit number the result is its integer square root, and no intermediate value overflows. |
| GeigerStats.SumWindows | firmware/perso-geiger-lcd.c:113-136 | Whatever interrupts push meanwhile, the sums over the window, its halves and its newest part are those of the samples the reads find, the place of read i counted around the buffer from the snapshot. |
| GeigerStats.SeenInTime | firmware/perso-geiger-lcd.c:113-136 | If each read comes before the pushes have gone around to its place, the samples found are the newest of the snapshot, in order. |
| GeigerStats.SumIsTheSnapshots | firmware/perso-geiger-lcd.c:113-136 | The sum is the snapshot's for every history if and only if each read comes before the pushes have gone around to its place. |
| GeigerStats.OneTickAtFullRecord | firmware/perso-geiger-lcd.c:119-126 | With 80 samples a single tick during the sum, wherever it falls, puts the newest sample in place of the oldest. |
| GeigerStats.FewArrivalsAreInTime | firmware/perso-geiger-lcd.c:113-136 | All reads are in time whenever at most 80 minus the window's length samples arrive during the sum. |
| GeigerStats.GetStats | firmware/perso-geiger-lcd.c:108-146 | For any arrivals, sums as above, both rates of the samples found without overflow, and a tolerance that is right if and only if the root's argument fits or wraps to a large number. |
| GeigerStats.ToleranceBounds | firmware/perso-geiger-lcd.c:138-139 | From an integer root of 3600 N the reported percentage is 100 over the root of N, bounded from both sides. |
| GeigerStats.ToleranceRightExactly | firmware/perso-geiger-lcd.c:138-139 | For every count the buffer can hold the tolerance is right if and only if N is at most 1193046 or 3600 N modulo 2^32 is at least 6001 squared. |
| GeigerStats.AutoRange.MinEqAvrgLen | firmware/perso-geiger-lcd.h:67-68 | Evaluating the hysteresis twice gives the same as once: the short record of 30 above 1050 counts per minute, and from 700 on if it was short before, else 80; and the minimum with the available samples. |
| GeigerStats.Test1Exact | firmware/perso-geiger-lcd.c:157-171 | The short-term test decides (lg-st)^2 > 1500 lg for lg up to 2863311 and differences below 65536; past the first bound alone there is never an excursion, past the second alone, or from 242862 on, always. |
| GeigerStats.Test1PastBothBounds | firmware/perso-geiger-lcd.c:157-171 | Past both bounds the test errs either way: an excursion it misses and one it invents. |
| GeigerStats.Test1BoundIsSharp | firmware/perso-geiger-lcd.c:157-171 | One step above the bound the test fires although it should not. |
| GeigerStats.Test2Exact | firmware/perso-geiger-lcd.c:184-193 | The long-term test decides (new-old)^2 > 7 (new+old) while the sums differ by less than 65536; from there on there always is a drift, so only silence is wrong. |
| GeigerStats.Test2MissesAWrappedJump | firmware/perso-geiger-lcd.c:184-193 | A jump of exactly 65536 counts goes unnoticed. |
| GeigerStats.KeptAsDue | firmware/perso-geiger-time-series.c:285-299 | Within the bounds of the tests the two cuts leave the newest eight samples and those after the second cut on a drift, the newest eight and those after the first on an excursion alone, and all samples otherwise. |
| GeigerStats.Display.DisplayCountStats | firmware/perso-geiger-time-series.c:260-299 | With ticks before the snapshot, before every read and on either side of both cuts: rate and sums are those of the samples found, another evaluation is asked for exactly when a sample came, and the record keeps what a true drift or excursion of the samples found, and later ticks, leave. |
| Decimal.UintToAscii | firmware/freemcan-lcd.c:97-127 | The text is the closed form digit by digit, for 1 to 6 digits and every position of the point. |
| Decimal.FormatRoundTrip | firmware/freemcan-lcd.c:82-127 | The text reads back as the value, has one character per digit and a point if asked for, exactly the wanted digits after it, and blanks exactly for the leading zeros before the units digit. |

## Left out

- Registers, pins, prescalers, baud rates, fuses, linker scripts: only the interrupt-enable flag, the finish flag and the table size remain. A reset is the boot state; the watchdog's timing is not modelled.
- The LCD, the beeper, fonts, debug text, `cpm2doserate` and all floating-point figures of the export.
- The host's user interface, select loop, sockets and files; its handlers for state and text packets.
- Allocation failure and reference counts beyond the frame object and the packet object.
- TimeSeries.GeigerSeries.constructor: tables of 1024 to 65279 bytes. The linker scripts make them at least a kilobyte, and the device has four kilobytes of memory. `Conversation.RunReachesHost` asks for tables under 65024 bytes, so that the longest possible echo still fits the size field.
- FrameParser.Parser.HandleBytes: the packet parser behind it always exists, as the program sets one up; the type of a delivered frame is any byte, as in the code.
- MainLoop.Loop.SendTable: the cells of an intermediate table are taken at one instant, after the size: the code declares glitches there acceptable (firmware/main.c:372-393). What a size read too large sends from behind the table is the input `behind`.
- MainLoop.Loop.ReadSettled: reads the low byte of a word first, as the compiler for the device does; C leaves the order open.
- MainLoop.Loop.LoopPass: bytes the UART loses while the loop is busy are simply not among the bytes taken; the display step between switch and UART changes nothing the loop depends on and is modelled on its own, as `GeigerStats.Display`.
- MainLoop.Loop.HandleSwitch: between enabling the count interrupt and loading the timer no count event is modelled; such an event would fall into the first slot all the same.
- MainLoop.Loop.MainEventLoop: the Geiger personality's loop only. The analyser and sampling personalities share the loop and are modelled through their interrupt handlers and their tables.
- TableTransport.MeasurementReachesHost: asks that header, echo and table fit the 16-bit size field, which they do in the device's memory. What an overlong echo reads behind the buffer is the input `beyond`.
- ValueTable.HandleValueTable: asks that the payload holds the header and the parameters it counts (`Framed`). The code reads past the frame otherwise. Every table of the device is `Framed`.
- GeigerStats.Test1Exact: has no simpler condition than the test itself for rates above 2863311 with differences from 65536 to 242861, where both sides of the comparison wrap. Differences above 46340 overflow a signed 32-bit product, which C does not define; the model lets it wrap as the machine does.
- GeigerStats.ReadSample: reads each 16-bit cell of the record at one instant, although the interrupt may write that very cell between its bytes.
- Decimal.UintToAscii: values that do not fit the number of digits, and points beyond it, are outside what the code's comment describes.
- Histogram.Mca.OnConversion: the configured resolution of 10 bits; native widths of `table_element_inc` appear as the 16-bit cells of `TimeSeries`.
- The personality adc-int-mca-timed, which its own comment calls not working, and the Erlang emulator, which speaks an older protocol.
