# FreeRTOS+TCP demo: a Dafny model

The demo runs TCP echo and heartbeat programs on a Cortex-M3 board. Its own code, apart from the TCP
stack and the kernel, rests on four things, and this project models each and proves what it depends on.

* **The pseudo-random generator** (`Lcg`, `LcgOutput`, `RandomSource`, `TxData`). `uxRand` is a 32-bit
  linear congruential step that emits bits 16 to 30. The echo client redraws from it until a length is
  long enough, so whether a message is ever sent is a question about the generator's orbit. The proof
  goes by the sum 1 + a + ... + a^(n-1): it is divisible by exactly the powers of two that divide n
  when a is 1 modulo 4. From that follow the full period, the exact output period, the frequency of
  every output, and a termination measure for the rejection loop: the number of draws to a state whose
  output is 60.
* **The echo conversation** (`EchoServer`, `LinuxClient`, `EchoCalls`, `EchoSystem`, `EchoPair` for the pair on
  port 5001; `CStrings`, `EchoMessage`, `EchoConnection`, `EchoClient` for the RTOS client against an RFC
  862 peer). The step system's runs are proved to be exactly the interleavings of the two loops' calls.
  Transfer sizes are free in every step. The RTOS client compares with `strncmp` a buffer that holds a
  NUL after its header, so what the comparison can and cannot tell is stated exactly.
* **Register-level CMSIS code** (`MpuRegisters`, `Mpu`, `NvicPriority`, `NvicBanks`, `Nvic`,
  `BitReverse`, on `Words`, `Bits` and `Fields`). Registers react to writes as the ARMv7-M Architecture
  Reference Manual says: section B3.5 for the MPU, section B3.4 for the NVIC. Words are integers below
  2^32; `<<`, `>>`, `&`, `|` and `~` are defined on them and characterised bit by bit with symbolic
  shift amounts, so field widths and `__NVIC_PRIO_BITS` stay parameters.
* **Counters over whole runs** (`HealthMonitor`, `ClientRuns`, `Heartbeat`, `Sockets`). The health check is
  another task, so checks may come at any point of a connection.

Socket calls are not in this repository. Each loop takes what they return as an argument: a sequence
of results of any length, for which everything is proved. An endless loop is thereby modelled by all
its finite runs. Code that updates statics, buffers or registers is a class or a method with a loop,
proved against a function, and the theorems are about that function.

## Where code and documentation disagree

The model follows the code.

* The client's comment promises lengths from 20 up to the buffer size; the code yields 60 to the buffer
  size less 21, and never ends for buffers of 21 to 80 bytes (`TxData.LoopEndsExactly`).
* The client says it verifies the reply. It verifies the header: bytes after the header's terminator are
  never compared (`EchoMessage.ComparisonCoversAll`), and a reply cut off after the header passes
  (`EchoConnection.EchoPeerVerdict`).
* The health check is documented to fail when the number of cycles has not moved. It also fails when
  cycles were counted but connections were not, as a check in the middle of an exchange brings about for
  the next one (`ClientRuns.CheckedMeanwhileFails`), and when either count is a multiple of 2^32
  (`ClientRuns.WrappedProgressFails`); `HealthMonitor.AsDocumentedExactly` says exactly when it agrees
  with its comment. It also resets the connection counter that is described as being for inspection.
* The comment in the `__RBIT` loop says that the accumulator first gets the lowest bit; it gets the whole
  word, and the shifts push the rest out (`BitReverse.LastShift`).

## Model

| member | source | states |
|---|---|---|
| Lcg.StepOfNext | platform/main_networking.c:237 | a state one higher steps to one that is higher by 0x015a4e35, modulo 2^32 |
| Lcg.StepFromZero | platform/main_networking.c:237 | zero steps to one, which with the previous row fixes the step on every state |
| Lcg.DrawsClosedForm | platform/main_networking.c:235-239 | n draws from s lead to s plus the n-term sum of powers of the multiplier times an odd number, modulo 2^32 |
| Lcg.GeoValuation | platform/main_networking.c:235-239 | for any multiplier that is 1 modulo 4, the n-term sum and n are divisible by the same powers of two |
| Lcg.ResiduePeriod | platform/main_networking.c:235-239 | the low k bits of the state return exactly after multiples of 2^k draws, for every k up to 32 |
| Lcg.FullPeriod | platform/main_networking.c:235-244 | from every seed the state recurs after n draws if and only if 2^32 divides n |
| Lcg.VisitedExactlyOnce | platform/main_networking.c:235-244 | every 32-bit state is met exactly once in any 2^32 consecutive draws |
| Lcg.FlipBit | platform/main_networking.c:235-239 | 2^k draws keep the low k bits and flip bit k |
| Lcg.Distance | platform/main_networking.c:235-239 | any state reaches any other in fewer than 2^32 draws |
| Lcg.DistanceFalls | TCPEchoClient_SingleTasks.c:343-347 | each draw brings every other state one step closer: the termination measure of the rejection loop |
| LcgOutput.HalfPeriodFlip | platform/main_networking.c:235-239 | the output 2^30 draws later is the current one with bit 14 flipped |
| LcgOutput.OutputPeriod | platform/main_networking.c:235-239 | p is a period of the 15-bit output stream if and only if 2^31 divides p |
| LcgOutput.EachOutputEquallyOften | platform/main_networking.c:235-239 | each of the 2^15 values occurs exactly 2^16 times in any 2^31 consecutive draws |
| LcgOutput.CountBelowClosedForm | TCPEchoClient_SingleTasks.c:346-347 | how many outputs leave a remainder below the minimum length, in closed form |
| LcgOutput.RejectionRunBound | TCPEchoClient_SingleTasks.c:343-347 | a run of discarded draws, from any state, is at most the number of rejected outputs times 2^16 |
| RandomSource.Generator.Rand | platform/main_networking.c:235-239 | one call is one draw of the stream: shift and mask give bits 16 to 30, and the state advances by one step |
| RandomSource.SeedsAgreeExactly | platform/main_networking.c:235-251 | two clock readings seed the same stream of outputs if and only if they agree modulo 2^31 |
| RandomSource.Generator.GetNextSequenceNumber | platform/main_networking.c:257-264 | the sequence number is the next draw of the same stream, whatever the addresses and ports |
| RandomSource.Generator.GetRandomNumber | platform/main_networking.c:269-273 | always succeeds with the next draw of the stream |
| TxData.LoopEndsExactly | TCPEchoClient_SingleTasks.c:343-347 | from every generator state the rejection loop ends if and only if the buffer has at least 81 bytes or, by wrap-around, fewer than 20, and then the length fits only in the first case |
| TxData.LengthsChosenExactly | TCPEchoClient_SingleTasks.c:343-347 | the lengths that some seed leads to are exactly those from 60 to the buffer size less 21 that 15 bits can express |
| TxData.LongestRunForDemo | TCPEchoClient_SingleTasks.c:343-347 | with 1460-byte buffers at most 1380 * 2^16 draws in a row are discarded |
| TxData.ChooseLength | TCPEchoClient_SingleTasks.c:343-347 | the length is the first draw with remainder at least 60, found within the run bound; it and the state left behind are determined by the state before |
| TxData.CreateTxData | TCPEchoClient_SingleTasks.c:333-362 | additionally the buffer starts with that many characters of the 79-character cycle and is otherwise untouched |
| TxData.FillBuffer | TCPEchoClient_SingleTasks.c:350-359 | the character counter's wrap after '~' makes position i hold '0' + i mod 79 |
| CStrings.ValueOfDecimal | TCPEchoClient_SingleTasks.c:210 | printing a number in decimal and reading it back returns it |
| CStrings.DecimalDigits | TCPEchoClient_SingleTasks.c:210 | each character of a printed number is the decimal digit at its place |
| CStrings.NoLeadingZero | TCPEchoClient_SingleTasks.c:210 | no printed number but zero starts with a zero |
| CStrings.WordDecimalLength | TCPEchoClient_SingleTasks.c:210 | a 32-bit number prints in at most ten digits |
| CStrings.StrNCmpWindow | TCPEchoClient_SingleTasks.c:272 | strncmp over n characters with a string whose first NUL is at h depends on exactly the first min(n, h + 1) |
| EchoMessage.HeaderLength | TCPEchoClient_SingleTasks.c:209-210 | the header has 21 to 30 characters, none NUL, so it and its terminator fit in the shortest message |
| EchoMessage.MessageClosedForm | TCPEchoClient_SingleTasks.c:207-211 | each character of the message: header, NUL, then the cycle |
| EchoMessage.ComparisonWindow | TCPEchoClient_SingleTasks.c:272 | comparing any bytes with a message looks at the header and its terminator only |
| EchoMessage.EchoedPrefixVerdict | TCPEchoClient_SingleTasks.c:234-272 | with R bytes echoed in order on a zero-filled buffer, the comparison over T bytes succeeds if and only if R >= min(T, h) |
| EchoMessage.ComparisonCoversAll | TCPEchoClient_SingleTasks.c:270-283 | the comparison vouches for every transmitted byte if and only if at most h + 1 were transmitted |
| EchoMessage.NumbersToldApart | TCPEchoClient_SingleTasks.c:209-211 | comparing more than h characters tells apart messages with different 32-bit numbers, whatever their lengths |
| EchoConnection.OutcomeExactly | TCPEchoClient_SingleTasks.c:196-295 | for every environment and message, when a connection ends as not connected, with a send error, a receive error, no reply, or a reply to compare |
| EchoConnection.CollectExactly | TCPEchoClient_SingleTasks.c:238-262 | for all receives: all that arrived, or the error that ended it, if less than was transmitted; else what came up to and with the receive that made it enough, cut to the message length |
| EchoConnection.ReplyVerdict | TCPEchoClient_SingleTasks.c:264-295 | any reply at all counts as a cycle if and only if it shows the header, then a NUL or nothing, as far as was transmitted |
| EchoConnection.CollectEcho | TCPEchoClient_SingleTasks.c:238-262 | against an in-order peer the receive loop ends with everything that arrived, in any pieces, unless an error comes before the last byte |
| EchoConnection.EchoPeerVerdict | TCPEchoClient_SingleTasks.c:204-295 | the exact outcome of a connection with an RFC 862 peer, for every send result and every division of the reply into receives |
| EchoClient.Client.ComposeMessage | TCPEchoClient_SingleTasks.c:207-211 | the transmit buffer holds the closed-form message with the current number and the length that the generator state gives; number and generator then advance |
| EchoClient.Client.Receive | TCPEchoClient_SingleTasks.c:240-243 | a receive writes at most the space offered, at its offset, and nothing else |
| EchoClient.Client.ReceiveReply | TCPEchoClient_SingleTasks.c:232-262 | the receive loop ends, stays inside the buffer, and leaves the received bytes on a zero-filled background or a latched error |
| EchoClient.Client.Exchange | TCPEchoClient_SingleTasks.c:207-295 | from composing the message to judging the reply: the outcome is the verdict on the message that generator state and number determine, and generator, number, failure and cycle counters move by that outcome alone |
| EchoClient.Client.Converse | TCPEchoClient_SingleTasks.c:198-295 | the connected branch: the connection is counted before and the cycle after any checks made meanwhile |
| EchoClient.Client.RunConnection | TCPEchoClient_SingleTasks.c:196-322 | one pass of the outer loop takes generator, number, outcomes and event history to the next point of the run |
| EchoClient.Client.RunTask | TCPEchoClient_SingleTasks.c:179-394 | over any run, interleaved with any checks: outcomes, generator, message numbers and history are those of the run, health counters and reports those of the history, and sockets are created and closed in turn |
| ClientRuns.GeneratorAdvances | TCPEchoClient_SingleTasks.c:196-207 | a pass advances the generator by the draws of others and, only if it connects, by the draws up to the first accepted length |
| ClientRuns.MessageLengths | TCPEchoClient_SingleTasks.c:207 | messages have 60 to 1439 characters, and each of these lengths is sent from some generator state |
| ClientRuns.NumbersConsecutive | TCPEchoClient_SingleTasks.c:209-211 | each connection made uses the next message number, attempts that do not connect use none |
| ClientRuns.CyclesCounted | TCPEchoClient_SingleTasks.c:201-275 | after any run the cycle counter is the number of cycles modulo 2^32, however many checks came in between |
| ClientRuns.UncheckedConnections | TCPEchoClient_SingleTasks.c:201-211 | without checks the connection counter stays equal to the message number |
| ClientRuns.CountersBalance | TCPEchoClient_SingleTasks.c:198-322 | before wrap, cycles plus failures are at most the messages numbered, and the difference is exactly the send errors, receive errors and missing replies |
| ClientRuns.FailedSendsCountNothing | TCPEchoClient_SingleTasks.c:196-228 | a run that never connects or whose sends all fail counts no cycle and no mismatch, and no check after it passes |
| EchoClient.Client.StillRunning | TCPEchoClient_SingleTasks.c:365-394 | the check passes if and only if cycles and connections since the previous check in the history are both nonzero modulo 2^32; it becomes part of the history |
| HealthMonitor.CountersMeasureSinceCheck | TCPEchoClient_SingleTasks.c:365-394 | kept by every step: the recorded connection count is 0 and both counters measure from the last check |
| HealthMonitor.PassesExactly | TCPEchoClient_SingleTasks.c:365-394 | after any interleaving a call passes if and only if cycles and connections since the previous call are both nonzero modulo 2^32 |
| HealthMonitor.PassesMeansProgress | TCPEchoClient_SingleTasks.c:365-394 | before a counter can wrap, a call passes if and only if cycles and connections were both counted since the previous one |
| HealthMonitor.AsDocumentedExactly | TCPEchoClient_SingleTasks.c:370-390 | the check agrees with its comment, which speaks of cycles alone, if and only if there was no cycle or both counts are nonzero modulo 2^32; it never passes without a cycle |
| ClientRuns.CheckedMeanwhileFails | TCPEchoClient_SingleTasks.c:370-390 | from every seed, one echo with a check while it is under way, after which the next check reports failure despite a cycle, without any wrap |
| ClientRuns.ChecksBetweenPassesAsDocumented | TCPEchoClient_SingleTasks.c:365-394 | over any run with checks between passes only, and fewer than 2^32 connections apart, the check agrees with its comment |
| ClientRuns.WrappedProgressFails | TCPEchoClient_SingleTasks.c:374-377 | from every seed, a run of the client with 2^32 cycles and 2^32 + 1 connections that the check reports as failure |
| EchoServer.EchoIsSubsequence | app/demos/demo_echo_server.c:88-108 | whatever the sends return, the echo is an order-preserving subsequence of what came in |
| EchoServer.EchoFaithfulExactly | app/demos/demo_echo_server.c:88-108 | the echo equals what was received if and only if no send took less than its chunk |
| EchoServer.Server.Recv | app/demos/demo_echo_server.c:88-92 | a receive fills at most the front of the buffer and leaves the rest |
| EchoServer.Server.OnePass | app/demos/demo_echo_server.c:88-108 | one pass sends a prefix of what it received, at most 127 bytes, and never older buffer contents |
| EchoServer.Server.Serve | app/demos/demo_echo_server.c:86-109 | one connection receives and echoes what its passes do, and makes their socket calls, up to and with the first receive that brings nothing |
| EchoServer.Server.Run | app/demos/demo_echo_server.c:64-113 | each accepted connection is served by itself; failed accepts are skipped |
| LinuxClient.OnePass | linux/tcp_client.c:55-72 | one pass of the select loop reads the received chunk out of the shared buffer before the typed line overwrites it, and stops exactly when the socket has ended |
| LinuxClient.ReadySocketIsRead | linux/tcp_client.c:55-63 | a socket ready with bytes gives up to 511 of them, whatever the terminal holds |
| LinuxClient.ReadyTerminalIsSent | linux/tcp_client.c:66-72 | up to 511 typed bytes are sent as read, whatever the socket holds; a terminal with nothing to read sends nothing |
| LinuxClient.Run | linux/tcp_client.c:41-73 | the loop makes the socket calls of its passes up to the one that stops it, and collects what they got |
| EchoSystem.InvariantAlways | app/demos/demo_echo_server.c:86-109 | in every reachable state, with any sends: no byte is invented, reordered or duplicated on its way to the server and back |
| EchoSystem.LossesBalance | app/demos/demo_echo_server.c:104-108 | bytes in equal bytes out plus bytes under way plus bytes dropped by short sends |
| EchoSystem.ConservationExactly | app/demos/demo_echo_server.c:86-109 | in every reachable state, received ++ stream back ++ held chunk ++ stream to the server equals what was sent if and only if no server send was short |
| EchoSystem.InternalStepsBounded | app/demos/demo_echo_server.c:86-109 | without new input there are at most as many steps as the weighted bytes under way |
| EchoSystem.NotStuck | linux/tcp_client.c:55-63 | while the server serves, a step is possible if and only if bytes are under way |
| EchoSystem.QuiescentDelivery | linux/tcp_client.c:55-72 | at quiescence the client has received exactly what it sent, respectively what was typed, if and only if no send was short |
| EchoSystem.EchoCompletes | app/demos/demo_echo_server.c:86-109 | every run without loss can be completed by internal steps alone, without new input, to full delivery |
| EchoPair.CallsAreRun | app/demos/demo_echo_server.c:86-109 | from any state in which the server is about to receive, every interleaving of client and server calls over FIFO streams is a run of the system, and leads to the state that the bytes moved say |
| EchoPair.LoopsAreRun | linux/tcp_client.c:41-73 | every interleaving of the socket calls of client loop and server loop is a run of the echo system, at every point of either loop |
| EchoPair.RunsAreSchedules | app/demos/demo_echo_server.c:86-109 | the runs of the system, with or without the server giving up, are exactly those interleavings |
| EchoPair.FinishedLoops | linux/tcp_client.c:41-73 | that run gets, sends, consumes and echoes what each loop was proved to do by itself |
| EchoPair.LoopsConserve | app/demos/demo_echo_server.c:86-109 | for the two loops: got ++ under way back ++ under way to the server equals sent if and only if no server send was short; what the client got is always an order-preserving subsequence of what it sent |
| EchoPair.LoopsDeliver | linux/tcp_client.c:55-72 | once nothing is under way the client loop has got what it sent, respectively what was typed, if and only if no server send, respectively no send at all, was short |
| Heartbeat.LineFits | tcp_heartbeat_demo.c:106-109 | a heartbeat has 13 to 22 characters, so the 64-byte buffer never truncates it |
| Heartbeat.DecodeStream | tcp_heartbeat_demo.c:106-114 | a stream of whole heartbeats decodes to exactly its numbers |
| Heartbeat.SentWholeExactly | tcp_heartbeat_demo.c:104-123 | the accepted bytes are the whole heartbeats if and only if every accepted send took its whole line |
| Heartbeat.CarriedDecodes | tcp_heartbeat_demo.c:104-123 | a connection's bytes decode to the numbers accepted on it if and only if every accepted send took its whole line |
| Heartbeat.OneNumberSkipped | tcp_heartbeat_demo.c:92-126 | the first number a connection carries is two more, modulo 2^32, than the last its predecessor carried; failed connects use none |
| Heartbeat.NumbersBeforeWrap | tcp_heartbeat_demo.c:106-109 | before the counter wraps, accepted numbers are the count of sends tried before them in the whole run |
| Heartbeat.Task.NextLine | tcp_heartbeat_demo.c:106-109 | the buffer holds the heartbeat with the current number and the counter advances, wrapping |
| Heartbeat.Task.Beat | tcp_heartbeat_demo.c:104-123 | one connection carries consecutive numbers up to the first failed send, and the failed one is used up |
| Heartbeat.Task.Once | tcp_heartbeat_demo.c:49-126 | one pass of the outer loop with its socket, which is closed after a failed connect and after a failed send |
| Heartbeat.Task.Run | tcp_heartbeat_demo.c:49-127 | over any run: what every connection carries, the counter, and sockets created and closed in turn, one still open at the end only if its sends have not failed |
| MpuRegisters.RbarParts | CMSIS/core_cm3.h:1203-1211 | the masks of the header cut out VALID as bit 4, the region as the remainder modulo 16 and the address in units of 32 bytes |
| MpuRegisters.OneRow | CMSIS/mpu_armv7.h:230-235 | one row selects its region, gives it base and attributes and leaves every other region alone |
| MpuRegisters.AliasesSetRegions | CMSIS/core_cm3.h:1161-1176 | up to four rows pushed through the aliases are rows set one at a time |
| MpuRegisters.SetRegionsAppend | CMSIS/mpu_armv7.h:277-284 | loading a table in pieces is loading it whole |
| MpuRegisters.TargetExactly | CMSIS/core_cm3.h:1203-1211 | a row with VALID set targets the region number it carries, any other the region targeted before it |
| MpuRegisters.LastEntryWins | CMSIS/mpu_armv7.h:230-235 | each region ends as the last row that targets it, where rows without VALID target the region selected before |
| MpuRegisters.RbarFields | CMSIS/mpu_armv7.h:76-79 | the RBAR macro selects the region modulo 16 and carries the address rounded down to 32 bytes |
| MpuRegisters.RasrBit | CMSIS/mpu_armv7.h:89-125 | every bit of the RASR macro's word |
| MpuRegisters.RasrAccessFields | CMSIS/mpu_armv7.h:89-93 | TEX, S, C and B read back as given, each truncated to its width |
| MpuRegisters.RasrSizeFields | CMSIS/mpu_armv7.h:104-110 | sub-region disable and size read back as given, truncated |
| MpuRegisters.RasrPermission | CMSIS/mpu_armv7.h:104-110 | access permission reads back as given, truncated |
| MpuRegisters.RasrExecuteNever | CMSIS/mpu_armv7.h:104-110 | execute-never reads back as given, truncated |
| MpuRegisters.RasrEnables | CMSIS/mpu_armv7.h:104-110 | the region is enabled |
| MpuRegisters.LastDescriptorWins | CMSIS/mpu_armv7.h:272-285 | loading a table of macro-built rows configures each region as the last row naming it says, whatever was selected before |
| Mpu.Unit.OrderedMemcpy | CMSIS/mpu_armv7.h:256-266 | the copy performs the register writes in order, all between RBAR and RASR_A3 |
| Mpu.Unit.ConfigureRegion | CMSIS/mpu_armv7.h:230-235 | setting a region writes RBAR, then RASR |
| Mpu.Unit.Load | CMSIS/mpu_armv7.h:272-285 | for every table and count the registers end as after setting the rows one at a time |
| NvicPriority.WidthsSum | CMSIS/core_cm3.h:1697-1702 | preempt and sub widths sum to the priority bits, for every group and 1 to 8 bits, through the unsigned wrap |
| NvicPriority.EncodeThenDecode | CMSIS/core_cm3.h:1693-1736 | decoding an encoded priority returns both parts modulo their widths |
| NvicPriority.DecodeThenEncode | CMSIS/core_cm3.h:1693-1736 | decoding any word and encoding its parts returns it modulo 2^bits |
| NvicPriority.DecodePriority | CMSIS/core_cm3.h:1722-1736 | the decoded parts of any word fit their fields and encode back to the word modulo 2^bits |
| NvicPriority.OrderIsLexicographic | CMSIS/core_cm3.h:1693-1708 | numeric order of priorities is lexicographic order of preempt and sub |
| NvicPriority.StoredOrder | CMSIS/core_cm3.h:1646-1657 | stored priority bytes are in that order too |
| NvicPriority.HardwareOrder | CMSIS/core_cm3.h:1646-1736 | preempt parts compare as bits 7 to g + 1 of the stored bytes do, sub parts as the bits below, for every word, group g and 1 to 8 bits: the split that the group prescribes |
| NvicPriority.StoreThenLoad | CMSIS/core_cm3.h:1646-1679 | a stored priority reads back modulo 2^bits |
| NvicPriority.ProgrammedPriority | CMSIS/core_cm3.h:1646-1736 | encode, store, load and decode return both parts modulo their widths |
| NvicBanks.CallsRefine | CMSIS/core_cm3.h:1516-1613 | every sequence of enable, disable, set-pending and clear-pending calls is that sequence on two sets of interrupt numbers |
| NvicBanks.LastEnableDecides | CMSIS/core_cm3.h:1516-1562 | after any sequence an interrupt is enabled if and only if the last enable or disable naming it was an enable |
| NvicBanks.LastPendingDecides | CMSIS/core_cm3.h:1573-1613 | the same for pending |
| Nvic.Controller.EnableIRQ | CMSIS/core_cm3.h:1516-1524 | the register write enables that interrupt and no other |
| Nvic.Controller.GetEnableIRQ | CMSIS/core_cm3.h:1535-1545 | answers membership in the enabled set, 0 for exceptions |
| Nvic.Controller.DisableIRQ | CMSIS/core_cm3.h:1554-1562 | the register write disables that interrupt and no other |
| Nvic.Controller.GetPendingIRQ | CMSIS/core_cm3.h:1573-1583 | answers membership in the pending set, 0 for exceptions |
| Nvic.Controller.SetPendingIRQ | CMSIS/core_cm3.h:1592-1598 | the register write pends that interrupt and no other |
| Nvic.Controller.ClearPendingIRQ | CMSIS/core_cm3.h:1607-1613 | the register write clears that interrupt and no other |
| Nvic.Controller.SetPriority | CMSIS/core_cm3.h:1646-1657 | one interrupt or exception gets the priority modulo 2^bits and every other keeps its own |
| Nvic.Controller.GetPriority | CMSIS/core_cm3.h:1669-1679 | returns the stored priority |
| Nvic.HandlerSlotExists | CMSIS/core_cm3.h:1655 | exactly the exceptions from -12 on have a handler priority register |
| Nvic.Controller.SetPriorityGrouping | CMSIS/core_cm3.h:1485-1496 | the unlock write is accepted, puts the group modulo 8 in force and gives back every other bit |
| Nvic.Controller.GetPriorityGrouping | CMSIS/core_cm3.h:1504-1507 | returns the group in force |
| Fields.Val2FldBit | CMSIS/core_cm3.h:1365 | every bit of an inserted field |
| Fields.FieldValue | CMSIS/core_cm3.h:1373 | an extracted field as a quotient and remainder |
| Fields.ExtractCarried | CMSIS/core_cm3.h:1365-1373 | extracting returns what a word carries in a field, truncated to its width |
| BitReverse.LastShift | CMSIS/cmsis_gcc.h:1116-1124 | after the early exit the final shift completes the reversal and drops the rest of the initial word |
| BitReverse.Rbit | CMSIS/cmsis_gcc.h:1114-1126 | the loop returns the reversed word, for every word |
| BitReverse.ReversedBit | CMSIS/cmsis_gcc.h:1105-1127 | reversal puts bit i at bit 31 - i |
| BitReverse.ReversedTwice | CMSIS/cmsis_gcc.h:1105-1127 | reversing twice is the identity |
| BitReverse.RorBit | CMSIS/cmsis_gcc.h:1075-1086 | rotating right by k moves bit (i + k) mod 32 to bit i |
| BitReverse.RorAdds | CMSIS/cmsis_gcc.h:1075-1086 | rotations add up modulo 32 |
| BitReverse.ReversedRor | CMSIS/cmsis_gcc.h:1075-1127 | reversal turns a rotation round |

## Left out

- The FreeRTOS kernel and the FreeRTOS+TCP stack are not part of this model; socket calls appear through their results only.
- TxData.CreateTxData: requires a buffer of at least 81 bytes, because for 21 to 80 bytes the loop never ends, 20 divides by zero and fewer than 20 overrun the buffer; `TxData.LoopEndsExactly` covers those lengths.
- EchoClient.Client.Exchange: after a mismatch continues as the code behind the assertion does; in this build the assertion itself spins until a debugger steps past it.
- The drain loop after shutdown and its tick timing: it only fills the receive buffer, which the next connection clears before use.
- EchoClient.Client.RunTask: one client instance, as configured; socket creation is taken to succeed, which the code asserts.
- Other callers drawing random numbers while a length is being chosen, and preemption inside a counter update or a health check: these are single steps. Draws by others before a length is chosen are part of the environment.
- MpuRegisters.WriteRasr: reserved bits are kept as written, and regions beyond those the part implements, which the architecture leaves unpredictable, are stored like the others.
- Interrupts raised by hardware, active and vector-table registers, barriers: the enabled and pending sets change by software writes only.
- `__RBIT` as a single instruction: the loop modelled is the fallback for cores without it.
- Clearing an MPU region, which selects it and zeroes its attributes, and setting one with its number given separately.
- Enabling and disabling the MPU, system reset, SysTick set-up: fixed sequences of writes to control registers.
- Printed output, fault handlers, start-up code, demo selection, build files, and the two Linux server programs, which repeat the echo or print loop.
