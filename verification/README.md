# Scoreboard controller: a verified model

A Dafny model of the Pico W firmware that drives an SK2229R scoreboard. It covers the parts where
several tasks share state, where a hidden piece of hardware is inferred from what it sends, and where
bytes from outside are parsed. `dafny verify dfyconfig.toml` checks all of it.

## What is modelled

- **The shared scoreboard** (`Scoreboard`, with the clock rules in `Decode`). `ScoreboardState` is one
  mutex-protected object. Each lock-held region is one atomic step at one time `now` in milliseconds.
  `Board` is the object's value and `Exec` says what each region does to it; the methods of the class
  are proved to do just that. `EVENTS` is its version counter.
- **Event streams** (`Streams`): up to four `/api/events` streams, interleaved in any way with regions
  of every other task, passing time, connections and disconnections.
- **Run and stop** (`RunStop`, `Repulse`). GP1 toggles a run bit that the firmware cannot read.
  `RunStop` puts that physical bit beside the firmware and proves when the firmware's idea of it is
  right. `Repulse` needs no assumption about the board and bounds how often GP1 is pulsed.
- **The command loop** (`BoardTask`, `Train`): commands, the pulses they cause, a physical panel that
  only pulses move, and the train of min and sec pulses of a set-timer command.
- **DHCP** (`Leases`, `LeaseWrap`, `DhcpPacket`, `DhcpServer`): the lease table against a recency
  list, with what the wrap of its counter does to that, the option codec (sections 3.1, 3.2 and 9.6 of
  RFC 2132) and `dhcp_task` over whole runs.
- **DNS and mDNS** (`Names`, `Dns`, `Mdns`, `StaleBytes`): compressed names (section 4.1.4 of
  RFC 1035), the hijack reply, the answers to `scoreboard.local` and `sb.local`, and what they owe to
  bytes an earlier packet left in the buffer.
- **Byte streams** (`Framing`, `Hex`, `UartRx`, `Ota`): the clock-frame framer, the hex printer and
  parser, the receive counters of the UART probe, and the firmware upload.

`Words` holds the machine words and facts about slices.

Code that the firmware runs on mutable state is a class or a method over arrays, proved against a
function on values; the properties are then proved of that function.

## Where the code does not do what one would expect

Each of these is a lemma with a concrete input, and beside it stands the exact condition under which
the code is right.

- `README.md:184` of the firmware promises one event per visible change. A change between
  `try_changed` and the first snapshot makes a stream send the same event twice (`EventCanRepeat`,
  `EventRepeatsExactlyWhen`, `FirstEventRepeatsExactlyWhen`), though never three times (`NoEventThrice`).
- Starting a clock that was stopped, while the last MM:SS change is under 2 s old, loses the pending
  start, and at the 2 s mark the firmware takes the running clock for stopped (`StartTooSoonFails`,
  `ExactUnlessMisjudged`).
- A tick that reaches UART after the stop pulse misleads the firmware once that stop is no longer
  pending, until the tick is 2 s old; a stop or toggle request then starts the clock
  (`LateTickMisleads`, `InferenceIsExact`, `ExactUnlessMisjudged`).
- A set-timer train on a board that echoes min and sec pulses on UART can pulse GP1 on a clock that was
  never running (`EchoRestops`, `EchoMakesRestop`, `RestopsExactlyWhenDue`).
- A set-timer train can pulse GP1 two seconds after the stop, on the clock it had stopped and with UART
  frozen all the while, if a tick came behind that stop: behind an earlier one still pending
  (`OverdueRestops`, `OverduePassStarts`, `SilentUnlessOverdue`), or in the 50 ms of the command's own
  stop pulse (`TickBetweenLocks`, `TickBetweenLocksRestops`). `TrainIsSilentExactlyWhen` covers both.
- A display that stays at 96 minutes keeps a framer that starts inside a frame out of step for ever,
  reading check bytes as seconds, because 96 is the start byte (`CanStayOutOfStep`,
  `InStepExactlyWhen`).
- The lease table stops being least-recently-used when its counter wraps: the client served last is
  the next one evicted (`WrapEvictsNewest`, `LruExactlyUntilWrap`, `LruThroughoutExactlyWhen`).
- The answer to an mDNS query with a compression pointer can depend on bytes left in the buffer by an
  earlier packet (`StaleBytesCanDecide`, `AnswerSettledExactlyWhen`).

## Model

| member | source | states |
|---|---|---|
| Decode.ParseClockPacket | src/decode.rs:24-34 | what is accepted is displayable; exactly what is accepted is `ParsesExactlyWhenSent` |
| Decode.ParsesExactlyWhenSent | src/decode.rs:24-34 | a packet reads as a time if and only if it is the start byte, any check byte, any byte, that time up to 99:59, and any byte; and as nothing if and only if it is no such frame |
| Scoreboard.ScoreboardState.constructor | src/main.rs:190-212 | the boot state: 7:30, stopped, 0-0, already announced |
| Scoreboard.ScoreboardState.Publish | src/main.rs:259-266 | announces the visible fields and sends one wake if they differ from the last announced, else neither |
| Scoreboard.ScoreboardState.RefreshRunning | src/main.rs:249-257 | the state and wakes of a refresh: UART `running`, the resolved pending request, then publish |
| Scoreboard.ScoreboardState.SetClock | src/main.rs:215-222 | the state after a frame: the age baseline moves only when MM:SS changes |
| Scoreboard.ScoreboardState.StartStopPulseFor | src/main.rs:268-280 | the pulse decision and the pending state it records, without writing `running` |
| Scoreboard.AnnouncedIsVisible | src/main.rs:259-266 | at every lock release of every task the announced view is the visible one, with one wake per change of it and none otherwise |
| Scoreboard.NoWakeMeansClockUntouched | src/main.rs:215-222 | a region that sends no wake has left the visible fields and the age baseline alone |
| Streams.OneWakePerChange | src/main.rs:119-122 | in every reachable state each step sends one wake exactly when one of the six visible fields differs from the view announced before, and then announces them |
| Streams.SnapshotsFollowHistory | src/main.rs:685-697 | what a stream has been sent is, in order, taken from the history of announced views, in which neighbours differ |
| Streams.NoLostUpdate | src/main.rs:717-751 | under every interleaving a waiting stream whose last event differs from the scoreboard in any visible field has an unseen wake, and serving it sends all six as they are |
| Streams.StopDeadlineArmed | src/main.rs:699-730 | a waiting stream with no unseen wake and a running clock has its timer armed for the 2 s mark, or 1 ms after arming if that is later |
| Streams.StopTimerPublishesFlip | src/main.rs:736-747 | that timer, when it fires, publishes the flip to stopped and the stream goes on to send it |
| Streams.EventRepeatsExactlyWhen | src/main.rs:722-734 | with no further wake a stream sends again what it has just taken if and only if its receiver was behind when it took it, or the snapshot's own refresh flipped the clock |
| Streams.FirstEventRepeatsExactlyWhen | src/main.rs:722-734 | whatever wakes came before it connected, a stream sends its first event again, with no further wake, if and only if one came between its dropping the old signals and that snapshot, or the snapshot's own refresh flipped the clock |
| Streams.WaitsUntilDue | src/main.rs:725-735 | a stream that has seen every wake waits undisturbed, under any traffic, until the next wake or until one of its timers is due |
| Streams.WaitsAreBounded | src/main.rs:699-731 | in every reachable state a waiting stream's keepalive is due 10 s after arming, and its other timer within 2 s or after 30 s |
| Streams.TurnsAwayExactlyTheFifth | src/main.rs:102-122 | after any run a connection is turned away if and only if four streams are open |
| Streams.DisconnectMakesRoom | src/main.rs:680-684 | closing a stream in any phase makes room for another |
| Streams.NoEventThrice | src/main.rs:717-751 | over every run no event is sent three times |
| Streams.EventCanRepeat | src/main.rs:722-734 | a run in which a stream is sent the same event twice |
| Streams.RunKeepsInv | src/main.rs:717-751 | history, clock, sent-event and deadline invariants hold after every run from boot, with at most four streams |
| RunStop.InferenceIsExact | src/main.rs:268-280 | over every run without misjudged requests, whatever the lag of UART, the run state after a refresh is the physical run bit exactly when no late tick misleads it, which ends within the lag and 2 s of the stop; otherwise a start or stop pulses exactly when it must |
| RunStop.SpacedIsNotMisjudged | src/decode.rs:18-21 | a request the lag and 2 s after the last pulse, or one that repeats a state the firmware knows, is never misjudged |
| RunStop.ExactUnlessMisjudged | src/decode.rs:76-87 | the inference survives a request under every honest continuation if and only if the request is not misjudged: neither a hasty start nor a stop or toggle of a misled firmware |
| RunStop.StartTooSoonFails | src/decode.rs:76-87 | a concrete allowed run whose next start breaks the inference |
| RunStop.LateTickMisleads | src/decode.rs:61-64 | a concrete run with one late tick, 2 s after whose stop the firmware is misled |
| RunStop.SelfStabilises | src/decode.rs:18-21 | from any world at all, after the lag and 2 s without a request the firmware knows the run bit, and goes on knowing it, late ticks apart, while requests are not misjudged |
| RunStop.RefreshIsExact | src/main.rs:249-257 | a refresh of any world in step yields the physical bit and stays in step |
| Repulse.NoSpuriousRepulse | src/main.rs:268-280 | under any UART timing two GP1 pulses for the same goal, with no other pulse or reset between, are 2 s apart or some refresh between saw UART agree |
| Repulse.StopIsFinalUnlessOverdue | src/main.rs:268-280 | with MM:SS frozen after a stop request no later stop ever pulses, if and only if no earlier stop was overdue when the request came |
| Repulse.CalmNeverPulses | src/decode.rs:61-87 | from a calm state no trace of frozen regions pulses GP1 |
| Repulse.SettledUnlessOverdue | src/decode.rs:69-87 | the state a stop request leaves, judged from the state before it; a request that pulses always settles |
| BoardTask.Driver.StartStopCommand | src/main.rs:835-878 | pulses GP1 exactly when the decision says so |
| BoardTask.Driver.HomeCommand | src/main.rs:879-918 | score, owed decrements and panel after a home command, both guards and both branches |
| BoardTask.Driver.AwayCommand | src/main.rs:919-958 | the same for away |
| BoardTask.Driver.ClearCommand | src/main.rs:959-974 | both scores and both owed decrements go to 0, with one clear pulse |
| BoardTask.Driver.ResetCommand | src/main.rs:975-989 | the state after a reset command; what that means for the train and for later requests is in the next two rows |
| BoardTask.ResetEndsTrain | src/main.rs:975-989 | after a reset no run without another set-timer command pulses min or sec, whatever was still to be pulsed |
| BoardTask.ResetForgetsRequests | src/main.rs:975-989 | and after any run without a request the next start or stop pulses GP1 if and only if UART shows the opposite |
| BoardTask.Driver.LedCommand | src/main.rs:817-834 | sets the LED field and publishes |
| BoardTask.Driver.SetTimerCommand | src/main.rs:996-1016 | clamps the target and stops the clock, as the first of two locks |
| BoardTask.Driver.RunCommand | src/main.rs:815-1038 | every command's effect on the shared state, the counters and the panel |
| BoardTask.Driver.TakeSnapshot | src/main.rs:1017-1019 | the deltas from the time UART shows at the second lock |
| BoardTask.Driver.DrainOne | src/main.rs:1042-1074 | one pass with no command waiting: owed decrements first, then re-stop, then minutes, then seconds |
| BoardTask.StepKeepsBalance | src/main.rs:879-974 | any step keeps panel score = Pico score + owed decrements, scores within 0 to 99 |
| BoardTask.ScoresAreConserved | src/main.rs:802-803 | over every run from boot the panel shows exactly the Pico's scores and both decrement counters are always 0 |
| BoardTask.RunStaysDated | src/main.rs:182-185 | in every reached state the recorded instants lie in the past and a pending request has one |
| BoardTask.PulsesAsAsked | src/main.rs:835-878 | a toggle always pulses GP1, a start, stop or set-timer if and only if the state after the refresh, pending or else UART's, is the opposite, and no other command does; afterwards that state is the one asked for |
| BoardTask.CommandsAddUp | src/main.rs:815-1038 | over every run from boot: both scores, the LED, and the reset and aux pulses are what the commands taken add up to, scores clamped to 0 to 99 at each |
| BoardTask.CommandsInterruptTrains | src/main.rs:806-815 | at any loop head a command is taken at once, pulses pending or not |
| BoardTask.OwedDecrementsFirst | src/main.rs:879-958 | while decrements are owed, commands for that score press nothing and a pass works off decrements only |
| Train.TrainStaysOnTrack | src/main.rs:1048-1073 | with a frozen clock, at every loop head display + pending = target, each pass is one pulse toward it, and GP1 is silent |
| Train.SetTimerBeginsTrain | src/main.rs:1007-1030 | a set-timer command begins a train toward the clamped target, with at most 158 pulses to go and at most one GP1 pulse before it |
| Train.SetTimerReachesTarget | src/main.rs:996-1031 | from any reached state and under any UART traffic: once the train has run dry the display is the clamped target, after exactly as many pulses as it was away, at most 158 |
| Train.SilentExactlyWhen | src/main.rs:1051-1059 | from any state, no train on a frozen clock pulses GP1 if and only if there is nothing to pulse or neither a change behind the stop nor an unconfirmed start will make the re-stop fire |
| Train.TrainIsSilentExactlyWhen | src/main.rs:1007-1059 | the same for a set-timer command in any reached state, judged at its snapshot, whatever UART showed between its two locks |
| Train.SilentUnlessOverdue | src/main.rs:1009-1016 | with no change between the two locks, the same judged before the command: no earlier stop was overdue, or the change behind it is 2 s old at the snapshot |
| Train.TickBetweenLocksRestops | src/main.rs:1012-1018 | a tick between the two locks of a command that stops a running clock makes a pass 2 s later start it |
| Train.TickBetweenLocks | src/main.rs:996-1059 | such a run from boot |
| Train.OverduePassStarts | src/main.rs:1051-1059 | a pass between the expiry of the overdue stop and the 2 s mark of the change pulses GP1 |
| Train.OverdueRestops | src/main.rs:996-1059 | a run from boot in which the third GP1 pulse starts the clock that the second had stopped |
| Train.DrainingFinishes | src/main.rs:806-813 | once commands stop, as many passes as pulses left, each enabled, end the train at the target |
| Train.AnyTrainKeepsTarget | src/main.rs:1051-1073 | whatever UART shows and whoever starts or stops the clock, display + pending stays the target and each min or sec pulse takes one off |
| Train.MinutesBeforeSeconds | src/main.rs:1060-1073 | over any traffic seconds are not pulsed while a minute is still to go |
| Train.RestopsExactlyWhenDue | src/main.rs:1051-1059 | exact condition under which a pass pulses GP1 instead of min or sec |
| Train.EchoMakesRestop | src/main.rs:1055-1058 | the echo of a pulse on UART makes the next pass within 2 s pulse GP1, unless a stop is itself under 2 s old |
| Train.EchoRestops | src/main.rs:1055-1058 | a run from boot in which the echo of one min pulse makes GP1 pulse on a stopped clock |
| Leases.FindMac | src/net_proto.rs:122 | the first slot holding the MAC, or none |
| Leases.SlotForMac | src/net_proto.rs:121-149 | the slot returned and the whole new table: hit, else empty slot, else the oldest, with a wrapping counter |
| Leases.Oldest | src/net_proto.rs:135-142 | the evicted slot has the least stamp, and is the last of equals |
| Leases.ServeRefinesLru | src/net_proto.rs:119-149 | one call refines one step of a recency list: hit to the front, else first free slot, else the last holder's |
| LeaseWrap.LruExactlyUntilWrap | src/net_proto.rs:143 | after a real client's request the table hands out the recency list's slots to whoever asks next, if and only if the counter did not wrap, a slot is free, or there is only one |
| LeaseWrap.WrapEvictsNewest | src/net_proto.rs:135-148 | a run of 2^32 requests from the empty table after which the next newcomer, whoever it is, evicts the client served last |
| LeaseWrap.LruThroughoutExactlyWhen | src/net_proto.rs:121-149 | a run of any length from the empty table gives every client the recency list's slot if and only if at every eviction the request counts modulo 2^32 still put the least recently used first |
| LeaseWrap.SameEpochTells | src/net_proto.rs:135-143 | which they do when the counter has not wrapped between the last uses of the holders |
| Leases.BootRefinesLru | src/net_services.rs:37-38 | from the empty table every run of fewer than 2^32 requests is the recency list |
| Leases.LeaseIsRetained | src/net_proto.rs:119-149 | a client keeps its slot while fewer distinct others than slots were served |
| Leases.LeaseIsKeptExactlyWhen | src/net_proto.rs:119-149 | and loses it otherwise: kept if and only if fewer distinct others than slots were served |
| DhcpPacket.FindOption | src/net_proto.rs:18-45 | the scan, including packets too short, without the magic, or with a truncated option |
| DhcpPacket.FindsFirstMatch | src/net_proto.rs:18-45 | on every packet the result is the first option with that code in the packet's option list |
| DhcpPacket.ReadsTypeAndAddress | src/net_proto.rs:18-53 | the message type is the first byte of the packet's first option 53 and the address asked for its option 50 if that has four bytes |
| DhcpPacket.DecodesEncoded | src/net_proto.rs:22-43 | an encoded option list, ended by END or the packet's end, reads back as itself |
| DhcpPacket.EncodeThenFind | src/net_proto.rs:18-53 | encode then find gives the first match, whatever follows END |
| DhcpPacket.Push | src/net_proto.rs:77-85 | an option is appended whole or, if it does not fit, not at all |
| DhcpPacket.WriteOfferOrAck | src/net_proto.rs:55-104 | fails exactly on a short request or buffer; otherwise header, every option, END, the rest untouched, and a length of at least 300 |
| DhcpPacket.ReplyDecodes | src/net_proto.rs:55-104 | a reply decodes to the options meant, its message type, transaction id, hardware address, address and every other header byte, whatever stale bytes pad it |
| DhcpPacket.ClientReads | src/net_proto.rs:87-100 | the options a client reads, by code: type, server, and in an OFFER or ACK the mask, router, DNS server, a lease of one day, broadcast address, "lan" and the captive portal's URI |
| DhcpServer.Server.Handle | src/net_services.rs:44-72 | one packet: the new table, whether a reply is sent, and that the reply, of at least 300 bytes, decodes to the type and address decided |
| DhcpServer.ReplyTypeExactlyWhen | src/net_services.rs:51-71 | over the packet's own options: OFFER if and only if it is a DISCOVER; NAK if and only if it is a REQUEST for four bytes other than its slot's address; ACK for every other REQUEST; no answer to anything else; and the slot then holds the hardware address at offset 28 of every packet with a type |
| DhcpServer.Server.Send | src/net_services.rs:71-76 | the packet sent decodes to that message type and address for that client |
| DhcpServer.AddressesAreDistinct | src/net_services.rs:54-55 | after any packets two clients in the table have different addresses in .10 to .17 |
| DhcpServer.ReplyCarriesOwnSlot | src/net_services.rs:54-71 | every OFFER and ACK carries the address of the one slot that then holds the sender |
| DhcpServer.OfferedIsAcked | src/net_services.rs:56-70 | a client that requests the address it was offered is acknowledged if at most seven distinct others were served in between (section 4.3.2 of RFC 2131) |
| DhcpServer.RunStaysInjective | src/net_services.rs:37-54 | no client ever holds two slots |
| DhcpServer.RunServesAll | src/net_services.rs:42-54 | a run of packets is the run of lease requests of the served ones |
| Names.QnameMatches | src/net_services.rs:148-175 | terminates on every buffer, pointer cycles included, and decides the match |
| Names.MatchesExactlyWhen | src/net_services.rs:148-175 | accepted if and only if following the name reaches the root within eight labels and jumps, not straight after a jump, spelling the labels, equal by `Lower` |
| Names.IgnoresExactlyCase | src/net_services.rs:144-146 | two names are equal by `Lower` if and only if they differ at most between a capital letter and the same letter 0x20 above it |
| Names.AcceptsPlainNames | src/net_services.rs:144-175 | a pointer-free name of labels of 1 to 63 bytes is recognised if and only if it is the name expected, letter case aside, unless both have more than eight labels |
| Names.FormatQname | src/ap_log.rs:10-46 | terminates, writes exactly as much of the dotted name as fits, and nothing after it |
| Names.PrintsWholeName | src/ap_log.rs:14-18 | when the walk takes at most ten steps before the root the printed name is the whole name |
| Names.PrintsPlainName | src/ap_log.rs:10-46 | a pointer-free name of up to ten labels prints as its labels with dots between |
| Names.FinishedWalk | src/ap_log.rs:19-29 | a name that reaches the root reads the same under any larger limit |
| Dns.SkipName | src/net_proto.rs:151-168 | the offset after the name, or none |
| Dns.FindsWireName | src/net_proto.rs:151-168 | it returns `e` if and only if the bytes up to `e` are labels and a root byte or pointer |
| Dns.NameEndIsLocal | src/net_proto.rs:151-168 | a result lies past the start and depends only on the bytes before it |
| Dns.BuildDnsReply | src/net_proto.rs:172-216 | the reply or its absence, and that nothing else of the buffer changes; what the reply is, `HijacksExactlyAddressQueries` |
| Dns.HijacksExactlyAddressQueries | src/net_proto.rs:172-216 | a query for any name, whatever follows it, is answered if and only if its question fits the room: id, response flags, question, and the board's address for 30 s exactly when type 1 was asked for and 16 more bytes fit |
| Dns.RepliesExactlyWhen | src/net_proto.rs:172-187 | a packet is answered if and only if a whole question, a name of labels and a closing and four bytes more, lies within the bytes received and the room |
| Dns.RecordNamesTheQuestion | src/net_proto.rs:197-203 | the record's pointer leads a reader to the name in the question |
| Dns.ReplyKeepsQuestion | src/net_proto.rs:170-216 | the reply keeps id, counts and question, drops the rest, keeps the query type, and counts one answer exactly when it carries one |
| Dns.ReplyIsIdempotent | src/net_proto.rs:172-227 | replying to one's own reply with the same room gives it back |
| Mdns.WriteMdnsA | src/net_services.rs:181-205 | the answer for a name, failing exactly when it does not fit |
| Mdns.NamesAreEncoded | src/net_services.rs:226-255 | the two names sent are the wire forms of the two names matched |
| Mdns.NamesAreText | src/net_services.rs:177-179 | they are "scoreboard", "sb" and "local", and "Scoreboard.LOCAL" is one of them |
| Mdns.AnswersExactlyOwnNames | src/net_services.rs:235-256 | a query for a pointer-free name is answered if and only if it is no response, asks for type 1 or 255, and spells either name in any letter case; and then with that name |
| Mdns.AnswerOnWire | src/net_services.rs:181-205 | the packet for a name: an authoritative response with one address record of that name, for 120 s |
| Mdns.RecognisesOwnNames | src/net_services.rs:177-205 | a packet written for either name is recognised as that name |
| Mdns.AnswersTheNameAsked | src/net_services.rs:239-256 | an answer carries the name the query spells |
| StaleBytes.AnswerSettledExactlyWhen | src/net_services.rs:235-256 | the bytes received settle the answer, whatever fills the 512-byte buffer behind them, if and only if they are no question to answer or the match of neither name runs off their end to where it can still fit |
| StaleBytes.DecidedIsSettled | src/net_services.rs:235-256 | the same condition settles the answer for packets of any length up to 512 |
| StaleBytes.AnswerIgnoresStaleBytes | src/net_services.rs:235-256 | so a query without compression is answered by its own bytes alone |
| StaleBytes.StaleBytesCanDecide | src/net_services.rs:242-247 | two buffers with the same 18 received bytes, one answered and one not |
| Framing.Framer.Accept | src/main.rs:1128-1158 | one byte: the bytes kept and the time handed on |
| Framing.Framer.Receive | src/main.rs:1116-1178 | one read: the bytes kept and all times handed on, in order |
| Framing.Framer.ReadError | src/main.rs:1179-1182 | an error drops the unfinished frame |
| Framing.ChunksDoNotMatter | src/main.rs:1115-1128 | where one read ends and the next begins makes no difference |
| Framing.TimesInRange | src/main.rs:1154-1158 | every time handed on, from any bytes, is displayable |
| Framing.InStepExactlyWhen | src/main.rs:1129-1153 | out of step, a frame brings the framer into step if and only if none of the bytes it has yet to read as a start is the start byte |
| Framing.InStepDecodesAll | src/main.rs:1128-1158 | in step the times handed on are those sent that a display can show, in order, whatever the other bytes |
| Framing.SelfSynchronises | src/main.rs:1128-1158 | from any state, after one frame with no start byte inside it, misread at most once, the times handed on are those sent that a display can show, in order |
| Framing.CanStayOutOfStep | src/main.rs:1129-1153 | without that assumption: a framer that first sees the second half of a steady 96-minute frame never falls into step, and what times it reads for ever |
| Hex.WriteHex | src/decode.rs:42-59 | the text of as many whole bytes as fit, and nothing after it |
| Hex.ParseHexBytes | examples/uart-test.rs:234-258 | the bytes parsed, or failure |
| Hex.ParsesExactlyWhen | examples/uart-test.rs:234-267 | accepted if and only if, spaces aside, the text is a positive even number of hex digits whose bytes fit, and then it means those bytes |
| Hex.DigitsExactly | examples/uart-test.rs:260-267 | the digits accepted are 0-9, a-f and A-F with their values, the digits printed 0-9 and a-f, the spaces skipped the five of ASCII |
| Hex.TextAt | src/decode.rs:42-59 | where the two digits of each byte and the spaces between stand in the text |
| Hex.HexRoundTrip | src/decode.rs:42-59 | what is printed parses back to the bytes printed |
| UartRx.RxTask.TakeStrayBytes | examples/uart-test.rs:291-298 | moves the stray bytes into the counter |
| UartRx.RxTask.Accept | examples/uart-test.rs:383-429 | one byte: the packet, the stray buffer and the counters |
| UartRx.RxTask.Read | examples/uart-test.rs:373-431 | one read of any number of bytes |
| UartRx.RxTask.ReadError | examples/uart-test.rs:433-446 | an error counts and drops the unfinished packet |
| UartRx.RxTask.Timeout | examples/uart-test.rs:447-460 | a stalled packet and the strays are counted |
| UartRx.EveryByteAccounted | examples/uart-test.rs:372-471 | over any run every byte received is accounted for once, modulo 2^32, and neither buffer overflows |
| UartRx.StraysExactly | examples/uart-test.rs:383-425 | over any read: bytes between frames are strays once a frame has been seen and uncounted before, the six bytes of a rejected packet are strays either way, and a valid frame is not |
| UartRx.ErrorsAreCounted | examples/uart-test.rs:433-446 | over any run the error counter is the number of errors modulo 2^32, and each dropped at most five bytes |
| UartRx.TimeoutFlushes | examples/uart-test.rs:447-460 | after a timeout no stray waits to be counted, and no stalled packet is kept |
| UartRx.FramesAsFirmwareDoes | examples/uart-test.rs:383-425 | between errors and stalls the probe frames as the firmware does and counts its valid frames |
| Ota.ReadExactOrEof | src/ota.rs:255-265 | under any short reads: all that was wanted or all that was left |
| Ota.Upload | src/ota.rs:191-235 | the loop: writes tile the bytes received; done means the partition holds the body |
| Ota.RunOta | src/ota.rs:175-252 | `mark_updated` is reached only with the partition equal to the body and the length within capacity; each error has its cause; a device that does not fail answers exactly `Verdict`, and one that refuses writes is left as it was |
| Ota.BlocksTile | src/ota.rs:191-217 | write `k` starts at `k` erase blocks, is at most one block long, and only the last may be short |
| Ota.OneUploadAtATime | src/ota.rs:135-152 | over all interleavings of handlers at most one upload is active; a pending reset follows an upload that wrote all it announced, and its body is still in the partition if the device by then refuses writes or none was let in since |
| Ota.ResetExactlyWhen | src/ota.rs:139-152 | over all interleavings the reset flag is set if and only if some upload was answered with success; a busy answer is none |
| Ota.WholeUploadCanSucceed | src/ota.rs:148-172 | from every reached state an admitted upload of a whole body can be stored, marked and answered with success, unless the device refuses its writes |
| Ota.AnyUploadCanFail | src/ota.rs:148-172 | and any can end with an error, which frees the flag and leaves reset, mark and partition as they were |
| Ota.AdmittedExactlyWhenIdle | src/ota.rs:135-146 | an arriving upload is admitted if and only if none is active, a pending reset notwithstanding |
| Ota.MarkedImageSurvives | src/ota.rs:191-252 | on a device that refuses writes once an update is marked, the mark and its image survive every continuation, new uploads included |
| Ota.ImageStaysExactlyWhen | src/ota.rs:191-217 | on one that goes on accepting them, the uploads already let in leave an image alone if and only if their whole blocks do |

## Left out

- Embassy's executor, Wi-Fi, sockets, USB, the watchdog, picoserve and the electrical behaviour of GPIO: libraries and I/O.
- embassy-boot and the bootloader: the DFU partition is an array written by erase blocks, the rest of a short block left open, whose writes may fail at any time; whether it refuses writes once an update is marked is a parameter, and `mark_updated` succeeds or fails. Cancelling an upload while it runs is not modelled.
- HTTP routing, captive-portal replies, JSON, the time-string parser, `index.html`: plumbing.
- The simulate build: a plain countdown, simpler than the hardware build.
- The UART probe's console, its hunt and probe sequences and the ENTERBOOTLOADER matcher.
- Logging: the skip buffer, the line window and `last_logged` change no other state.
- One lock-held region reads the clock once; the source may read it two or three times within a region.
- `stop_wait` and the arming of the timers are one step: the source does not await between releasing the lock and creating the timers.
- Several ready arms of a `select3` may be taken in any order; the source prefers the first.
- The `Watch` counter is unbounded; a `u64` in the source. A failed write to a stream is a disconnect.
- RunStop.InferenceIsExact: runs from a stopped board that shows 7:30, on which MM:SS changes only while it runs, at least every 2 s then, or within the lag of a stop, 00:00 is not reached, and there is no reset, set-timer pulse or button pressed on the board; `SelfStabilises` says what holds after any of those, a first frame other than 7:30 included.
- Train.SetTimerReachesTarget: assumes the display equal to UART at the snapshot; a display that ticks by itself is not modelled.
- StaleBytes.AnswerSettledExactlyWhen: for packets of 469 to 512 bytes only one direction is stated, in `DecidedIsSettled`; behind those there may be no room for bytes that make a match succeed.
- What a Reset pulse does to the displayed time.
- Other tasks run between the steps of the command loop and between the two locks of a set-timer command, not within a pulse.
- Leases.SlotForMac: requires a table with at least one slot, where the source would panic on none; the slot is truncated to a byte as in the source.
- DhcpServer.AddressesAreDistinct: says nothing of a client that was evicted and still believes its one-day lease.
- Socket errors, and datagrams lost on the way.
- Tag bits of a DNS length byte are compared as numbers: both bits set is "at least 0xC0".
- `dns_task` and `qtype_name` beyond the functions they call.
