# Models of the radio, gateway and console protocols

The project models the parts of the Tower firmware and host tool that decide something, and proves
what they promise. It has five groups of files.

**Replies in chunks.** `Frames` is the rule by which the host puts a numbered reply together again over
a link that drops frames. `MgmtReply`, `ShellReply` and `RadioSink` are the three writers and the host
loops, `Utf8` the char-boundary arithmetic they split by.

**A remote command.** `DownlinkQueue` is the gateway's pool. `Delivery` is the whole path as a step
system: push, send again and again, loss, expiry, reboots, the node's replay lane and its memory of one
command. `RemoteShell` is the node's dispatch with that memory, `HostView` and `BlankReply` what the
host makes of it. `EndToEnd` joins this with the gateway program of the next group and `Dialog` proves
what holds in runs of the whole: coordinator, air, node and host.

**The gateway.** `GatewaySpec` is the coordinator as a transition system on values, with the relations
that no run breaks; `Gateway` is the program, over the `SlotTable` arrays and the radio's peer table
(`Peers`), each handler proved to be a step of the specification. `Departures` and `RequestLaws` tell
what a step does from outside: what enters and leaves the queue, which answer a request gets, what
stands in the registry. `Pairing` is the node's commit round against such gateways.

**The terminal UI.** `TuiQueue` (commands in flight) with `TuiLines` (what its lines say),
`Scrollback`, `LineEditor`, `LazyPane`, `HistorySearch`, `Highlights`, with `Text` for words and
case-insensitive search.

**Algorithms.** `Crc32`, `CrcDefinition` and `CrcStream`, `RtcClock`, `JsonString`; `Basics` and `Division` are shared.

Code that updates state in the repository is a class or a loop here, proved against a function or a
relation on values; the theorems are lemmas about those. What the world decides (whether a frame or its
ACK gets through, whether an EEPROM write takes, the clock, the ticks at which registers are read) is a
parameter or an arbitrary function, so the theorems hold for every such world.

Where the code and its comments differ, the code is modelled. Seven findings are stated as lemmas:

* `Delivery.ConfirmedIsExecutedUnlessTaken`: a delivery report says that the node accepted the command,
  not that it ran. The acknowledgement goes out inside the receive call; a node that resets before it
  runs the frame has lost it, and the gateway sends it no more (`Delivery.ConfirmedButLost`).
* `HostView.KeptIffNoCollision`: replies carry the command number without the epoch. The host's verdict is
  right over every air exactly when no other command uses its number within its listening. The comment
  at cli/src/gateway/engine.rs:475-484 names the case; the random first number and the queue purge at
  start make it unlikely.
* `BlankReply.BrokenExactlyWhenBlank`: the comment on the repeat path promises a reply that is exact or
  flagged. That needs the gateway's USB link to deliver what the gateway acknowledged over the air; the
  lemma gives the exact exception.
* `LazyPane.RightExactlyWhenCounted`: `wrapped_rows` counts `ceil(cells / width)` and its comment calls
  that the drawing's wrapping, which breaks at words. The pane is right exactly for lines drawn in the
  counted rows; short words can take more, and the newest row is then cut off.
* `Scrollback.ChunkingIrrelevantIff`: the scrollback depends on where the chunks were cut exactly when a
  CR stands inside a line.
* `TuiQueue.MarkerTells`: whether a command given up counts as started goes by the next chunk number
  expected, so one whose last chunk was numbered 65535 is marked as if nothing had come.
* `GatewaySpec.BootCoupledIff`: the boot mirror matches the registry exactly when no registered node has
  the gateway's own (or a reserved) address. The gateway's address is a setting, so it can be changed
  under an existing registry.

`dafny verify dfyconfig.toml` checks the project.

## Model

| member | source | states |
|---|---|---|
| `Frames.UnflaggedIffAllArrived` | cli/src/session.rs:440-523 | For a reply of at most 65536 frames over a link that drops frames and carries foreign ones: the host accepts it unflagged if and only if every frame of it arrived and it fits the cap, and an unflagged reply is exactly the data and result sent |
| `Frames.ReassemblySound` | cli/src/session.rs:489-519 | The induction behind it: a dropped frame is noticed at the next frame of the reply, whatever else is in between |
| `Frames.ReassemblyComplete` | cli/src/session.rs:489-519 | Nothing dropped and within the cap: the reply closes with exactly the data, no gap |
| `Frames.DataWithinCap` | cli/src/session.rs:503-514 | No stream of frames makes the reassembled text exceed the cap |
| `Frames.FeedAllIs` | cli/src/session.rs:489-523 | The rule in closed form, over any stream: frames of other replies do not matter; the reply ends with the first of its frames that is final or makes the text too long; it is flagged exactly when a number is out of order or the text was too long; text and result are those of its frames |
| `MgmtReply.ChunkStream.Push` | firmware/apps/radio_dongle_gateway.rs:302-320 | For any push sizes, what was flushed plus what is buffered is exactly everything pushed, in full 128-byte frames numbered in order |
| `MgmtReply.ChunkStream.Finish` | firmware/apps/radio_dongle_gateway.rs:322-331 | The frames then form one whole reply, numbered from 0 with a single final one, whose data is exactly what was pushed |
| `MgmtReply.MgmtRoundtrip` | cli/src/mgmt.rs:182-211 | The reader loop computes the host rule over the frames it is handed, without a cap |
| `MgmtReply.ReplyIsExactOrTruncated` | cli/src/mgmt.rs:162-216 | `truncated == false` if and only if no frame was lost, and then the data is exactly what the gateway pushed |
| `MgmtReply.RecordsRoundTrip` | cli/src/mgmt.rs:105-117 | The record stream of any list of records parses back to that list, whatever the chunk boundaries were |
| `MgmtReply.ParseRecords` | cli/src/mgmt.rs:105-117 | The loop yields the records decodable off the front and stops at the first undecodable tail |
| `ShellReply.ConsoleSink.Push` | firmware/src/shell.rs:607-620 | Any valid text leaves in frames of at most 192 bytes, each valid UTF-8, numbered on, concatenating to the text |
| `ShellReply.ConsoleSink.Done` | firmware/src/shell.rs:622-625 | The frames of the command then form one whole reply carrying the result |
| `ShellReply.ReadResponse` | cli/src/session.rs:466-525 | The reader loop computes the host rule with the 256 KiB cap, and its text never exceeds the cap |
| `ShellReply.ReplyIsExactOrIncomplete` | cli/src/session.rs:440-525 | Not incomplete if and only if every frame came through and the text fits; then text and result are the device's |
| `RadioSink.RadioSink.Flush` | firmware/apps/radio_push_button.rs:1472-1500 | What the radio does to the attempts is an input: exactly its frame, number, text, result and final mark, goes up with the fate of that attempt if and only if the attempt is encoded, and the reply goes on if and only if it was acknowledged |
| `RadioSink.RadioSink.Push` | firmware/apps/radio_push_button.rs:1504-1529 | Ends for every valid text; chunks are valid UTF-8 of at most 56 bytes, numbered in order; every attempt but the last was acknowledged, and the reply goes on exactly when that one was; chunks plus buffer are then exactly the text offered, a prefix of it otherwise |
| `RadioSink.RadioSink.Done` | firmware/apps/radio_push_button.rs:1531-1538 | If every attempt was acknowledged, the chunks carry exactly the offered text and the last one the result; else the air ends at the first attempt that was not, a prefix, and the cut is on record |
| `RadioSink.FinishedIsWhole` | firmware/apps/radio_push_button.rs:1472-1538 | A reply all on the air is a whole reply in the host rule's sense, with exactly the text and the result |
| `RadioSink.ChunkCount` | firmware/apps/radio_push_button.rs:1510-1527 | Chunks before the last are at least 53 bytes, so the text length bounds the chunk numbers |
| `Utf8.SplitValid` | firmware/apps/radio_push_button.rs:1511-1513 | A place is a char boundary of valid text if and only if both halves are valid text |
| `Utf8.SplitAtFloor` | firmware/apps/radio_push_button.rs:1510-1524 | Stepping down to a boundary leaves two valid texts and takes at least one character when four bytes fit |
| `Utf8.ValidIffEncoded` | firmware/apps/radio_push_button.rs:1511-1513 | Valid text is exactly what the encoding of RFC 3629, section 3, makes of a list of Unicode scalar values |
| `RemoteShell.UnpackPack` | firmware/apps/radio_push_button.rs:1326-1331 | The 25-bit memory word gives back valid flag, result and command number; the initial word is not valid |
| `RemoteShell.Node.OnShell` | firmware/apps/radio_push_button.rs:1364-1421 | A command is run exactly when its (epoch, cmd_id) is not the remembered one; a run is remembered with its result and first lost chunk; a repeat runs nothing and leaves the memory; the radio alone decides how much of either reply is up |
| `RemoteShell.Stream` | firmware/apps/radio_push_button.rs:1410-1414 | For any behaviour of the radio: the air is what it made of the attempts, up to the first one not acknowledged and no further; if it acknowledges all, nothing is lost and the whole reply is up with exactly the text and the result |
| `RemoteShell.AnswerRepeat` | firmware/apps/radio_push_button.rs:1384-1408 | A repeat makes one attempt, and exactly one frame is up if and only if that is encoded: empty at chunk 0 if the reply all went up, else the note, final, numbered two past the lost chunk |
| `HostView.ExactOrFlagged` | cli/src/gateway/engine.rs:908-962 | Over every air with lost chunks, lost acknowledgements and redeliveries, any cap, and a host that starts listening at any point of a boot over a leg that brings down what the gateway acknowledged: unless the number collides, the first reply taken for complete has exactly the text and result of the host's own execution; without one, none is taken for complete |
| `HostView.KeptIffNoCollision` | cli/src/gateway/engine.rs:463-484 | That promise holds for every air if and only if no other execution under the same command number, and no whole remembered reply of one, falls within the listening |
| `HostView.LateRepeatIsCredited` | cli/src/gateway/engine.rs:475-480 | The collision is real: a late repeat of a gone host process's command 5 is taken, unflagged, for the reply of the new process's command 5 |
| `HostView.HoldsRun` | firmware/apps/radio_push_button.rs:1472-1538 | While a run of any length streams over such a leg, a host that is not flagged holds all chunks so far but for a final unacknowledged one |
| `HostView.AfterTheRun` | firmware/apps/radio_push_button.rs:1379-1408 | However often and however well repeats come down, a reply cut short is never completed unflagged, and a complete one stays exact |
| `HostView.TailIsFlagged` | cli/src/gateway/engine.rs:946-952 | A host that begins to listen in the middle of an older reply under its number is flagged by the first chunk it sees |
| `BlankReply.BrokenExactlyWhenBlank` | firmware/apps/radio_push_button.rs:1386-1408 | Over a leg that may lose anything, and without a collision: an unflagged reply is wrong if and only if the whole non-empty reply was acknowledged, nothing under the number came down until it was over, and a repeat did |
| `BlankReply.BlankOccurs` | firmware/apps/radio_push_button.rs:1386-1390 | That case is real: a one-chunk reply acknowledged and lost on the cable, then its repeat |
| `BlankReply.FollowsRun` | firmware/apps/radio_push_button.rs:1472-1538 | While a run streams over such a leg, an unflagged host holds exactly the chunks before the number it expects |
| `BlankReply.ShortReply` | firmware/apps/radio_push_button.rs:1510-1527 | A reply text below 3.4 million bytes is short enough for the two results above |
| `DownlinkQueue.Queue.Push` | crates/gateway/src/queue.rs:88-122 | Which of the three refusals applies, exactly; else the items grow by one with an unused nonzero id and the next stamp, within pool and per-node caps |
| `DownlinkQueue.Queue.FreshId` | crates/gateway/src/queue.rs:104-108 | The search for an unused id ends within five steps, across the 16-bit wrap |
| `DownlinkQueue.TriedSize` | crates/gateway/src/queue.rs:100-108 | Five consecutive ids are distinct, wrap or not |
| `DownlinkQueue.Queue.PeekFor` | crates/gateway/src/queue.rs:126-132 | The oldest item of the node that has not expired, or none if there is none |
| `DownlinkQueue.Queue.Pop` | crates/gateway/src/queue.rs:135-142 | Exactly the item with the id goes, if queued |
| `DownlinkQueue.Queue.DropNode` | crates/gateway/src/queue.rs:145-154 | Exactly the node's items go, and their number is returned |
| `DownlinkQueue.Queue.Expire` | crates/gateway/src/queue.rs:157-164 | Exactly the expired items go, and each of those is reported once |
| `DownlinkQueue.LivesItsTtl` | crates/gateway/src/queue.rs:157-164 | An item is live for the first `ttl` seconds of the millisecond clock and not after |
| `DownlinkQueue.Queue.Count` | crates/gateway/src/queue.rs:166-172 | The number of items of the node |
| `DownlinkQueue.Queue.ListFor` | firmware/apps/radio_dongle_gateway.rs:1039-1057 | Every item of the node, or of every node for 0, exactly once |
| `DownlinkQueue.OccupiedIsSize` | crates/gateway/src/queue.rs:95-99 | There is no free slot if and only if the pool holds as many items as slots |
| `Delivery.AtMostOnceInOrder` | firmware/apps/radio_push_button.rs:1326-1421 | In every run with loss, delay, repetition, TTL expiry, host drops and reboots of either end, also between acknowledgement and execution: within one node boot commands execute in push order, each at most once |
| `Delivery.FreshCommandRuns` | firmware/apps/radio_push_button.rs:1379-1421 | A command new to the boot is executed at its turn if and only if its tag differs from that of the last one executed; so with distinct tags always |
| `Delivery.ExecutedIffHandled` | firmware/src/radio/net/mod.rs:905-925 | With distinct tags, a command has been executed if and only if one of its accepted copies came to its turn: neither dropped by a node reboot nor still on hand |
| `Delivery.ConfirmedIsExecutedUnlessTaken` | firmware/src/radio/net/mod.rs:905-925 | The acknowledgement goes out before the command runs: an item dropped as delivered is unexecuted if and only if every accepted copy was dropped by a node reboot before its turn or is still on hand |
| `Delivery.ConfirmedButLost` | firmware/src/radio/net/mod.rs:907-913 | The run that shows it: accepted, acknowledged, reported as delivered, then a node reset; never executed, and nothing left to send |
| `Delivery.QueueNeverGoesBack` | firmware/apps/radio_dongle_gateway.rs:741-752 | Nothing that can still be sent is older than anything sent, and nothing the node can still hear fresh is older than what it holds or ran |
| `Delivery.ExecutedWasPushed` | firmware/apps/radio_push_button.rs:1379-1421 | Everything the node ever executed was pushed, to this node, and decodes to a command |
| `Delivery.RunInv` | firmware/apps/radio_dongle_gateway.rs:733-770 | The inductive invariant over every reachable state |
| `EndToEnd.GatewayStepIsDelivery` | firmware/apps/radio_dongle_gateway.rs:733-770 | Whatever the coordinator does to its queue, the delivery system can follow with one push or removal |
| `EndToEnd.OnlyAckDelivers` | firmware/apps/radio_dongle_gateway.rs:748-752 | An item counts as delivered only through an acknowledged uplink of its node that was answered with it, and leaves the queue in that very step |
| `EndToEnd.RunIsDelivery` | firmware/apps/radio_dongle_gateway.rs:733-770 | Every run of coordinator, air, node and resets together is a run of the delivery system, so its theorems hold with this gateway and this node |
| `Dialog.OnShellIsDispatch` | firmware/apps/radio_push_button.rs:1379-1421 | The remote shell runs a command exactly when the delivery system executes it, and both remember the same tag afterwards |
| `Dialog.SystemRunInv` | firmware/apps/radio_push_button.rs:1379-1421 | In every reachable state of the whole system: queue and reports agree with what is confirmed, and the exchanges of the boot, entry by entry, are the pushed commands and what was executed |
| `Dialog.DeliveredIsExecutedUnlessTaken` | firmware/apps/radio_dongle_gateway.rs:748-752 | What the coordinator's delivered means in every run: accepted by the node, and, with distinct tags, unexecuted if and only if every accepted copy was dropped by a node reboot or is still on hand |
| `Dialog.OneRunPerTag` | firmware/apps/radio_push_button.rs:1371-1379 | With distinct tags a node boot runs no (epoch, cmd_id) twice |
| `Dialog.CollisionIsForeign` | cli/src/gateway/engine.rs:463-484 | In such a run a collision is always a use of the number under another epoch, that is by another host process |
| `Dialog.ReplyIsExactOrFlagged` | cli/src/gateway/engine.rs:908-962 | In every run of the whole system, for a command not served before the host listened and whose number no other epoch uses in that boot: the first reply taken for complete is the exact reply of its one execution, and there is none without an execution |
| `Peers.Net.AddPeer` | firmware/src/radio/net/mod.rs:522-590 | Refused exactly for a reserved or own address or a full table; a known peer is re-keyed in place and keeps its pending flag, a new one is unflagged |
| `Peers.Net.SetPending` | firmware/src/radio/net/mod.rs:616-624 | Only the flag of that peer changes |
| `Peers.Net.RemovePeer` | firmware/src/radio/net/mod.rs:596-603 | Only that peer goes |
| `SlotTable.FullIffNoFreeSlot` | firmware/apps/radio_dongle_gateway.rs:235-259 | A table of distinct addresses is full if and only if it has no free slot |
| `SlotTable.Written` | firmware/apps/radio_dongle_gateway.rs:243-259 | Writing a record into its own or a free slot changes the table at that address only |
| `Gateway.LinkStats.OnUplink` | firmware/apps/radio_dongle_gateway.rs:243-260 | The node's counter saturates at 65535, RSSI is clamped to 8 bits, a new node gets a record as long as one slot is free |
| `Gateway.Registry.Add` | crates/gateway/src/registry.rs:135-165 | Overwrites or inserts; full and storage refusals exactly when, and then nothing changes |
| `Gateway.Registry.AddNew` | crates/gateway/src/registry.rs:172-177 | Insert only: a registered address is refused and left alone |
| `Gateway.Registry.Remove` | crates/gateway/src/registry.rs:180-189 | Exactly the address goes; unknown and storage refusals change nothing |
| `Gateway.Registry.Update` | crates/gateway/src/registry.rs:192-213 | Name and flags of a known node, never its key; the three refusals exactly when |
| `Gateway.Coordinator.constructor` | firmware/apps/radio_dongle_gateway.rs:499-514 | The boot mirror installs exactly the admissible records; all fit |
| `Gateway.Coordinator.NodeAdd` | firmware/apps/radio_dongle_gateway.rs:891-944 | A step of the specification: checks in order, registry first, then the peer table |
| `Gateway.Coordinator.NodeRemove` | firmware/apps/radio_dongle_gateway.rs:945-957 | Registry, peer, queued items and statistics of the node go together, or nothing does |
| `Gateway.Coordinator.NodeUpdate` | firmware/apps/radio_dongle_gateway.rs:958-969 | A step of the specification |
| `Gateway.Coordinator.PairingOpen` | firmware/apps/radio_dongle_gateway.rs:987-1013 | Busy, bad window, full and unsupported are answered; an accepted request opens the window and is not answered yet |
| `Gateway.Coordinator.PairingCancel` | firmware/apps/radio_dongle_gateway.rs:1014-1020 | The open request resolves first, then the cancel is answered |
| `Gateway.Coordinator.QueuePush` | firmware/apps/radio_dongle_gateway.rs:1021-1038 | A step of the specification: only for registered nodes, and the pending flag goes up |
| `Gateway.Coordinator.QueueDrop` | firmware/apps/radio_dongle_gateway.rs:1059-1082 | Exactly the chosen items go, the id checked against the node first; the flag follows the queue |
| `Gateway.Coordinator.NodeEntries` | firmware/apps/radio_dongle_gateway.rs:862-890 | Every registered node once, with its statistics and queue depth |
| `Gateway.Coordinator.Dispatch` | firmware/apps/radio_dongle_gateway.rs:829-1093 | The right handler for every request, nothing joining under the registry format guard |
| `Gateway.Coordinator.HandleMgmt` | firmware/apps/radio_dongle_gateway.rs:814-1093 | Every management request is a step of the specification and keeps the coupling |
| `Gateway.Coordinator.OnUplink` | firmware/apps/radio_dongle_gateway.rs:733-770 | An uplink is a step of the specification: counted, answered with the oldest live item, the flag refreshed; that item leaves the queue if and only if it was acknowledged, and no other does |
| `Gateway.Coordinator.Housekeep` | firmware/apps/radio_dongle_gateway.rs:687-705 | Expiry is a step of the specification, and reports each expired item once and nothing else |
| `Gateway.Coordinator.CommitPairing` | firmware/apps/radio_dongle_gateway.rs:780-811 | Commit of a join: insert only, peer installed, window resolved with the matching result |
| `Gateway.Coordinator.PairingSlice` | firmware/apps/radio_dongle_gateway.rs:596-645 | A window slice is a step of the specification: closed when full, closed at its end, else a join is committed |
| `Gateway.Coordinator.Listen` | crates/net/src/pairing.rs:99-101 | A join from a reserved, own or registered address gets no further |
| `Gateway.Coordinator.Turn` | firmware/apps/radio_dongle_gateway.rs:550-727 | One turn of the loop keeps coupling, request conservation and item conservation |
| `GatewaySpec.StepCoupled` | firmware/apps/radio_dongle_gateway.rs:499-513 | Peer table equals registry in addresses and keys, queued items belong to registered nodes, a flag is up exactly when something is queued, statistics hold registered nodes only: kept by every step |
| `GatewaySpec.RunSound` | firmware/apps/radio_dongle_gateway.rs:550-1093 | All three invariants hold in every reachable state |
| `GatewaySpec.EachRequestAnsweredOnce` | firmware/apps/radio_dongle_gateway.rs:334-350 | In every run each request has exactly one final response, under its own id; only the one behind an open window has none |
| `GatewaySpec.WindowAnswersOnClose` | firmware/apps/radio_dongle_gateway.rs:596-645 | The delayed response is given in exactly the step in which the window closes |
| `GatewaySpec.EachItemOneFate` | firmware/apps/radio_dongle_gateway.rs:741-770 | Every item ever queued is still queued or was delivered, expired or dropped, exactly one of these, for good |
| `GatewaySpec.FirstUplinkFindsSlot` | firmware/apps/radio_dongle_gateway.rs:235-259 | A registered node without statistics always finds a free slot |
| `GatewaySpec.CommitOnlyFailsOnStorage` | firmware/apps/radio_dongle_gateway.rs:788-810 | A join handed up in a coupled state is never refused as known or for room; it fails only when the write fails, and no other record is touched |
| `GatewaySpec.KeyStays` | crates/gateway/src/registry.rs:167-177 | No step but a cable request about that very node changes the key of a registered node |
| `GatewaySpec.BootCoupledIff` | firmware/apps/radio_dongle_gateway.rs:499-514 | The boot state is coupled if and only if no registered address is reserved or the gateway's own |
| `GatewaySpec.StepConserves` | firmware/apps/radio_dongle_gateway.rs:334-350 | Every step keeps the ledger: answered requests are all but the one holding the window open |
| `GatewaySpec.BookedAccounted` | firmware/apps/radio_dongle_gateway.rs:687-705 | Every step keeps the account of items, and fates only grow |
| `Departures.LeavesIff` | firmware/apps/radio_dongle_gateway.rs:733-770 | The law of departures, from the states around a step and its event alone: a queued item leaves exactly when an acknowledged uplink of its node finds it the oldest that is not too old, housekeeping finds it too old, a QueueDrop names its node and no id or its id, or a NodeRemove of its node was stored; an event has at most one of these causes for it, and the cause fixes its fate |
| `Departures.UnacknowledgedKeeps` | firmware/apps/radio_dongle_gateway.rs:745-764 | An uplink whose answer is not acknowledged leaves the queue as it was |
| `Departures.WaitsUntilTaken` | firmware/apps/radio_dongle_gateway.rs:550-770 | Over whole runs: a queued item is still queued later if and only if none of the four has happened to it in between; after one it is gone for good, with the fate of that cause |
| `Departures.ArrivesIff` | firmware/apps/radio_dongle_gateway.rs:1021-1038 | The law of arrivals: exactly a push for a registered node, of 1 to 74 bytes, with fewer than four items waiting and fewer than two of the node, brings one item, made of the request, with an hour to live if no time is named |
| `RequestLaws.AnswerIsHonest` | firmware/apps/radio_dongle_gateway.rs:814-1093 | Every request but the opening of a window is answered in its own step under its own id; OK exactly when the request can be met, and then what it reports is so; any other code gives a reason that applies and has changed nothing |
| `RequestLaws.WindowOpensIff` | firmware/apps/radio_dongle_gateway.rs:987-1013 | A window opens exactly when none is open, its length is not zero, the registry can be written and has room and a key could be drawn; else the refusal is answered at once, with a reason that applies |
| `RequestLaws.WindowClosesIff` | firmware/apps/radio_dongle_gateway.rs:596-645 | It closes exactly when the registry is full, its time is over or a node joins, in this order, and its request is answered with that |
| `RequestLaws.RegistryFollows` | firmware/apps/radio_dongle_gateway.rs:780-969 | Which record stands under an address after any event, in the fields of the request or of the joining node; nothing else writes it |
| `RequestLaws.StatsFollow` | firmware/apps/radio_dongle_gateway.rs:243-260 | Which statistics stand under an address after any event: one more uplink up to 65535, its time, its strength clamped to a signed byte; nothing of a removed node |
| `RequestLaws.SettingsFollow` | firmware/apps/radio_dongle_gateway.rs:829-1093 | No event changes the gateway's address or storage, and only a configuring request the report period |
| `GatewaySpec.OwnAddressUncouples` | firmware/apps/radio_dongle_gateway.rs:499-514 | That case exists: a registry holding the gateway's own address |
| `Pairing.Node.CommitRound` | firmware/apps/radio_push_button.rs:1044-1071 | At most six uplinks, all under the provisional key; committed only on an acknowledgement by a gateway that holds the key; after six silences the old keys are back |
| `Pairing.Node.PairOnAir` | firmware/apps/radio_push_button.rs:997-1098 | Which outcome when; a failed attempt leaves provision, EEPROM record and peer keys as they were; a success adopts what the handshake gave, on an acknowledgement, and leaves exactly the new gateway in the table |
| `Pairing.Node.Adopt` | firmware/apps/radio_push_button.rs:1073-1097 | The previous gateway is retired, RAM adopts, EEPROM follows only if the write took |
| `Pairing.Node.Restore` | firmware/apps/radio_push_button.rs:1051-1060 | The peer keys are those of the pairing in force before |
| `Pairing.Node.constructor` | firmware/apps/radio_push_button.rs:506-518 | Boot from the record; one the peer table refuses keeps the radio off and stays stored |
| `Pairing.AcknowledgedIsRegistered` | firmware/apps/radio_dongle_gateway.rs:772-811 | The acknowledging gateway has the node in its persistent registry under the very key |
| `Pairing.AgreementLasts` | firmware/apps/radio_dongle_gateway.rs:772-811 | The gateway's end keeps the key through any run of the gateway without a cable request about that node; the node's end keeps it until a later attempt commits (`Pairing.Node.PairOnAir`) |
| `Crc32.StepThenBack` | firmware/examples/radio_interop.rs:66-67 | The bit step has a left inverse |
| `Crc32.BackThenStep` | firmware/examples/radio_interop.rs:66-67 | ... which is also a right inverse: the step is a bijection of the 32-bit state |
| `Crc32.PolynomialIsIeee8023` | firmware/examples/radio_interop.rs:67 | The constant is the bit-reversed FCS polynomial of IEEE 802.3, section 3.2.9 |
| `Crc32.AbsorbInjective` | firmware/examples/radio_interop.rs:61-71 | Different states stay different whatever bytes follow |
| `Crc32.BurstDetected` | firmware/examples/radio_interop.rs:61-71 | Two messages of equal length that differ only within four consecutive bytes have different CRCs |
| `Crc32.UndetectedIffSyndromeZero` | firmware/examples/radio_interop.rs:61-71 | Whether a corruption goes unnoticed depends on the corruption alone |
| `CrcDefinition.CrcIsFcs` | firmware/examples/radio_interop.rs:61-71 | For every message, the CRC is the check sequence of IEEE 802.3, section 3.2.9: first 32 bits complemented, remainder of the long division of polynomials over the two-element field, complemented, lowest bit of each octet first |
| `CrcDefinition.RemainderIsLeft` | firmware/examples/radio_interop.rs:61-71 | The long division is one: every polynomial is a multiple of the generator plus the remainder ... |
| `CrcDefinition.RemainderIsUnique` | firmware/examples/radio_interop.rs:61-71 | ... and in one way only |
| `CrcDefinition.LeadingZeroShows` | firmware/examples/radio_interop.rs:62-70 | A zero byte in front always changes the CRC |
| `CrcDefinition.CheckValues` | firmware/examples/radio_interop.rs:61-71 | The CRC of nothing is 0, that of "123456789" the check value CBF43926 |
| `CrcStream.ComputeCrc` | firmware/examples/radio_interop.rs:61-71 | The byte and bit loops compute the CRC, which is the check sequence of IEEE 802.3 (`CrcDefinition.CrcIsFcs`) |
| `CrcStream.CrcPattern` | firmware/examples/net_bulk_stream.rs:56-66 | The on-the-fly loop computes the CRC of the first n pattern bytes |
| `CrcStream.CrcCheckSink.Consume` | firmware/examples/net_bulk_stream.rs:121-135 | State after any chunking: CRC of all bytes so far and, while contiguous, the number of bytes off the pattern |
| `CrcStream.CrcCheckSink.FinalCrc` | firmware/examples/net_bulk_stream.rs:107-109 | The CRC of everything consumed |
| `CrcStream.CleanTransferHasPatternCrc` | firmware/examples/net_bulk_stream.rs:121-135 | No byte error over a contiguous transfer if and only if it is the pattern, and then the CRC is the sender's |
| `CrcStream.DamagedTransferHasOtherCrc` | firmware/examples/net_bulk_stream.rs:56-66 | Damage within four consecutive bytes shows in the CRC |
| `CrcStream.SentIsIntact` | firmware/examples/radio_interop.rs:166-173 | Every payload the sender builds passes the receiver's check |
| `CrcStream.DamageIsReported` | firmware/examples/radio_interop.rs:228-251 | Damage of the length byte, of the CRC field or of up to four consecutive filler bytes is reported |
| `CrcStream.SequenceNumberIsNotCovered` | firmware/examples/radio_interop.rs:228-251 | A damaged sequence number passes: the check does not cover it |
| `TuiQueue.App.OnShellResponse` | cli/src/tui.rs:569-626 | Matched anywhere: older entries closed with a marker each, the match advanced, the screen exactly so; an unknown id changes nothing; every frame goes on the record the screen is held to |
| `TuiQueue.App.TakeChunk` | cli/src/tui.rs:584-625 | A gap note is added exactly when the number is not the one after the last frame heard for the command; then the text, or the cut-off note exactly when it is too long; a result line exactly for a final chunk whose code is not zero; completion |
| `TuiQueue.App.SendCommand` | cli/src/tui.rs:919-954 | Only a frame that went out changes anything, and then the line is echoed; at most eight in flight, the oldest gives way with a marker, the new entry is last |
| `TuiQueue.App.ExpirePending` | cli/src/tui.rs:253-261 | Exactly a front run of expired entries goes, each with a marker, and no entry anywhere is expired after |
| `TuiQueue.App.OnHello` | cli/src/tui.rs:470-484 | Exactly a front run of entries older than the race window goes; none older stays |
| `TuiQueue.App.DropLink` | cli/src/tui.rs:265-269 | Every entry is closed with a marker |
| `TuiQueue.App.AbandonFront` | cli/src/tui.rs:230-241 | The oldest entry goes, one marker line says whether it had started |
| `TuiQueue.App.Reconnect` | cli/src/tui.rs:357-384 | Nothing is in flight on a new connection, and the numbers keep counting |
| `TuiQueue.AnsweredIsExact` | cli/src/tui.rs:569-626 | An answer closed without a gap note is every chunk of the device's reply, with its result |
| `TuiQueue.ScreenTellsGaps` | cli/src/tui.rs:584-602 | Screen and record agree, in every state: the lines of an answered command hold a gap note if and only if a chunk of it was missing, so an answer without one is complete |
| `TuiQueue.MarkerTells` | cli/src/tui.rs:230-241 | The marker of a command given up says incomplete, rather than no response, if and only if the last chunk heard for it is not numbered 65535 and there is one |
| `TuiQueue.MarkerMisses` | cli/src/tui.rs:235-239 | The exception: after a first chunk numbered 65535 the marker says that there was no response |
| `TuiLines.DecIsDecimal` | cli/src/tui.rs:589-592 | Numbers in the notes are decimal, without leading zeros |
| `TuiQueue.DistinctIds` | cli/src/tui.rs:939-952 | The at most eight ids in flight are consecutive modulo 65536 and all different |
| `TuiQueue.EndedBy` | cli/src/tui.rs:584-625 | A chunk ends a command for the recorded reason or leaves its counters in step with the host rule |
| `Scrollback.Responses.AppendResponseText` | cli/src/tui.rs:274-291 | The capped scrollback and the open line are those of the byte-by-byte screen |
| `Scrollback.Responses.PushCap` | cli/src/tui.rs:203-208 | The last 5000 lines |
| `Scrollback.PutAllWrites` | cli/src/tui.rs:274-291 | The streamed text stands on the screen byte for byte ... |
| `Scrollback.PutAllBreaks` | cli/src/tui.rs:274-291 | ... broken into lines exactly at its newlines; lines already complete stay |
| `Scrollback.AnyChunkingSame` | cli/src/tui.rs:274-291 | Text whose CRs only end lines looks the same in every chunking |
| `Scrollback.ChunkingIrrelevantIff` | cli/src/tui.rs:281-282 | ... and only such text: for any other there is a cut that changes what is shown |
| `Scrollback.ChunkingMattersOtherwise` | cli/src/tui.rs:281-282 | The cut right behind a CR inside a line loses that CR |
| `LineEditor.Editor.Handle` | cli/src/tui.rs:752-814 | For every key the line and cursor it leaves, in terms of char boundaries: Left to the greatest below, Right to the least above, a character put in at the cursor, Backspace and word kill taking exactly what stands before it, completion, history and search outcomes; always valid text with the cursor on a boundary |
| `LineEditor.Editor.KillWord` | cli/src/tui.rs:824-846 | Exactly the white space before the cursor and the maximal word before that go |
| `LineEditor.WordIsUnique` | cli/src/tui.rs:824-846 | Only one word and one run of white space stand before the cursor, so this fixes the result |
| `LineEditor.Editor.ApplyCompletion` | cli/src/tui.rs:628-659 | For any position the device sends: one candidate with its separator, or the common prefix, or nothing |
| `LineEditor.CompletionStart` | cli/src/session.rs:547-550 | The device's position is used exactly when cutting there and at the cursor leaves three valid texts; else nothing is replaced |
| `LineEditor.SpliceValid` | cli/src/tui.rs:647-653 | A splice between boundaries leaves valid text and the new end on a boundary |
| `LineEditor.Editor.InsertThenDelete` | cli/src/tui.rs:781-798 | Backspace takes back exactly the typed character |
| `LineEditor.NextAfterPrev` | cli/src/tui.rs:848-853 | Right undoes Left |
| `LineEditor.PrevAfterNext` | cli/src/tui.rs:848-853 | Left undoes Right |
| `LineEditor.Editor.DeleteBack` | cli/src/tui.rs:787-798 | The whole character before the cursor goes |
| `LazyPane.RenderTextPane` | cli/src/tui.rs:1171-1224 | The walk from the back takes the shortest suffix whose counted rows cover window and scroll, or everything, and trims the surplus, cast to 16 bits |
| `LazyPane.SamePictureIff` | cli/src/tui.rs:1202-1223 | For any wrapping of the drawing: the picture is the one of the whole buffer if and only if the trim is the one the drawn rows of the collected lines call for, and these cover the window or are all there is |
| `LazyPane.RightExactlyWhenCounted` | cli/src/tui.rs:1158-1160 | The pane is right at every height and scroll position if and only if the drawing gives every line the counted rows (and none more than 65536) |
| `LazyPane.RightWhenCounted` | cli/src/tui.rs:1202-1223 | Checking the collected lines is enough for one picture |
| `LazyPane.NoBreakCountsRight` | cli/src/tui.rs:1158-1160 | Under word wrapping, a line with no space in it is counted right, whatever its length |
| `LazyPane.FittingLineCountsRight` | cli/src/tui.rs:1158-1160 | ... and so is a line that fits a row |
| `LazyPane.ShortWordsAreCutOff` | cli/src/tui.rs:1153-1160 | Under word wrapping "aaa bbb ccc" at six columns is drawn in three rows and counted as two; a pane of two rows shows its first two and cuts off the newest |
| `LazyPane.DroppedSpaceLeavesABlank` | cli/src/tui.rs:1153-1160 | Two words that fill their rows are counted as three; a pane of two rows shows only the second |
| `HistorySearch.Search.Older` | cli/src/history.rs:235-250 | The next entry of the list of distinct matching commands, newest use first; nothing moves exactly at the end of the list |
| `HistorySearch.Search.Newer` | cli/src/history.rs:253-257 | Back one entry of the list |
| `HistorySearch.Search.OlderThenNewer` | cli/src/history.rs:235-257 | Newer exactly undoes a moving Older |
| `HistorySearch.Search.Restart` | cli/src/history.rs:260-270 | Shows the first of the list, or nothing for a blank query or an empty list |
| `HistorySearch.Search.PopChar` | cli/src/history.rs:229-232 | One whole character less, and the search starts over |
| `HistorySearch.HitsIsList` | cli/src/history.rs:235-270 | The list holds every matching command once, at its newest use, newest first |
| `HistorySearch.UnseenIsNext` | cli/src/history.rs:239-249 | The first match not seen yet is the next of the list |
| `Text.Find` | cli/src/history.rs:383-389 | The loop finds the first occurrence, ASCII case ignored; an empty needle is found nowhere |
| `Text.MatchOnBoundaries` | cli/src/history.rs:380-389 | A match of a valid word in valid text starts and ends on char boundaries |
| `Text.WordsAreRuns` | cli/src/history.rs:365-368 | The words of a text are white-space-free and not empty, and the text is exactly these with white space between and around them ... |
| `Text.RunsAreUnique` | cli/src/history.rs:365-368 | ... and no other list of words is: so they are the maximal runs, in order |
| `Text.SpaceIff` | cli/src/history.rs:365-368 | White space is exactly the 25 code points of the Unicode property |
| `Text.SameLetterIff` | cli/src/history.rs:380-389 | Ignoring case identifies the 26 letter pairs of ASCII and nothing else |
| `Highlights.Highlights` | cli/src/history.rs:365-378 | In bounds, on char boundaries, sorted, strictly apart, covering exactly the first occurrence of each word |
| `Highlights.SeparatedIsUnique` | cli/src/history.rs:365-378 | Only one list of ranges does that |
| `Highlights.Merge` | cli/src/history.rs:370-377 | Merging keeps the covered bytes and separates the ranges |
| `Highlights.MatchSpans` | cli/src/history.rs:339-349 | The spans of the match concatenate to the match, marks and plain text taking turns |
| `RtcClock.ClosedFormCountsDays` | firmware/src/clock.rs:61-67 | For every day of 2000..2099 the closed form is the number of midnights since 2000-01-01 |
| `RtcClock.NextDateIsOneDayMore` | firmware/src/clock.rs:61-67 | The next valid date is exactly one day more |
| `RtcClock.ComputedIsTrue` | firmware/src/clock.rs:37-46 | Registers of one tick give the true milliseconds of that tick |
| `RtcClock.SameCountSameTick` | firmware/src/clock.rs:47-50 | Equal sub-second counts less than a second apart are the same tick |
| `RtcClock.Clock.NowMs` | firmware/src/clock.rs:25-58 | Never goes back, torn reads included; at most five tries; a stable read is exact unless an earlier one overshot; five tries suffice if at most four ticks pass |
| `RtcClock.MillisMonotone` | firmware/src/clock.rs:43-46 | Computed time is monotone in calendar time |
| `JsonString.JsonStr` | cli/src/render.rs:152-170 | The printing loop escapes character by character |
| `JsonString.RoundTrip` | cli/src/render.rs:152-170 | A parser of RFC 8259, section 7, gives back the very string and stops right behind it, whatever follows |
| `JsonString.PrintedIsInert` | cli/src/render.rs:146-170 | No code point below U+0020, from U+007F to U+009F, U+202A to U+202E or U+2066 to U+2069 is printed raw |
| `JsonString.RawIff` | cli/src/render.rs:152-170 | Everything else but the quote and the backslash is printed as it is |

## Left out

* The codecs and drivers below the modelled code (COBS framing, frame CRC, postcard, AES-CCM, the key-value store, the SPIRIT1 driver, hopping, duty-cycle accounting): frames are records, a send has an outcome.
* Time limits of reads and sends: a reader is given the frames that arrive before its deadline; `radio_send` retries in hop slots (firmware/apps/radio_push_button.rs:859-897) are one send.
* LEDs, watchdog, log lines, sensors, buttons, progress bars, colours and drawing.
- DownlinkQueue.Queue.Push: the pool-insertion stamp is unbounded here; the source's 32-bit stamp wraps after 4294967296 pushes in one gateway boot.
- BlankReply.BrokenExactlyWhenBlank: for a host's own reply of fewer than 65534 chunks, 3.4 million bytes of text; beyond that a lossy leg could drop exactly one round of chunk numbers. `HostView.ExactOrFlagged` has no such bound.
- BlankReply.FollowsRun: likewise for fewer than 65534 chunks.
- Dialog.ReplyIsExactOrFlagged: the host's reply timeouts and the queue purge at its start are not modelled; node and gateway hold the same key throughout.
- RemoteShell.UnpackPack: the word is written as the sum of its fields, which do not overlap, instead of shifts and ors.
- Delivery.AtMostOnceInOrder: the node's reboot may set its replay lane back; the theorem is per node boot, as the memory is RAM only. Both ends' counters are unbounded here, and locking at the 32-bit ceiling is not modelled. Re-keying within a boot is not a step: a failed re-pair with the same gateway restores the old key with a fresh lane (firmware/apps/radio_push_button.rs:955-959, firmware/src/radio/net/mod.rs:522-590) while memory and boot go on, and an old frame repeated after it could run again.
- Gateway.Registry.Add: the registry is a map of at most 16 nodes; its three EEPROM buckets and unreadable buckets are not modelled.
- Gateway.Coordinator.NodeAdd: counter floors and replay lanes are not modelled; whether the floor could be made durable is an input, and key export does not carry floors.
- Gateway.Coordinator.NodeEntries: the list is a map, its order and encoding are not modelled.
- Gateway.Coordinator.QueueList: items are listed without the computed age.
- Gateway.Coordinator.Turn: one turn per call; US 915 parking, the policy refresh and the ambient RSSI report are not modelled.
- Pairing.Node.PairOnAir: one direction only. A gateway may keep a key the node discarded, when every acknowledgement of the round was lost; the handshake itself is an input, and the replay lane reset of a re-key is not modelled.
- TuiQueue.App.SendCommand: the line is already trimmed; the frame sequence number, history push and hint are not modelled.
- TuiQueue.App.Reconnect: opening the port and resetting the frame decoder are not modelled.
- LineEditor.Editor.Handle: function keys, scrolling and the hint row are not modelled; history entries and search hits are inputs.
- LazyPane.SamePictureIff: a line is a sequence of one-column cells; the terminal library is not part of this model, its wrapping is any function from lines to row counts, with a greedy word wrapper as the example.
- HistorySearch.Search.Older: the history is fixed during a search; the history file and Up/Down browsing are not modelled.
- RtcClock.Clock.NowMs: the calendar stays within 2000..2099, and the sub-second register never exceeds its reload value.
- CrcStream.CrcCheckSink.Consume: the 32-bit byte-error counter is unbounded here.
* MQTT, the command-line front end, flashing, DFU, crash records, the boot guard and the other bench programs would only add easy members or I/O.
