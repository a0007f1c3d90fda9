# Klippylink: verified models of the link, the upload, the registries and the node

Klippylink connects a Linux host (Python) over a serial line to a router (C firmware), which
forwards packets over Bluetooth Low Energy to up to eight nodes (C firmware). This project
models the parts of that system in which several pieces of state have to stay consistent, and
proves what each step keeps, what whole runs guarantee, and exactly when a promise fails.

| part | modules |
|---|---|
| The packet format and the serial frame | `Protocol` |
| CRC-32 of section 8 of RFC 1952, and why short bursts are always seen | `Crc32`, `Crc32Detection` |
| The host's and the router's stream parsers, alone and against each other | `SerialTransport`, `CommandParser`, `FrameStreams` |
| The firmware upload: receiver, both senders, the session as a distributed protocol, the whole way down and up | `NodeOta`, `OtaSenders`, `HostOta`, `OtaHistory`, `OtaSession`, `OtaOutcomes`, `OtaRetries`, `OtaZeroCrc`, `OtaProgress`, `OtaDelivery` |
| The router's connection table and slot registry, routing, and the host's mirror | `RouterTables`, `BleCentral`, `RouterRuns`, `ConnectionOrder`, `DeviceManager`, `HostMirror` |
| The LED effects engine, its animations, and the host's shadow of the zones | `Neopixel`, `LedEffects`, `LedColours`, `LedEngine`, `LedAnimation`, `ZoneApi`, `ZoneShadow` |
| The heater task against its callbacks, and the heartbeat monitor | `Heater`, `Heartbeat` |

Code that changes state is a class whose methods are proved against functions on values; the
run theorems are lemmas about those functions. `dafny verify dfyconfig.toml` checks everything.

What a reader should know before the tables:

* A length byte of 252 or more wraps the router's `uint8_t` total, and 245 to 251 overrun its
  buffer; both are modelled as they are. The host accepts payloads up to 255 bytes, so the
  router carries exactly those of at most 244 (`RouterCarriesIff`). An overrun sends nothing and
  leaves the parser idle in front of the payload's bytes from 245 on (`OverrunIsItsSpill`); a
  wrap sends a stub and reads the whole payload as a stream (`WrapReadsPayloadAfresh`).
* After line noise that shows no magic behind its first byte the host recovers every frame, while
  the router sends the same packets under the first noise byte as node id. The two agree if and
  only if that byte is the frame's own id.
* An upload starts from what earlier ones left: the node, statuses on their way up, and commands
  on their way down. Every distributed run comes down to a history of the node alone, fed the
  commands in order with some lost (`RunIsHistory`), and what a report can stand for is exactly
  this (`UploadOutcomes`): the commits of some selection of the older commands, for True only if
  an OK already follows an IN_PROGRESS among all the statuses by then; or one commit more, which
  is a selection of the firmware's chunks that passes the announced CRC or, if the node still
  follows an older session and an IN_PROGRESS is among those statuses, that session's image with
  a selection of the chunks behind it that passes that session's check. It follows:
  * True implies a commit made since the start if and only if no IN_PROGRESS with an OK behind it
    was left in the status channel. Two uploads that time out from an idle node leave one
    (`RetriesCanDeceive`). The retry after a timeout of the first wait is safe; the one after a
    timeout of the second wait need not be.
  * True implies that the boot image passed the firmware's own check, or that it is the firmware,
    if and only if everything the older commands can lead to makes it so (`VouchedIff`,
    `DeliveredIff`). Commands left on their way down are enough to break it with nothing in the
    status channel (`OlderCommandsDeceive`).
  * With no older command under way the first of these becomes: no leftover pair, and no image
    that an older session could commit and that fails the check. From an idle node and empty
    channels the second becomes: no proper selection of the chunks passes for the whole. For a
    firmware of one chunk that means a CRC other than zero, and one of four bytes has CRC zero.
  * When nothing is left, lost or fails, every order of turns ends in success; when only the
    node's calls at the end fail, it ends in a report, and a False one comes with no commit.
* The host's mirror agrees with the router's registry throughout a run if and only if no connect
  or disconnect is confused by a slot that still carries its connection id from before. Fresh
  runs never are: at every connect the id is not live, no slot of another device carries it, and
  the device is not connected. A run of four events without freshness breaks the agreement.
* CHASE, WIPE and TWINKLE divide by the length of their zone, and nothing stops the host from
  asking for length zero. Every round of the effects task is defined if and only if it never meets
  such a zone; as long as it does not, the zones the host has noted differ from the node's only in
  ids the node cannot run (8 and above), once the packets have arrived.
* Raising the emergency flag stops the heater within one iteration of its task. New gains only
  come behind a new target in the firmware; in every run with neither, the heater is off from the
  return of the call on if and only if, when the call was made, no duty but zero could follow: the
  task had not passed the flag, or had staged its duty, or had decided on zero, or computes zero
  from what it has measured, or will whatever it measures. Otherwise a duty can still follow; a
  run that ends at full power is exhibited. For the component alone, whose setters can be called
  in any order, the condition is that there is nothing but zeros to compute from
  (`EmergencyAtOnceRetunedIff`).
* The heartbeat monitor's pass goes by a snapshot: a watch switched off during the pass can still
  raise its alarm, and one switched on while the pass waits for that node's alarm is lost.

## Model

| member | source | states |
|---|---|---|
| Protocol.DecodeIffEncoded | shared/protocol/klip_protocol.py:62-79 | `decode` returns a packet exactly for the buffers that start with that packet's encoding, which also fixes every rejected buffer |
| Protocol.WireLayout | shared/protocol/klip_protocol.py:62-63 | A packet is 4C 4B, the command, the length and the payload, in this order |
| Protocol.LittleEndian32RoundTrip | linux-host/src/ota_handler.py:50-51 | The 32-bit fields of OTA_BEGIN survive packing and unpacking, lowest byte first |
| Crc32.CrcBytesRoundTrip | linux-host/src/ota_handler.py:50-51 | The CRC field survives packing and unpacking |
| Crc32.CrcBytesLayout | linux-host/src/ota_handler.py:50-51 | The CRC field has the lowest byte first |
| Crc32.UpdateCrcChains | node/main/ota_handler.c:79-85 | A CRC continued over a second block is the CRC of both blocks, from any start value |
| Crc32Detection.UpdateIsTable | node/main/ota_handler.c:83 | One table step equals eight polynomial shifts of the register mixed with the byte |
| Crc32Detection.FoldInjective | node/main/ota_handler.c:83 | Every step is injective: different registers stay different under the same bytes |
| Crc32Detection.BurstDetected | node/main/ota_handler.c:73-97 | Two images of equal length that differ only within four consecutive bytes have different CRCs |
| SerialTransport.HeadDecodes | linux-host/src/serial_transport.py:67-74 | A frame cut out by the host parser always decodes, to the bytes it was cut from |
| SerialTransport.Transport.SendPacket | linux-host/src/serial_transport.py:41-48 | Writes exactly one frame, or nothing when the port is closed or the payload too long |
| SerialTransport.Transport.Poll | linux-host/src/serial_transport.py:50-56 | Callbacks and leftover buffer are those of parsing old buffer and new data together |
| SerialTransport.Transport.ProcessBuffer | linux-host/src/serial_transport.py:58-77 | The pop-and-delete loop computes the parse function and ends where no progress is possible |
| SerialTransport.ParseAppend | linux-host/src/serial_transport.py:58-77 | Parsing a stream equals parsing a prefix and then its leftover with the rest |
| SerialTransport.RestIsStuck | linux-host/src/serial_transport.py:58-77 | What stays in the buffer cannot be parsed further |
| SerialTransport.FragmentationIndependent | linux-host/src/serial_transport.py:50-77 | Any byte stream, garbage included, gives the same packets and leftover in every split into reads |
| CommandParser.Parser.Init | router/main/command_parser.c:15-20 | Empties the buffer and forgets that a node id was read, keeping the old id itself |
| CommandParser.Parser.Feed | router/main/command_parser.c:22-76 | Feeding a block has the effect of the automaton run over its bytes |
| CommandParser.Parser.FeedByte | router/main/command_parser.c:24-75 | One byte: node id, overrun reset, resync or dispatch, as the automaton's step, with the buffer bound kept; `OverrunGoesIdle`, `WrapReadsPayloadAfresh` and `RouterTakesSegment` say what the step does to whole frames |
| CommandParser.Parser.TakeHead | router/main/command_parser.c:40-74 | With a header in the buffer: a packet whose wrapped total is reached is dispatched, a bad magic costs one byte |
| CommandParser.Parser.MoveDown | router/main/command_parser.c:72 | The overlapping move keeps the buffer's tail in order |
| CommandParser.PiecesDoNotMatter | router/main/command_parser.c:22-76 | The router parser is independent of how a stream is cut into feeds |
| CommandParser.StepKeepsInv | router/main/command_parser.c:33-72 | Offset at most 248, more than three bytes held only behind valid magic; unwrapped dispatches carry at most 244 bytes and send 4 + length |
| CommandParser.EveryStreamIsSafe | router/main/command_parser.c:22-76 | On every byte stream each packet sent is a stretch of the input that ends where it was completed, whole unless its length byte wraps; its target is the byte with which the parser left its idle state before it; and the stretches, ids included, are disjoint and in order |
| FrameStreams.HostRecovers | linux-host/src/serial_transport.py:60-66 | The host recovers every frame intact behind any noise that shows no magic |
| FrameStreams.RouterTakesSegment | router/main/command_parser.c:26-31 | A frame behind noise is sent whole, to the first noise byte as node id, and the parser ends idle |
| FrameStreams.RouterRecovers | router/main/command_parser.c:70-73 | The same for whole streams of noisy frames, in order |
| FrameStreams.NoisyStreamComparison | router/main/command_parser.c:22-76 | On the same noisy stream, cut differently for each: host gets the frames, router sends the same packets, and the targets agree if and only if every noise starts with its frame's id |
| FrameStreams.RoundTrip | router/main/command_parser.c:22-76 | Frames of at most 244 payload bytes come out of both parsers exactly, in order, in any fragmentation, with nothing pending |
| FrameStreams.RouterCarriesIff | router/main/command_parser.c:33-45 | A frame comes out of the router as itself if and only if its payload is at most 244 bytes |
| FrameStreams.OverrunGoesIdle | router/main/command_parser.c:33-37 | A payload of 245 to 251 bytes is dropped with the byte that did not fit, nothing is sent, and the router is idle and empty in front of what is left of it |
| FrameStreams.OverrunIsItsSpill | router/main/command_parser.c:26-37 | So such a frame does exactly what its payload from byte 245 on would do by itself |
| FrameStreams.OverrunThenFrames | router/main/command_parser.c:26-37 | The frames behind one of 245 bytes come out unharmed, in order |
| FrameStreams.WrapReadsPayloadAfresh | router/main/command_parser.c:45-73 | A payload of 252 to 255 bytes makes the router send a stub of up to three header bytes and read the whole payload as a stream of its own |
| NodeOta.OtaHandler.BeginUpdate | node/main/ota_handler.c:23-49 | Opens a fresh session after dropping an open one, or fails at the partition or the flash |
| NodeOta.OtaHandler.WriteChunk | node/main/ota_handler.c:51-67 | Appends to the partition, or closes the session with ERROR |
| NodeOta.OtaHandler.Abort | node/main/ota_handler.c:123-130 | Closes the session and sends nothing |
| NodeOta.OtaHandler.ReadBack | node/main/ota_handler.c:75-87 | The 256-byte block loop yields the CRC of the whole image, and 0 without a buffer |
| NodeOta.OtaHandler.EndUpdate | node/main/ota_handler.c:69-121 | Commits or closes as the flash and the check answer, with the status sent; which status when is `CommitsIff` |
| NodeOta.OtaHandler.Dispatch | node/main/gatt_server.c:225-236 | BEGIN of at least 8 bytes, DATA and END reach the receiver; other packets leave it alone |
| NodeOta.CommitsIff | node/main/ota_handler.c:69-121 | An end to an open session is always answered at once and closes it: with exactly OK, and the image selected for boot, if and only if the flash calls succeed and the expected CRC is 0 or equals the read-back; with exactly ERROR, and the boot choice as it was, in every other case. The announced size plays no part |
| NodeOta.BeginsIff | node/main/ota_handler.c:23-49 | IN_PROGRESS is sent, and the announced session opened, if and only if the partition and the flash are there; otherwise nothing is sent and no session is open |
| NodeOta.WritesIff | node/main/ota_handler.c:51-67 | Data for an open session is stored without an answer if the flash takes it and it fits; otherwise the session ends with exactly one ERROR |
| NodeOta.ElseSilent | node/main/gatt_server.c:225-236 | Every other packet changes nothing and is not answered |
| NodeOta.BurstNeverCommitted | node/main/ota_handler.c:73-97 | An image that differs from the sent one only within four consecutive bytes is never committed when the expected CRC is nonzero |
| OtaSenders.ChunksCarryImage | linux-host/src/ota_handler.py:17-19 | The chunks concatenate to the image, none is empty or over 244 bytes, all but the last are full, so their number is the ceiling of size / 244 |
| OtaSenders.TransferFits | linux-host/src/ota_handler.py:50-76 | Every packet of a transfer fits the firmware's buffers |
| OtaSenders.ChunkList | linux-host/src/ota_handler.py:17-19 | The generator loop yields exactly those chunks |
| OtaSenders.RouterSender.PushToNode | router/main/ota_handler.c:31-80 | An empty image is refused; otherwise the packets written are a prefix of the transfer, as long as the radio accepts, and success means all of it |
| OtaSenders.RouterSender.SendChunks | router/main/ota_handler.c:53-69 | The offset loop writes the chunks in order and stops at the first refusal |
| HostOta.OtaHandler.OnOtaStatus | linux-host/src/ota_handler.py:27-32 | Only the first status after a future was created counts, and only for this node; an empty one is an ERROR |
| HostOta.FirstAnswerDecides | linux-host/src/ota_handler.py:27-64 | The first status after BEGIN lets the upload go on only if it is 2, the first after END reports True only if it is 0, and statuses behind it, or while nothing is waited for, change nothing |
| HostOta.OtaHandler.Wake | linux-host/src/ota_handler.py:54-64 | The coroutine goes on only with IN_PROGRESS after BEGIN, and reports True only with OK after END |
| HostOta.OtaHandler.GiveUp | linux-host/src/ota_handler.py:54-60 | A timeout ends the upload as failed |
| HostOta.OtaHandler.SendNext | linux-host/src/ota_handler.py:66-76 | One packet a time, always the next of the same transfer the router's sender makes |
| OtaHistory.OwnHistory | node/main/ota_handler.c:23-121 | What a node can have made of any part of a transfer, under any losses, flash failures and restarts: what it has collected, and that it commits at most one image, only at the end, and only one that passes the check of the session it follows |
| OtaHistory.FedBoots | node/main/ota_handler.c:99-117 | The boot choice is the last image committed, and an OK is sent exactly with a commit |
| OtaHistory.WholeHistory | node/main/ota_handler.c:51-67 | If nothing of a transfer is lost the node holds exactly what has arrived of the firmware, and can commit only the whole |
| OtaHistory.PossibleFed | node/main/ota_handler.c:69-121 | Every image that is possible is committed by some node history in which an OK follows an IN_PROGRESS |
| OtaSession.RunIsHistory | linux-host/src/ota_handler.py:27-91 | Every distributed run, with interleavings, losses, timeouts, restarts and any leftovers in both channels, has the commits of a node fed the commands in order, and the host was told what it was told by statuses sent in that order |
| OtaOutcomes.SuccessHappens | linux-host/src/ota_handler.py:54-91 | Conversely any node history in which an OK follows an IN_PROGRESS is part of a run that reports success |
| OtaOutcomes.FailureHappens | linux-host/src/ota_handler.py:54-91 | And any history the host could have waited for is part of a run that reports failure |
| OtaOutcomes.UploadOutcomes | linux-host/src/ota_handler.py:27-91 | From any node, leftovers and older commands: the lists of commits a True report, and a False report, can stand for are exactly those a selection of the older commands and at most one possible image make up |
| OtaOutcomes.CommitsArePossible | node/main/ota_handler.c:23-121 | At any moment of any run the commits are of that kind, and the boot choice is the last of them |
| OtaOutcomes.ReliableDownlinkCommitsOnlyTheImage | node/main/ota_handler.c:51-121 | With no packet lost on the way down, whatever else fails, only the whole firmware can be committed behind what the older commands commit |
| OtaOutcomes.FakeSuccess | linux-host/src/ota_handler.py:54-86 | A leftover IN_PROGRESS with a later leftover OK makes a run that reports success while the node commits nothing |
| OtaOutcomes.TruthfulIff | linux-host/src/ota_handler.py:54-91 | From any node, leftovers and older commands: True follows a commit made since the start in every run if and only if no such pair was left behind |
| OtaOutcomes.VouchedIff | node/main/ota_handler.c:73-97 | From any of them: True stands for a boot image that passed the firmware's own check in every run if and only if whatever the older commands have come to, what they committed last (where an OK can already be taken) and all that is still possible pass it |
| OtaOutcomes.DeliveredIff | linux-host/src/ota_handler.py:86-88 | The same for a boot image that is the firmware |
| OtaOutcomes.VouchedDrainedIff | node/main/ota_handler.c:73-97 | With no older command under way: if and only if no pair was left and an older session the node still follows has no image to commit that fails the check |
| OtaOutcomes.DeliveredDrainedIff | linux-host/src/ota_handler.py:86-88 | With no older command under way: if and only if no pair was left and the firmware is the only possible image |
| OtaOutcomes.UploadIsSafe | linux-host/src/ota_handler.py:27-91 | If, whatever becomes of the older commands, no pair is left and the node does not follow another firmware's session with an IN_PROGRESS in the channel: True stands for a boot image that passed the check, and with no older command there is at most one commit and it passed |
| OtaOutcomes.ForeignCommit | node/main/ota_handler.c:73-74 | The input on which that fails: an unchecked older session whose IN_PROGRESS is still in the channel, and all of the upload lost but its end |
| OtaOutcomes.DeliveredFromIdleIff | node/main/ota_handler.c:51-67 | From an idle node and empty channels: True means delivery in every run if and only if no proper selection of the firmware's chunks passes its check |
| OtaOutcomes.OneChunkMistakableIff | node/main/ota_handler.c:73-74 | For a firmware of one chunk that condition is that its CRC is not zero |
| OtaRetries.BeginTimesOut | linux-host/src/ota_handler.py:54-60 | An upload whose first wait expires leaves the node in its session and its IN_PROGRESS in the channel, and its own retry is safe |
| OtaRetries.EndTimesOut | linux-host/src/ota_handler.py:78-84 | The retry takes the old answer for its own and, when its second wait expires, leaves IN_PROGRESS and OK |
| OtaRetries.RetriesCanDeceive | linux-host/src/ota_handler.py:47-86 | From an idle node and empty channels: after two such uploads a third one, of any firmware, the same one included, can report success with nothing committed |
| OtaRetries.NothingTaken | linux-host/src/ota_handler.py:66-84 | A retry whose second wait expires before the node took anything leaves an empty status channel and the whole transfer on its way down |
| OtaRetries.OlderCommandsDeceive | linux-host/src/ota_handler.py:47-86 | From an idle node and empty channels: after such a retry the upload of any firmware can report success with the older one committed in its place |
| OtaZeroCrc.ImageHasZeroCrc | linux-host/src/ota_handler.py:44 | A four-byte image with CRC zero |
| OtaZeroCrc.ZeroCrcIsUnchecked | node/main/ota_handler.c:73-74 | For every image with CRC zero there is a run that loses all its data and still reports success |
| OtaZeroCrc.SmallImageDeliveredIff | node/main/ota_handler.c:73-74 | For a firmware of one chunk True means delivery in every run if and only if its CRC is not zero |
| OtaZeroCrc.SuccessWithoutDelivery | node/main/ota_handler.c:73-74 | A firmware for which it does not |
| OtaProgress.UploadNeverStuck | linux-host/src/ota_handler.py:34-91 | On the interleaved session, without losses, restarts and expiries and with a flash that takes beginning and data, in every order of turns and whatever the allocator, `esp_ota_end` and the boot selection answer at the end: a run has ended with True and the firmware committed and selected for boot, or with False and nothing committed (only if not all of those answers were good), or has a turn left that changes something |
| OtaProgress.UploadEnds | linux-host/src/ota_handler.py:34-91 | No such run takes four or more turns per packet, so each of them ends in a report |
| OtaDelivery.NodeCommitsImage | node/main/ota_handler.c:23-121 | The packets leave the whole image in flash, received equal to total, the CRC matching, and the last one commits it |
| OtaDelivery.FirmwareArrives | router/main/command_parser.c:22-76 | End to end: in every fragmentation of the host's stream and every fresh router run, the firmware reaches the slot's owner and becomes its boot image |
| OtaDelivery.StatusesArrive | router/main/ble_central.c:250-253 | Any list of statuses a node notifies reaches the host in order under the node's own id, in any fragmentation |
| OtaDelivery.HostReportsSuccessIff | linux-host/src/ota_handler.py:54-91 | With every wait answered, True if and only if the answers are IN_PROGRESS and then OK |
| OtaDelivery.UploadSucceeds | linux-host/src/ota_handler.py:34-91 | The whole loop: with lossless links and working flash, in any fragmentation both ways, the firmware becomes the boot image and the host reports success on the node's own answers |
| BleCentral.Central.FindConn | router/main/ble_central.c:46-51 | The first entry with the id |
| BleCentral.Central.AllocConn | router/main/ble_central.c:53-61 | Appends a cleared entry unless the table is full |
| BleCentral.Central.FreeConn | router/main/ble_central.c:63-75 | Removes the first entry with the id and closes the gap in order |
| BleCentral.Central.NodeAdd | router/main/node_registry.c:17-44 | Reuses the device's disconnected slot, else takes a new one, else fails |
| BleCentral.Central.NodeRemove | router/main/node_registry.c:46-56 | Marks the first slot with the id, connected or not |
| BleCentral.Central.NodeIdByConnId | router/main/node_registry.c:85-90 | The first connected slot with the id |
| BleCentral.Central.NodeCountConnected | router/main/node_registry.c:77-83 | The number of connected slots |
| BleCentral.Central.OnConnect | router/main/ble_central.c:99-121 | Both tables and the emitted PING after a connection |
| RouterTables.ConnectAnnouncedIff | router/main/ble_central.c:99-121 | A connection is announced, by a PING under its slot, if and only if there is room in the connection table and a slot of its own or a free one |
| BleCentral.Central.OnDisconnect | router/main/ble_central.c:259-280 | Both tables and the emitted ERROR after a disconnection |
| RouterTables.DisconnectAnnouncedIff | router/main/ble_central.c:259-280 | A disconnection is announced, by an ERROR under its slot, if and only if it has one |
| RouterTables.NotifyForwardedIff | router/main/ble_central.c:220-253 | A notification goes up unchanged, under the id of the first connected slot with its connection, if and only if it starts like a packet and there is such a slot; its length is taken modulo 256 |
| BleCentral.Central.Handle | router/main/ble_central.c:88-285 | Every event changes tables and serial line as the reaction function says, and writes nothing to the radio |
| BleCentral.Central.SendToNode | router/main/ble_central.c:343-353 | One write to the connection's own handle, or none |
| BleCentral.Central.Forward | router/main/command_parser.c:50-65 | Unicast and broadcast loop make exactly the routed writes |
| RouterRuns.SlotsAreStable | router/main/node_registry.c:17-56 | In every run, with no hypothesis: a slot never changes hands, the count never drops and stays within 8 |
| RouterRuns.ReconnectReusesSlot | router/main/node_registry.c:19-29 | A returning device gets its first disconnected slot back and no slot is added |
| RouterRuns.FreeConnDropsOne | router/main/ble_central.c:63-75 | Under unique ids compaction removes exactly that connection and leaves the others found as before |
| RouterRuns.FreshRunsKeepInv | router/main/ble_central.c:99-121 | In every fresh run: ids unique, slots unique, and every connected slot backed by a connection to its own device |
| RouterRuns.ConnectedFitConns | router/main/node_registry.c:77-90 | Connected slots never outnumber open connections |
| ConnectionOrder.WritesUseOwnHandles | router/main/ble_central.c:343-353 | In every fresh run each write, unicast or broadcast, goes over the interface of the open connection of the device the radio has behind its id, and to the handle that the last discovery of a command characteristic on that connection reported, said on the events alone |
| ConnectionOrder.EntryIsDiscovered | router/main/ble_central.c:132-172 | The entry of an open connection has the id and interface it came with, and each of its two handles is the one the last discovery that found that characteristic reported, or none yet |
| ConnectionOrder.EntriesAreDiscovered | router/main/ble_central.c:132-172 | In every run with unique live ids every entry of the table is of that kind for a connection still open, said on the events alone |
| RouterRuns.FirstNodeIsReady | router/main/ble_central.c:99-218 | The hypotheses of the delivery and routing statements can be met: the first node to connect and be discovered is ready in a fresh run |
| RouterRuns.UnicastReachesOwner | router/main/command_parser.c:58-65 | A packet for slot n is written once, to the live connection whose device owns slot n, if that slot is ready, and otherwise not at all |
| RouterRuns.BroadcastReachesEachOnce | router/main/command_parser.c:50-57 | A broadcast is written exactly once to each ready slot's owner, in slot order |
| ConnectionOrder.TableIsOpenConnections | router/main/ble_central.c:46-75 | The compacted table is always the accepted, still open connections in order of arrival, each with its own handles |
| DeviceManager.Manager.HandlePacket | linux-host/src/device_manager.py:51-64 | PING connects or creates, ERROR disconnects, anything else leaves the connections |
| DeviceManager.Manager.SetZone | linux-host/src/device_manager.py:81-83 | Notes the zone under its id for a known node only |
| DeviceManager.Manager.ClearZone | linux-host/src/device_manager.py:85-87 | Forgets the id for a known node only |
| HostMirror.EmissionIsFrames | router/main/ble_central.c:99-121 | What an event puts on the serial line is a stream of whole frames |
| HostMirror.DrainedMirror | linux-host/src/serial_transport.py:50-77 | Draining the line in any fragmentation gives the host exactly the emitted frames |
| HostMirror.StepAgreesIff | router/main/node_registry.c:46-64 | One event keeps registry and mirror in agreement if and only if it is not confused by a stale connection id |
| HostMirror.AlwaysAgreesIff | linux-host/src/device_manager.py:51-64 | Agreement holds throughout a run if and only if no event in it is confused |
| HostMirror.FreshIsUnconfused | router/main/node_registry.c:46-64 | Freshness of a connection rules confusion out |
| HostMirror.FreshRunsAgree | linux-host/src/device_manager.py:51-64 | In every fresh run the drained mirror equals the registry, id by id |
| HostMirror.ReusedIdBreaksAgreement | router/main/node_registry.c:46-56 | The run that breaks it when an id is reused for another device |
| Neopixel.Strips.SetPixel | node/main/neopixel.c:96-102 | Writes one pixel that exists and sends nothing |
| Neopixel.Strips.Flush | node/main/neopixel.c:104-108 | Makes one strip show what was written |
| Neopixel.Strips.Set | node/main/neopixel.c:50-59 | Writes one pixel, and leaves nothing waiting if nothing was |
| Neopixel.Strips.SetAll | node/main/neopixel.c:61-71 | The whole strip takes the colour, no other does, and nothing is left waiting if nothing was |
| Neopixel.Strips.SetRange | node/main/neopixel.c:73-88 | Exactly the part of the range on the strip takes the colour; a range that starts beyond it is refused |
| LedEffects.SpeedPeriod | node/main/led_effects.c:30-33 | One tick more than the floor of (255 - speed) * 49 / 255, so between 1 and 50 and falling with the speed |
| LedColours.SolidColour | node/main/led_effects.c:66-70 | Each channel of a solid pixel is the same channel of the primary colour times the brightness over 255; at brightness 255 it is the primary colour |
| LedColours.BlinkColour | node/main/led_effects.c:72-83 | That colour in even steps and black in odd ones |
| LedColours.BreatheColour | node/main/led_effects.c:85-96 | The same with the level of the moment in place of the brightness |
| LedColours.HueColour | node/main/led_effects.c:36-53 | At full saturation, for every hue and brightness: which channel is at the brightness, which is dark, and the exact value of the third |
| LedColours.GreyColour | node/main/led_effects.c:39 | Without saturation all channels are at the brightness |
| LedColours.RainbowColour | node/main/led_effects.c:98-107 | A rainbow pixel has the colour of its hue: its share of the circle of 256, turned by one each step |
| LedColours.ChaseColour | node/main/led_effects.c:110-122 | One pixel has the primary colour, the others the secondary, scaled channel by channel |
| LedColours.WipeColour | node/main/led_effects.c:124-137 | A wipe pixel has the scaled primary colour from its own position in the cycle on, for `count` positions, and is black otherwise |
| LedColours.WipeLitIff | node/main/led_effects.c:126-128 | A wipe pixel is lit in one unbroken stretch of `count` positions that begins with its own |
| LedColours.TwinkleColour | node/main/led_effects.c:139-150 | Only the picked pixel, and only at the beginning of a step, takes the primary or the secondary colour by the coin |
| LedColours.UnknownEffect | node/main/led_effects.c:152-153 | Any other effect paints nothing |
| LedColours.LoneSolidFrame | node/main/led_effects.c:162-171 | When a solid zone at full brightness is the only active one, its pixels and no others take exactly its colour |
| LedEffects.TopPaintIsHighest | node/main/led_effects.c:164-171 | The frame's colour of a pixel is that of the active painting zone over which no higher-numbered active zone paints |
| LedEngine.Engine.RenderZone | node/main/led_effects.c:57-154 | Exactly the zone's in-range pixels take the effect's colours, its tick advances, other strips are untouched |
| LedEngine.Engine.PaintPixels | node/main/led_effects.c:64-136 | The pixel loops of the effects that paint their whole zone |
| LedEngine.Engine.PixelColour | node/main/led_effects.c:64-136 | The loop body's colour is the declarative one |
| LedEngine.Engine.RenderAll | node/main/led_effects.c:162-172 | The strips become the declarative frame, and a strip that is not dirty is unchanged |
| LedEngine.Engine.FlushDirty | node/main/led_effects.c:175-177 | Exactly the dirty strips are sent |
| LedEngine.Engine.Tick | node/main/led_effects.c:158-181 | One round paints the declarative frame over the old pixels, advances the tick of every active zone that animates by one, shows a lone solid zone in exactly its colour and, if everything was shown before, leaves everything shown |
| LedEngine.Engine.SetZone | node/main/led_effects.c:195-206 | An id below 8 becomes active from tick 0, others are refused |
| LedEngine.Engine.ClearZone | node/main/led_effects.c:208-223 | The zone's pixels go dark and are sent, and the entry is cleared |
| LedAnimation.WipeChangesOnePixel | node/main/led_effects.c:123-136 | From tick to tick a pixel changes exactly at a step boundary, and only the one whose turn it is, wrap included |
| LedAnimation.WipeDutyCycle | node/main/led_effects.c:123-136 | In every window of a whole cycle each pixel is lit for half the ticks and dark for the other half |
| LedAnimation.ChaseTakesTurns | node/main/led_effects.c:109-121 | In every window of a whole cycle each pixel is primary for exactly one step |
| LedAnimation.ChaseMovesOn | node/main/led_effects.c:109-121 | One pixel is primary, and at a step the next one takes over, the last handing to the first |
| LedAnimation.HuesDiffer | node/main/led_effects.c:97-100 | No two rainbow pixels have the same hue at any tick |
| LedAnimation.HsvKeepsBrightness | node/main/led_effects.c:36-53 | The strongest channel is the brightness, and a saturated colour has a dark channel |
| LedAnimation.HuesShow | node/main/led_effects.c:36-53 | At full saturation and brightness the colour determines the hue |
| LedAnimation.RainbowColoursDiffer | node/main/led_effects.c:97-107 | So at full brightness no two pixels of a rainbow look alike |
| LedAnimation.DarkRainbow | node/main/led_effects.c:97-107 | At brightness zero they all do |
| ZoneApi.Api.SetLedZone | linux-host/src/api_server.py:125-141 | Sends one packet and notes the zone, or does neither: unknown or disconnected node, values that do not pack, closed port |
| ZoneApi.Api.ClearLedZone | linux-host/src/api_server.py:145-151 | The same for clearing |
| ZoneApi.PackableIff | linux-host/src/api_server.py:127-131 | A zone packs if and only if its colours have three channels and all thirteen values fit a byte |
| ZoneShadow.DispatchLeds | node/main/gatt_server.c:177-214 | The node's dispatch of zone and pixel commands changes the zone table as the packet function says, writes exactly the pixels the command names in the colour it gives, and leaves no pixel waiting if none was |
| ZoneShadow.RunLeds | node/main/led_effects.c:158-181 | From initialisation on, after any sequence of commands and ticks, the zone table is the one of the run and every strip shows what is pending |
| ZoneShadow.ZoneRoundTrip | linux-host/src/api_server.py:127-131 | The thirteen bytes are the requested values in the order of the format, and unpack to them field by field |
| ZoneShadow.RequestKeepsAgreement | linux-host/src/api_server.py:124-151 | A granted request that arrives keeps host and node in agreement |
| ZoneShadow.ShadowAgrees | linux-host/src/device_manager.py:81-87 | For every run of requests and connection changes and every interleaving of effect ticks in which no tick meets an empty zone it divides by, host and node have the same zones among ids below 8 once all was delivered |
| ZoneShadow.TickableIff | node/main/led_effects.c:110-140 | A tick's precondition holds if and only if none of the zones the host has noted is empty and divided by |
| ZoneShadow.RanIff | node/main/led_effects.c:110-140 | Every tick of a run meets its precondition if and only if no table entry it meets was set by a granted request for an empty CHASE, WIPE or TWINKLE zone |
| ZoneShadow.EmptyZoneIsNotDrawn | linux-host/src/api_server.py:125-134 | Any such request, granted and delivered, makes the next tick undefined |
| ZoneShadow.DrawableRequestsAreSafe | linux-host/src/api_server.py:125-134 | A host that never asks for one keeps every tick defined |
| ZoneShadow.ZonesReachTheNode | router/main/command_parser.c:58-65 | The same with the packets of all nodes sharing one serial line in any fragmentation, through the router's parser and tables, under the exact condition of `RanIff` |
| ZoneShadow.WholeShadowIff | node/main/led_effects.c:195-198 | The whole shadow equals the node's zones if and only if no noted id is 8 or more |
| ZoneShadow.RequestKeepsEqualityIff | node/main/led_effects.c:195-198 | A granted request keeps exact equality if and only if it does not set such an id |
| Heater.HeaterControl.SetTarget | node/main/heater.c:146-151 | A whole call stores the target, then clears the flag, and leaves the duty |
| Heater.HeaterControl.SetPid | node/main/heater.c:153-157 | The gains and nothing else |
| Heater.HeaterControl.EmergencyOff | node/main/heater.c:159-164 | A whole call raises the flag first and then sets and updates the duty |
| Heater.HeaterControl.Iterate | node/main/heater.c:74-94 | An undisturbed iteration is the state machine's task steps in order, three with the flag up and five without: with it the duty is 0 and the memory kept, without it the duty is the truncated sum of the three terms |
| Heater.DutyStaysInRange | node/main/heater.c:91-92 | In every interleaving the duty is between 0 and 255 |
| Heater.IntegralIsSum | node/main/heater.c:85-89 | In every interleaving the integral is the period times the sum of the errors of the iterations that saw no emergency |
| Heater.SettingsInForce | node/main/heater.c:146-157 | In every interleaving target and gains are those of the last calls that were made |
| Heater.DutyFollowsHistory | node/main/heater.c:84-92 | Every decided duty is kp*e + ki*sum*0.1 + kd*(e - previous)/0.1, below zero 0, above 255 255 and truncated in between, where the gains are those last set and e, sum and previous come from exactly the history of the errors |
| Heater.FirstDuty | node/main/heater.c:84-92 | An ordinary case: target 200, a first reading of 190, duty 11 |
| Heater.OneStaleWrite | node/main/heater.c:77-80 | After the flag is raised and until a new target, the task gets at most one duty of its own out, and none if it had not passed the flag |
| Heater.EmergencyTakesEffect | node/main/heater.c:77-80 | In every interleaving, after the accesses that complete an iteration that saw the flag the duty is 0 |
| Heater.OffStaysOff | node/main/heater.c:159-164 | And it stays 0 until a new target |
| Heater.EmergencyAtOnceIff | node/main/heater.c:77-92 | From the call's return on the duty is 0 in every run without a new target or new gains if and only if at the call the task is not past its look at the flag with a measurement to come that can give a duty, not at a measurement that gives one, and not at a decision that is not zero |
| Heater.EmergencyAtOnceRetunedIff | node/main/heater.c:153-157 | The same for the component whose gains can be set without a new target, which node/main/gatt_server.c:262-268 never does: any measurement to come, and any that is not all zeros, can give a duty |
| Heater.ColdHeaterIsSafe | node/main/heater.c:39-42 | With the initial gains and target 0 at 25 degrees the call is enough, by the first condition and not by the second |
| Heater.EmergencyCanBeOvertaken | node/main/heater.c:77-92 | A duty the task had decided on runs after the call has returned |
| Heater.FullPowerIsReachable | node/main/heater.c:84-92 | That duty can be 255 |
| Heater.FullPowerAfterEmergency | node/main/heater.c:159-164 | One run from the start in which the call has returned and the duty is 255 |
| Heartbeat.HeartbeatMonitor.SetHeaterActive | linux-host/src/heartbeat_monitor.py:37-43 | Notes the switch, and the time when it is switched on |
| Heartbeat.HeartbeatMonitor.OnHeartbeatResponse | linux-host/src/heartbeat_monitor.py:45-46 | Notes the time of the response |
| Heartbeat.HeartbeatMonitor.Pass | linux-host/src/heartbeat_monitor.py:50-72 | An undisturbed pass asks exactly the active connected nodes, alarms exactly the silent ones among them once each, and switches those off |
| Heartbeat.RunsKnow | linux-host/src/heartbeat_monitor.py:37-46 | In every run the noted time is that of the node's last sign of life, and a watched node has given one |
| Heartbeat.FiresIff | linux-host/src/heartbeat_monitor.py:64-72 | A visit of a connected node alarms if and only if every sign of life it ever gave is more than two seconds older than the pass |
| Heartbeat.OneAlarmPerActivation | linux-host/src/heartbeat_monitor.py:65-72 | Between activations there is at most one alarm, and none once the node is neither watched nor in the snapshot of the pass under way |
| Heartbeat.OffCanAlarmIff | linux-host/src/heartbeat_monitor.py:53-72 | A node whose watch is switched off can still be alarmed, if connected, if and only if it is in the snapshot, not yet visited, and already silent for too long |
| Heartbeat.SwitchedOffStillAlarms | linux-host/src/heartbeat_monitor.py:53-72 | A run in which it is |
| Heartbeat.ActivationLastsIff | linux-host/src/heartbeat_monitor.py:69-72 | An activation lasts if and only if it does not come while the pass waits for that node's alarm |

## Left out

- BLE stack calls, GATT attribute tables and discovery, advertising and scanning, UART and pyserial: events and lossless byte or packet channels, or explicit losses where a statement says so.
- JSON: DEVICE_INFO_RESP, `node_update_info`, `send_device_info`, and with them node names, capabilities and the router's endstop flags; nodes are addressed by id instead of by name.
- The motor, sensor, WiFi, radio, endstop and NeoPixel packet builders, which would only add easy members.
- Thermistor conversion, `sinf` and `rand`: an arbitrary temperature at each reading, and an arbitrary level, pixel and coin at each rendering.
- Float rounding and NaN: the heater and the clock use reals. The three gains are read, and stored, in one step.
- Heater notifications, `heater_init`, which no other file calls, and the ADC and timer drivers; setting and updating the timer's duty are separate steps.
- Thread-safety of asyncio futures, several uploads to one node at a time (one after another is covered, with whatever is still under way), the progress callback, and a callback that raises or is not set.
- Images of 4 GiB and more, for which `struct.pack` raises before anything is sent, and those over the 0x110000 bytes of an OTA partition (node/partitions.csv) in the delivery statements; the receiver's model refuses what does not fit.
- Failing flash reads during the read-back, and failing LED driver calls, whose results the firmware ignores or passes up.
- Zones of length 0 with CHASE, WIPE or TWINKLE: the firmware divides by the length, which is undefined in C, so the rendering methods require at least 1 for those effects and the zone statements say exactly when that holds; what the node does afterwards is left out.
- Ticks that wrap around in the animation statements; the engine's own step wraps at 32 bits.
- The mutex of the effects task: a tick, a zone change and a direct pixel command each run undisturbed.
- Router events while a delivery statement is under way: the tables are those of any reachable state and then stay as they are.
- Concurrent API requests: `set_led_zone` and `clear_led_zone` are plain functions, which the server may run in several threads, so the packet of one request and the note of another can interleave; each request is taken as one step.
- Node restarts in the zone statements: a restarted node has no zones while the host still notes them.
- Broadcast requests in `ZonesReachTheNode`, since the host's registry only holds ids the router has announced.
- Heartbeat sending failures, which are logged only, the heater configuration the monitor stores and never reads, and the wiring in main.py, which does not call the monitor's setters.
- `ota_self_update`, the web server and UI, the Klipper extension, Moonraker beyond the alarm call, configuration files and install scripts.
- LedAnimation.RainbowColoursDiffer: says nothing between full brightness and zero, where colours can round to the same value; which colour each pixel has there is in `HueColour`.
- LedColours.HueColour: leaves out saturations between 0 and 255, which no effect asks for.
- BleCentral.Central.Handle: leaves out the two writes that follow service discovery (enabling notifications, DEVICE_INFO_REQ) and what notifications tell the registry about names and endstops; neither touches the tables modelled here.
- RouterRuns.UnicastReachesOwner: says nothing about the interface and the handle of a write, which `WritesUseOwnHandles` does; so does BroadcastReachesEachOnce.
- OtaDelivery.UploadSucceeds: composes the finished streams of both directions; the interleaved session is in `UploadNeverStuck` and `UploadEnds`.
- ZoneShadow.ZonesReachTheNode: keeps the router's tables fixed while the packets are under way.
