# fakemote, modelled and proved

fakemote sits between the Wii's Bluetooth host stack and the real USB dongle. It answers for two
simulated Wiimotes that are fed by gamepads and passes all other traffic through, renaming
connection handles on the way. This project models that behaviour in Dafny and proves what holds
of it over every input and every run.

Code that works in place is a class with the same fields, whose methods are proved to compute a
function on values. The properties are lemmas about those functions and about runs of them.

| module | file of the program | about |
|---|---|---|
| `Rendezvous` | source/main.c, source/injmessage.c | PendingQ, ReadyQ, the hand-down buffer, injected messages |
| `HciState` | source/hci_state.c | the handle table, the masked counter, translation of packets in place |
| `Routing` | source/hci_state.c, source/fake_wiimote_mgr.c | handles over whole runs: a reference numbering and its renaming |
| `Crypto` | source/wiimote_crypto.c | key data, key search, cipher |
| `Registers` | source/fake_wiimote.c | register memory, chunked reads, the cached key |
| `Reports`, `ButtonMap` | include/wiimote.h, source/button_map.c, source/fake_wiimote.c | report layout, packing, buttons, IR position and dots |
| `Pad` | source/fake_wiimote.c | everything behind the interrupt channel: reads, extension port, data reports |
| `HostAccess`, `OutputReports`, `InputReports` | include/wiimote.h, source/fake_wiimote.c | what a host achieves with output reports, in the protocol's numbers; the reports as bytes |
| `L2cap`, `Wire` | source/injmessage.c, source/fake_wiimote.c | packet builders, the signalling loop, the option loop |
| `Linking`, `ChannelIds`, `LinkingProgress` | source/fake_wiimote.c | connection and L2CAP linking: order, channel identifiers, termination |
| `FakeWiimote` | source/fake_wiimote.c | the Wiimote as a value and as a class |
| `InputDevices`, `Gamepad` | source/input_device.c, source/button_map.c | gamepad slots; the mapping tables, and what a host sees of a gamepad's state |
| `Manager`, `ManagerCode` | source/fake_wiimote_mgr.c, source/input_device.c | all parts together: steps, runs, ownership; the loops of the code |
| `Packets` | source/fake_wiimote_mgr.c | completed-packet accounting |
| `Snooping`, `Connections` | source/hci_state.c, source/fake_wiimote.c, source/fake_wiimote_mgr.c | what commands of the host leave behind, and the life of a connection, in the protocols' bytes |
| `WholeSystem`, `Histories` | several | runs of the whole are runs of `Routing`, of `Linking` and of `Pad` |
| `Conf`, `ConfFile` | source/conf.c | the SYSCONF directory; a printer of such files |

`Bytes` holds bytes, 16-bit words and slices.

## What the code does not do

Some expectations one could have of the code are false. Each is stated as an exact condition.

- An injected message that both queues refuse is never freed. A message is freed exactly when it
  is delivered. Nine injections at the interrupt endpoint while the host offers no buffer get there
  (`Rendezvous.InjectionOutcome`, `Rendezvous.RefusedBlockNeverFreed`, `Rendezvous.LeakHappens`).
- The dongle's reply goes to whichever host buffer is first when it arrives, not to the one the request
  was sized for. All payloads fit their buffers exactly if the k-th accepted message is never longer than
  the k-th accepted buffer (`Rendezvous.PayloadsFitIff`, `Rendezvous.ReplyOverrunsBuffer`).
- The handle counter is masked with `0x0EFF`, which also clears bit 8, so it has period 256. The next
  handle is fresh, and an accept or a new connection keeps the handles apart, exactly if no live
  connection is a multiple of 256 allocations old (`Routing.FreshIffNoMultiple`,
  `Routing.AcceptIsSafeIff`, `Routing.ConnectionIsSafeIff`). A run of legal steps reaches a state in
  which the next accept takes all packets for a connection of the dongle to a fake Wiimote
  (`Routing.WrapAroundCollides`).
- Of the 37 commands that carry a connection handle a fake Wiimote answers nine. Any other one that
  carries its handle, leaving sniff mode for example, reaches the tracker and fails its assertion. So do
  commands for a handle that is not live, and the two commands the tracker has no code for, creating a
  connection and acknowledging completed packets. A request for the stored link key of one fake Wiimote
  fails an assertion in the manager. And the program insists that the replies of a fake Wiimote can be
  injected. Together these are all the ways a command can fail (`WholeSystem.CommandSucceedsIff`,
  `WholeSystem.ExitSniffModeFails`, `WholeSystem.StoredKeyRequestFails`).
- The completion of a synchronous (SCO) connection announces a new handle, but is translated as if the
  handle were in the table, so its assertion fails (`Routing.EventsAreExpected`,
  `Routing.SynchronousConnectionFails`).
- In relative mode a stick moves the pointer the way it is pushed exactly if the unsigned 16-bit position
  does not fall below zero; otherwise the pointer ends at the opposite edge. Fully left is right from every
  position (`ButtonMap.StickMoves`, `ButtonMap.FullLeftGoesRight`), and likewise in absolute mode
  (`ButtonMap.StickPoints`).
- After activation the extension identifier is that of the extension attached before. It is right
  exactly if there was none (`Pad.IdentifierAfterInit`).
- A read that runs past the end of a register bank is answered with full chunks as long as they fit,
  and then with one error (`Registers.NextReply`).
- Counts of completed packets travel in 16 bits and are summed in 32. The host learns of every packet
  exactly if no step of the run loses one (`Packets.CompletedPackets`, `Packets.SumWrapsAround`).
- A `conf_set` with a length below the item's own writes the item's full length, and a `conf_get` with
  that length then fails. Both succeed with one length exactly if it is the item's
  (`Conf.BothSucceedIff`).

## Model

| member | source | states |
|---|---|---|
| Rendezvous.StepKeepsInv | source/main.c:234-303 | in every step: the two queues are never both non-empty, accepted = delivered followed by queued for buffers and messages, at most one of hand-down outstanding and hand-down in ReadyQ, every live heap block is queued or refused at exactly one endpoint |
| Rendezvous.StepRefinesFifo | source/main.c:257-303 | one step of an endpoint is one input to a bounded FIFO channel |
| Rendezvous.RunRefinesFifo | source/main.c:257-303 | over every run from any reachable state: the endpoint is that FIFO channel, and its acks pair the k-th accepted buffer with the k-th accepted message |
| Rendezvous.BootRunRefinesFifo | source/main.c:257-403 | the same from boot, with empty queues |
| Rendezvous.AcksAreFifo | source/main.c:234-255 | every buffer is acked at most once, in order, with the message of the same number |
| Rendezvous.HandDownExclusive | source/main.c:257-303 | the static buffer is handed down only when ReadyQ is empty and none is outstanding, is overwritten only when no queue entry refers to it, and its undelivered data stays |
| Rendezvous.WaitingBufferIsHandedDown | source/main.c:257-286 | a buffer that is accepted and not acked at once leaves a hand-down outstanding, in every reachable state, also behind other waiting buffers |
| Rendezvous.DongleCanReply | source/main.c:257-403 | so after every run from boot that ends with such a buffer the dongle can reply, and its reply acks the first waiting buffer |
| Rendezvous.ReplyGoesToFirst | source/main.c:363-403 | the dongle's reply is delivered to the first waiting buffer, whoever it was sized for |
| Rendezvous.FreedExactlyAtDelivery | source/injmessage.c:28-47 | a block disappears in a step exactly if its message is delivered in it; each step acks at most one buffer |
| Rendezvous.RefusedBlockNeverFreed | source/main.c:288-303 | a refused injected message stays allocated in every later state |
| Rendezvous.InjectionOutcome | source/main.c:288-303 | an injected message is delivered, queued or leaked, each exactly in its case of the two queues |
| Rendezvous.LeakHappens | source/main.c:288-303 | a run from boot, of nine injections at the interrupt endpoint or seventeen at the other, whose last is refused, and whose block is still allocated after any continuation |
| Rendezvous.PayloadsFitIff | source/main.c:215-255 | over every run from boot: every payload fits its host buffer exactly if the k-th accepted message is never longer than the k-th accepted buffer |
| Rendezvous.LargeBuffersFit | source/main.c:215-255 | so they all fit if every buffer has room for the longest message |
| Rendezvous.ReplyOverrunsBuffer | source/main.c:257-303 | a run in which the dongle respects the size it was given and its reply still does not fit |
| Rendezvous.Conservation | source/main.c:257-303 | over every run from boot: everything sent is delivered, queued or refused |
| Rendezvous.UsbEndpoint.CopyAndAckIpcMessage | source/main.c:234-255 | fills and acks the buffer, frees the message if it was injected |
| Rendezvous.UsbEndpoint.ConfigureHandDown | source/main.c:223-232 | the hand-down request names the host buffer's descriptor and size |
| Rendezvous.UsbEndpoint.HandlePending | source/main.c:257-286 | is the buffer-arrives step; with no data ready and room in PendingQ a hand-down is outstanding afterwards, issued here exactly if there was none; only then the request is written |
| Rendezvous.UsbEndpoint.HandleReady | source/main.c:288-303 | is the data-arrives step and leaves the hand-down request alone |
| Rendezvous.UsbEndpoint.ResourceReply | source/main.c:363-403 | is the dongle-reply step: the static buffer is overwritten, then treated as data |
| Rendezvous.Hooks.ReceiveBuffer | source/main.c:307-361 | steps one endpoint, keeps the invariant of both; with no data ready and room it leaves a hand-down outstanding |
| Rendezvous.Hooks.InjectMessage | source/main.c:133-143 | steps one endpoint, keeps the invariant of both |
| Rendezvous.Hooks.ResourceReply | source/main.c:363-403 | steps one endpoint, keeps the invariant of both |
| HciState.CounterWalksHandles | source/hci_state.c:38-44 | the n-th allocated handle is n modulo 256 |
| HciState.HandleCollision | source/hci_state.c:38-44 | two allocations share a handle exactly if 256 divides their distance |
| HciState.EventsByCode | source/hci_state.c:234-328 | which events, by code and status, name a connection, at which offset, and that only the completed-packets event names several |
| HciState.CommandsByGroup | source/hci_state.c:137-208 | which commands carry a handle, by opcode group and number |
| HciState.RenameKeepsFlags | source/hci_state.c:331-353 | renaming an ACL header word sets the 12-bit handle and keeps PB and BC |
| HciState.AclInThenOut | source/hci_state.c:331-383 | inbound then outbound translation restores the packet; each keeps all but the handle bits |
| HciState.EventDataHandle | source/hci_state.c:212-329 | every handle an event names becomes its virtual name, a new connection's becomes the allocated one |
| HciState.CommandDataHandle | source/hci_state.c:108-209 | a translated command carries the physical handle and is otherwise unchanged |
| HciState.HciTracker.ResetTracker | source/hci_state.c:26-36 | every slot invalid, counter and snooped settings zero |
| HciState.HciTracker.VirtAlloc | source/hci_state.c:38-44 | returns the counter and advances it under the mask |
| HciState.HciTracker.MapHandle | source/hci_state.c:57-68 | fills the first free slot, fails exactly on a full table |
| HciState.HciTracker.UnmapHandle | source/hci_state.c:70-80 | clears the first slot of that virtual handle, fails exactly if there is none |
| HciState.HciTracker.LookupVirt | source/hci_state.c:82-92 | first valid slot of the physical handle |
| HciState.HciTracker.LookupPhys | source/hci_state.c:94-104 | first valid slot of the virtual handle |
| HciState.HciTracker.HandleEvent | source/hci_state.c:212-329 | translates any event in place and updates the table, failed connection events untouched |
| HciState.HciTracker.TranslateCompletedPackets | source/hci_state.c:297-308 | every entry's handle is renamed, counts stay |
| HciState.HciTracker.HandleCommand | source/hci_state.c:108-209 | translates or snoops a command no fake Wiimote took; succeeds exactly if no assertion of its case fails, and changes nothing otherwise; Snooping says what a snooped command leaves behind |
| HciState.HciTracker.HandleAclIn | source/hci_state.c:331-353 | renames the handle in place |
| HciState.HciTracker.HandleAclOut | source/hci_state.c:355-383 | renames the handle in place |
| Routing.StepKeepsInv | source/hci_state.c:38-104 | as long as no live connection is a multiple of 256 allocations old when a handle is given out, any event, command, accept or disconnection keeps table = live real connections, all live handles distinct, all below 256 |
| Routing.AcceptIsSafeIff | source/fake_wiimote.c:274-306 | an accept keeps all that exactly under this condition |
| Routing.ConnectionIsSafeIff | source/hci_state.c:240-260 | so does a new connection of the dongle |
| Routing.StepFollowsHandler | source/hci_state.c:212-329 | the numbering's tracker is the event handler's |
| Routing.TableRenames | source/hci_state.c:57-104 | the table maps each live connection to its own name in both directions |
| Routing.NextHandleFresh | source/hci_state.c:38-44 | the next handle belongs to no live connection |
| Routing.EventsKeepTheirConnection | source/hci_state.c:212-329 | every handle in a translated event names the connection that the dongle meant |
| Routing.FullIffAllLive | source/hci_state.c:57-68 | the table is full exactly with 32 live real connections |
| Routing.MappedIffLive | source/hci_state.c:82-92 | a physical handle is found exactly if it belongs to a live connection |
| Routing.NamedIffLive | source/hci_state.c:94-104 | a virtual handle is found exactly if it names a live connection of the dongle |
| Routing.EventsAreExpected | source/hci_state.c:212-329 | for every event: the handler's assertions hold exactly if a new connection finds fewer than 32 others, and any other event names live connections only |
| Routing.SynchronousConnectionFails | source/hci_state.c:320 | a synchronous connection's completion with an unknown handle always fails |
| Routing.EventsKeepOtherBytes | source/hci_state.c:212-329 | all other bytes of an event pass unchanged |
| Routing.CommandsKeepTheirConnection | source/hci_state.c:108-209 | a forwarded command names the connection that the host meant |
| Routing.AclKeepsItsConnection | source/hci_state.c:331-383 | ACL data names one connection on both sides in both directions, and the round trip is the identity |
| Routing.NamesAreStable | source/hci_state.c:57-104 | a live connection keeps its names over any run without its disconnection or a reset |
| Routing.RoutingIsUnambiguous | source/hci_state.c:355-383 | a packet for a live handle goes to the one fake Wiimote of that handle or to the dongle under the one physical handle |
| Routing.RoutingOverRuns | source/hci_state.c:355-383 | so it is in every state of every legal run from boot |
| Routing.FreshIffNoMultiple | source/hci_state.c:38-44 | without the bound: the next handle is fresh exactly if no live connection is a multiple of 256 allocations old |
| Routing.WrapAroundCollides | source/hci_state.c:38-44 | a run from boot to a state in which the next accept gives two live connections one handle, and the fake Wiimote takes all packets for the other |
| Crypto.KeyDataInjective | source/wiimote_crypto.c:197-219 | different indices never give the same key data for the same random part |
| Crypto.MatchesUnique | source/wiimote_crypto.c:243-262 | at most one index matches any key data |
| Crypto.MatchesIffMade | source/wiimote_crypto.c:243-262 | an index matches exactly the key data that were made with it |
| Crypto.SearchInvertsMaking | source/wiimote_crypto.c:221-262 | for every random part and index the search stops at that index and yields the key of those parts |
| Crypto.KeyDataUndone | source/wiimote_crypto.c:191-219 | undoing the XOR, the rotation and the subtraction on each key byte, with named random bytes, gives back its entry of the answer table |
| Crypto.KeySelectsTables | source/wiimote_crypto.c:221-262 | for every random part and index i the sixteen bytes of the key found, each as S-box i at a named key or random byte XOR S-box i+1 at another |
| Crypto.PartsOfMadeKey | source/wiimote_crypto.c:221-262 | the same for any key data that some index made |
| Crypto.HostDecrypts | source/wiimote_crypto.c:264-269 | a host with the sixteen bytes recovers each byte by an XOR with one and an addition of another, which its address modulo 8 chooses |
| Crypto.DecryptInvertsEncrypt | source/wiimote_crypto.c:264-269 | decryption at the same address restores the data |
| Crypto.EncryptInPieces | source/wiimote_crypto.c:264-269 | a block encrypted in two pieces at consecutive addresses is the block encrypted at once |
| Crypto.GenerateKeyData | source/wiimote_crypto.c:197-219 | fills the six key bytes of the random part and the index |
| Crypto.GenerateKey | source/wiimote_crypto.c:243-262 | the search loop finds the key: its sixteen bytes are those of S-boxes i and i+1 for the index i the data was made with |
| Crypto.EncryptInPlace | source/wiimote_crypto.c:264-269 | encrypts a prefix of the buffer and leaves the rest |
| Registers.ReadExtKeepsKey | source/fake_wiimote.c:455-474 | an encrypted read uses the key of the current key bytes and leaves the cache in agreement with them |
| Registers.WriteExtKeepsKey | source/fake_wiimote.c:476-489 | however a write overlaps 0x40-0x4F, a clean cache never holds a stale key |
| Registers.ProcessReadKeepsKey | source/fake_wiimote.c:491-545 | a read request changes no register and keeps the cache in agreement |
| Registers.ProcessWriteKeepsKey | source/fake_wiimote.c:547-584 | a write request keeps the cache in agreement and no read is disturbed |
| Registers.NextReply | source/fake_wiimote.c:491-545 | the k-th call answers with exactly chunk k of the memory at request time, or with the error of the whole request |
| Registers.ReceivedIsAtomic | source/fake_wiimote.c:491-545 | the first n replies concatenate to the first 16n bytes read at once |
| Registers.InRangeReadIsAtomic | source/fake_wiimote.c:491-545 | an in-range read of any size gets ceil(n/16) replies whose data is the block read, and encrypted, at once |
| Registers.AtomicBlock | source/fake_wiimote.c:455-545 | that block is the plain registers, or, where the extension is encrypted, those registers encrypted as one block at the starting address, which decrypts as one block |
| Reports.SegmentsTile | include/wiimote.h:403-501 | for every mode the segments are disjoint, gap-free and at most 21 bytes |
| Reports.AccReportDecodes | source/fake_wiimote.c:610-661 | in accelerometer modes a host recovers the buttons, x exactly, y and z up to their lowest bit |
| Reports.PlainReportDecodes | source/fake_wiimote.c:610-661 | in the other modes with buttons a host recovers the buttons |
| Reports.SegmentsAreRead | source/fake_wiimote.c:610-661 | camera and extension bytes are found at the mode's offsets |
| Reports.PartsReachHost | source/fake_wiimote.c:610-661 | in each of the nine modes a host that knows their byte layouts finds buttons, acceleration, camera and extension bytes whole |
| ButtonMap.MapButtons | source/button_map.c:12-25 | the shifting loop computes the mapped word |
| ButtonMap.MappedBit | source/button_map.c:12-25 | a bit is set exactly if some pressed button maps to it |
| ButtonMap.MappedStaysClear | source/button_map.c:12-25 | bits that no entry of a table has stay clear in any combination of buttons |
| ButtonMap.NunchukDecodes | include/button_map.h:97-111 | for all inputs the host reads stick, ten-bit acceleration and the two active-low buttons from the six Nunchuk bytes |
| ButtonMap.ClassicDecodes | include/button_map.h:113-134 | for all inputs the host reads sticks at their resolution, triggers and active-low buttons from the six Classic Controller bytes |
| ButtonMap.IrPointer.MapAnalogAxes | source/button_map.c:109-144 | after any axis values, with 16-bit wrap-around, the position lies in the box and both dots on screen |
| ButtonMap.IrPointer.MapDirect | source/button_map.c:89-107 | no touch hides the dots; any coordinates, scaled with C division and 16-bit wrap-around, give the two dots beside that position, on screen for a touch inside the pad |
| ButtonMap.AxisDrives | source/button_map.c:109-128 | each pointer coordinate follows the one gamepad axis that is mapped to it, from the centre (511, 383) in absolute mode, and stands still otherwise |
| ButtonMap.StickMoves | source/button_map.c:118-140 | in relative mode the pointer moves the way the stick is pushed, by a sixteenth of its value up to the edge, exactly if the 16-bit position does not fall below zero; otherwise it ends at the opposite edge |
| ButtonMap.StickPoints | source/button_map.c:120-140 | the same for absolute mode, counted from the centre |
| ButtonMap.FullLeftGoesRight | source/button_map.c:118-135 | the input: from every position a stick held fully left takes the pointer to the right edge |
| ButtonMap.PointerIsRecovered | source/button_map.c:78-87 | from the two dots and the place of the sensor bar a host computes the pointer |
| ButtonMap.DotsOnScreen | source/button_map.c:78-87 | for either sensor-bar side both dots of any position in the box lie in 0x7F-0x380 by 0x5D-0x2A2, level and at fixed distance |
| ButtonMap.CameraBytesDecode | source/fake_wiimote.c:355-414 | basic, extended and full packing unpack to the exact coordinates |
| ButtonMap.OtherDotsAbsent | source/fake_wiimote.c:355-414 | the camera's other two dots read as absent in every packing, and so does everything in an unknown mode |
| ButtonMap.PointerReachesHost | source/button_map.c:78-144 | a position in the box arrives at the host as the two dots that were computed, in basic, extended and full packing |
| Gamepad.ButtonsLeaveAcceleration | source/input_device.c:18-31 | no combination of gamepad buttons maps to a bit where acceleration is packed |
| Gamepad.SampleIsValid | source/input_device.c:216-280 | every state of a gamepad gives a sample that the pad takes |
| Gamepad.PressedButtons | source/input_device.c:18-58 | through any of the tables a button is reported exactly if a gamepad button mapped to it is pressed |
| Gamepad.WiimoteButtonNames | source/input_device.c:18-30 | a host sees each of the Wiimote's eleven buttons exactly if the gamepad button of its name in the table is pressed |
| Gamepad.NunchukButtonNames | source/input_device.c:31-34 | C and Z likewise |
| Gamepad.ClassicButtonNames | source/input_device.c:39-55 | the fifteen buttons of a Classic Controller likewise |
| Gamepad.MapSticks | source/button_map.c:42-46 | the axis loop puts the last value of each named axis in its place, as an unsigned byte |
| Gamepad.SticksFollow | source/button_map.c:7-10 | a resting stick reads 0x80, its ends 0 and 0xFF, and the byte never falls as the stick is pushed further |
| Gamepad.GamepadReachesHost | source/input_device.c:216-280 | for every state of a gamepad in Nunchuk or Classic layout, every report mode and cipher state: the host reads exactly the pressed buttons, the acceleration, the IR dots, and the sticks, triggers and buttons of the extension |
| Gamepad.CursorReachesHost | source/button_map.c:78-144 | wherever the IR cursor stands in its box, the data report shows the host its two dots, in the camera mode of the report |
| Pad.StepKeepsInv | source/fake_wiimote.c:416-744 | every tick and output report keeps register sizes, key agreement, ten-bit acceleration and free button bits |
| Pad.RunKeepsInv | source/fake_wiimote.c:416-744 | so does every run |
| Pad.InitPadInv | source/fake_wiimote.c:245-272 | activation establishes it |
| Pad.IdentifierAfterInit | source/fake_wiimote.c:190-272 | after activation the identifier is the previous extension's; it is right exactly if there was none |
| Pad.ReadingRun | source/fake_wiimote.c:684-744 | while a read is in progress, ticks send its chunks in order and nothing else about it, whatever else the host asks for except writes |
| Pad.MultiChunkRead | source/fake_wiimote.c:491-545 | over a run from the request on, the replies are those of the atomic read, and it is over exactly when all were sent |
| Pad.ReadIsAtomic | source/fake_wiimote.c:491-545 | over any run from an in-range request until it is done, without a write: ceil(n/16) successful replies whose data, put together, is the registers at request time, encrypted as one block where encryption is on |
| Pad.PortChange | source/fake_wiimote.c:586-608 | the port changes only on a tick with a change due, through the empty port, resets the registers, disables reporting and sends one status report |
| Pad.TargetReached | source/fake_wiimote.c:586-608 | over any run a fixed target is reached in at most two changes, one per free tick |
| Pad.SilentUntilModeSet | source/fake_wiimote.c:586-661 | while reporting is disabled no data report is sent before a report-mode command |
| Pad.SilentAfterChange | source/fake_wiimote.c:586-661 | so there is none between a port change and the next such command |
| Pad.ReportReachesHost | source/fake_wiimote.c:610-744 | in every mode the host decodes buttons, acceleration and extension bytes of this tick's sample from the report, through the cipher where it is on |
| Pad.PayloadDecodes | source/fake_wiimote.c:610-661 | the payload has the size of its mode and each segment decodes |
| Pad.DotsReachHost | source/fake_wiimote.c:355-414 | in basic and extended camera mode the registers unpack to the dots of the sample |
| HostAccess.WriteLands | source/fake_wiimote.c:547-584 | a host write of 1 to 16 bytes that fits changes exactly the addressed bytes of exactly the addressed bank; a refused one changes nothing; either is acknowledged once, with the error of its case; other sizes are ignored |
| HostAccess.ReadIsAnswered | source/fake_wiimote.c:491-545 | an idle Wiimote answers a read at once with its address and byte count, or with the error of its case and no data |
| HostAccess.ReadShowsBank | source/fake_wiimote.c:455-545 | the replies to an in-range read, decrypted as one block where the cipher is on, are the bytes of the addressed bank |
| HostAccess.WriteThenRead | source/fake_wiimote.c:476-584 | over any run that finishes a read around a written range, without another write, the host gets back what it wrote, and around it what was there before |
| HostAccess.CipherSwitch | source/fake_wiimote.c:463-489 | one byte at 0xF0 turns the cipher on and off |
| HostAccess.CameraShowsDots | source/fake_wiimote.c:355-453 | the byte the host writes at 0x33 of the camera selects the packing in which it then finds the dots from 0x37 on; no other register changes |
| HostAccess.StatusAfterRun | source/fake_wiimote.c:901-1003 | over every run the LEDs and the IR flag are those the host set last |
| HostAccess.StatusTellsLastSet | source/fake_wiimote.c:91-105 | after any run a status request is answered with them and with whether an extension is attached |
| HostAccess.OtherReports | source/fake_wiimote.c:901-1003 | what each other output report sets, that it is acknowledged exactly on request, and that a read during a read is refused as busy |
| HostAccess.ReportIsDue | source/fake_wiimote.c:610-661 | a sampling tick sends a data report exactly if a mode is set and the host wants reports continuously or something changed since the last one |
| HostAccess.FirstReport | source/fake_wiimote.c:245-272 | a Wiimote that was just assigned a gamepad has nothing set or attached, rests level, and reports the first pressed button in two bytes |
| HostAccess.SwitchIsCarriedOut | source/input_device.c:225-232 | a switch of the gamepad's extension is silent, and after two more ticks without a read in progress that extension is attached |
| HostAccess.AttachedIdentifies | source/fake_wiimote.c:190-243 | an attached extension shows its six identifier bytes in the clear |
| HostAccess.AttachedRests | source/fake_wiimote.c:225-242 | and its data are those of one that nobody touches |
| OutputReports.HidArrives | include/wiimote.h:188-239 | every output report, written field by field from the report structs, is decoded to the command it was written for, whatever its rumble and bus bits |
| OutputReports.HidPacketArrives | source/fake_wiimote.c:1005-1044 | sent to the interrupt channel of a connected Wiimote it is that command to its pad |
| OutputReports.ReadBytesInEveryRun | source/fake_wiimote.c:491-545 | in every run of the system the bytes of an in-range read request are answered by one atomic read at request time, unless the host writes meanwhile |
| InputReports.ReportArrives | source/fake_wiimote.c:61-105 | every report the Wiimote sends is read back by a host from its bytes |
| InputReports.ReadReplyArrives | include/wiimote.h:172-184 | so is every field of a reply to a read |
| InputReports.ReportPacketArrives | source/fake_wiimote.c:61-105 | a report goes out on the Wiimote's connection, to the host's identifier of the interrupt channel, with the bytes that ReportArrives reads |
| L2cap.SignalsUndoBytes | source/fake_wiimote.c:882-899 | the signalling loop visits exactly the commands that were printed, in order |
| L2cap.OptionLoopFindsLastMtu | source/fake_wiimote.c:746-792 | on every printed option list the loop ends with the last MTU option, or the start value |
| L2cap.ConfigRequestGivesBackMtu | source/injmessage.c:440-481 | parsing the options of a request gives back its MTU, for every MTU and flush value |
| L2cap.PacketHeader | source/injmessage.c:66-79 | a built packet names its handle, flags, lengths and channel |
| L2cap.ParseOptions | source/fake_wiimote.c:761-785 | the option loop over offsets is the recursive parser |
| L2cap.WriteConfigRequest | source/injmessage.c:440-481 | the request is written at a running offset, defaults left out |
| Wire.PacketArrives | source/injmessage.c:339-374 | a built signalling packet is taken apart as exactly that command |
| Wire.ConfigureRequestDecodes | source/fake_wiimote.c:671-682 | the request on the wire asks for the host's channel and an MTU of 185 |
| Wire.ConfigureResponseDecodes | source/injmessage.c:483-503 | the response reports success under the host's identifier and repeats its options |
| Wire.RequestIsAnswered | source/fake_wiimote.c:746-792 | this request, read by the same code at the other end, sets the MTU of the channel it names and is answered with success for its counterpart |
| Wire.TwoFieldSignals | source/injmessage.c:389-438 | connection requests and disconnection responses carry their two fields |
| Wire.SignalsSpelledOut | source/injmessage.c:389-510 | every signalling command the Wiimote sends, byte by byte |
| Linking.StepFacts | source/fake_wiimote.c:684-727 | which step may change which part of the connection |
| Linking.HistoryOf | source/fake_wiimote.c:684-880 | whatever holds because of a milestone holds only after it |
| Linking.LinkingOrder | source/fake_wiimote.c:684-744 | in every run from activation each milestone comes strictly after its predecessor: accept, control connect, control complete, interrupt connect, interrupt complete, resume, report |
| Linking.OneResumePerAccept | source/fake_wiimote.c:716-722 | between two resumes the host has accepted again |
| Linking.StateNeverMovesBack | source/fake_wiimote.c:49-57 | the state of a channel only moves forward until it is opened anew |
| Linking.OneConfigPerIncarnation | source/fake_wiimote.c:671-682 | between two successful configuration requests the channel was opened anew |
| ChannelIds.CidGenerator.Next | source/fake_wiimote.c:13-18 | returns the n-th identifier |
| ChannelIds.CidValue | source/fake_wiimote.c:13-18 | the n-th identifier is 0x40 + n modulo 65536 |
| ChannelIds.CidsAreFresh | source/fake_wiimote.c:13-18 | identifiers repeat exactly at multiples of 65536, and are at least 0x40 exactly while n modulo 65536 is below 0xFFC0 |
| ChannelIds.StepCids | source/fake_wiimote.c:684-880 | a step opens at most one channel, under the tick's identifier; any other open channel keeps its own |
| ChannelIds.StepKeepsNumbered | source/fake_wiimote.c:684-880 | within the first 0xFFC0 identifiers a channel is opened under an unused one outside the reserved range, and a Wiimote's channels stay distinguishable |
| LinkingProgress.PoliteStep | source/fake_wiimote.c:684-880 | a polite step ends linking or loses nothing that was reached |
| LinkingProgress.Advance | source/fake_wiimote.c:684-880 | from every linking state of a fair run the rank over both channels rises, or linking ends |
| LinkingProgress.PoliteRunsEnd | source/fake_wiimote.c:684-880 | every fair infinite run that opens channels under fresh identifiers, with answers in any order and after any delay, reaches the resume and the operational state |
| LinkingProgress.StaysNumbered | source/fake_wiimote.c:13-57 | with identifiers from the counter, at most 0xFFC0 of them, every opening in an infinite run is fresh |
| LinkingProgress.LinkingTerminates | source/fake_wiimote.c:684-880 | so on every fair infinite run of a polite host with at most 0xFFC0 identifiers given out, to this Wiimote or another, linking ends with the resume |
| LinkingProgress.FairRunsExist | source/fake_wiimote.c:684-880 | such runs exist, from a link with both channels closed and the counter at its start |
| FakeWiimote.SignalsFrame | source/fake_wiimote.c:794-899 | any packet of commands keeps device, handle, pad and counter, and releases the gamepad exactly if it ends the activity |
| FakeWiimote.PacketFrame | source/fake_wiimote.c:1005-1044 | the same for any packet, which counts once |
| FakeWiimote.TickFrame | source/fake_wiimote.c:684-744 | a tick never connects, disconnects or releases |
| FakeWiimote.Device.ExtensionRead | source/fake_wiimote.c:455-474 | reads, and encrypts under a key computed on demand |
| FakeWiimote.Device.ExtensionWrite | source/fake_wiimote.c:476-489 | writes and invalidates the cached key on overlap; HostAccess.WriteLands says where the bytes land |
| FakeWiimote.Device.ProcessReadRequest | source/fake_wiimote.c:491-545 | serves the next chunk, advances or ends the request |
| FakeWiimote.Device.ProcessWriteRequest | source/fake_wiimote.c:547-584 | writes the addressed registers or reports why not; HostAccess.WriteLands says it byte by byte |
| FakeWiimote.Device.ProcessExtensionChange | source/fake_wiimote.c:586-608 | one step of a port change with its status report, or nothing |
| FakeWiimote.Device.ReportInputExt | source/fake_wiimote.c:416-430 | the extension bytes become the data; dirty exactly if buttons or bytes differ |
| FakeWiimote.Device.SendDataReport | source/fake_wiimote.c:610-661 | sends a report exactly if reporting, with the payload of the mode |
| FakeWiimote.Device.AssembleReport | source/fake_wiimote.c:610-661 | segments copied to their offsets in a 21-byte buffer are the concatenation in order |
| FakeWiimote.Device.TickPad | source/fake_wiimote.c:727-744 | the operational tick: read, then port change, then sample |
| FakeWiimote.Device.TickLink | source/fake_wiimote.c:684-726 | the linking tick; draws an identifier from the counter exactly if it opens a channel |
| FakeWiimote.Device.CheckSendConfig | source/fake_wiimote.c:671-682 | configures an accepted channel once, again only if the injection failed |
| FakeWiimote.Device.HandleRequest | source/fake_wiimote.c:794-880 | one accepted command updates the channel that its identifier names |
| FakeWiimote.Device.HandleSignals | source/fake_wiimote.c:882-899 | the loop over a packet handles its commands one after the other |
| FakeWiimote.Device.HandleHid | source/fake_wiimote.c:901-1003 | output reports |
| FakeWiimote.Device.HandleAclOut | source/fake_wiimote.c:1005-1044 | counts the packet and dispatches it by channel; OutputReports and Connections say what the host's bytes come to |
| FakeWiimote.Device.Tick | source/fake_wiimote.c:684-744 | one tick, with its draw from the counter |
| FakeWiimote.Device.DisconnectNow | source/fake_wiimote.c:313-331 | inactive, with a release of its gamepad and a disconnection event if connected |
| FakeWiimote.Device.AcceptConnection | source/fake_wiimote.c:274-306 | connected under the given handle, linking |
| FakeWiimote.Device.Init | source/fake_wiimote.c:245-272 | the state of a Wiimote that was just assigned a gamepad |
| InputDevices.Devices.FromGamepad | source/input_device.c:96-102 | first slot of the gamepad |
| InputDevices.Devices.HandleAdded | source/input_device.c:110-142 | first free slot, unassigned, no delay |
| InputDevices.Devices.Tick | source/input_device.c:161-169 | plugged-in unassigned gamepads count down |
| InputDevices.Devices.GetUnassigned | source/input_device.c:171-181 | first slot that is plugged in, unassigned, and past its delay |
| InputDevices.Devices.Release | source/input_device.c:188-193 | unassigned, with the reconnect delay |
| Manager.StepKeepsInv | source/fake_wiimote_mgr.c:43-154 | every event of the user, the timer, the host and the dongle keeps the two-way matching of active Wiimotes and gamepads |
| Manager.RunKeepsInv | source/fake_wiimote_mgr.c:43-154 | so does every run |
| Manager.OwnershipIsAMatching | source/input_device.c:144-193 | in every state of every run: an active Wiimote's gamepad is plugged in and points back, a plugged-in gamepad's Wiimote is active and points back, no gamepad is shared |
| Manager.AssignFacts | source/fake_wiimote_mgr.c:43-59 | active Wiimotes stay as they are, others become active only with a waiting gamepad |
| Manager.FakeCommandsByGroup | source/fake_wiimote_mgr.c:156-276 | the nine commands a fake Wiimote answers for its handle, by opcode group and number |
| Manager.AssignIsMaximal | source/fake_wiimote_mgr.c:43-59 | after the assignment loop no Wiimote is idle while a gamepad waits |
| Manager.TimerSettles | source/fake_wiimote_mgr.c:61-73 | so it is after every timer period with page scan on |
| Manager.StepLeavesWaiting | source/input_device.c:161-169 | nothing but the timer and unplugging affects a waiting gamepad |
| Manager.DelayCountsDown | source/input_device.c:161-193 | over every run a waiting gamepad counts down one per timer period and is given to nobody meanwhile |
| Manager.ReleaseStartsDelay | source/input_device.c:188-193 | whatever step takes the Wiimote from a gamepad that stays plugged in (disconnection, reject, refused L2CAP connection, reset) leaves it unassigned with the full delay |
| Manager.ReconnectDelay | source/input_device.c:161-193 | after any such step the gamepad is unassigned for 199 timer periods of any run, and in the 200th is assigned unless no Wiimote is free or page scan is off |
| ManagerCode.FakeWiimotes.LookupFake | source/fake_wiimote_mgr.c:89-99 | first connected Wiimote of the handle |
| ManagerCode.FakeWiimotes.CheckAssign | source/fake_wiimote_mgr.c:43-59 | the assignment loop |
| ManagerCode.FakeWiimotes.TickWiimotes | source/fake_wiimote_mgr.c:66-69 | ticks every active Wiimote once, all drawing from one counter |
| ManagerCode.FakeWiimotes.CollectCompleted | source/fake_wiimote_mgr.c:19-41 | reports and clears the counters of the connected Wiimotes |
| ManagerCode.FakeWiimotes.HandleTimer | source/fake_wiimote_mgr.c:61-73 | the timer step of the system, whether or not the report can be sent |
| ManagerCode.FakeWiimotes.HandleRemoved | source/input_device.c:144-159 | the Wiimote lets go of the gamepad and disconnects without releasing it |
| ManagerCode.FakeWiimotes.ResetWiimotes | source/fake_wiimote_mgr.c:278-287 | every active Wiimote releases its gamepad and goes inactive |
| ManagerCode.FakeWiimotes.HandleAccept | source/fake_wiimote_mgr.c:106-117 | the accept step of the system |
| ManagerCode.FakeWiimotes.HandleReject | source/fake_wiimote_mgr.c:119-133 | the reject step of the system |
| ManagerCode.FakeWiimotes.LookupAddress | source/fake_wiimote_mgr.c:75-87 | first fake Wiimote of the address |
| ManagerCode.FakeWiimotes.HandleCommand | source/hci_state.c:108-209 | every well-formed command is answered by the fake Wiimote of its handle or address, translated and forwarded, or fails an assertion, each exactly in its case; an accept or reject of a fake Wiimote is taken to come while its request is open |
| ManagerCode.FakeWiimotes.HandleAclOut | source/hci_state.c:355-383 | a packet is taken by its fake Wiimote, or translated and forwarded |
| Packets.EntriesReport | source/fake_wiimote_mgr.c:19-41 | a report carries the low 16 bits of each connected Wiimote's count under its handle |
| Packets.EventIffTraffic | source/fake_wiimote_mgr.c:38-40 | with fewer than 65536 packets per period an event is injected exactly if some connected Wiimote took a packet |
| Packets.SumWrapsAround | source/fake_wiimote_mgr.c:30-40 | two counts of 2^31 give no event although the counters are cleared |
| Packets.StepConserves | source/fake_wiimote_mgr.c:19-41 | a step never reports more than was taken, and loses nothing exactly if the count fits and the report is sent |
| Packets.CompletedPackets | source/fake_wiimote_mgr.c:19-41 | over every run while connected: reported + counter is at most taken, with equality exactly if no step loses a count |
| Packets.ConservationSinceAccept | source/fake_wiimote_mgr.c:19-41 | from the accept on, with sent reports and fewer than 65536 packets per period, taken = reported + counter |
| WholeSystem.StepRefinesRouting | source/fake_wiimote_mgr.c:89-343 | each step of the system is a short run of the handle numbering |
| WholeSystem.RunRefinesRouting | source/fake_wiimote_mgr.c:89-343 | so is each run, and its invariant holds |
| Snooping.CommandIsSnooped | source/hci_state.c:138-175 | what each forwarded command leaves in the tracker: opcode 0x0C1A its scan value, 0x0C0D its read-all flag, 0x0C03 a reset, any other nothing |
| Snooping.LastCommandDecides | source/hci_state.c:46-52 | over every run of the system fake Wiimotes may request connections exactly if bit 1 of the last scan value since the last reset is set; the read-all flag is the last one likewise |
| Snooping.ScanStaysOff | source/hci_state.c:26-36 | without a scan-enable command after boot or a reset there is no page scan |
| Snooping.KeysAreCountedIn | source/hci_state.c:276-292 | after any run the stored-link-key completion counts two more keys in both fields exactly if the flag is set, and is otherwise unchanged |
| Snooping.FirstConnection | source/fake_wiimote_mgr.c:43-73 | a run from boot: a gamepad is plugged in, the host sends 1A 0C 01 02, and in the next timer period the first Wiimote is assigned and sends its connection request; once accepted it is connected under handle 0 |
| Connections.RequestedUntilSent | source/fake_wiimote.c:684-700 | from activation to the accept a Wiimote sends one connection request per period with page scan on until one is injected, and none after that |
| Connections.RequestsInEveryRun | source/fake_wiimote.c:684-700 | so in every run of the system |
| Connections.AnswersArrive | source/fake_wiimote_mgr.c:75-133 | the bytes of an accept or a reject mean the fake Wiimote of that address |
| Connections.AcceptTakesEffect | source/fake_wiimote.c:274-306 | an accept connects the Wiimote under the next handle and starts its linking, and changes nothing else |
| Connections.RejectTakesEffect | source/fake_wiimote_mgr.c:119-133 | a reject makes it inactive, and no disconnection is announced |
| Connections.HostCommandArrives | source/fake_wiimote.c:794-899 | each signalling command of the host, written field by field, is found and decoded |
| Connections.CommandTakesEffect | source/fake_wiimote.c:746-880 | each changes one field of the channel it means, and is answered with that channel's other end |
| Connections.HostPacketArrives | source/fake_wiimote.c:882-1044 | sent to a connected Wiimote it is that step of its connection |
| Connections.HostRefuses | source/fake_wiimote.c:800-825 | a connection response with an error, or with the reason in the wrong field, ends the connection and is announced |
| Connections.HostCommandTakesEffect | source/fake_wiimote.c:746-1044 | in the system: the link afterwards and what is sent are exactly those |
| Connections.TicksOpen | source/fake_wiimote.c:700-726 | a linking tick opens the control channel, then the interrupt channel, and resumes, each exactly when it is its turn |
| Connections.TicksConfigure | source/fake_wiimote.c:671-726 | it configures exactly the accepted channels that are not yet, under the host's identifier, and again if the injection failed |
| Connections.EndIsAnnounced | source/fake_wiimote.c:313-331 | in every step a connected Wiimote that goes away is announced under its own handle, except on a reset, and nothing else is announced |
| Connections.HostDisconnects | source/fake_wiimote_mgr.c:135-154 | the bytes of a disconnect command end the connection of that handle, announce it, and touch nobody else |
| Connections.PluggedInWaits | source/input_device.c:110-142 | a gamepad that is plugged in waits in a slot that was empty, unassigned and without delay, or is ignored exactly if there is none |
| Connections.PulledOutEnds | source/input_device.c:144-159 | one that is pulled out empties its slot, and its Wiimote goes away, announced if it was connected; nobody else is affected |
| Connections.NoScanNoAssignment | source/fake_wiimote_mgr.c:61-73 | with page scan off the timer assigns nothing and only counts down |
| Connections.ResetEndsAll | source/fake_wiimote_mgr.c:278-287 | after a reset no Wiimote is active, no handle mapped, page scan off, and every gamepad that had a Wiimote waits 200 periods |
| WholeSystem.HostDataHasOneReceiver | source/hci_state.c:355-383 | after any run of the system, ACL data for a live handle is taken by its one fake Wiimote while the table has no such handle, or goes to the dongle under the connection's one physical handle |
| WholeSystem.CommandHasOneAnswer | source/fake_wiimote_mgr.c:135-276 | a command that carries the handle of a live connection goes to the dongle under its own name, or is answered by the fake Wiimote of that handle; it succeeds exactly if the connection is the dongle's, or the fake Wiimote knows the command and its replies can be injected |
| WholeSystem.CommandSucceedsIff | source/hci_state.c:108-209 | for every well-formed command: a fake Wiimote answers it exactly if it carries one's address or connected handle with an opcode that the manager knows; no assertion fails exactly if it is no request for a fake Wiimote's link key, is supported, its handle, if any, is that of a live connection that can be asked, and the replies of an answering fake Wiimote, other than to a reject, can be injected |
| WholeSystem.ExitSniffModeFails | source/hci_state.c:127-170 | leaving sniff mode fails for every connected fake Wiimote |
| WholeSystem.StoredKeyRequestFails | source/fake_wiimote_mgr.c:301-306 | a request for the stored link key of either fake Wiimote fails in every state |
| WholeSystem.HandleStaysUnique | source/fake_wiimote_mgr.c:89-99 | a connected Wiimote's handle is nobody else's over the run |
| WholeSystem.BootState | source/fake_wiimote_mgr.c:13-17 | the boot state satisfies every invariant |
| Histories.SignalsAreSteps | source/fake_wiimote.c:882-899 | the commands of a packet are steps of the connection, with their outputs |
| Histories.StepHistory | source/fake_wiimote.c:684-1044 | what a step of the system does to an active Wiimote, and what the Wiimote sends in it, is a stretch of its own history |
| Histories.RunHistory | source/fake_wiimote.c:684-1044 | over every run of the system an active Wiimote goes through a legal run of its connection and of its pad, and sends exactly the outputs of the two |
| Histories.ReportsOnlyAfterLinking | source/fake_wiimote.c:684-744 | in every run of the system a Wiimote that serves reports has gone through all milestones of linking, in order, since it was assigned |
| Histories.SilentInEveryRun | source/fake_wiimote.c:586-661 | in every run of the system no data report is sent while reporting is disabled and no report mode is set |
| Histories.SilentAfterChangeInEveryRun | source/fake_wiimote.c:586-661 | so there is none between a port change and the next report-mode command |
| Histories.ReadIsAtomicInEveryRun | source/fake_wiimote.c:491-545 | in every run of the system the replies to an in-range read are one atomic read at request time, unless the host writes meanwhile |
| Histories.TickDraws | source/fake_wiimote.c:684-726 | a channel that the timer opens at any Wiimote gets an unused identifier that was given out in this step |
| Histories.RunKeepsCids | source/fake_wiimote.c:13-57 | in every run of the system within the first 0xFFC0 identifiers, every Wiimote's channels have different identifiers |
| Histories.CidsFromBoot | source/fake_wiimote.c:13-57 | so it is after every run from boot |
| Conf.DirectoryUnchanged | source/conf.c:5-19 | writing one item's data keeps every name's item, on files without overlaps |
| Conf.SetThenGet | source/conf.c:49-116 | a written value of the item's length is read back |
| Conf.SetKeepsOthers | source/conf.c:84-116 | whatever conf_set does, every other name reads as before |
| Conf.SetOverwrites | source/conf.c:84-116 | writing twice is writing the second value |
| Conf.BothSucceedIff | source/conf.c:49-116 | conf_set and conf_get both accept a length exactly if it is the item's |
| ConfFile.ItemIsRead | source/conf.c:21-47 | of an item printed in any of the kinds the accessors find name, kind, length and value |
| ConfFile.FileIsWellFormed | source/conf.c:5-19 | a printed file has the layout they rely on, without overlaps |
| ConfFile.GetReturnsPrinted | source/conf.c:49-82 | conf_get on any printed file returns the value of the first item of the name, filled up with zeros if it is no array, or the error of its case |
| ConfFile.SetReprints | source/conf.c:84-116 | conf_set on any printed file gives the file printed with the new value, of the item's own length, or the error of its case and the same file |
| Conf.ConfFind | source/conf.c:5-19 | the counting loop finds the first item of the name |
| Conf.ConfGetLength | source/conf.c:21-47 | length by kind, or the error |
| Conf.ConfGet | source/conf.c:49-82 | copies the data; scalars fill the rest of the buffer with zeros |
| Conf.ConfSet | source/conf.c:84-116 | overwrites the data and nothing else |

## Left out

- OS calls: message queues are bounded sequences with refusal, the heap is a map from addresses to messages; timers, cache flushes and the USB gamepad library are not modelled.
- Boot and patching: `main`, `read_conf`, `write_conf`, `patch_conf_bt_dinf` and the module patch are I/O and fixed-address writes.
- The bytes of the S-boxes: they are a parameter (eight tables and a key-generation table of 256 bytes); the answer table is written out.
- The calibration bytes of the EEPROM are a parameter of activation.
- Key data that no index made: the search would run past the tables, so an encrypted read requires key data made for some index.
- Malformed packets and commands: signalling lengths beyond the packet, options of a wrong length, output reports of an unknown kind or shorter than their fields, and events shorter than theirs are excluded by preconditions. An interrupt-channel packet of fewer than two bytes is ignored in the model.
- Host answers out of turn: accept and reject come only for an active Wiimote with an open connection request.
- The event that returns the fake Wiimotes' link keys, which the program does not insist on injecting, and the contents of the replies to other commands.
- The one-for-one HCI event builders, except the completed-packets event.
- The role-change event and the unit class have no effect on anything modelled.
- SDP and HID control packets, speaker, rumble and LED effects on the gamepad, battery level, logging.
- Choice of IR emulation mode and of layout by button combination. Which number the gamepad library gives a button or an axis is a parameter; `egc.h` is not part of this model. Nor is its promise that touch coordinates do not exceed the pad's resolution; `ButtonMap.IrPointer.MapDirect` covers the others too but puts only those on screen.
- Bytes copied beyond a host buffer: where a payload does not fit, the model records it as delivered; `Rendezvous.PayloadsFitIff` says when that happens.
- Translation of what is delivered through the hand-down buffer is proved for packets (`HciState`) and not composed with the queues (`Rendezvous`).
- Outcomes of injections inside a packet handler are not modelled; nothing depends on them. Those of connection and configuration requests, of completed-packet reports and of queue sends are. The program insists on the injection of L2CAP connection requests and of the replies to commands: runs contain only ticks and commands in which these succeed (`Manager.TicksExpected`, `Manager.CommandFine`).
- What a failed assertion leaves behind: the program stops there.
- Runs end where an assertion fails: `Manager.Enabled` admits a command or an event only if the handler's assertions hold. `WholeSystem.CommandSucceedsIff` and `Routing.EventsAreExpected` say when they do.
- ChannelIds.StepKeepsNumbered: says nothing beyond the first 0xFFC0 identifiers, where the counter enters the reserved range; `ChannelIds.CidsAreFresh` gives the exact period.
