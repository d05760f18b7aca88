# EMWaver: streaming, control and update logic in Dafny

EMWaver boards sample and replay pin levels for a phone or desktop host. This project models the logic between
the timer interrupts and the host's buffers, and the two ways firmware gets onto a board, and proves what they
promise over every input, every interleaving or every run. `dafny verify dfyconfig.toml` verifies all of it.

| part | files |
|---|---|
| sampler ring and replay buffer | `SamplerSpec`, `Sampler`, `LaneCount`, `TransmitSpec`, `Transmit`, `Monitor`, `ReplayMonitor`, `Bytes` |
| 7-bit SysEx superframes, device and host | `Codec`, `Machine`, `Sysex`, `BleServer`, `BleTransport`, `UsbReceiver`, `Host`, `Paging`, `EndToEnd` |
| which transport is in control | `SessionSpec`, `Session` |
| DFU flashing | `DfuDevice`, `Dfu` |
| over-the-air update | `OtaLinks`, `OtaSpec`, `Ota` |
| plot compression | `Plot` |
| text commands | `CliSpec`, `CliCut`, `Cli` |
| radio data rate | `Cc1101` |
| WebSocket frames | `WebSocket`, `Octets` |
| shared | `Wrappers` |

Where the program keeps state and loops, the model is a class with the same arrays, indices and flags. The
concurrent parts have a second, abstract form (`...Spec`): a state and a step function over events. The class
methods are proved to take exactly the abstract steps, and the results over whole runs are lemmas about the
abstract form.

## Assumptions

- An interrupt, a critical section, a byte copied outside the lock, and an update callback are atomic steps; their
  order is arbitrary. One producer feeds the replay buffer. Sampler results are about one run, from reset.
- The sampler results need the sampler task and its interrupt on one core, though the task is created without an
  affinity and the build has two cores. The interrupt takes no lock, so a critical section on the other core does not
  keep it out; `LaneCount` says exactly when the lane count is still right then.
- The stream checks of the receive tasks run without a lock beside the command task: each read and write of
  theirs is a step of its own, and so are the owner and the stamp of a CONNECT. Otherwise the command task's gate
  and handler are one step each. Only that task claims and stamps, so a clear that falls inside one of them leaves
  what it leaves just before or just after, or what it leaves without the command: a CONNECT or DISCONNECT whose
  two reads of the owner it separates is refused.
- The DFU device is a transition relation after USB DFU 1.1 (sections 6.1 and 6.2, Appendix A) with the
  address rule of ST AN3156, pointer + (block - 2) * 2048. Its replies come from an arbitrary function, so a
  result without `Conforming` holds against any device. `Serving` devices never fail, complete a download within a
  bounded number of status requests, and do so in time. CLRSTATUS is taken to be accepted in every state, to
  dfuIDLE or dfuERROR, because the host sends it from dfuDNLOAD-IDLE. Every transfer takes some time.
- FreeRTOS ticks are 10 ms (`CONFIG_FREERTOS_HZ` is 100) and the tick counter has 32 bits.
- The SHA-256 of an update is an arbitrary function; the results of the ESP-IDF calls are parameters.
- Plot arithmetic is over reals and data-rate arithmetic over integers scaled by 2^28. The program's
  double-precision data-rate arithmetic is exact on the values that occur; its single-precision plot
  arithmetic is not.

## What the proofs found

- Replay ends early: a drain shows the whole buffer only if the upper seven bits of the last byte are zero,
  because the interrupt looks at the byte count before every bit (`TransmitSpec.DrainCompleteIff`).
- With replay ticks of 5 to 255 microseconds and exact polls the monitor never times out a transmission that has
  no underrun (`ReplayMonitor.TimeoutMeansUnderrun`). A slow stream that underruns between polls and brings one
  lane just before each can be timed out while it flows (`ReplayMonitor.SlowStreamTimesOut`).
- The USB receiver does not restart on a new start byte: with a fragment held, exactly the next frame is lost
  (`Sysex.UsbLosesAtMostOne`). The BLE and host parsers restart and lose none.
- The second capacity test of the sampling interrupt (sampler.c, line 419) and the overflow test of the USB
  receiver (usb.c, line 288) never fire, nor does the branch of the DFU verification for errors that are not
  stalls: the error text always holds the `req=0x02` it looks for.
- The DFU block counter is right for images of at most 65534 blocks; the next block number is a command block,
  and a last block of the single byte 0x41 would erase the flash (`DfuDevice.WrappedBlockErases`).
- A claim that nobody touched looks fresh again one wrap of the tick counter later, for 5 s. And a stream check
  that reads the tick, is overtaken by a refresh in a later tick, and then compares, takes the claim refreshed
  that instant for stale and drops it (`SessionSpec.StampBetweenReadsDropsClaim`); a CONNECT can be undone in two
  more ways (`OldDecisionDropsNewClaim`, `UnstampedClaimIsDropped`). An owner that refreshes in time, stamped or not,
  keeps control exactly when no check that found a claim stale gets to its write (`SessionSpec.ControlKeptIff`).
- With the sampler's task and interrupt on two cores a commit inside a pop, or a pop inside a commit, makes the lane
  count wrong, and nothing else does (`LaneCount.CountIff`).
- While sampling, a command response in a superframe is stored between the samples: the buffer holds the samples
  alone iff every command lane is empty (`Host.SamplesOnlyIff`).
- The HTTP upload handler takes the result of `httpd_req_get_hdr_value_str` for a length. ESP-IDF documents an
  `esp_err_t` there, ESP_OK being 0, and then no upload ever starts (`Ota.Updater.PostBegin`).
- The update size guard is exact for totals below 2^32 - 2048 but can wrap above (`OtaSpec.GuardWraps`).
- Were the lookup to return the header's length, chunks of one transport could go into an update the other began: a
  failed END leaves the BLE flag set for the next upload, and ABORT and START hand a running upload's next chunk to
  BLE's update (`Ota.FailedEndLetsBleIn`, `Ota.RestartLetsHttpIn`). It takes an update begun while the other's guard
  is up, and no less (`OtaLinks.OwnedIff`), so with the documented lookup, which starts no upload, it never happens
  (`Ota.Updater.PerformAll`). The digest guards the boot switch in any case.
- Plot bins leave out span mod bins bits, so a pulse of one sample can disappear (`Plot.TilesIff`). A range that
  starts below bit 0 can trap on an array index in the byte-wise path (`Plot.NegativeStartTraps`).
- The command parser drops everything after the 10th argument or the 16th positional, and a line of 256 characters
  loses its last one; only an empty last value survives that (`CliCut.ParseRenderIff`).
- Rates from 25 to 1625000 bps are met within 1/512, and no others. Below exponent 4 setting a reported rate
  can change the registers (`Cc1101.StableIff`).

## Model

| member | source | states |
|---|---|---|
| SamplerSpec.DeliveredLanes | esp/main/libraries/sampler.c:282-315 | For every interleaving of ticks with peek, byte copy, send result and pop: lanes sent followed by lanes waiting are exactly the kept lanes, each 144 consecutive samples from a multiple of 144 ticks, in order, once |
| SamplerSpec.KeptExactly | esp/main/libraries/sampler.c:397-431 | A completed lane is kept exactly when fewer than 16 lanes were queued at the moment it began |
| SamplerSpec.TickAccounting | esp/main/libraries/sampler.c:381-432 | Ticks = 144 * (sent + waiting + dropped) + samples of the lane under construction, on every run |
| SamplerSpec.LosslessIffNeverFull | esp/main/libraries/sampler.c:381-432 | Sent, waiting and unfinished samples joined are the sampled signal iff no lane began with a full ring |
| SamplerSpec.OverflowOnlyAtBoundaries | esp/main/libraries/sampler.c:411-428 | The overflow flag changes only when a lane completes, is left iff a slot is free, and while it is clear fewer than 16 lanes are queued: the capacity test of line 419 never fires |
| SamplerSpec.RunKeepsInv | esp/main/libraries/sampler.c:272-432 | The whole-state invariant behind the four results above, from reset, over every schedule |
| Sampler.Device.SamplingIsr | esp/main/libraries/sampler.c:381-432 | The ISR on ring, side lane, byte and bit indices is one Tick of the abstract queue |
| Sampler.Device.RecordLevel | esp/main/libraries/sampler.c:386-391 | The sampled level becomes the next low-to-high bit of the byte and leaves the bits above clear |
| Sampler.Device.CompleteByte | esp/main/libraries/sampler.c:393-432 | Storing the eighth bit, and what follows it, is the abstract Collect |
| Sampler.Device.StoreByte | esp/main/libraries/sampler.c:398-401 | The byte goes to the ring slot or the side lane, adds its eight bits to the lane there, and changes no queued lane |
| Sampler.Device.StoreToRing | esp/main/libraries/sampler.c:398-401 | A byte stored at the head slot appends its bits there and changes no queued lane: the lane being sent is never the lane written |
| Sampler.Device.CompleteLane | esp/main/libraries/sampler.c:408-429 | A full lane is committed, dropped, or switches the side lane on or off exactly as the abstract Collect |
| Sampler.Device.Peek | esp/main/libraries/sampler.c:286-291 | Picking the tail lane starts the copy of the oldest queued lane |
| Sampler.Device.CopyByte | esp/main/libraries/sampler.c:299-304 | Each byte copied outside the lock is the next byte of that oldest lane, whatever ticks came between |
| Sampler.Device.Finish | esp/main/libraries/sampler.c:299-306 | A successful send puts the copied lane on the wire; a failed one leaves it queued |
| Sampler.Device.Pop | esp/main/libraries/sampler.c:306-313 | The tail advances past exactly the lane just sent |
| Sampler.Device.constructor | esp/main/libraries/sampler.c:217-231 | Reset yields the abstract start state |
| Sampler.Device.Perform | esp/main/libraries/sampler.c:272-432 | Any schedule of the five steps on the arrays reaches the state the abstract run reaches |
| Sampler.HeadStoreKeepsQueue | esp/main/libraries/sampler.c:398-401 | Writing any byte of the head slot of a ring that is not full leaves every queued lane as it was |
| Sampler.SlotsDiffer | esp/main/libraries/sampler.c:416-429 | Distinct queue positions fall in distinct ring slots |
| TransmitSpec.DrainLevels | esp/main/libraries/sampler.c:439-468 | Draining n bytes with no new input: all bits of the first n - 1 bytes, then the low bit of the last byte, then low |
| TransmitSpec.DrainCompleteIff | esp/main/libraries/sampler.c:439-468 | A drain shows the whole buffer iff the upper seven bits of its last byte are zero |
| Transmit.Path.Offer | esp/main/libraries/usb.c:175-182 | Starting a lane changes nothing the ISR can see |
| Transmit.Path.Store | esp/main/libraries/usb.c:182-183 | Storing one byte past the head leaves every published byte as it was |
| Transmit.Path.Advance | esp/main/libraries/usb.c:184-187 | The wrap-and-compare gives up exactly when 511 bytes are queued or staged |
| Transmit.Path.Publish | esp/main/libraries/usb.c:189 | Publishing the head appends exactly the staged lane |
| Transmit.Path.BytesAvailable | esp/main/libraries/usb.c:243-246 | The head is that many slots past the tail, below 512 |
| Transmit.Path.ReadRxBuffer | esp/main/libraries/usb.c:248-264 | Succeeds iff enough bytes are queued, then returns the oldest ones and keeps the rest; otherwise changes nothing |
| Transmit.Path.TransmissionIsr | esp/main/libraries/sampler.c:434-470 | The replay ISR on the circular buffer is one Tick of the abstract queue and drives its level |
| Transmit.Path.IngestStreamLane | esp/main/libraries/usb.c:175-196 | Undisturbed, a lane is accepted iff at most 493 bytes are queued, appended whole, and the reported count is the queue's length; a rejected lane changes nothing |
| Transmit.StoreBeyond | esp/main/libraries/usb.c:181-188 | Writing past the published bytes leaves them unchanged across the wrap |
| Monitor.Watch | esp/main/libraries/sampler.c:324-379 | The replay timer starts at the first poll with 250 bytes or after 2 s; the run ends at the first poll that completes 10 empty polls or 200 unchanged ones, and at no other |
| Codec.DecodeEncode | esp/main/libraries/usb.c:357-403 | Decoding what was encoded gives the input back, for every length |
| Codec.EncodedIsSevenBit | esp/main/libraries/usb.c:379-403 | Encoded bytes are all below 0x80 and number n + ceil(n / 7) |
| Codec.EncodeDecodeIff | esp/main/libraries/usb.c:357-403 | Encoding what was decoded gives the payload back iff all its bytes are below 0x80 and the last prefix has no bit beyond its group |
| Codec.EncodePayload | esp/main/libraries/usb.c:379-403 | The encoding loops, over arrays of any matching sizes, write exactly Encode of the input |
| Codec.GatherGroup | esp/main/libraries/usb.c:385-396 | One group's prefix and low bits |
| Codec.EmitGroup | esp/main/libraries/usb.c:398-401 | One group written behind the output so far |
| Codec.DecodePayload | esp/main/libraries/ble_server.c:100-120 | The decoding loops succeed iff Decode does, and write its result |
| Codec.ScatterGroup | esp/main/libraries/ble_server.c:105-117 | One group restored behind the output so far, or failure on a short input |
| Machine.ChunkingIrrelevant | esp/main/libraries/ble_server.c:184-228 | An incremental parser fed chunk by chunk hands over what it would in one piece, from any state |
| Sysex.ParseWrap | esp/main/libraries/ble_server.c:148-162 | A wrapped superframe parses to itself |
| Sysex.WrapParseIff | esp/main/libraries/ble_server.c:148-162 | Every delimited 48-byte frame parses; wrapping the result restores it iff its payload bytes are below 0x80 and its last prefix is at most 1 |
| Sysex.BleReassembles | esp/main/libraries/ble_server.c:184-228 | From any fragment state, k wrapped frames with quiet padding, split into writes in any way, are handed over exactly, in order, and each parses to its original |
| Sysex.HostReassembles | ios/EMWaver/Managers/UsbMidiSysex.swift:128-149 | The same for the host accumulator, from any state and for any chunks |
| Sysex.HostAgrees | ios/EMWaver/Managers/UsbMidiSysex.swift:40-50 | Host and firmware give the same answer on every 48-byte string, and the host rejects every shorter one |
| Sysex.DecodeNeeds | ios/EMWaver/Managers/UsbMidiSysex.swift:87-118 | A decoder succeeds iff the input has n + ceil(n / 7) bytes |
| Sysex.UsbLosesAtMostOne | esp/main/libraries/usb.c:278-301 | The USB-MIDI receiver delivers all frames in order from an empty accumulator, and loses exactly the first one when it holds a partial frame |
| Sysex.UsbOne | esp/main/libraries/usb.c:278-301 | One frame in 16 packets: delivered from an empty accumulator, swallowed by a held fragment, empty afterwards either way |
| BleServer.Server.EnqueueSuperframe | esp/main/libraries/ble_server.c:148-182 | Bad framing is refused, an empty command lane is dropped as a success, else the command lane is queued unless the queue is full |
| BleServer.Server.IngestByte | esp/main/libraries/ble_server.c:196-222 | One byte of the reassembly loop is one step of the abstract parser, and a completed frame is offered to the queue |
| BleServer.Server.IngestSysexFragment | esp/main/libraries/ble_server.c:184-228 | A write is the abstract parser's run over its bytes; `queued` and `handled` say what they promise |
| BleTransport.WriteSysex | ios/EMWaver/Managers/BLETransport.swift:173-186 | The writes joined are the message; each is at most, and all but the last exactly, the write length (at least 20) |
| UsbReceiver.Receiver.ReadPacket | esp/main/libraries/usb.c:278-301 | One packet of the receive loop is one abstract step |
| UsbReceiver.Receiver.Drain | esp/main/libraries/usb.c:278-301 | The loop over waiting packets is the abstract run |
| UsbReceiver.Receiver.ReceiveFrames | esp/main/libraries/usb.c:266-324 | Whole frames packet by packet: all accepted, or all but the first when a fragment was held |
| Host.Session.Feed | ios/EMWaver/Managers/UsbMidiSysex.swift:128-149 | The accumulator loop is the abstract parser's run |
| Host.DecodePayload7Bit | ios/EMWaver/Managers/UsbMidiSysex.swift:87-118 | The host decoder, with its masked prefix, computes the same Decode |
| Host.DecodeSysexToSuperframe | ios/EMWaver/Managers/UsbMidiSysex.swift:40-50 | The host frame check and decode are HostParse |
| Host.Session.FeedMidiBytes | ios/EMWaver/Managers/DeviceBufferSession.swift:105-133 | Appends exactly the policy-selected lanes of the frames handed over, one timestamp per whole packet |
| Host.SelectedLanesAreLanes | ios/EMWaver/Managers/DeviceBufferSession.swift:118-131 | Every stored lane has 18 bytes |
| Host.PacketIsLane | ios/EMWaver/Managers/DeviceBufferSession.swift:186-200 | Packet i of a buffer of lanes is lane i |
| Host.Session.StoreLanes | ios/EMWaver/Managers/DeviceBufferSession.swift:118-131 | The storing policy of one superframe |
| Host.Session.StoreBulkPkt | ios/EMWaver/Managers/DeviceBufferSession.swift:58-73 | Appends the bytes and keeps one timestamp per whole packet |
| Host.Session.NextRxPacket | ios/EMWaver/Managers/DeviceBufferSession.swift:186-200 | Returns packet and timestamp at the cursor and advances it, or nothing exactly at the end |
| Host.Session.RestoreRxState | ios/EMWaver/Managers/DeviceBufferSession.swift:286-300 | Bytes restored, timestamps cut or zero-filled to the packets, cursor kept in range; a consistent saved state comes back unchanged |
| Host.Session.SetRxCounter | ios/EMWaver/Managers/DeviceBufferSession.swift:51-56 | The cursor is clamped to the packets |
| Host.Session.LoadBuffer | ios/EMWaver/Managers/DeviceBufferSession.swift:160-166 | Bytes loaded with zero timestamps and a cursor at the start |
| Host.Session.ClearAll | ios/EMWaver/Managers/DeviceBufferSession.swift:21-31 | Everything empty, accumulator included |
| Host.Session.PrepareCommandResponseWait | ios/EMWaver/Managers/DeviceBufferSession.swift:135-139 | The cursor moves to the end of the whole packets |
| Host.Session.OutgoingSamplerPolicy | ios/EMWaver/Managers/DeviceBufferSession.swift:91-97 | Only a sample start or stop packet changes the sampling flag |
| Paging.ReadSince | ios/EMWaver/Managers/DeviceBufferSession.swift:302-318 | A page is the next whole packets with their timestamps and makes progress whenever one is left |
| Paging.ReadAll | ios/EMWaver/Managers/DeviceBufferSession.swift:302-318 | Following the page cursor visits every whole packet and timestamp exactly once, for any page sizes |
| SessionSpec.StaleClaimSurvivesWrap | esp/main/libraries/transport_session.c:25-29 | A claim untouched for exactly one wrap of the counter still looks fresh |
| SessionSpec.DiscoveryKeepsClaim | esp/main/libraries/transport_session.c:46-82 | Discovery commands pass from any link and change the claim only by dropping a stale one |
| SessionSpec.ControlMeansOwner | esp/main/libraries/transport_session.c:84-93 | An executed control command's link owned the claim before and owns it after |
| SessionSpec.GainIsClaim | esp/main/libraries/transport_session.c:109-121 | A run that ends with a new owner contains its accepted CONNECT |
| Session.TickDifference | esp/main/libraries/transport_session.c:25-27 | Unsigned subtraction of two wrapped tick counts is the real difference modulo 2^32 |
| Session.Lease.ExpireStaleClaim | esp/main/libraries/transport_session.c:19-30 | The wrapped comparison is the abstract expiry |
| Session.Lease.AllowsCommand | esp/main/libraries/transport_session.c:67-94 | The gate on a source byte and a wrapped stamp is the abstract gate |
| Session.Lease.Disconnect | esp/main/libraries/transport_session.c:123-134 | Releases the caller's claim only |
| Session.Lease.Heartbeat | esp/main/libraries/transport_session.c:136-144 | Stamps the owner's claim only |
| Dfu.Host.WriteImage | crates/emwaver-dfu/src/lib.rs:488-548 | The block loop: after i blocks exactly the first i blocks are programmed and verified blocks are read back in order |
| Dfu.Host.WriteBlock | crates/emwaver-dfu/src/lib.rs:385-425 | Ok means the device carried out what this block number and data mean |
| Dfu.Host.SetAddressPointer | crates/emwaver-dfu/src/lib.rs:334-383 | Ok means the pointer is the address and memory is unchanged |
| Dfu.HoldsNext | crates/emwaver-dfu/src/lib.rs:488-548 | Programming block i extends the first i blocks to i + 1 |
| DfuDevice.BlockNumberIff | crates/emwaver-dfu/src/lib.rs:484-547 | The 16-bit block counter addresses block i iff i < 65534 |
| DfuDevice.WrappedBlockErases | crates/emwaver-dfu/src/lib.rs:484-547 | Block 65534 holding the single byte 0x41 is a mass erase |
| DfuDevice.ImageExtends | crates/emwaver-dfu/src/lib.rs:488-494 | Programming the next stretch extends the image |
| DfuDevice.ConformingStaysConsistent | crates/emwaver-dfu/src/lib.rs:285-332 | On a conforming device a download is pending exactly in dfuDNLOAD-SYNC and dfuDNBUSY |
| OtaSpec.BootedImage | esp/main/libraries/ota_core.c:118-192 | A booted image is the chunks accepted since one start, nothing in between, of the expected digest, and of the declared length when that is below 2^32 - 2048 |
| OtaSpec.OpenIsLastBegun | esp/main/libraries/ota_core.c:73-146 | The open update is the last start and exactly the chunks after it |
| OtaSpec.GuardIff | esp/main/libraries/ota_core.c:128-131 | The 32-bit size guard is exact iff the sum does not wrap to something within the total |
| OtaSpec.GuardWraps | esp/main/libraries/ota_core.c:128-131 | A declared total of 2^32 - 1 lets a chunk past its end |
| Ota.Updater.Start | esp/main/libraries/ota_core.c:73-116 | Opens an update iff none is open, the size is not 0 and the platform agrees |
| Ota.Updater.Write | esp/main/libraries/ota_core.c:118-146 | Accepts a chunk iff the update is open, the guard lets it pass and both flash and digest take it; a failure accepts nothing |
| Ota.Updater.Finish | esp/main/libraries/ota_core.c:148-192 | Switches the boot partition iff length and digest match and the platform agrees; closes the update either way |
| Ota.Updater.Abort | esp/main/libraries/ota_core.c:62-71 | Closes an open update and resets the session |
| Ota.Updater.BleStart | esp/main/libraries/ota_ble.c:81-112 | The START command: its length, size and digest fields, and when it is refused |
| Ota.Updater.BleEnd | esp/main/libraries/ota_ble.c:114-134 | The END command boots iff Finish does; when it fails the BLE flag stays set |
| Ota.Updater.OnDisconnect | esp/main/libraries/ota_ble.c:69-79 | A disconnect ends the open update iff the BLE flag is set |
| Ota.Updater.PostStep | esp/main/libraries/ota_wifi.c:140-170 | One turn of the receive loop, or the finish, on whatever state the other callbacks left |
| Ota.ParseSha256Hex | esp/main/libraries/ota_wifi.c:76-91 | Succeeds iff there are 64 hex digits, and each byte has the two nibbles they spell |
| Plot.CompressDataBits | ios/EMWaver/Managers/DeviceBufferSession.swift:202-278 | Nothing, every bit of a short range, or two points for each bin with its true low and high; a trap iff a bin has a whole aligned byte below bit 0 |
| Plot.ScanBin | ios/EMWaver/Managers/DeviceBufferSession.swift:243-267 | The byte-skipping, early-exit scan finds a low and a high iff the bin has them |
| Plot.ByteScan | ios/EMWaver/Managers/DeviceBufferSession.swift:250-260 | An aligned byte has a low bit iff it is not 255 and a high bit iff it is not 0 |
| Plot.DrawBins | ios/EMWaver/Managers/DeviceBufferSession.swift:236-276 | Exactly two points per bin, in order; the clamp and the empty-bin test never fire |
| Plot.DrawEveryBit | ios/EMWaver/Managers/DeviceBufferSession.swift:226-234 | A short range is drawn bit by bit |
| Plot.PairMeaning | ios/EMWaver/Managers/DeviceBufferSession.swift:269-274 | A pair is flat over a constant bin, rises over a mixed one, and never falls |
| Plot.BinsInOrder | ios/EMWaver/Managers/DeviceBufferSession.swift:236-241 | With span > 2 * bins: bins have at least 2 bits, are disjoint and increasing, and leave out at most one bit between neighbours |
| Plot.InsideRange | ios/EMWaver/Managers/DeviceBufferSession.swift:238-240 | Every bin lies within the range |
| Plot.SkippedExactly | ios/EMWaver/Managers/DeviceBufferSession.swift:236-240 | All bins together leave out exactly span mod bins bits |
| Plot.TilesIff | ios/EMWaver/Managers/DeviceBufferSession.swift:236-240 | Every bit of the range is in a bin iff the number of bins divides the span |
| Plot.NeverTrapsInside | ios/EMWaver/Managers/DeviceBufferSession.swift:202-219 | A range that starts at bit 0 or later never traps |
| Plot.NegativeStartTraps | ios/EMWaver/Managers/DeviceBufferSession.swift:247-251 | A negative start can trap |
| CliSpec.TokensOfSpaced | esp/main/libraries/command_registry.c:635-644 | However words are spaced with blanks, tabs and line ends, the tokenizer returns exactly them |
| CliSpec.ItemOfWord | esp/main/libraries/command_registry.c:645-673 | A token's classification undoes its rendering |
| CliSpec.WordOfItem | esp/main/libraries/command_registry.c:645-673 | Every token is the rendering of its own classification |
| CliSpec.CollectAll | esp/main/libraries/command_registry.c:644-675 | Every token is collected iff no array is full while a token is left; otherwise some are lost |
| CliSpec.ClipIdentity | esp/main/libraries/command_registry.c:650-670 | Clipping loses nothing iff every key and value fits |
| Cli.StrtokR | esp/main/libraries/command_registry.c:636-644 | The next token, and a rest with exactly the tokens after it |
| Cli.ParseCliCommand | esp/main/libraries/command_registry.c:619-678 | The parser loop computes Parse for every input |
| Cli.StoreToken | esp/main/libraries/command_registry.c:645-674 | One turn of the loop |
| Cli.ParseBounded | esp/main/libraries/command_registry.c:619-678 | No input makes the parser exceed a buffer or array |
| Cli.GetArg | esp/main/libraries/command_registry.c:680-691 | The first argument with exactly that key, or none |
| Cli.Bind | esp/main/libraries/command_registry.c:241-256 | Each spec gets its own positional or the value of its name; the missing-argument error iff a required one has none |
| Cli.RankSpecs | esp/main/libraries/command_registry.c:97-121 | Unnamed specs are numbered in order; refused iff there are more than 10 |
| Cli.Registry.Register | esp/main/libraries/command_registry.c:123-154 | Succeeds iff the specs fit, no registered verb shares the first 16 characters and a slot is free; takes the first free slot, verbs stay distinct, and nothing changes otherwise |
| Cli.Registry.FindEntry | esp/main/libraries/command_registry.c:174-185 | An entry iff the verb is registered |
| Cli.Registry.OneEntry | esp/main/libraries/command_registry.c:123-154 | A verb names at most one entry |
| Cli.Registry.Lookup | esp/main/libraries/command_registry.c:208-234 | A registered composite wins and takes exactly the first positional; otherwise the verb alone decides and nothing is taken |
| Cc1101.Search | esp/main/libraries/cc1101.c:336-350 | The double loop returns the first of the nearest of all 16 * 256 settings |
| Cc1101.PrecisionIff | esp/main/libraries/cc1101.c:331-350 | The best setting is within 1/512 of the target iff 25 <= bps <= 1625000 |
| Cc1101.CloseSetting | esp/main/libraries/cc1101.c:331-350 | In that range some setting is that close |
| Cc1101.ReportedIsClose | esp/main/libraries/cc1101.c:654-662 | The reported rate is the one asked for within 1/512 and half a bit per second |
| Cc1101.StableIff | esp/main/libraries/cc1101.c:325-357 | Setting the reported rate selects the same registers, for every mantissa, iff the exponent is at least 4 |
| Cc1101.Apart | esp/main/libraries/cc1101.c:331-343 | Two settings differ by a whole step, or by half a step below a mantissa of 0 |
| Cc1101.Radio.SetDatarate | esp/main/libraries/cc1101.c:325-357 | The registers hold the best setting, the bandwidth nibble and all other registers are unchanged; refused iff bps <= 0 |
| Cc1101.Radio.SetThenGet | esp/main/libraries/cc1101.c:634-664 | Set and read back: within 1/512 and half a bit per second |
| WebSocket.ParseEncode | esp/esp8266/main/emwaver_esp8266.c:1704-1740 | Every frame that fits the buffer, masked or not, with a 7-bit or 16-bit length, is read back whole and nothing after it is touched |
| WebSocket.EncodeParse | esp/esp8266/main/emwaver_esp8266.c:1704-1740 | Whatever is read is, byte for byte, the encoding of a well-formed frame that fits |
| WebSocket.ParseRefuses | esp/esp8266/main/emwaver_esp8266.c:1722-1724 | A payload larger than the buffer is refused |
| WebSocket.MaskedTwice | esp/esp8266/main/emwaver_esp8266.c:1733-1737 | Unmasking undoes masking |
| WebSocket.ReadsWhatIsSent | esp/esp8266/main/emwaver_esp8266.c:1742-1752 | The reader inverts the sender for every payload of at most 125 bytes |
| WebSocket.Socket.Recv | esp/esp8266/main/emwaver_esp8266.c:1695 | recv delivers the next bytes of the stream into the buffer, up to what it finds |
| WebSocket.Socket.ReadExact | esp/esp8266/main/emwaver_esp8266.c:1691-1702 | Whatever the splits, success means exactly the next bytes of the stream, and it comes iff they are there |
| WebSocket.Socket.ReadFrame | esp/esp8266/main/emwaver_esp8266.c:1704-1740 | Whatever the splits, success iff the stream begins with a readable frame; payload and opcode are its own and exactly its bytes are consumed |
| WebSocket.ReadFrames | esp/esp8266/main/emwaver_esp8266.c:1704-1740 | A stream of frames is read frame by frame, for every way recv cuts it |
| WebSocket.Unmask | esp/esp8266/main/emwaver_esp8266.c:1733-1737 | The in-place loop masks exactly the payload |
| WebSocket.Socket.SendBinary | esp/esp8266/main/emwaver_esp8266.c:1742-1752 | Sends exactly one unmasked binary frame, or reports failure |
| TransmitSpec.QueueIsFifo | esp/main/libraries/usb.c:175-196 | For every interleaving of the producer's byte stores with the ISR, from any state: bytes taken out followed by bytes queued are those queued before and then the accepted lanes; a rejected lane leaves no trace |
| TransmitSpec.RoomIsNotLost | esp/main/libraries/usb.c:181-189 | Over every run from its offer on, a lane offered with at most 493 bytes queued is still under way or is the first lane accepted: it is never rejected |
| TransmitSpec.RunIsFaithful | esp/main/libraries/sampler.c:434-470 | From any state about to take a byte, until the queue runs dry, output k is bit k mod 8 of consumed byte k div 8 |
| TransmitSpec.ReplayIsUnpack | esp/main/libraries/sampler.c:439-462 | From any such state, until the queue runs dry, the pin shows exactly the queued and then the accepted bytes, low bit first, inverting the sampler's packing, and takes no byte early |
| TransmitSpec.StretchIsUnpack | esp/main/libraries/sampler.c:434-470 | Between any two ticks that find the queue empty, the pin shows exactly what was queued and then accepted in that stretch, low bit first |
| TransmitSpec.EmptyTickRealigns | esp/main/libraries/sampler.c:463-468 | A tick that finds the queue empty drives the pin low and makes the next byte start at its low bit |
| Transmit.Path.Perform | esp/main/libraries/usb.c:175-264 | Any schedule on the 512-byte buffer, from any valid state, reaches the abstract state and drives the abstract levels |
| Monitor.TimeoutHoldsBytes | esp/main/libraries/sampler.c:360-369 | A transmission timeout happens only on 201 polls in a row of one and the same non-zero level |
| ReplayMonitor.TimeoutMeansUnderrun | esp/main/libraries/sampler.c:324-379 | For replay ticks of 5 to 255 microseconds and polls 10 ms apart, a timeout of the monitor is always preceded, within its 2 s, by a tick that found the buffer empty |
| ReplayMonitor.TakesEveryEighth | esp/main/libraries/sampler.c:439-462 | Without an underrun exactly every eighth tick takes a byte, from any state |
| ReplayMonitor.NoCommonRate | esp/main/libraries/sampler.c:41-46 | No tick of 5 to 255 microseconds takes whole 18-byte lanes from poll to poll for 2 s |
| ReplayMonitor.SlowStreamTimesOut | esp/main/libraries/sampler.c:324-379 | A run of the replay buffer with one lane per poll: the monitor starts it at poll 0 and times it out at poll 202 |
| ReplayMonitor.IngestRun | esp/main/libraries/usb.c:175-196 | The producer's steps undisturbed append exactly the lane |
| BleServer.CommandsReachQueue | esp/main/libraries/ble_server.c:148-182 | Exactly the non-empty command lanes of the frames are queued, in order, up to the first that finds the queue full |
| BleServer.WritesReachQueue | esp/main/libraries/ble_server.c:184-228 | Frames written in any pieces, from any fragment state, queue exactly their non-empty command lanes, in order, up to the first that finds the queue full |
| BleTransport.Transfer | ios/EMWaver/Managers/BLETransport.swift:173-186 | Host encoder, host chunking for any write length, and firmware reassembly together queue exactly the frames' non-empty command lanes, up to the first that finds the queue full |
| Host.Session.FeedChunks | ios/EMWaver/Managers/DeviceBufferSession.swift:105-133 | From any accumulator state, frames with quiet (zero) padding fed in any chunks append exactly their selected lanes, in order, and each call stamps exactly the packets it completes |
| Host.SamplingKeepsEveryStreamLane | ios/EMWaver/Managers/USBManager.swift:44-57 | While sampling, every frame's stream lane is stored, in order, at a position fixed by the non-empty command lanes before it |
| Host.SamplesOnlyIff | ios/EMWaver/Managers/USBManager.swift:44-57 | What is stored while sampling is the stream lanes and nothing else iff every command lane is empty |
| SessionSpec.Exclusivity | esp/main/libraries/transport_session.c:67-134 | Between control commands of two links the first one's claim was lost while it held it, by its disconnect, by expiry, or by the clear of a stream check, and afterwards a CONNECT of the second was accepted |
| SessionSpec.ClearWasDecided | esp/main/libraries/transport_session.c:19-30 | A stream check that clears the claim found it stale in an earlier comparison of its own |
| SessionSpec.OwnerChange | esp/main/libraries/transport_session.c:19-144 | The owner changes only by a release, an accepted CONNECT, or both in one step |
| SessionSpec.LossIsRelease | esp/main/libraries/transport_session.c:123-134 | A run that loses an owner contains the release at which it loses it |
| SessionSpec.ExpiryIsExact | esp/main/libraries/transport_session.c:25-29 | When a comparison finds a claim stale: tick read after the stamp, iff the timeout passed really and modulo 2^32; tick read before it, iff by less than 2^32 - 500 ticks |
| SessionSpec.StampBetweenReadsDropsClaim | esp/main/libraries/transport_session.c:25-29 | A tick read at 100 and a claim stamped at 101: the claim refreshed that instant is dropped |
| SessionSpec.OldDecisionDropsNewClaim | esp/main/libraries/transport_session.c:25-29 | A clear decided against an expired claim and written after another link's CONNECT drops the new claim |
| SessionSpec.UnstampedClaimIsDropped | esp/main/libraries/transport_session.c:118-119 | A comparison between a CONNECT's owner and its stamp drops the new claim |
| Session.Lease.AllowsStream | esp/main/libraries/transport_session.c:96-101 | Undisturbed, the stream gate answers for the owner after dropping a stale claim |
| Session.Lease.EnterCheck | esp/main/libraries/transport_session.c:21-23 | A stream check's read of the owner |
| Session.Lease.ReadTick | esp/main/libraries/transport_session.c:25 | Its read of the tick counter |
| Session.Lease.CompareTick | esp/main/libraries/transport_session.c:26-27 | Its unsigned comparison with the stamp of that later moment is the abstract one |
| Session.Lease.ClearClaim | esp/main/libraries/transport_session.c:28 | Its write |
| Session.Lease.AnswerCheck | esp/main/libraries/transport_session.c:99-100 | Its answer, from a second read of the owner |
| Session.Lease.Claim | esp/main/libraries/transport_session.c:109-118 | CONNECT up to the owner: refused iff another link owns the claim or the source is none |
| Session.Lease.StampClaim | esp/main/libraries/transport_session.c:119 | CONNECT's stamp |
| Session.Lease.Connect | esp/main/libraries/transport_session.c:109-121 | Undisturbed, CONNECT leaves the source as owner with the new stamp, or refuses |
| Session.Lease.HandlePacket | esp/main/libraries/init.c:420-458 | The session opcode handler is the abstract one |
| Session.Lease.PerformAll | esp/main/libraries/init.c:183-202 | Any run from boot goes through exactly the abstract states |
| Dfu.PollTimeoutReads | crates/emwaver-dfu/src/lib.rs:265-269 | Every 24-bit poll timeout, little-endian from byte 1 of the status, is read back |
| OtaLinks.OwnedIff | esp/main/libraries/ota_ble.c:69-196 | Over every run of the callbacks: each chunk is in an update its own transport began, iff no update begun while the other transport's guard was up gets a chunk of the other |
| OtaLinks.ForeignIff | esp/main/libraries/ota_wifi.c:102-177 | A chunk goes into the other transport's update iff that update was begun while the guard of the chunk's transport was already up |
| OtaLinks.OpenSince | esp/main/libraries/ota_core.c:73-116 | The open update is the last one begun; the other guard is up only if it was up then |
| Ota.Updater.Perform | esp/main/libraries/ota_ble.c:136-196 | Each callback does to session, flags, guards and log what its own contract says |
| Ota.Updater.ControlWrite | esp/main/libraries/ota_ble.c:136-167 | START, ABORT, END and the access point commands do and answer what the source's branches do; only END can switch the boot partition |
| Ota.Updater.DataWrite | esp/main/libraries/ota_ble.c:169-196 | Data is accepted iff an update is open, the BLE flag is set and the write succeeds; a failed write ends the update |
| Ota.Updater.PostBegin | esp/main/libraries/ota_wifi.c:102-138 | An upload starts iff no update is open, the header lookup returned 64, the digits are hex and the platform agrees; with a result ESP-IDF documents, ESP_OK or an error code, none ever starts |
| CliCut.ParseRenderIff | esp/main/libraries/command_registry.c:619-678 | For lines of any length: parsing a rendered line gives verb, arguments and positionals back iff all fit their buffers, the items but the last leave no array full, and the cut to 255 characters takes only blanks behind the last word or the equals sign of an empty last value |
| CliCut.TokensOfCut | esp/main/libraries/command_registry.c:627-644 | A cut line has fewer words, or the same ones with the last shortened by what was cut |
| CliCut.ShortenedItem | esp/main/libraries/command_registry.c:645-673 | The only shortened word that says what the whole one says is an empty assignment without its equals sign |
| CliSpec.ParseShortIff | esp/main/libraries/command_registry.c:619-678 | For lines that fit the buffer: parsing undoes rendering iff all fit and the items but the last leave no array full |
| SessionSpec.ControlKeptIff | esp/main/libraries/transport_session.c:19-144 | Over a run of any length, from a claim stamped or not and with any checks under way: an owner that refreshes at gaps of at most 5000 ms and does not disconnect keeps control throughout iff no check that found the claim stale, before the run or in it, gets to clear it |
| SessionSpec.AfterConnect | esp/main/libraries/transport_session.c:109-121 | The same right after any accepted CONNECT of a run from boot, before its stamp is written |
| SessionSpec.LeaseHolds | esp/main/libraries/transport_session.c:19-144 | As long as no check is bound to clear the claim such an owner keeps control and no other link's control command passes |
| SessionSpec.DoomLosesClaim | esp/main/libraries/transport_session.c:25-29 | A check that found the claim stale and gets to clear it takes the claim from its owner, whoever that is by then |
| SessionSpec.FreshStep | esp/main/libraries/transport_session.c:19-144 | One step in time keeps the claim, stamped or not, unless a stream check clears it, and lets no other link's control command pass |
| SessionSpec.StaleMeansRace | esp/main/libraries/transport_session.c:25-29 | A comparison in time finds the claim stale iff its tick was read before the stamp |
| SessionSpec.LeaseHoldsIff | esp/main/libraries/transport_session.c:19-144 | From a claim with no check about to clear, and with every check comparing in time: the owner keeps control throughout iff no check both reads its tick before a stamp it compares with and gets to clear the claim |
| SessionSpec.OrderedReadsHold | esp/main/libraries/transport_session.c:19-144 | In such a run, with every tick read after the stamp it is compared with, the owner never loses control |
| SessionSpec.AlwaysOrderly | esp/main/libraries/init.c:183-202 | On every run from boot a CONNECT is stamped before the next command is taken |
| Session.Lease.Perform | esp/main/libraries/init.c:183-202 | One step of the command task, which skips empty commands, or of a receive task is one abstract step |
| OtaLinks.CanMixIff | esp/main/libraries/ota_ble.c:169-173 | As long as an update stays open, the other transport's chunk is admitted next iff its guard was up when the update was begun |
| OtaLinks.NeverUnderIsOwned | esp/main/libraries/ota_ble.c:69-196 | A run in which no update is begun under the other's guard has every chunk in its own transport's update |
| OtaLinks.NoUploadIsOwned | esp/main/libraries/ota_wifi.c:102-138 | Without an upload no chunk is ever in the wrong update |
| Ota.Updater.PerformAll | esp/main/libraries/ota_ble.c:136-196 | Under every interleaving of BLE writes, disconnects and turns of the HTTP upload: every boot switch is justified; each chunk is in its own transport's update iff no update begun under the other's guard gets one of the other's; and always, if every header lookup returns what ESP-IDF documents |
| Ota.Updater.PostLoop | esp/main/libraries/ota_wifi.c:140-170 | Undisturbed, however recv splits the body and whatever each store answers: the upload ends at the first chunk that is not stored, or boots the whole body iff it is confirmed |
| Ota.FailedEndLetsBleIn | esp/main/libraries/ota_ble.c:114-124 | With a lookup that returned 64: START, a failing END, an upload and a BLE chunk, which goes into the upload's update |
| Ota.RestartLetsHttpIn | esp/main/libraries/ota_ble.c:145-149 | With a lookup that returned 64: an upload, ABORT, START and one turn of the upload, whose chunk goes into BLE's update |
| LaneCount.CountIff | esp/main/libraries/sampler.c:306-312 | With the count read and written back by a task and an interrupt on two cores: it is the lanes committed and not popped throughout iff neither side writes it after the other wrote it since its read |
| LaneCount.CommitInsidePopIsLost | esp/main/libraries/sampler.c:310 | Two commits and a pop around the second leave a count of 0 |
| LaneCount.PopInsideCommitIsLost | esp/main/libraries/sampler.c:425 | Two commits and a pop inside the second leave a count of 2 |
| EndToEnd.SamplesArrive | esp/main/libraries/sampler.c:272-432 | Over every run of the sampler: its lanes in frames without commands, stored by a sampling session, unpack to the kept lanes' samples, and to the sampled signal itself if no lane began with the ring full |
| EndToEnd.Receive | ios/EMWaver/Managers/DeviceBufferSession.swift:105-133 | The same through feedMidiBytes, for every cut into chunks and every accumulator state |
| Sampler.CopyGrows | esp/main/libraries/sampler.c:299-304 | A byte copied behind the first k of a lane adds that lane's next eight samples |
| Dfu.Host.Flash | crates/emwaver-dfu/src/lib.rs:450-555 | Ok: every block before the first refused upload was read back equal; on a conforming device an image of at most 65534 blocks is in memory at its address and nothing else is programmed. Ends against any device whose transfers take time. And it is Ok on every conforming device that serves in time, busy or not, from any state, with all blocks verified if asked (at most 65534) |
| Dfu.Host.MassErase | crates/emwaver-dfu/src/lib.rs:271-283 | Ok means an empty memory. On a device that serves in time it is Ok at once; an error means that the device did not serve from the retry on, which begins with an abort and a clear |
| Dfu.Host.ReadBlock | crates/emwaver-dfu/src/lib.rs:427-448 | Exactly three refused attempts make an error; recovery changes neither memory nor pointer; a device that serves gives the block's contents at once, or after the first recovery |
| Dfu.Host.Recover | crates/emwaver-dfu/src/lib.rs:432-438 | An abort, a clear and a wait: a device that serves is then ready for an upload |
| Dfu.Host.WaitIdle | crates/emwaver-dfu/src/lib.rs:229-263 | Ends by its clock; on Ok the device is idle with nothing pending and unchanged contents; Ok on every device that serves, from any state |
| Dfu.Host.AwaitOperation | crates/emwaver-dfu/src/lib.rs:294-329 | The polling loop ends by its clock; on Ok the pending operation was applied; Ok on every device that completes it within the limit, however often busy |
| Dfu.Host.Download | crates/emwaver-dfu/src/lib.rs:285-332 | A request from an idle device polled to its end: Ok means it was carried out, and a device that serves carries it out |
| Dfu.Host.VerifyBlock | crates/emwaver-dfu/src/lib.rs:503-541 | A difference or a short read is never accepted, equal contents on a device that serves always are; the branch for an error that is not a stall is dead |
| Dfu.Host.FlashBlock | crates/emwaver-dfu/src/lib.rs:488-548 | One block: programmed at its offset, and read back equal, refused, or an error; on a device that serves never an error |
| Dfu.PollServed | crates/emwaver-dfu/src/lib.rs:295-321 | A poll of a device that serves: done or busy, with its wait well within the limit |
| Dfu.ServingExists | crates/emwaver-dfu/src/lib.rs:450-555 | Devices that conform and serve exist, busy ones included |
| DfuDevice.ServeConforms | crates/emwaver-dfu/src/lib.rs:450-555 | A serving device conforms |
| DfuDevice.ContentsOfImage | crates/emwaver-dfu/src/lib.rs:503-520 | What is programmed reads back |
| DfuDevice.DataBlocks | crates/emwaver-dfu/src/lib.rs:484-494 | A download asks for programming iff its block number is 2 or more, and then byte k of its data is found (number - 2) * 2048 + k bytes behind the pointer |
| DfuDevice.PointerBytes | crates/emwaver-dfu/src/lib.rs:337-343 | The five-byte set-pointer payload, lowest byte first, asks for exactly its address, for every 32-bit address |
| SamplerSpec.WireIsAccepted | esp/main/libraries/sampler.c:299-313 | On every run the lanes on the wire are exactly the frames the transport accepted |
| SamplerSpec.RefusedStaysQueued | esp/main/libraries/sampler.c:306-313 | A refused frame leaves wire and queue as they were and its lane to be sent again |
| SamplerSpec.SentOrKept | esp/main/libraries/sampler.c:282-314 | From idle, a peek, eighteen bytes, the transport's answer and the pop, with ticks at any points between: the oldest lane is on the wire and off the queue iff accepted, and still queued if not |
| SamplerSpec.QueuedLaneGetsThrough | esp/main/libraries/sampler.c:282-314 | The state after every prefix of those steps |
| SessionSpec.DisconnectFrees | esp/main/libraries/transport_session.c:123-134 | The owner's accepted DISCONNECT leaves the device without an owner |
| SessionSpec.SessionAnswers | esp/main/libraries/transport_session.c:109-144 | CONNECT is accepted iff its link is not 0 and the device is free or its own, DISCONNECT iff free or its own, HEARTBEAT iff not free and its own, which refreshes the stamp |
| SessionSpec.ConnectWorksIff | esp/main/libraries/transport_session.c:67-78 | A link's CONNECT, gated, handled and stamped, makes it the owner iff the device is free or its own already; otherwise owner and stamp stay |
| SessionSpec.FreedForAll | esp/main/libraries/transport_session.c:109-134 | After any accepted DISCONNECT of a run from boot the next CONNECT of any link is accepted |
| SessionSpec.StrangersAskOnly | esp/main/libraries/transport_session.c:46-82 | With a claim in time, a link that is not the owner gets exactly the six questions through the gate, and changes nothing |
| SessionSpec.OwnersPass | esp/main/libraries/transport_session.c:67-94 | And the owner gets every command through, control commands stamping the claim |
| SessionSpec.StreamsFollowOwner | esp/main/libraries/transport_session.c:96-101 | With a claim in time, exactly the owner's stream lanes are taken |
| Ota.Updater.PostHandler | esp/main/libraries/ota_wifi.c:102-177 | The handler undisturbed: started iff the lookup returned 64, the digits are hex and every opening call succeeds; with every chunk stored it boots the body iff its digest is the header's and both closing calls succeed, and drops it otherwise; else it ends at the first chunk that is not stored |
| Ota.Updater.BleUpdate | esp/main/libraries/ota_ble.c:81-196 | START, data writes and END undisturbed, every store succeeding: the device boots exactly the bytes written iff they are as many as declared, of the declared digest, and every closing call succeeds; otherwise the update is dropped |
| Ota.LittleEndianReads | esp/main/libraries/ota_ble.c:92-95 | The four bytes of a number, lowest first, read as it |
| Ota.DecimalDigits | esp/main/libraries/ota_wifi.c:59-64 | The decimal digits read as their numbers |
| Ota.HexLetters | esp/main/libraries/ota_wifi.c:65-73 | So do the letters a to c, in either case |
| Ota.LastHexLetters | esp/main/libraries/ota_wifi.c:65-73 | And d to f |
| Host.NonEmptyCount | ios/EMWaver/Managers/USBManager.swift:44-57 | Outside sampling exactly as many lanes are stored as there are non-empty command and stream lanes |
| Host.NonEmptyLanesAreStored | ios/EMWaver/Managers/USBManager.swift:44-57 | And each of them in its place: a command lane behind all lanes of earlier frames, its stream lane behind that |
| Bytes.MaskIsShift | esp/main/libraries/sampler.c:387-389 | Bit j is the j-th from the low end |
| Codec.EncodeLayout | esp/main/libraries/usb.c:379-403 | Group g starts with its prefix, bit j of which is the top bit of byte j of the group, and the low seven bits follow in order |
| Sysex.WrapLayout | ios/EMWaver/Managers/UsbMidiSysex.swift:24-37 | The 48 bytes of a frame: start, manufacturer, magic, payload, end |
| Sysex.FramedIs | esp/main/libraries/ble_server.c:153-157 | Exactly the 48-byte strings with that start and that end are decoded |
| BleServer.EnqueueAnswers | esp/main/libraries/ble_server.c:164-181 | A frame without a command is taken and not queued, one with a command is taken iff there is room |
| BleServer.BadFramesRefused | esp/main/libraries/ble_server.c:153-157 | A frame with another start or end is refused |
| BleServer.QueuedIff | esp/main/libraries/ble_server.c:216-227 | A write answers queued iff one of its frames was taken |
| WebSocket.WireLayout | esp/esp8266/main/emwaver_esp8266.c:1706-1732 | A frame on the wire byte for byte: header, length below 126 or 126 and two bytes with the high one first, mask, payload |
| WebSocket.OpcodeIs | esp/esp8266/main/emwaver_esp8266.c:1710 | The opcode is the low nibble, for every opcode and every flags |
| Octets.ValueIncreases | esp/esp8266/main/emwaver_esp8266.c:1712-1718 | A byte's value grows with it |
| Plot.BitAtIs | ios/EMWaver/Managers/DeviceBufferSession.swift:217-221 | Bit i of the plot is bit i of the unpacked buffer, low outside it |
| Plot.PairPlace | ios/EMWaver/Managers/DeviceBufferSession.swift:269-274 | A bin's points stand at its first and its last bit, at 0 iff it has a low bit and at 255 iff it has a high one |
| Plot.EveryBitPlace | ios/EMWaver/Managers/DeviceBufferSession.swift:226-234 | A short range's points stand at their bits, at 255 if set and at 0 if not |
| Cc1101.NibblesSpell | esp/main/libraries/cc1101.c:352-355 | The register is 16 times the bandwidth nibble and the exponent |
| CliSpec.SeparatorsAre | esp/main/libraries/command_registry.c:636 | Blank, tab, carriage return and line feed separate tokens, nothing else |
| Cli.SamePrefixIs | esp/main/libraries/command_registry.c:126 | Two verbs clash iff their first 16 characters agree, terminators included |
| Monitor.IdleAndStuckAre | esp/main/libraries/sampler.c:335-369 | Idle is 10 empty polls since the start, stuck 201 equal ones |

## Left out

- Hardware and operating system calls (GPIO, timers, SPI, NVS, TinyUSB, NimBLE, esp_wifi, CoreMIDI, CoreBluetooth): a parameter, a register array or an arbitrary result stands for each.
- Stopping and restarting a sampling or replay run while an interrupt is under way.
- wifi_transport.c as a second producer of the replay buffer next to USB: two producers would break the single-producer argument. Its codec loops are the same as the modelled ones (wifi_transport.c, lines 802-843).
- Piggybacked command responses and status packets of usb.c: pending flags are cleared before a send that can fail.
- The legacy BLE byte ring, BLE notifications beyond their zero padding, and the normalisation of raw MIDI bytes ahead of the host parser.
- The host's transmit buffer (`appendTxBytes`, `nextTxPacket`).
- Progress messages of flashing and updating, status notifications and restart tasks.
- The Swift encoder as a loop of its own: it computes the same Encode, its extra mask of the prefix being the identity by Codec.EncodedIsSevenBit.
- Typed conversion of command arguments and the table of handler signatures: finite case lists.
- Frequency, modulation and power settings of the CC1101.
- The WebSocket handshake, fragmentation (the reader ignores FIN) and the session loop around the reader.
- The ESP8266 serial reader and Wi-Fi station events.
- Dfu.Host.Download: models the polling loops of mass erase, set pointer and write block (lib.rs, lines 285-425) by one loop with their two differences, time limit and manifest states, as parameters.
- Plot.DrawBins: exact bin edges, as for Plot.CompressDataBits.
- Plot.CompressDataBits: exact arithmetic; with the program's single-precision bin edges a bin may start or end elsewhere on long buffers.
- The decimal text in which the CC1101 data rate is reported.
- Ota.Updater.ControlWrite: commands 0x10 and 0x11 only give their answer; the access point and the HTTP server they start and stop are not modelled.
- Monitor.Watch: polls are taken as given; that they are 10 ms apart is the program's own reckoning.
