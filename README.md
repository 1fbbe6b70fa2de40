# carplay-client link layer, in Dafny

A model of the part of carplay-client that talks to the AutoBox dongle over
USB. It covers two pieces:

- The frame codec (`src/link_layer/box_protocol.rs`). Every frame opens with
  a 16-byte header of four little-endian `u32` words: the magic 0x55AA55AA,
  the announced payload length, the type code and the parity. The parity is
  the 32-bit complement of the type code. There are fourteen message kinds,
  each with its own type code.
  - `serialize` is bincode's fixed-int little-endian encoding of the `MsgType`
    enum with its leading 4-byte variant index drained.
  - `deserialize` dispatches on a type code and parses the bytes as that
    kind's struct. An unknown code parses as a Heartbeat. Magic, length and
    parity are never checked. Trailing bytes are ignored. Too few bytes is
    bincode's `UnexpectedEof`, which the source unwraps into a panic.
- The session logic (`src/link_layer.rs`):
  - finding the AutoBox by vendor and product ID;
  - picking the bulk endpoints;
  - sending frames in order with an early stop on the first failure;
  - the fixed bootstrap burst of fourteen frames;
  - the receive framing;
  - the `communicate` cycle: a heartbeat, one receive, then either take a
    pending input signal or notify the player.

Modules:

- `Wrappers` (wrappers.dfy) holds `Option` and `Result`.
- `Bytes` (bytes.dfy) holds fixed-width integers and little-endian words. It
  also has bit-by-bit xor and and, used to state the source's parity
  expression literally.
- `BoxProtocol` (box_protocol.dfy) is the codec, written as pure functions
  and lemmas.
- `Usb` (usb.dfy) is a stand-in for the rusb device handle. It is a class
  that records every bulk transfer in `trace` and answers from scripted
  replies.
  - A read delivers at most the buffer's length. A longer transfer is an
    `Overflow` error, as with libusb.
  - When the script runs out, the transfer is a `Timeout`.
- `LinkLayer` (link_layer.dfy) is the session, written as a class with
  methods and loops, as in the source.

How the model treats the source's effects:

- A panic from an `unwrap` becomes an `Err` carrying a `Fault`.
- The input channel is a count of pending signals.
- The player channel is a count of sent signals plus a flag that says whether
  its receiver still exists.
- The USB library and the device are the `DeviceHandle` class, with scripted
  replies.

Behaviour of the code as written, stated as lemmas:

- `rx_packet` gives its payload buffer capacity but no length. The second
  read therefore asks for zero bytes, and only the 16 header bytes reach
  `deserialize` (`ReceiveNeverYieldsPayloadKinds`, `ReceivePayloadFrame`).
  - OpenBox, Video and ManInfo frames can never be received.
  - Sent whole, such a frame overflows the header buffer.
  - Sent in two transfers, its payload overflows the empty buffer.
- `ManInfo::new` announces 2 payload bytes for its 8, and `Video::new`
  announces 0 whatever its data (`StampedLengths`).

## Model

| member | source | states |
|---|---|---|
| BoxProtocol.TypeCodesDistinct | src/link_layer/box_protocol.rs:12-26 | the fourteen type codes are pairwise distinct |
| BoxProtocol.VariantIndex | src/link_layer/box_protocol.rs:29-44 | bincode's enum tag is the variant's declaration position, one of 0..13 |
| BoxProtocol.WireCodeIdentifiesKind | src/link_layer/box_protocol.rs:12-44 | two frames share a type code exactly when they are of the same kind; a kind's code is the registry entry at its declaration position |
| BoxProtocol.ParityIsComplement | src/link_layer/box_protocol.rs:137-144 | the source's expression `(msg_type as i32 ^ -1) as u32 & 0xffffffff`, evaluated bit by bit, equals 0xFFFFFFFF - type; the code xor its parity is all ones |
| BoxProtocol.NewHeader | src/link_layer/box_protocol.rs:137-144 | the header has magic 0x55AA55AA, the complement parity, and the given type and length |
| BoxProtocol.NewOpenBox | src/link_layer/box_protocol.rs:228-239 | an OpenBox stamped with code 1 and length 28; width, height and framerate are copied; format 5, packet_max 49152, box_ver 2 and phone_work_mode 2 are fixed |
| BoxProtocol.NewDevPlug | src/link_layer/box_protocol.rs:243-247 | a DevPlug stamped with code 2, length 0 |
| BoxProtocol.NewDevUnplug | src/link_layer/box_protocol.rs:251-255 | a DevUnplug stamped with code 4, length 0 |
| BoxProtocol.NewTouch | src/link_layer/box_protocol.rs:259-263 | a Touch stamped with code 5, length 0 |
| BoxProtocol.NewVideo | src/link_layer/box_protocol.rs:267-272 | a Video stamped with code 6 and length 0 whatever the data, carrying the data unchanged |
| BoxProtocol.NewAudio | src/link_layer/box_protocol.rs:276-280 | an Audio stamped with code 7, length 0 |
| BoxProtocol.NewButtonCtl | src/link_layer/box_protocol.rs:284-288 | a ButtonCtl stamped with code 8, length 0 |
| BoxProtocol.NewBtAddr | src/link_layer/box_protocol.rs:292-296 | a BtAddr stamped with code 10, length 0 |
| BoxProtocol.NewBtPin | src/link_layer/box_protocol.rs:300-304 | a BtPin stamped with code 12, length 0 |
| BoxProtocol.NewManInfo | src/link_layer/box_protocol.rs:308-314 | a ManInfo stamped with code 20 and length 2, carrying brand and model unchanged |
| BoxProtocol.NewMultiTouch | src/link_layer/box_protocol.rs:318-322 | a MultiTouch stamped with code 23, length 0 |
| BoxProtocol.NewSendFile | src/link_layer/box_protocol.rs:326-330 | a SendFile stamped with code 153, length 0 |
| BoxProtocol.NewHeartbeat | src/link_layer/box_protocol.rs:334-338 | a Heartbeat stamped with code 170, length 0 |
| BoxProtocol.NewSwVer | src/link_layer/box_protocol.rs:342-346 | a SwVer stamped with code 204, length 0 |
| BoxProtocol.FieldsStartWithHeader | src/link_layer/box_protocol.rs:128-225 | every struct's bincode encoding opens with its header's four words |
| BoxProtocol.SerializeDropsTag | src/link_layer/box_protocol.rs:56-60 | draining four bytes removes exactly the enum tag: bincode's output is the variant index followed by the frame; the frame opens with the header words |
| BoxProtocol.SerializedLength | src/link_layer/box_protocol.rs:56-60 | a frame is 16 bytes for a header-only kind, 44 for OpenBox, 24 for ManInfo and 24 + \|data\| for Video |
| BoxProtocol.SerializeHeaderLayout | src/link_layer/box_protocol.rs:128-134 | the first 16 bytes of a frame read back as its header |
| BoxProtocol.SerializeOpenBoxLayout | src/link_layer/box_protocol.rs:147-157 | an OpenBox frame is eleven words: the header, then width, height, framerate, format, packet_max, box_ver, phone_work_mode |
| BoxProtocol.SerializeManInfoLayout | src/link_layer/box_protocol.rs:200-205 | a ManInfo frame is six words: the header, then brand and model as their 32-bit two's-complement patterns |
| BoxProtocol.SerializeVideoLayout | src/link_layer/box_protocol.rs:174-178 | a Video frame is the header, the data length as a little-endian u64, then the data |
| BoxProtocol.HeaderOnlySerialize | src/link_layer/box_protocol.rs:56-60 | a header-only kind goes on the wire as magic, length, type and parity in that order and nothing else |
| BoxProtocol.HeartbeatFrame | src/link_layer/box_protocol.rs:333-339 | the Heartbeat frame is the bytes of 0x55AA55AA, 0, 170 and 0xFFFFFF55, each little-endian |
| BoxProtocol.HeaderReadsBack | src/link_layer/box_protocol.rs:128-134 | a header's four encoded words decode to the same header, whatever follows them |
| BoxProtocol.DeserializeSpec | src/link_layer/box_protocol.rs:61-124 | a decode that succeeds yields the dispatch code's kind (Heartbeat for an unknown code) with the first 16 bytes as its header; it succeeds exactly when the input is long enough for that kind |
| BoxProtocol.HeaderOnlyOwnCode | src/link_layer/box_protocol.rs:68-119 | the dispatch arm of a header-only kind's own code rebuilds that kind around the header |
| BoxProtocol.RoundTrip | src/link_layer/box_protocol.rs:56-124 | deserializing a serialized frame under its own type code gives back the same frame, fields and header included |
| BoxProtocol.RoundTripHeaderOnly | src/link_layer/box_protocol.rs:68-119 | the round trip for the eleven header-only kinds |
| BoxProtocol.RoundTripOpenBox | src/link_layer/box_protocol.rs:64-67 | the round trip for OpenBox |
| BoxProtocol.RoundTripManInfo | src/link_layer/box_protocol.rs:100-103 | the round trip for ManInfo, signed fields included |
| BoxProtocol.RoundTripVideo | src/link_layer/box_protocol.rs:80-83 | the round trip for Video, data of any length included |
| BoxProtocol.UnknownCodeIsHeartbeat | src/link_layer/box_protocol.rs:120-123 | a code outside the registry decodes exactly as code 170 does: as a Heartbeat around the first 16 bytes |
| BoxProtocol.HeaderNotChecked | src/link_layer/box_protocol.rs:61-124 | any header at all, bad magic and wrong parity included, decodes unchanged under a header-only code |
| BoxProtocol.ShortInputFails | src/link_layer/box_protocol.rs:61-124 | fewer than 16 bytes never decode, whatever the code |
| BoxProtocol.StampedLengths | src/link_layer/box_protocol.rs:228-338 | the announced length matches the payload for OpenBox (28) and Heartbeat (0); ManInfo announces 2 for 8 payload bytes, Video 0 for 8 + \|data\| |
| BoxProtocol.HeaderOnlyStampedLengths | src/link_layer/box_protocol.rs:243-346 | for DevPlug, DevUnplug, Touch, Audio, ButtonCtl, BtAddr, BtPin, MultiTouch, SendFile and SwVer the announced length 0 matches the nothing that follows the header |
| LinkLayer.LinkLayer.constructor | src/link_layer.rs:57-63 | the session holds the handle, the two endpoint addresses and the channel state it was given |
| LinkLayer.GetDev | src/link_layer.rs:65-83 | the device found is an AutoBox (vendor 0x1314, product 0x1520), the last one listed in the first scan that lists any; every earlier scan listed none; None only when no scan lists one |
| LinkLayer.GetEndpoints | src/link_layer.rs:84-97 | the result is the last IN and the last OUT descriptor, whatever their transfer type, never swapped; None exactly when a direction is missing |
| LinkLayer.LinkLayer.Open | src/link_layer.rs:30-64 | the session opens exactly when an AutoBox is found, the setup steps succeed and both endpoints exist; the fault says which step failed; the new session uses the last IN and OUT endpoint addresses |
| LinkLayer.LinkLayer.TxPacket | src/link_layer.rs:125-133 | exactly one bulk write, of the serialized frame, to the OUT endpoint; its result is the device's answer |
| LinkLayer.LinkLayer.TxNPackets | src/link_layer.rs:135-144 | the frames go out in order; the first refused write stops the run with its error, and nothing after it is sent; otherwise the result is the packet count |
| LinkLayer.BootSequence | src/link_layer.rs:152-173 | the bootstrap burst has fourteen packets |
| LinkLayer.BootSequenceCodes | src/link_layer.rs:152-173 | the burst's codes are 170, 1, 2, 4, 5, 6, 7, 8, 10, 12, 20, 23, 153, 204 in order, each packet carrying a well-formed header with its own code |
| LinkLayer.BootSequenceArguments | src/link_layer.rs:154-170 | the burst holds OpenBox(1920, 720, 60) with header (0x55AA55AA, 28, 1, 0xFFFFFFFE), an empty Video and ManInfo(-1, -1); only those OpenBox and ManInfo headers announce a length |
| LinkLayer.LinkLayer.BootPackets | src/link_layer.rs:153-173 | the pushes build exactly the bootstrap burst, in order |
| LinkLayer.LinkLayer.StartBox | src/link_layer.rs:152-176 | the device sees the fourteen burst frames in order up to and including the first refused one, and one write reply is used per frame sent; the start succeeds exactly when all fourteen are accepted, and a refusal's error is the fault |
| LinkLayer.HeaderRead | src/link_layer.rs:100-107 | the header read succeeds exactly when the device delivers at most 16 bytes, and then yields 16 bytes |
| LinkLayer.HeaderReadLayout | src/link_layer.rs:100-107 | the bytes delivered land at the front of the 16-byte buffer, whose rest stays zero |
| LinkLayer.LinkLayer.ReadHeader | src/link_layer.rs:100-107 | one 16-byte read on the IN endpoint, whose result is `HeaderRead` of the device's answer |
| LinkLayer.LinkLayer.RxPacket | src/link_layer.rs:99-123 | a 16-byte read, then a 0-byte read unless the first failed; the result is the decode of the 16 header bytes under the code in bytes 8..12 |
| LinkLayer.ReceiveNeverYieldsPayloadKinds | src/link_layer.rs:111-122 | whatever the device sends, a received frame is never an OpenBox, Video or ManInfo |
| LinkLayer.ReceiveHeaderOnlyFrame | src/link_layer.rs:99-123 | a header-only frame delivered whole, followed by an empty transfer, is received as that very frame |
| LinkLayer.ReceiveSucceedsIff | src/link_layer.rs:99-123 | a receive succeeds exactly when both reads succeed and the type code in the header is none of OpenBox's, Video's or ManInfo's |
| LinkLayer.HeaderArrives | src/link_layer.rs:99-123 | a header of a kind without fields, delivered as 16 bytes and followed by an empty transfer, is received, whatever its magic and parity |
| LinkLayer.ReceivePayloadFrame | src/link_layer.rs:99-123 | an OpenBox, Video or ManInfo frame fails with an overflow, whether sent whole or as header then payload |
| LinkLayer.LinkLayer.CommunicateCycle | src/link_layer.rs:190-203 | the heartbeat write is issued first and uses one write reply; a refused heartbeat ends the cycle with its error and no read; otherwise the reads of `rx_packet` follow, a failed receive ends the cycle with its fault, and a missing player with `PlayerGone`; the cycle succeeds exactly when the write is accepted, a frame arrives and either an input signal is pending or the player is still there; a pending signal is consumed without notifying the player, and otherwise exactly one player signal is sent |
| LinkLayer.LinkLayer.CycleStep | src/link_layer.rs:190-203 | one iteration of the loop either fails, and then the cycles remaining from that point fail as a run, or takes the run's next step: heartbeat, header read and payload read seen by the device, one signal consumed or one player signal sent |
| LinkLayer.LinkLayer.Communicate | src/link_layer.rs:188-204 | the run succeeds exactly when every cycle in turn gets its heartbeat accepted, receives a frame and finds a pending signal or the player; then the device saw n times heartbeat, header read, payload read, exactly n write replies and 2n read replies were used, min(n, pending) signals were consumed and the other cycles each notified the player once; the player's presence never changes |
| LinkLayer.CyclesLeaveDrops | src/link_layer.rs:188-204 | cycles that all succeed use exactly one write reply and two read replies each |
| LinkLayer.CyclesSucceedOnHeaderReplies | src/link_layer.rs:188-204 | the cycles all succeed when every heartbeat is accepted, the device answers each header read with a header of a kind without fields and each payload read with nothing, and the player is there |
| LinkLayer.CyclesHeartbeatFirst | src/link_layer.rs:190-194 | in every cycle of an undisturbed run, the heartbeat write comes before the header read and the payload read |
| LinkLayer.LinkLayer.Run | src/link_layer.rs:207-212 | a burst refused at frame k ends the run with that refusal's error after frames 0..k, with k + 1 write replies used, no read and no signal consumed or sent; with the burst accepted, the run succeeds exactly when the cycles do on the remaining write replies; an undisturbed run shows the device the burst, then the cycles' transfers, uses 14 + n write replies and 2n read replies, consumes min(n, pending) signals and notifies the player once per other cycle; the player's presence never changes |

## Left out

- Bincode itself. Only its fixed-int little-endian layout for these types is modelled. `bincode::serialize` cannot fail on them, because a `ByteVec` is shorter than 2^64 bytes.
- The rusb calls in `LinkLayer::new`: open, reset, set_active_configuration, config_descriptor, kernel-driver detach, claim_interface and clear_halt. They are foreign calls. `LinkLayer.LinkLayer.Open` takes their combined outcome as two flags, `claimed` and `haltCleared`.
- The device handle passed to `Open` stands for the one `device.open()` returns.
- The 1-second transfer timeouts and `thread::sleep`. The model has no clock.
- Partial and timed-out transfers beyond the scripted replies.
- `println!` output, including the frame dump in `tx_packet`.
- The spawning of the link thread. `LinkLayer.LinkLayer.Run` models only its body.
- The mpsc channels as concurrent objects. The input channel is a count of pending signals. The player channel is a count of sent signals plus a flag that says whether the receiver still exists.
- In the source's wiring (`src/main.rs:14-17`, `src/player_layer.rs:18-21`), the spawned closure of `player_thread` does not capture its receiver, so the receiver is dropped when `player_thread` returns and the first `send` would fail. The model leaves `playerConnected` as a parameter and does not prove this.
- `src/input_layer.rs`, `src/player_layer.rs` and `src/main.rs`: libinput, OS and thread wiring, not part of this model.
- LinkLayer.GetDev: the source polls without end until an AutoBox appears. The model scans a given finite list of device lists and reports `DeviceNeverFound` once they run out.
- LinkLayer.GetDev: the unwraps of `Context::new`, `devices` and `device_descriptor` (`src/link_layer.rs:71-73`) are not modelled. In the model a scan always yields its list, and every descriptor can be read.
- In the source's wiring, the closure spawned by `input_thread` (`src/input_layer.rs:57-66`) never uses `_tx`, so the sender is dropped when `input_thread` returns. `try_recv` at `src/link_layer.rs:196` then always reports a disconnected channel, and the `continue` branch never runs. The model keeps `inputPending` as a parameter, so it also covers that branch.
- LinkLayer.LinkLayer.Communicate: the source loops for ever. The model runs at most `cycles` iterations. It states when the run succeeds, and for a successful run the trace, the replies left and both counters. For a failing run it does not state which fault it ends with, the replies left, or the counters. Each cycle's fault and the replies it uses are stated by `CommunicateCycle`.
- LinkLayer.LinkLayer.Run: when the burst is accepted but a cycle fails, the fault, the replies left and the counters are not stated, as for `Communicate`.
- LinkLayer.LinkLayer.RxPacket: `Vec::with_capacity(header.msg_len as usize)` (`src/link_layer.rs:111`) reserves room for as many bytes as the header announces. The model does not capture that reservation failing. On a 32-bit target a length of 2^31 or more panics with a capacity overflow, and on any target a reservation of up to 4 GiB can abort the process. In the model, code 170 with length 0xFFFFFFFF is received as a Heartbeat.
- LinkLayer.LinkLayer.Open: which of the setup steps failed is not distinguished beyond before and after endpoint selection.
