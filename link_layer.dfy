/**
 * The link session above the USB library: finding the AutoBox and its bulk
 * endpoints, sending frames in order, the bootstrap burst, the receive
 * framing and one cycle of the steady-state loop.
 */
module LinkLayer {
  import opened Wrappers
  import opened Bytes
  import opened BoxProtocol
  import opened Usb

  const ID_VENDOR: U16 := 0x1314
  const ID_PRODUCT: U16 := 0x1520

  /**
   * Why the link thread stops. Each is the panic of an `unwrap` in the source,
   * except DeviceNeverFound: there the source keeps polling for ever, and the
   * model stops when its scripted scans run out.
   */
  datatype Fault =
    | DeviceNeverFound
    | SetupFailed
    | EndpointMissing
    | TransferFailed(usbError: UsbError)
    | DecodeFailed(decodeError: DecodeError)
    | PlayerGone

  // ------------------------------------------------------------------
  // "The last element that satisfies p", the rule both scans follow
  // ------------------------------------------------------------------

  function LastIndex<T>(s: seq<T>, p: T -> bool): (r: Option<nat>)
    ensures r.Some? ==> r.value < |s| && p(s[r.value])
    ensures r.Some? ==> forall j :: r.value < j < |s| ==> !p(s[j])
    ensures r.None? <==> forall j :: 0 <= j < |s| ==> !p(s[j])
  {
    if s == [] then None
    else if p(s[|s| - 1]) then Some(|s| - 1)
    else LastIndex(s[..|s| - 1], p)
  }

  function Last<T>(s: seq<T>, p: T -> bool): (r: Option<T>)
    ensures r.Some? ==> p(r.value) && r.value in s
  {
    match LastIndex(s, p)
    case None => None
    case Some(k) => Some(s[k])
  }

  /** Extending a sequence by one element: that element if it qualifies, else the old answer. */
  lemma LastSnoc<T>(s: seq<T>, x: T, p: T -> bool)
    ensures Last(s + [x], p) == if p(x) then Some(x) else Last(s, p)
  {
    assert (s + [x])[..|s|] == s;
  }

  // ------------------------------------------------------------------
  // Endpoint selection (get_endpoints)
  // ------------------------------------------------------------------

  predicate IsInEndpoint(ep: EndpointDescriptor) { DirectionOf(ep) == In }

  predicate IsOutEndpoint(ep: EndpointDescriptor) { DirectionOf(ep) == Out }

  /**
   * Walks the interface's endpoint descriptors and keeps the last IN and the
   * last OUT one, whatever their transfer type; None is the `unwrap` panic
   * when either direction is missing.
   */
  method GetEndpoints(descriptors: seq<EndpointDescriptor>) returns (r: Option<(EndpointDescriptor, EndpointDescriptor)>)
    ensures r.Some? <==> Last(descriptors, IsInEndpoint).Some? && Last(descriptors, IsOutEndpoint).Some?
    ensures r.Some? ==> Some(r.value.0) == Last(descriptors, IsInEndpoint)
    ensures r.Some? ==> Some(r.value.1) == Last(descriptors, IsOutEndpoint)
    ensures r.Some? ==> DirectionOf(r.value.0) == In && DirectionOf(r.value.1) == Out
  {
    var endpointOut: Option<EndpointDescriptor> := None;
    var endpointIn: Option<EndpointDescriptor> := None;
    for i := 0 to |descriptors|
      invariant endpointOut == Last(descriptors[..i], IsOutEndpoint)
      invariant endpointIn == Last(descriptors[..i], IsInEndpoint)
    {
      assert descriptors[..i + 1] == descriptors[..i] + [descriptors[i]];
      LastSnoc(descriptors[..i], descriptors[i], IsOutEndpoint);
      LastSnoc(descriptors[..i], descriptors[i], IsInEndpoint);
      match DirectionOf(descriptors[i]) {
        case Out => endpointOut := Some(descriptors[i]);
        case In => endpointIn := Some(descriptors[i]);
      }
    }
    assert descriptors[..|descriptors|] == descriptors;
    if endpointOut.None? || endpointIn.None? {
      return None;
    }
    return Some((endpointIn.value, endpointOut.value));
  }

  // ------------------------------------------------------------------
  // Device matching (get_dev)
  // ------------------------------------------------------------------

  predicate IsAutoBox(d: Device)
  {
    d.descriptor.vendorId == ID_VENDOR && d.descriptor.productId == ID_PRODUCT
  }

  /**
   * Scans device lists until one holds an AutoBox, keeping the last match of
   * that scan. `scans` are the lists successive scans would see; the source
   * polls without end, so None here means no scripted scan found one. Also
   * returns how many scans were made.
   */
  method GetDev(scans: seq<seq<Device>>) returns (r: Option<Device>, polls: nat)
    ensures polls <= |scans|
    ensures forall k :: 0 <= k < polls - 1 ==> Last(scans[k], IsAutoBox).None?
    ensures r.Some? ==> IsAutoBox(r.value)
    ensures r.Some? ==> 1 <= polls && r == Last(scans[polls - 1], IsAutoBox)
    ensures r.None? ==> polls == |scans| && forall k :: 0 <= k < |scans| ==> Last(scans[k], IsAutoBox).None?
  {
    var deviceOpt: Option<Device> := None;
    polls := 0;
    while deviceOpt.None? && polls < |scans|
      invariant polls <= |scans|
      invariant forall k :: 0 <= k < polls - 1 ==> Last(scans[k], IsAutoBox).None?
      invariant deviceOpt.None? ==> forall k :: 0 <= k < polls ==> Last(scans[k], IsAutoBox).None?
      invariant deviceOpt.Some? ==> 1 <= polls && deviceOpt == Last(scans[polls - 1], IsAutoBox)
      decreases |scans| - polls
    {
      var devices := scans[polls];
      for i := 0 to |devices|
        invariant deviceOpt == Last(devices[..i], IsAutoBox)
      {
        assert devices[..i + 1] == devices[..i] + [devices[i]];
        LastSnoc(devices[..i], devices[i], IsAutoBox);
        if IsAutoBox(devices[i]) {
          deviceOpt := Some(devices[i]);
        }
      }
      assert devices[..|devices|] == devices;
      polls := polls + 1;
    }
    r := deviceOpt;
  }

  // ------------------------------------------------------------------
  // Specification of the transfers a session issues
  // ------------------------------------------------------------------

  /** The writes that carry `packets`, in order, to `ep`. */
  function Frames(ep: Byte, packets: seq<MsgType>): (t: seq<Transfer>)
    ensures |t| == |packets|
    ensures forall i :: 0 <= i < |packets| ==> t[i] == BulkWrite(ep, Serialize(packets[i]))
  {
    seq(|packets|, i requires 0 <= i < |packets| => BulkWrite(ep, Serialize(packets[i])))
  }

  lemma FramesSnoc(ep: Byte, packets: seq<MsgType>, i: nat)
    requires i < |packets|
    ensures Frames(ep, packets[..i + 1]) == Frames(ep, packets[..i]) + [BulkWrite(ep, Serialize(packets[i]))]
  {
  }

  /** How many of the first `n` writes the device accepts before its first refusal. */
  function AcceptedPrefix(replies: seq<WriteReply>, n: nat): (k: nat)
    ensures k <= n && k <= |replies|
    ensures forall j :: 0 <= j < k ==> replies[j].Accepted?
    ensures k < n ==> k == |replies| || replies[k].WriteFailed?
  {
    if n == 0 || replies == [] || replies[0].WriteFailed? then 0
    else 1 + AcceptedPrefix(replies[1..], n - 1)
  }

  /**
   * The write answered by `replies[i]`, `i` not past the accepted prefix,
   * succeeds exactly when it lies inside it, and otherwise fails with the
   * refusal's error.
   */
  lemma {:induction false} WriteAt(replies: seq<WriteReply>, n: nat, i: nat, data: seq<Byte>)
    requires i < n && i <= AcceptedPrefix(replies, n)
    ensures WriteOutcome(Drop(replies, i), data).Ok? <==> i < AcceptedPrefix(replies, n)
    ensures i == AcceptedPrefix(replies, n) ==> WriteOutcome(Drop(replies, i), data) == Err(RefusalAt(replies, i))
    ensures Drop(Drop(replies, i), 1) == Drop(replies, i + 1)
  {
    if i > 0 {
      WriteAt(replies[1..], n - 1, i - 1, data);
      assert Drop(replies[1..], i - 1) == Drop(replies, i);
      assert Drop(replies[1..], i) == Drop(replies, i + 1);
    }
  }

  /** The error of the write answered by `replies[k]` (a timeout once they have run out). */
  function RefusalAt(replies: seq<WriteReply>, k: nat): (e: UsbError)
    requires k == |replies| || (k < |replies| && replies[k].WriteFailed?)
  {
    if k == |replies| then Timeout else replies[k].error
  }

  /** The fixed bootstrap burst, in the order `start_box` pushes it. */
  function BootSequence(): (ps: seq<MsgType>)
    ensures |ps| == 14
  {
    [NewHeartbeat(), NewOpenBox(1920, 720, 60), NewDevPlug(), NewDevUnplug(), NewTouch(), NewVideo([]), NewAudio(),
     NewButtonCtl(), NewBtAddr(), NewBtPin(), NewManInfo(-1, -1), NewMultiTouch(), NewSendFile(), NewSwVer()]
  }

  /** The wire codes of a packet sequence, in order. */
  function Codes(ps: seq<MsgType>): (cs: seq<U32>)
    ensures |cs| == |ps| && forall i :: 0 <= i < |ps| ==> cs[i] == WireCode(ps[i])
  {
    seq(|ps|, i requires 0 <= i < |ps| => WireCode(ps[i]))
  }

  /** The wire codes of the burst, in the order it goes out. */
  const BOOT_CODES: seq<U32> :=
    [HEARTBEAT, OPENBOX, DEVPLUG, DEVUNPLUG, TOUCH, VIDEO, AUDIO,
     BUTTONCTL, BTADDR, BTPIN, MANINFO, MULTITOUCH, SENDFILE, SWVER]

  /**
   * The burst goes out as Heartbeat, OpenBox, DevPlug, DevUnplug, Touch, Video,
   * Audio, ButtonCtl, BtAddr, BtPin, ManInfo, MultiTouch, SendFile, SwVer, and
   * every packet carries a well-formed header stamped with its own kind's code.
   */
  lemma BootSequenceCodes()
    ensures Codes(BootSequence()) == BOOT_CODES
    ensures forall i :: 0 <= i < 14 ==>
      WellFormedHeader(BootSequence()[i].header) && BootSequence()[i].header.msgType == WireCode(BootSequence()[i])
  {
  }

  /**
   * The arguments the burst uses: OpenBox for a 1920x720 screen at 60 frames,
   * an empty Video and a ManInfo of brand and model -1; only the OpenBox
   * header (28 bytes) and the ManInfo header (2 bytes) announce a payload.
   */
  lemma BootSequenceArguments()
    ensures BootSequence()[1] == NewOpenBox(1920, 720, 60)
    ensures BootSequence()[1].header == BoxMsgHeader(PROTOCOL_MAGIC, 28, OPENBOX, 0xffff_fffe)
    ensures BootSequence()[5] == NewVideo([]) && BootSequence()[5].data == []
    ensures BootSequence()[10] == NewManInfo(-1, -1)
    ensures BootSequence()[10].header.msgLen == 2
    ensures forall i :: 0 <= i < 14 && i != 1 && i != 10 ==> BootSequence()[i].header.msgLen == 0
  {
  }

  /**
   * The header read of `rx_packet`: what arrives lands at the front of a
   * 16-byte buffer of zeros.
   */
  function HeaderRead(replies: seq<ReadReply>): (r: Result<seq<Byte>, UsbError>)
    ensures r.Ok? <==> ReadOutcome(replies, 16).Ok?
    ensures r.Ok? ==> |r.value| == 16
  {
    match ReadOutcome(replies, 16)
    case Err(e) => Err(e)
    case Ok(d) => Ok(d + Zeros(16 - |d|))
  }

  /** The bytes delivered land at the front of the 16-byte buffer, and the rest of it stays zero. */
  lemma HeaderReadLayout(replies: seq<ReadReply>)
    requires HeaderRead(replies).Ok?
    ensures var d := ReadOutcome(replies, 16).value;
      && HeaderRead(replies).value[..|d|] == d
      && forall i :: |d| <= i < 16 ==> HeaderRead(replies).value[i] == 0
  {
    var d := ReadOutcome(replies, 16).value;
    assert HeaderRead(replies).value == d + Zeros(16 - |d|);
  }

  /**
   * What `rx_packet` yields when `replies` are the device's pending answers:
   * after the header read, the payload read goes into a buffer of length 0,
   * so only the header bytes reach `deserialize`, which dispatches on the
   * code in bytes 8..12.
   */
  function Receive(replies: seq<ReadReply>): (r: Result<MsgType, Fault>)
  {
    match HeaderRead(replies)
    case Err(e) => Err(TransferFailed(e))
    case Ok(header) =>
      match ReadOutcome(Drop(replies, 1), 0)
      case Err(e) => Err(TransferFailed(e))
      case Ok(_) => DecodeReceived(header)
  }

  /** `deserialize` on the received bytes, with the type code taken from bytes 8..12. */
  function DecodeReceived(buf: seq<Byte>): (r: Result<MsgType, Fault>)
    requires |buf| >= 16
  {
    match Deserialize(U32At(buf, 8), buf)
    case Err(e) => Err(DecodeFailed(e))
    case Ok(m) => Ok(m)
  }

  /**
   * `rx_packet` never yields a frame with a payload: for OpenBox, Video and
   * ManInfo codes the 16 header bytes are too few, and the decode fails.
   */
  lemma ReceiveNeverYieldsPayloadKinds(replies: seq<ReadReply>)
    ensures Receive(replies).Ok? ==>
      !Receive(replies).value.OpenBox? && !Receive(replies).value.Video? && !Receive(replies).value.ManInfo?
  {
    if HeaderRead(replies).Ok? {
      var header := HeaderRead(replies).value;
      DeserializeSpec(U32At(header, 8), header);
    }
  }

  /**
   * Whether `rx_packet` hands over a frame: both reads succeed and the code in
   * bytes 8..12 of the header is none of the kinds whose fields do not fit in
   * the 16 bytes received.
   */
  predicate FrameArrives(replies: seq<ReadReply>)
  {
    && ReadOutcome(replies, 16).Ok?
    && ReadOutcome(Drop(replies, 1), 0).Ok?
    && var code := U32At(HeaderRead(replies).value, 8);
       code != OPENBOX && code != VIDEO && code != MANINFO
  }

  /** `rx_packet` fails exactly when a read fails or the header announces a kind with fields. */
  lemma ReceiveSucceedsIff(replies: seq<ReadReply>)
    ensures Receive(replies).Ok? <==> FrameArrives(replies)
  {
    if HeaderRead(replies).Ok? {
      var header := HeaderRead(replies).value;
      DeserializeSpec(U32At(header, 8), header);
    }
  }

  /**
   * A header-only frame that arrives whole in the header read, followed by an
   * empty transfer for the payload read, is received as that very frame.
   */
  lemma {:induction false} ReceiveHeaderOnlyFrame(m: MsgType, rest: seq<ReadReply>)
    requires !m.OpenBox? && !m.Video? && !m.ManInfo?
    requires m.header.msgType == WireCode(m)
    ensures Receive([Delivered(Serialize(m)), Delivered([])] + rest) == Ok(m)
  {
    var replies := [Delivered(Serialize(m)), Delivered([])] + rest;
    SerializedLength(m);
    SerializeHeaderLayout(m);
    RoundTrip(m);
    assert HeaderRead(replies) == Ok(Serialize(m)) by {
      assert Serialize(m) + Zeros(0) == Serialize(m);
    }
    assert Drop(replies, 1) == [Delivered([])] + rest;
    assert U32At(Serialize(m), 8) == WireCode(m);
  }

  /**
   * A frame with a payload never gets through: sent whole it overflows the
   * 16-byte header buffer, and sent as header then payload the payload
   * overflows the zero-length payload buffer.
   */
  lemma {:induction false} ReceivePayloadFrame(m: MsgType, rest: seq<ReadReply>)
    requires m.OpenBox? || m.Video? || m.ManInfo?
    ensures Receive([Delivered(Serialize(m))] + rest) == Err(TransferFailed(Overflow))
    ensures |Serialize(m)| > 16
    ensures Receive([Delivered(Serialize(m)[..16]), Delivered(Serialize(m)[16..])] + rest) == Err(TransferFailed(Overflow))
  {
    SerializedLength(m);
    var s := Serialize(m);
    var split := [Delivered(s[..16]), Delivered(s[16..])] + rest;
    assert HeaderRead(split) == Ok(s[..16]) by {
      assert s[..16] + Zeros(0) == s[..16];
    }
    assert Drop(split, 1) == [Delivered(s[16..])] + rest;
  }

  function Zeros(n: nat): (z: seq<Byte>)
    ensures |z| == n && forall i :: 0 <= i < n ==> z[i] == 0
  {
    seq(n, _ => 0)
  }

  /** The reads `rx_packet` issues: the header read, and the payload read unless the first failed. */
  function RxTransfers(epIn: Byte, replies: seq<ReadReply>): (t: seq<Transfer>)
  {
    if ReadOutcome(replies, 16).Err? then [BulkRead(epIn, 16)]
    else [BulkRead(epIn, 16), BulkRead(epIn, 0)]
  }

  /** The transfers of one undisturbed `communicate` cycle. */
  function CycleTrace(epOut: Byte, epIn: Byte): (t: seq<Transfer>)
  {
    [BulkWrite(epOut, HEARTBEAT_FRAME), BulkRead(epIn, 16), BulkRead(epIn, 0)]
  }

  function Repeat<T>(t: seq<T>, n: nat): (r: seq<T>)
    ensures |r| == n * |t|
  {
    if n == 0 then [] else Repeat(t, n - 1) + t
  }

  function Min(a: nat, b: nat): (m: nat) { if a < b then a else b }

  lemma AppendAssoc<T>(a: seq<T>, b: seq<T>, c: seq<T>)
    ensures a + (b + c) == (a + b) + c
  {
  }

  /**
   * Over any number of undisturbed cycles, cycle `k` writes the Heartbeat frame
   * first and only then issues its header read and its payload read.
   */
  lemma {:induction false} CyclesHeartbeatFirst(epOut: Byte, epIn: Byte, n: nat, k: nat)
    requires k < n
    ensures Repeat(CycleTrace(epOut, epIn), n)[3 * k] == BulkWrite(epOut, HEARTBEAT_FRAME)
    ensures Repeat(CycleTrace(epOut, epIn), n)[3 * k + 1] == BulkRead(epIn, 16)
    ensures Repeat(CycleTrace(epOut, epIn), n)[3 * k + 2] == BulkRead(epIn, 0)
  {
    var t := CycleTrace(epOut, epIn);
    if k < n - 1 {
      CyclesHeartbeatFirst(epOut, epIn, n - 1, k);
      assert Repeat(t, n) == Repeat(t, n - 1) + t;
    } else {
      assert Repeat(t, n) == Repeat(t, n - 1) + t;
      assert |Repeat(t, n - 1)| == 3 * k;
    }
  }

  /**
   * The device's answers left after `n` cycles of `communicate` in a row,
   * when the device answers writes with `writes` and reads with `replies`,
   * `pending` input signals wait and the player's receiver is there as
   * `connected` says; None when one of the cycles fails. Each cycle needs its
   * heartbeat accepted, a frame received and either an input signal to
   * consume or a player to notify.
   */
  function CyclesLeave(writes: seq<WriteReply>, replies: seq<ReadReply>, n: nat, pending: nat, connected: bool)
    : (r: Option<(seq<WriteReply>, seq<ReadReply>)>)
    decreases n
  {
    if n == 0 then Some((writes, replies))
    else if WriteOutcome(writes, HEARTBEAT_FRAME).Ok? && FrameArrives(replies) && (pending > 0 || connected) then
      CyclesLeave(Drop(writes, 1), Drop(replies, 2), n - 1, if pending > 0 then pending - 1 else 0, connected)
    else None
  }

  /** Whether `n` cycles of `communicate` in a row all succeed. */
  predicate CyclesSucceed(writes: seq<WriteReply>, replies: seq<ReadReply>, n: nat, pending: nat, connected: bool)
  {
    CyclesLeave(writes, replies, n, pending, connected).Some?
  }

  /** Cycles that all succeed use one write reply and two read replies each. */
  lemma {:induction false} CyclesLeaveDrops(writes: seq<WriteReply>, replies: seq<ReadReply>, n: nat, pending: nat, connected: bool)
    requires CyclesSucceed(writes, replies, n, pending, connected)
    ensures CyclesLeave(writes, replies, n, pending, connected).value == (Drop(writes, n), Drop(replies, 2 * n))
  {
    if n > 0 {
      CyclesLeaveDrops(Drop(writes, 1), Drop(replies, 2), n - 1, if pending > 0 then pending - 1 else 0, connected);
      DropDrop(writes, 1, n - 1);
      DropDrop(replies, 2, 2 * (n - 1));
    }
  }

  /** Cycles that have all been run, and have left `writes'` and `replies'`, succeeded by using those replies. */
  lemma CyclesDone(writes: seq<WriteReply>, replies: seq<ReadReply>, n: nat, pending: nat, connected: bool,
                   writes': seq<WriteReply>, replies': seq<ReadReply>, pending': nat)
    requires CyclesLeave(writes, replies, n, pending, connected) == CyclesLeave(writes', replies', 0, pending', connected)
    ensures CyclesSucceed(writes, replies, n, pending, connected)
    ensures writes' == Drop(writes, n) && replies' == Drop(replies, 2 * n)
  {
    CyclesLeaveDrops(writes, replies, n, pending, connected);
  }

  /** After a successful cycle, what remains to be run is one cycle fewer on what is left of the replies. */
  lemma CyclesAdvance(writes: seq<WriteReply>, replies: seq<ReadReply>, n: nat, pending: nat, connected: bool, pending': nat)
    requires n > 0
    requires WriteOutcome(writes, HEARTBEAT_FRAME).Ok? && FrameArrives(replies) && (pending > 0 || connected)
    requires pending' == if pending > 0 then pending - 1 else 0
    ensures CyclesLeave(writes, replies, n, pending, connected) == CyclesLeave(Drop(writes, 1), Drop(replies, 2), n - 1, pending', connected)
  {
  }

  /** A failing cycle fails the run. */
  lemma CyclesStop(writes: seq<WriteReply>, replies: seq<ReadReply>, n: nat, pending: nat, connected: bool)
    requires n > 0
    requires !(WriteOutcome(writes, HEARTBEAT_FRAME).Ok? && FrameArrives(replies) && (pending > 0 || connected))
    ensures CyclesLeave(writes, replies, n, pending, connected) == None
  {
  }

  /**
   * A cycle whose header read gets the 16 bytes of a header whose type is none
   * of the kinds with fields, and whose payload read gets nothing, receives a
   * frame. On the wire this is exactly a header-only frame (see
   * `HeaderOnlySerialize`), magic and parity being left unchecked.
   */
  lemma HeaderArrives(h: BoxMsgHeader, replies: seq<ReadReply>)
    requires h.msgType != OPENBOX && h.msgType != VIDEO && h.msgType != MANINFO
    requires |replies| >= 2 && replies[0] == Delivered(EncodeWords(HeaderWords(h))) && replies[1] == Delivered([])
    ensures FrameArrives(replies)
  {
    var d := EncodeWords(HeaderWords(h));
    HeaderReadsBack(h, []);
    assert d + [] == d;
    assert HeaderRead(replies).value == d by {
      assert d + Zeros(0) == d;
    }
  }

  /**
   * Cycles succeed when every heartbeat is accepted, the device answers each
   * cycle's header read with a header of a kind without fields and its
   * payload read with nothing, and the player is there.
   */
  lemma {:induction false} CyclesSucceedOnHeaderReplies(
    writes: seq<WriteReply>, replies: seq<ReadReply>, headers: seq<BoxMsgHeader>, pending: nat)
    requires |writes| >= |headers| && |replies| >= 2 * |headers|
    requires forall k :: 0 <= k < |headers| ==> writes[k].Accepted?
    requires forall k :: 0 <= k < |headers| ==>
      headers[k].msgType != OPENBOX && headers[k].msgType != VIDEO && headers[k].msgType != MANINFO
    requires forall k :: 0 <= k < |headers| ==>
      replies[2 * k] == Delivered(EncodeWords(HeaderWords(headers[k]))) && replies[2 * k + 1] == Delivered([])
    ensures CyclesSucceed(writes, replies, |headers|, pending, true)
  {
    if |headers| > 0 {
      HeaderArrives(headers[0], replies);
      var tail := headers[1..];
      forall k | 0 <= k < |tail|
        ensures Drop(replies, 2)[2 * k] == Delivered(EncodeWords(HeaderWords(tail[k])))
        ensures Drop(replies, 2)[2 * k + 1] == Delivered([])
      {
        assert tail[k] == headers[k + 1];
        assert 2 * (k + 1) == 2 * k + 2;
      }
      assert forall k :: 0 <= k < |tail| ==> Drop(writes, 1)[k] == writes[k + 1];
      var pending' := if pending > 0 then pending - 1 else 0;
      CyclesSucceedOnHeaderReplies(Drop(writes, 1), Drop(replies, 2), tail, pending');
      CyclesAdvance(writes, replies, |headers|, pending, true, pending');
    }
  }

  /** How one cycle ends when nothing fails. */
  datatype CycleEnd = InputPending | PlayerNotified

  // ------------------------------------------------------------------
  // The session
  // ------------------------------------------------------------------

  class LinkLayer {
    const deviceHandle: DeviceHandle
    const epIn: Byte
    const epOut: Byte
    /** Signals waiting on `input_layer_rx`. */
    var inputPending: nat
    /** Signals sent so far on `player_layer_tx`. */
    var playerSent: nat
    /** Whether the receiving end of `player_layer_tx` still exists. */
    var playerConnected: bool

    constructor (deviceHandle: DeviceHandle, epIn: Byte, epOut: Byte, inputPending: nat, playerConnected: bool)
      ensures this.deviceHandle == deviceHandle && this.epIn == epIn && this.epOut == epOut
      ensures this.inputPending == inputPending && this.playerSent == 0
      ensures this.playerConnected == playerConnected
    {
      this.deviceHandle := deviceHandle;
      this.epIn := epIn;
      this.epOut := epOut;
      this.inputPending := inputPending;
      this.playerSent := 0;
      this.playerConnected := playerConnected;
    }

    /**
     * `LinkLayer::new`: finds the AutoBox, runs the rusb steps that open,
     * reset, configure and claim it (`claimed` says whether they all succeed),
     * picks the endpoints from the interface's `descriptors`, and clears both
     * endpoints' halt (`haltCleared`). Every failure is an `unwrap` panic.
     */
    static method Open(scans: seq<seq<Device>>, claimed: bool, descriptors: seq<EndpointDescriptor>,
                       haltCleared: bool, deviceHandle: DeviceHandle, inputPending: nat, playerConnected: bool)
      returns (r: Result<LinkLayer, Fault>)
      ensures var found := exists k :: 0 <= k < |scans| && Last(scans[k], IsAutoBox).Some?;
        var endpoints := Last(descriptors, IsInEndpoint).Some? && Last(descriptors, IsOutEndpoint).Some?;
        && (r.Ok? <==> found && claimed && endpoints && haltCleared)
        && (!found ==> r == Err(DeviceNeverFound))
        && (found && !claimed ==> r == Err(SetupFailed))
        && (found && claimed && !endpoints ==> r == Err(EndpointMissing))
        && (found && claimed && endpoints && !haltCleared ==> r == Err(SetupFailed))
      ensures r.Ok? ==>
        && fresh(r.value) && r.value.deviceHandle == deviceHandle
        && r.value.epIn == Last(descriptors, IsInEndpoint).value.address
        && r.value.epOut == Last(descriptors, IsOutEndpoint).value.address
        && r.value.inputPending == inputPending && r.value.playerSent == 0
        && r.value.playerConnected == playerConnected
    {
      var device, polls := GetDev(scans);
      if device.None? {
        return Err(DeviceNeverFound);
      }
      if !claimed {
        return Err(SetupFailed);
      }
      var endpoints := GetEndpoints(descriptors);
      if endpoints.None? {
        return Err(EndpointMissing);
      }
      var (epIn, epOut) := endpoints.value;
      if !haltCleared {
        return Err(SetupFailed);
      }
      var link := new LinkLayer(deviceHandle, epIn.address, epOut.address, inputPending, playerConnected);
      return Ok(link);
    }

    /** `tx_packet`: one bulk write of the serialized frame to the OUT endpoint. */
    method TxPacket(packet: MsgType) returns (r: Result<nat, UsbError>)
      modifies deviceHandle
      ensures deviceHandle.trace == old(deviceHandle.trace) + [BulkWrite(epOut, Serialize(packet))]
      ensures r == WriteOutcome(old(deviceHandle.writeReplies), Serialize(packet))
      ensures deviceHandle.writeReplies == Drop(old(deviceHandle.writeReplies), 1)
      ensures deviceHandle.readReplies == old(deviceHandle.readReplies)
    {
      r := deviceHandle.WriteBulk(epOut, Serialize(packet));
    }

    /**
     * `tx_n_packets`: sends the packets in order and stops at the first write
     * that fails, returning its error; otherwise returns how many there were.
     */
    method TxNPackets(packets: seq<MsgType>) returns (r: Result<nat, UsbError>)
      modifies deviceHandle
      ensures var k := AcceptedPrefix(old(deviceHandle.writeReplies), |packets|);
        && (k == |packets| ==>
              && r == Ok(|packets|)
              && deviceHandle.trace == old(deviceHandle.trace) + Frames(epOut, packets)
              && deviceHandle.writeReplies == Drop(old(deviceHandle.writeReplies), k))
        && (k < |packets| ==>
              && r == Err(RefusalAt(old(deviceHandle.writeReplies), k))
              && deviceHandle.trace == old(deviceHandle.trace) + Frames(epOut, packets[..k + 1])
              && deviceHandle.writeReplies == Drop(old(deviceHandle.writeReplies), k + 1))
      ensures deviceHandle.readReplies == old(deviceHandle.readReplies)
    {
      ghost var replies := deviceHandle.writeReplies;
      ghost var k := AcceptedPrefix(replies, |packets|);
      var numPackets := |packets|;
      var i := 0;
      while i < |packets|
        invariant 0 <= i <= k
        invariant deviceHandle.trace == old(deviceHandle.trace) + Frames(epOut, packets[..i])
        invariant deviceHandle.writeReplies == Drop(replies, i)
        invariant deviceHandle.readReplies == old(deviceHandle.readReplies)
      {
        FramesSnoc(epOut, packets, i);
        WriteAt(replies, |packets|, i, Serialize(packets[i]));
        AppendAssoc(old(deviceHandle.trace), Frames(epOut, packets[..i]), [BulkWrite(epOut, Serialize(packets[i]))]);
        var sent := TxPacket(packets[i]);
        if sent.Err? {
          return Err(sent.error);
        }
        i := i + 1;
      }
      assert packets[..i] == packets;
      return Ok(numPackets);
    }

    /** The packet vector of `start_box`, pushed in order onto an empty vector. */
    static method BootPackets() returns (packetVector: seq<MsgType>)
      ensures packetVector == BootSequence()
    {
      packetVector := [];
      var videoData: ByteVec := [];
      var heartbeatPacket := NewHeartbeat();
      var openPacket := NewOpenBox(1920, 720, 60);

      packetVector := packetVector + [heartbeatPacket];
      packetVector := packetVector + [openPacket];

      packetVector := packetVector + [NewDevPlug()];
      packetVector := packetVector + [NewDevUnplug()];
      packetVector := packetVector + [NewTouch()];
      packetVector := packetVector + [NewVideo(videoData)];
      packetVector := packetVector + [NewAudio()];
      packetVector := packetVector + [NewButtonCtl()];
      packetVector := packetVector + [NewBtAddr()];
      packetVector := packetVector + [NewBtPin()];
      packetVector := packetVector + [NewManInfo(-1, -1)];
      packetVector := packetVector + [NewMultiTouch()];
      packetVector := packetVector + [NewSendFile()];
      packetVector := packetVector + [NewSwVer()];
    }

    /**
     * `start_box`: builds the bootstrap burst and sends it; a failed send is
     * the `unwrap` panic.
     */
    method StartBox() returns (r: Result<(), Fault>)
      modifies deviceHandle
      ensures var k := AcceptedPrefix(old(deviceHandle.writeReplies), 14);
        && (r.Ok? <==> k == 14)
        && (k == 14 ==>
              && deviceHandle.trace == old(deviceHandle.trace) + Frames(epOut, BootSequence())
              && deviceHandle.writeReplies == Drop(old(deviceHandle.writeReplies), 14))
        && (k < 14 ==>
              && r == Err(TransferFailed(RefusalAt(old(deviceHandle.writeReplies), k)))
              && deviceHandle.trace == old(deviceHandle.trace) + Frames(epOut, BootSequence()[..k + 1])
              && deviceHandle.writeReplies == Drop(old(deviceHandle.writeReplies), k + 1))
      ensures deviceHandle.readReplies == old(deviceHandle.readReplies)
    {
      var packetVector := BootPackets();
      var sent := TxNPackets(packetVector);
      if sent.Err? {
        return Err(TransferFailed(sent.error));
      }
      return Ok(());
    }

    /** The header read of `rx_packet`, into a zeroed 16-byte buffer. */
    method ReadHeader() returns (r: Result<seq<Byte>, UsbError>)
      modifies deviceHandle
      ensures r == HeaderRead(old(deviceHandle.readReplies))
      ensures deviceHandle.trace == old(deviceHandle.trace) + [BulkRead(epIn, 16)]
      ensures deviceHandle.readReplies == Drop(old(deviceHandle.readReplies), 1)
      ensures deviceHandle.writeReplies == old(deviceHandle.writeReplies)
    {
      ghost var replies := deviceHandle.readReplies;
      var headerBuf := new Byte[16](_ => 0);
      assert headerBuf[..] == Zeros(16);
      var got := deviceHandle.ReadBulk(epIn, headerBuf);
      if got.Err? {
        return Err(got.error);
      }
      ghost var d := ReadOutcome(replies, 16).value;
      assert headerBuf[..] == d + Zeros(16 - |d|);
      return Ok(headerBuf[..]);
    }

    /**
     * `rx_packet`: reads a 16-byte header from the IN endpoint, then reads the
     * payload into a buffer that was only given capacity, so it has length 0,
     * and decodes the header bytes alone by the type code in bytes 8..12.
     */
    method RxPacket() returns (r: Result<MsgType, Fault>)
      modifies deviceHandle
      ensures r == Receive(old(deviceHandle.readReplies))
      ensures deviceHandle.trace == old(deviceHandle.trace) + RxTransfers(epIn, old(deviceHandle.readReplies))
      ensures deviceHandle.readReplies == Drop(old(deviceHandle.readReplies), |RxTransfers(epIn, old(deviceHandle.readReplies))|)
      ensures deviceHandle.writeReplies == old(deviceHandle.writeReplies)
    {
      var got := ReadHeader();
      if got.Err? {
        return Err(TransferFailed(got.error));
      }
      var headerBytes := got.value;
      var header := DecodeHeader(headerBytes).value;
      // Vec::with_capacity(header.msgLen): room for the payload, but no elements
      var payloadBuf := new Byte[0];
      var more := deviceHandle.ReadBulk(epIn, payloadBuf);
      if more.Err? {
        return Err(TransferFailed(more.error));
      }
      var buf := headerBytes + payloadBuf[..];
      assert buf == headerBytes;
      var decoded := Deserialize(header.msgType, buf);
      if decoded.Err? {
        return Err(DecodeFailed(decoded.error));
      }
      return Ok(decoded.value);
    }

    /**
     * One iteration of `communicate`: send a Heartbeat, receive one frame,
     * then either take a pending input signal and start over at once, or
     * signal the player (and sleep, which is not modelled).
     */
    method CommunicateCycle() returns (r: Result<CycleEnd, Fault>)
      modifies this, deviceHandle
      ensures var sent := WriteOutcome(old(deviceHandle.writeReplies), HEARTBEAT_FRAME);
        var rx := RxTransfers(epIn, old(deviceHandle.readReplies));
        var received := Receive(old(deviceHandle.readReplies));
        && deviceHandle.writeReplies == Drop(old(deviceHandle.writeReplies), 1)
        && (sent.Err? ==>
              && r == Err(TransferFailed(sent.error))
              && deviceHandle.trace == old(deviceHandle.trace) + [BulkWrite(epOut, HEARTBEAT_FRAME)]
              && deviceHandle.readReplies == old(deviceHandle.readReplies))
        && (sent.Ok? ==>
              && deviceHandle.trace == old(deviceHandle.trace) + [BulkWrite(epOut, HEARTBEAT_FRAME)] + rx
              && deviceHandle.readReplies == Drop(old(deviceHandle.readReplies), |rx|))
        && (sent.Ok? && received.Err? ==> r == Err(received.error))
        && (sent.Ok? && received.Ok? && old(inputPending) == 0 && !playerConnected ==> r == Err(PlayerGone))
      ensures r.Ok? <==>
        && WriteOutcome(old(deviceHandle.writeReplies), HEARTBEAT_FRAME).Ok?
        && FrameArrives(old(deviceHandle.readReplies))
        && (old(inputPending) > 0 || playerConnected)
      ensures r.Ok? ==> deviceHandle.trace == old(deviceHandle.trace) + CycleTrace(epOut, epIn)
      ensures r.Ok? ==> deviceHandle.readReplies == Drop(old(deviceHandle.readReplies), 2)
      ensures r.Ok? && old(inputPending) > 0 ==>
        r.value == InputPending && inputPending == old(inputPending) - 1 && playerSent == old(playerSent)
      ensures r.Ok? && old(inputPending) == 0 ==>
        r.value == PlayerNotified && inputPending == 0 && playerSent == old(playerSent) + 1
      ensures r.Err? ==> inputPending == old(inputPending) && playerSent == old(playerSent)
      ensures playerConnected == old(playerConnected)
    {
      HeartbeatFrame();
      ReceiveSucceedsIff(deviceHandle.readReplies);
      var sent := TxPacket(NewHeartbeat());
      if sent.Err? {
        return Err(TransferFailed(sent.error));
      }
      var received := RxPacket();
      if received.Err? {
        return Err(received.error);
      }
      if inputPending > 0 {
        inputPending := inputPending - 1;
        return Ok(InputPending);
      }
      if !playerConnected {
        return Err(PlayerGone);
      }
      playerSent := playerSent + 1;
      return Ok(PlayerNotified);
    }

    /**
     * One `communicate` of the loop in `link_thread`, as the step it takes
     * through `CyclesLeave` while `left` cycles remain to be run.
     */
    method CycleStep(ghost left: nat) returns (r: Result<CycleEnd, Fault>)
      requires left > 0
      modifies this, deviceHandle
      ensures r.Ok? ==>
        CyclesLeave(old(deviceHandle.writeReplies), old(deviceHandle.readReplies), left, old(inputPending), playerConnected)
          == CyclesLeave(deviceHandle.writeReplies, deviceHandle.readReplies, left - 1, inputPending, playerConnected)
      ensures r.Err? ==>
        CyclesLeave(old(deviceHandle.writeReplies), old(deviceHandle.readReplies), left, old(inputPending), playerConnected) == None
      ensures r.Ok? ==> deviceHandle.trace == old(deviceHandle.trace) + CycleTrace(epOut, epIn)
      ensures r.Ok? ==> inputPending == if old(inputPending) > 0 then old(inputPending) - 1 else 0
      ensures r.Ok? ==> playerSent == if old(inputPending) > 0 then old(playerSent) else old(playerSent) + 1
      ensures playerConnected == old(playerConnected)
    {
      ghost var writes, replies, pending := deviceHandle.writeReplies, deviceHandle.readReplies, inputPending;
      r := CommunicateCycle();
      if r.Err? {
        CyclesStop(writes, replies, left, pending, playerConnected);
      } else {
        CyclesAdvance(writes, replies, left, pending, playerConnected, inputPending);
      }
    }

    /**
     * `communicate`, run for at most `cycles` iterations (the source loops for
     * ever); it stops at the first fault.
     */
    method Communicate(cycles: nat) returns (r: Result<nat, Fault>)
      modifies this, deviceHandle
      ensures r.Ok? <==> CyclesSucceed(old(deviceHandle.writeReplies), old(deviceHandle.readReplies),
                                       cycles, old(inputPending), playerConnected)
      ensures r.Ok? ==> r.value == cycles
      ensures r.Ok? ==> deviceHandle.trace == old(deviceHandle.trace) + Repeat(CycleTrace(epOut, epIn), cycles)
      ensures r.Ok? ==> deviceHandle.writeReplies == Drop(old(deviceHandle.writeReplies), cycles)
      ensures r.Ok? ==> deviceHandle.readReplies == Drop(old(deviceHandle.readReplies), 2 * cycles)
      ensures r.Ok? ==> inputPending == old(inputPending) - Min(cycles, old(inputPending))
      ensures r.Ok? ==> playerSent == old(playerSent) + (cycles - Min(cycles, old(inputPending)))
      ensures playerConnected == old(playerConnected)
    {
      ghost var connected := playerConnected;
      ghost var left := cycles;
      var i := 0;
      while i < cycles
        invariant 0 <= i <= cycles && left == cycles - i
        invariant playerConnected == connected
        invariant deviceHandle.trace == old(deviceHandle.trace) + Repeat(CycleTrace(epOut, epIn), i)
        invariant inputPending == old(inputPending) - Min(i, old(inputPending))
        invariant playerSent == old(playerSent) + (i - Min(i, old(inputPending)))
        invariant CyclesLeave(old(deviceHandle.writeReplies), old(deviceHandle.readReplies), cycles, old(inputPending), connected)
          == CyclesLeave(deviceHandle.writeReplies, deviceHandle.readReplies, left, inputPending, connected)
      {
        var outcome := CycleStep(left);
        if outcome.Err? {
          return Err(outcome.error);
        }
        AppendAssoc(old(deviceHandle.trace), Repeat(CycleTrace(epOut, epIn), i), CycleTrace(epOut, epIn));
        i := i + 1;
        left := left - 1;
      }
      CyclesDone(old(deviceHandle.writeReplies), old(deviceHandle.readReplies), cycles, old(inputPending), connected,
                 deviceHandle.writeReplies, deviceHandle.readReplies, inputPending);
      return Ok(cycles);
    }

    /**
     * The body of `link_thread` after `LinkLayer::new`: the bootstrap burst,
     * then `communicate` for at most `cycles` iterations. Undisturbed, the
     * device sees the fourteen boot frames and then heartbeat, header read and
     * payload read, cycle after cycle.
     */
    method Run(cycles: nat) returns (r: Result<nat, Fault>)
      modifies this, deviceHandle
      ensures var k := AcceptedPrefix(old(deviceHandle.writeReplies), 14);
        && (k < 14 ==>
              && r == Err(TransferFailed(RefusalAt(old(deviceHandle.writeReplies), k)))
              && deviceHandle.trace == old(deviceHandle.trace) + Frames(epOut, BootSequence()[..k + 1])
              && deviceHandle.writeReplies == Drop(old(deviceHandle.writeReplies), k + 1)
              && deviceHandle.readReplies == old(deviceHandle.readReplies)
              && inputPending == old(inputPending) && playerSent == old(playerSent))
        && (k == 14 ==>
              (r.Ok? <==> CyclesSucceed(Drop(old(deviceHandle.writeReplies), 14), old(deviceHandle.readReplies),
                                        cycles, old(inputPending), old(playerConnected))))
      ensures r.Ok? ==> r.value == cycles
      ensures r.Ok? ==>
        deviceHandle.trace == old(deviceHandle.trace) + Frames(epOut, BootSequence()) + Repeat(CycleTrace(epOut, epIn), cycles)
      ensures r.Ok? ==> deviceHandle.writeReplies == Drop(old(deviceHandle.writeReplies), 14 + cycles)
      ensures r.Ok? ==> deviceHandle.readReplies == Drop(old(deviceHandle.readReplies), 2 * cycles)
      ensures r.Ok? ==> inputPending == old(inputPending) - Min(cycles, old(inputPending))
      ensures r.Ok? ==> playerSent == old(playerSent) + (cycles - Min(cycles, old(inputPending)))
      ensures playerConnected == old(playerConnected)
    {
      var started := StartBox();
      if started.Err? {
        return Err(started.error);
      }
      r := Communicate(cycles);
      DropDrop(old(deviceHandle.writeReplies), 14, cycles);
    }
  }
}
