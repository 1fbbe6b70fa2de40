/**
 * The AutoBox frame codec: the 16-byte frame header, the fourteen message
 * kinds, their constructors, and the serializer and deserializer that put
 * them on the wire with bincode's fixed-int little-endian layout.
 */
module BoxProtocol {
  import opened Wrappers
  import opened Bytes

  const PROTOCOL_MAGIC: U32 := 0x55aa55aa
  const OPENBOX: U32 := 1
  const DEVPLUG: U32 := 2
  const DEVUNPLUG: U32 := 4
  const TOUCH: U32 := 5
  const VIDEO: U32 := 6
  const AUDIO: U32 := 7
  const BUTTONCTL: U32 := 8
  const BTADDR: U32 := 10
  const BTPIN: U32 := 12
  const MANINFO: U32 := 20
  const MULTITOUCH: U32 := 23
  const SENDFILE: U32 := 153
  const HEARTBEAT: U32 := 170
  const SWVER: U32 := 204

  /** The registry of wire type codes, in the order the source declares them. */
  const TYPE_CODES: seq<U32> :=
    [OPENBOX, DEVPLUG, DEVUNPLUG, TOUCH, VIDEO, AUDIO, BUTTONCTL,
     BTADDR, BTPIN, MANINFO, MULTITOUCH, SENDFILE, HEARTBEAT, SWVER]

  /** A `Vec<u8>`: its length must fit bincode's u64 length prefix. */
  type ByteVec = s: seq<Byte> | |s| < 0x1_0000_0000_0000_0000

  datatype BoxMsgHeader = BoxMsgHeader(magic: U32, msgLen: U32, msgType: U32, msgParity: U32)

  /**
   * One frame. Each variant of the source's `MsgType` wraps a struct; here the
   * variant carries that struct's fields directly, in declaration order, which
   * is also the order bincode writes them in.
   */
  datatype MsgType =
    | OpenBox(header: BoxMsgHeader, width: U32, height: U32, framerate: U32,
              format: U32, packetMax: U32, boxVer: U32, phoneWorkMode: U32)
    | DevPlug(header: BoxMsgHeader)
    | DevUnplug(header: BoxMsgHeader)
    | Touch(header: BoxMsgHeader)
    | Video(header: BoxMsgHeader, data: ByteVec)
    | Audio(header: BoxMsgHeader)
    | ButtonCtl(header: BoxMsgHeader)
    | BtAddr(header: BoxMsgHeader)
    | BtPin(header: BoxMsgHeader)
    | ManInfo(header: BoxMsgHeader, brand: I32, model: I32)
    | MultiTouch(header: BoxMsgHeader)
    | SendFile(header: BoxMsgHeader)
    | Heartbeat(header: BoxMsgHeader)
    | SwVer(header: BoxMsgHeader)

  /** bincode's enum tag: the variant's position in the declaration, from 0. */
  function VariantIndex(m: MsgType): (i: nat)
    ensures i < |TYPE_CODES|
  {
    match m
    case OpenBox(_, _, _, _, _, _, _, _) => 0
    case DevPlug(_) => 1
    case DevUnplug(_) => 2
    case Touch(_) => 3
    case Video(_, _) => 4
    case Audio(_) => 5
    case ButtonCtl(_) => 6
    case BtAddr(_) => 7
    case BtPin(_) => 8
    case ManInfo(_, _, _) => 9
    case MultiTouch(_) => 10
    case SendFile(_) => 11
    case Heartbeat(_) => 12
    case SwVer(_) => 13
  }

  /** The wire type code that belongs to the kind of `m`. */
  function WireCode(m: MsgType): (c: U32)
  {
    match m
    case OpenBox(_, _, _, _, _, _, _, _) => OPENBOX
    case DevPlug(_) => DEVPLUG
    case DevUnplug(_) => DEVUNPLUG
    case Touch(_) => TOUCH
    case Video(_, _) => VIDEO
    case Audio(_) => AUDIO
    case ButtonCtl(_) => BUTTONCTL
    case BtAddr(_) => BTADDR
    case BtPin(_) => BTPIN
    case ManInfo(_, _, _) => MANINFO
    case MultiTouch(_) => MULTITOUCH
    case SendFile(_) => SENDFILE
    case Heartbeat(_) => HEARTBEAT
    case SwVer(_) => SWVER
  }

  /** The fourteen codes are pairwise distinct, so a code names exactly one kind. */
  lemma {:induction false} TypeCodesDistinct()
    ensures forall i, j :: 0 <= i < j < |TYPE_CODES| ==> TYPE_CODES[i] != TYPE_CODES[j]
  {
  }

  /** Two frames have the same wire code exactly when they are of the same kind. */
  lemma WireCodeIdentifiesKind(a: MsgType, b: MsgType)
    ensures WireCode(a) == WireCode(b) <==> VariantIndex(a) == VariantIndex(b)
    ensures WireCode(a) == TYPE_CODES[VariantIndex(a)]
  {
  }

  // ------------------------------------------------------------------
  // The header
  // ------------------------------------------------------------------

  /** The parity stamped into a header: the 32-bit complement of the type code. */
  function Parity(msgType: U32): (p: U32)
  {
    0xffff_ffff - msgType
  }

  /**
   * The source's own expression for the parity, `(msg_type as i32 ^ -1) as u32
   * & 0xffffffff`, operation by operation: both casts keep the 32-bit pattern,
   * the xor is taken bit by bit with -1's pattern, and the mask keeps 32 bits.
   */
  function ParityExpression(msgType: U32): (p: U32)
  {
    Pow2Of32();
    var flipped: I32 := AsI32(Xor(AsU32(AsI32(msgType)), AsU32(-1), 32));
    And(AsU32(flipped), 0xffff_ffff, 32)
  }

  /** The expression computes the complement, and a code xor its parity is all ones. */
  lemma ParityIsComplement(msgType: U32)
    ensures ParityExpression(msgType) == Parity(msgType)
    ensures Xor(msgType, Parity(msgType), 32) == 0xffff_ffff
  {
    Pow2Of32();
    XorAllOnes(msgType, 32);
    AndAllOnes(0xffff_ffff - msgType, 32);
    XorComplement(msgType, 32);
  }

  /** A header as this system stamps it: the magic, and a parity that complements the type. */
  predicate WellFormedHeader(h: BoxMsgHeader)
  {
    h.magic == PROTOCOL_MAGIC && h.msgParity == Parity(h.msgType)
  }

  function NewHeader(msgType: U32, msgLen: U32): (h: BoxMsgHeader)
    ensures WellFormedHeader(h)
    ensures h.msgType == msgType && h.msgLen == msgLen
  {
    BoxMsgHeader(PROTOCOL_MAGIC, msgLen, msgType, Parity(msgType))
  }

  /** `m` carries a well-formed header whose type is its own kind's code and whose length is `len`. */
  predicate Stamped(m: MsgType, len: U32)
  {
    WellFormedHeader(m.header) && m.header.msgType == WireCode(m) && m.header.msgLen == len
  }

  // ------------------------------------------------------------------
  // Constructors (`new` of each struct, wrapped in its variant)
  // ------------------------------------------------------------------

  function NewOpenBox(width: U32, height: U32, framerate: U32): (m: MsgType)
    ensures m.OpenBox? && Stamped(m, 28)
    ensures m.width == width && m.height == height && m.framerate == framerate
    ensures m.format == 5 && m.packetMax == 49152 && m.boxVer == 2 && m.phoneWorkMode == 2
  {
    OpenBox(NewHeader(OPENBOX, 28), width, height, framerate, 0x5, 49152, 2, 2)
  }

  function NewDevPlug(): (m: MsgType)
    ensures m.DevPlug? && Stamped(m, 0)
  {
    DevPlug(NewHeader(DEVPLUG, 0))
  }

  function NewDevUnplug(): (m: MsgType)
    ensures m.DevUnplug? && Stamped(m, 0)
  {
    DevUnplug(NewHeader(DEVUNPLUG, 0))
  }

  function NewTouch(): (m: MsgType)
    ensures m.Touch? && Stamped(m, 0)
  {
    Touch(NewHeader(TOUCH, 0))
  }

  /** The header length is 0 whatever the length of `data`. */
  function NewVideo(data: ByteVec): (m: MsgType)
    ensures m.Video? && Stamped(m, 0) && m.data == data
  {
    Video(NewHeader(VIDEO, 0), data)
  }

  function NewAudio(): (m: MsgType)
    ensures m.Audio? && Stamped(m, 0)
  {
    Audio(NewHeader(AUDIO, 0))
  }

  function NewButtonCtl(): (m: MsgType)
    ensures m.ButtonCtl? && Stamped(m, 0)
  {
    ButtonCtl(NewHeader(BUTTONCTL, 0))
  }

  function NewBtAddr(): (m: MsgType)
    ensures m.BtAddr? && Stamped(m, 0)
  {
    BtAddr(NewHeader(BTADDR, 0))
  }

  function NewBtPin(): (m: MsgType)
    ensures m.BtPin? && Stamped(m, 0)
  {
    BtPin(NewHeader(BTPIN, 0))
  }

  /** The header length is 2, not the 8 bytes of payload that follow it. */
  function NewManInfo(brand: I32, model: I32): (m: MsgType)
    ensures m.ManInfo? && Stamped(m, 2) && m.brand == brand && m.model == model
  {
    ManInfo(NewHeader(MANINFO, 2), brand, model)
  }

  function NewMultiTouch(): (m: MsgType)
    ensures m.MultiTouch? && Stamped(m, 0)
  {
    MultiTouch(NewHeader(MULTITOUCH, 0))
  }

  function NewSendFile(): (m: MsgType)
    ensures m.SendFile? && Stamped(m, 0)
  {
    SendFile(NewHeader(SENDFILE, 0))
  }

  function NewHeartbeat(): (m: MsgType)
    ensures m.Heartbeat? && Stamped(m, 0)
  {
    Heartbeat(NewHeader(HEARTBEAT, 0))
  }

  function NewSwVer(): (m: MsgType)
    ensures m.SwVer? && Stamped(m, 0)
  {
    SwVer(NewHeader(SWVER, 0))
  }

  // ------------------------------------------------------------------
  // Serialization
  // ------------------------------------------------------------------

  function HeaderWords(h: BoxMsgHeader): (ws: seq<U32>)
    ensures |ws| == 4
  {
    [h.magic, h.msgLen, h.msgType, h.msgParity]
  }

  /** bincode's encoding of the struct inside the variant: its fields in declared order. */
  function EncodeFields(m: MsgType): (r: seq<Byte>)
  {
    match m
    case OpenBox(h, width, height, framerate, format, packetMax, boxVer, phoneWorkMode) =>
      EncodeWords(HeaderWords(h) + [width, height, framerate, format, packetMax, boxVer, phoneWorkMode])
    case Video(h, data) =>
      EncodeWords(HeaderWords(h)) + LE64(|data|) + data
    case ManInfo(h, brand, model) =>
      EncodeWords(HeaderWords(h) + [AsU32(brand), AsU32(model)])
    case _ =>
      EncodeWords(HeaderWords(m.header))
  }

  lemma FieldsStartWithHeader(m: MsgType)
    ensures |EncodeFields(m)| >= 16
    ensures EncodeFields(m)[..16] == EncodeWords(HeaderWords(m.header))
  {
    match m {
      case OpenBox(h, width, height, framerate, format, packetMax, boxVer, phoneWorkMode) =>
        EncodeWordsAppend(HeaderWords(h), [width, height, framerate, format, packetMax, boxVer, phoneWorkMode]);
      case ManInfo(h, brand, model) =>
        EncodeWordsAppend(HeaderWords(h), [AsU32(brand), AsU32(model)]);
      case _ =>
    }
  }

  /** `bincode::serialize` of the whole enum: the variant index as a u32, then the struct. */
  function BincodeSerialize(m: MsgType): (r: seq<Byte>)
  {
    LE32(VariantIndex(m)) + EncodeFields(m)
  }

  /** `BaseBoxMsg::serialize`: the bincode encoding with its first four bytes drained. */
  function Serialize(m: MsgType): (bytes: seq<Byte>)
  {
    BincodeSerialize(m)[4..]
  }

  /**
   * Draining four bytes removes exactly the enum tag: the serialized frame is
   * the bincode encoding minus its variant index, and opens with the header's
   * four words.
   */
  lemma SerializeDropsTag(m: MsgType)
    ensures BincodeSerialize(m) == LE32(VariantIndex(m)) + Serialize(m)
    ensures |Serialize(m)| >= 16 && Serialize(m)[..16] == EncodeWords(HeaderWords(m.header))
  {
    assert BincodeSerialize(m)[4..] == EncodeFields(m);
    FieldsStartWithHeader(m);
  }

  // ------------------------------------------------------------------
  // Deserialization
  // ------------------------------------------------------------------

  /** bincode's only failure on these types: the input ends before the struct does. */
  datatype DecodeError = UnexpectedEof

  /** The four header words read from the front of `data`, in declared order. */
  function HeaderAt(data: seq<Byte>): (h: BoxMsgHeader)
    requires |data| >= 16
  {
    BoxMsgHeader(U32At(data, 0), U32At(data, 4), U32At(data, 8), U32At(data, 12))
  }

  /** `bincode::deserialize::<BoxMsgHeader>`; trailing bytes are allowed and ignored. */
  function DecodeHeader(data: seq<Byte>): (r: Result<BoxMsgHeader, DecodeError>)
  {
    if |data| < 16 then Err(UnexpectedEof) else Ok(HeaderAt(data))
  }

  /** The header, then seven `u32` fields. */
  function DecodeOpenBox(data: seq<Byte>): (r: Result<MsgType, DecodeError>)
  {
    if |data| < 44 then Err(UnexpectedEof)
    else
      Ok(OpenBox(HeaderAt(data), U32At(data, 16), U32At(data, 20), U32At(data, 24), U32At(data, 28),
                 U32At(data, 32), U32At(data, 36), U32At(data, 40)))
  }

  /** The header, a `u64` length, then that many bytes. */
  function DecodeVideo(data: seq<Byte>): (r: Result<MsgType, DecodeError>)
  {
    if |data| < 24 then Err(UnexpectedEof)
    else
      var len := DecodeLE(data[16..24]);
      if |data| - 24 < len then Err(UnexpectedEof)
      else
        Pow256Of4And8();
        Ok(Video(HeaderAt(data), data[24..24 + len]))
  }

  /** The header, then two `i32` fields. */
  function DecodeManInfo(data: seq<Byte>): (r: Result<MsgType, DecodeError>)
  {
    if |data| < 24 then Err(UnexpectedEof)
    else Ok(ManInfo(HeaderAt(data), AsI32(U32At(data, 16)), AsI32(U32At(data, 20))))
  }

  /**
   * The header-only kinds, chosen by the dispatch code; any code that is not in
   * the registry lands on the default arm, which decodes a Heartbeat.
   */
  function HeaderOnly(dataType: U32, h: BoxMsgHeader): (m: MsgType)
    requires dataType != OPENBOX && dataType != VIDEO && dataType != MANINFO
  {
    if dataType == DEVPLUG then DevPlug(h)
    else if dataType == DEVUNPLUG then DevUnplug(h)
    else if dataType == TOUCH then Touch(h)
    else if dataType == AUDIO then Audio(h)
    else if dataType == BUTTONCTL then ButtonCtl(h)
    else if dataType == BTADDR then BtAddr(h)
    else if dataType == BTPIN then BtPin(h)
    else if dataType == MULTITOUCH then MultiTouch(h)
    else if dataType == SENDFILE then SendFile(h)
    else if dataType == HEARTBEAT then Heartbeat(h)
    else if dataType == SWVER then SwVer(h)
    else Heartbeat(h)
  }

  /**
   * `BaseBoxMsg::deserialize`: dispatch on the type code and parse `data` as
   * that kind's struct. Magic, length and parity are never looked at.
   * An Err is the failure that the source's `unwrap` turns into a panic.
   */
  function Deserialize(dataType: U32, data: seq<Byte>): (r: Result<MsgType, DecodeError>)
  {
    if dataType == OPENBOX then DecodeOpenBox(data)
    else if dataType == VIDEO then DecodeVideo(data)
    else if dataType == MANINFO then DecodeManInfo(data)
    else
      match DecodeHeader(data)
      case Err(e) => Err(e)
      case Ok(h) => Ok(HeaderOnly(dataType, h))
  }

  /**
   * The fewest bytes a parse for `dataType` needs: the fixed part of the struct,
   * and for Video also the number of data bytes its length prefix announces.
   */
  function MinimumLength(dataType: U32, data: seq<Byte>): (n: nat)
  {
    if dataType == OPENBOX then 44
    else if dataType == MANINFO then 24
    else if dataType == VIDEO then
      (if |data| < 24 then 24 else 24 + DecodeLE(data[16..24]))
    else 16
  }

  /**
   * What a successful parse yields: a frame of the dispatch code's kind (the
   * Heartbeat kind for an unknown code) whose header is the first 16 bytes;
   * and the parse succeeds exactly when `data` is long enough for that kind.
   */
  lemma DeserializeSpec(dataType: U32, data: seq<Byte>)
    ensures var r := Deserialize(dataType, data);
      && (r.Ok? ==> WireCode(r.value) == (if dataType in TYPE_CODES then dataType else HEARTBEAT))
      && (r.Ok? ==> DecodeHeader(data).Ok? && r.value.header == DecodeHeader(data).value)
      && (r.Ok? <==> |data| >= MinimumLength(dataType, data))
  {
  }

  // ------------------------------------------------------------------
  // Properties of the codec
  // ------------------------------------------------------------------

  /** The bytes on the wire: 16 for a header-only kind, 44 for OpenBox, 24 for ManInfo, 24 + |data| for Video. */
  lemma SerializedLength(m: MsgType)
    ensures |Serialize(m)| ==
      match m
      case OpenBox(_, _, _, _, _, _, _, _) => 44
      case ManInfo(_, _, _) => 24
      case Video(_, data) => 24 + |data|
      case _ => 16
  {
  }

  /** A header's four encoded words read back as the same header, whatever follows them. */
  lemma HeaderReadsBack(h: BoxMsgHeader, rest: seq<Byte>)
    ensures |EncodeWords(HeaderWords(h)) + rest| >= 16
    ensures HeaderAt(EncodeWords(HeaderWords(h)) + rest) == h
  {
    var hw := HeaderWords(h);
    WordAt(hw, rest, 0);
    WordAt(hw, rest, 1);
    WordAt(hw, rest, 2);
    WordAt(hw, rest, 3);
  }

  /**
   * What goes on the wire starts with the header's four words, magic first
   * and the type code third; the enum tag is not there.
   */
  lemma SerializeHeaderLayout(m: MsgType)
    ensures |Serialize(m)| >= 16 && HeaderAt(Serialize(m)) == m.header
  {
    var s := Serialize(m);
    SerializeDropsTag(m);
    assert s == EncodeWords(HeaderWords(m.header)) + s[16..];
    HeaderReadsBack(m.header, s[16..]);
  }

  /** An OpenBox frame is eleven words: the header, then its seven fields in declared order. */
  lemma SerializeOpenBoxLayout(m: MsgType)
    requires m.OpenBox?
    ensures |Serialize(m)| == 44
    ensures U32At(Serialize(m), 16) == m.width && U32At(Serialize(m), 20) == m.height
    ensures U32At(Serialize(m), 24) == m.framerate && U32At(Serialize(m), 28) == m.format
    ensures U32At(Serialize(m), 32) == m.packetMax && U32At(Serialize(m), 36) == m.boxVer
    ensures U32At(Serialize(m), 40) == m.phoneWorkMode
  {
    var ws := HeaderWords(m.header) + [m.width, m.height, m.framerate, m.format, m.packetMax, m.boxVer, m.phoneWorkMode];
    assert Serialize(m) == EncodeWords(ws) + [];
    WordAt(ws, [], 4);
    WordAt(ws, [], 5);
    WordAt(ws, [], 6);
    WordAt(ws, [], 7);
    WordAt(ws, [], 8);
    WordAt(ws, [], 9);
    WordAt(ws, [], 10);
  }

  /** A ManInfo frame is six words: the header, then brand and model as their two's-complement bits. */
  lemma SerializeManInfoLayout(m: MsgType)
    requires m.ManInfo?
    ensures |Serialize(m)| == 24
    ensures U32At(Serialize(m), 16) == AsU32(m.brand) && U32At(Serialize(m), 20) == AsU32(m.model)
  {
    var ws := HeaderWords(m.header) + [AsU32(m.brand), AsU32(m.model)];
    assert Serialize(m) == EncodeWords(ws) + [];
    WordAt(ws, [], 4);
    WordAt(ws, [], 5);
  }

  /** A Video frame follows its header with the 8-byte length of its data, then the data. */
  lemma SerializeVideoLayout(m: MsgType)
    requires m.Video?
    ensures |Serialize(m)| == 24 + |m.data|
    ensures Serialize(m)[16..24] == LE64(|m.data|) && Serialize(m)[24..] == m.data
  {
    var s := Serialize(m);
    SerializeDropsTag(m);
    assert s == EncodeWords(HeaderWords(m.header)) + LE64(|m.data|) + m.data;
  }

  /** Deserializing what was serialized, under the kind's own code, gives back the same frame. */
  lemma {:induction false} RoundTrip(m: MsgType)
    ensures Deserialize(WireCode(m), Serialize(m)) == Ok(m)
  {
    match m {
      case OpenBox(_, _, _, _, _, _, _, _) => RoundTripOpenBox(m);
      case Video(_, _) => RoundTripVideo(m);
      case ManInfo(_, _, _) => RoundTripManInfo(m);
      case _ => RoundTripHeaderOnly(m);
    }
  }

  /** The dispatch of a header-only kind's own code rebuilds that kind around the header. */
  lemma HeaderOnlyOwnCode(m: MsgType)
    requires !m.OpenBox? && !m.Video? && !m.ManInfo?
    ensures WireCode(m) != OPENBOX && WireCode(m) != VIDEO && WireCode(m) != MANINFO
    ensures HeaderOnly(WireCode(m), m.header) == m
  {
  }

  lemma {:induction false} RoundTripHeaderOnly(m: MsgType)
    requires !m.OpenBox? && !m.Video? && !m.ManInfo?
    ensures Deserialize(WireCode(m), Serialize(m)) == Ok(m)
  {
    SerializeHeaderLayout(m);
    HeaderOnlyOwnCode(m);
    assert DecodeHeader(Serialize(m)) == Ok(m.header);
  }

  lemma {:induction false} RoundTripOpenBox(m: MsgType)
    requires m.OpenBox?
    ensures Deserialize(WireCode(m), Serialize(m)) == Ok(m)
  {
    SerializeHeaderLayout(m);
    SerializeOpenBoxLayout(m);
  }

  lemma {:induction false} RoundTripManInfo(m: MsgType)
    requires m.ManInfo?
    ensures Deserialize(WireCode(m), Serialize(m)) == Ok(m)
  {
    SerializeHeaderLayout(m);
    SerializeManInfoLayout(m);
    ReinterpretI32(m.brand);
    ReinterpretI32(m.model);
  }

  lemma {:induction false} RoundTripVideo(m: MsgType)
    requires m.Video?
    ensures Deserialize(WireCode(m), Serialize(m)) == Ok(m)
  {
    var s := Serialize(m);
    SerializeHeaderLayout(m);
    SerializeVideoLayout(m);
    Pow256Of4And8();
    DecodeEncodeLE(|m.data|, 8);
    assert s[24..24 + |m.data|] == m.data;
  }

  /** A code outside the registry decodes exactly as the Heartbeat code does. */
  lemma UnknownCodeIsHeartbeat(dataType: U32, data: seq<Byte>)
    requires dataType !in TYPE_CODES
    ensures Deserialize(dataType, data) == Deserialize(HEARTBEAT, data)
    ensures |data| >= 16 ==> Deserialize(dataType, data) == Ok(Heartbeat(DecodeHeader(data).value))
  {
  }

  /**
   * Decoding never inspects magic, length or parity: any 16 bytes at all parse
   * as the header of a header-only kind, bad magic and wrong parity included.
   */
  lemma {:induction false} HeaderNotChecked(dataType: U32, h: BoxMsgHeader, rest: seq<Byte>)
    requires dataType != OPENBOX && dataType != VIDEO && dataType != MANINFO
    ensures Deserialize(dataType, EncodeWords(HeaderWords(h)) + rest) == Ok(HeaderOnly(dataType, h))
  {
    HeaderReadsBack(h, rest);
  }

  /** Fewer than 16 bytes never decode, whatever the code. */
  lemma ShortInputFails(dataType: U32, data: seq<Byte>)
    requires |data| < 16
    ensures Deserialize(dataType, data) == Err(UnexpectedEof)
  {
  }

  /** A kind without fields of its own goes on the wire as its header's four words and nothing else. */
  lemma HeaderOnlySerialize(m: MsgType)
    requires !m.OpenBox? && !m.Video? && !m.ManInfo?
    ensures Serialize(m) == LE32(m.header.magic) + LE32(m.header.msgLen) + LE32(m.header.msgType) + LE32(m.header.msgParity)
  {
    SerializeDropsTag(m);
    EncodeFourWords(m.header.magic, m.header.msgLen, m.header.msgType, m.header.msgParity);
  }

  /**
   * The Heartbeat frame as it goes on the wire: magic 0x55AA55AA, length 0,
   * type 170 and parity 0xFFFFFF55, each little-endian.
   */
  const HEARTBEAT_FRAME: seq<Byte> := LE32(PROTOCOL_MAGIC) + LE32(0) + LE32(HEARTBEAT) + LE32(0xFFFF_FF55)

  lemma HeartbeatFrame()
    ensures Serialize(NewHeartbeat()) == HEARTBEAT_FRAME
  {
    HeaderOnlySerialize(NewHeartbeat());
  }

  /**
   * The header length the constructors stamp agrees with the payload that
   * follows for OpenBox (28) and the header-only kinds (0); ManInfo claims 2
   * bytes for its 8, and Video claims 0 for its 8 + |data|.
   */
  lemma StampedLengths(width: U32, height: U32, framerate: U32, data: ByteVec, brand: I32, model: I32)
    ensures NewOpenBox(width, height, framerate).header.msgLen == |Serialize(NewOpenBox(width, height, framerate))| - 16
    ensures NewManInfo(brand, model).header.msgLen == 2 && |Serialize(NewManInfo(brand, model))| - 16 == 8
    ensures NewVideo(data).header.msgLen == 0 && |Serialize(NewVideo(data))| - 16 == 8 + |data|
    ensures NewHeartbeat().header.msgLen == |Serialize(NewHeartbeat())| - 16 == 0
  {
    SerializedLength(NewOpenBox(width, height, framerate));
    SerializedLength(NewManInfo(brand, model));
    SerializedLength(NewVideo(data));
    SerializedLength(NewHeartbeat());
  }

  /**
   * The header length the other header-only kinds' constructors stamp, 0,
   * agrees with the nothing that follows their header on the wire.
   */
  lemma HeaderOnlyStampedLengths()
    ensures NewDevPlug().header.msgLen == |Serialize(NewDevPlug())| - 16 == 0
    ensures NewDevUnplug().header.msgLen == |Serialize(NewDevUnplug())| - 16 == 0
    ensures NewTouch().header.msgLen == |Serialize(NewTouch())| - 16 == 0
    ensures NewAudio().header.msgLen == |Serialize(NewAudio())| - 16 == 0
    ensures NewButtonCtl().header.msgLen == |Serialize(NewButtonCtl())| - 16 == 0
    ensures NewBtAddr().header.msgLen == |Serialize(NewBtAddr())| - 16 == 0
    ensures NewBtPin().header.msgLen == |Serialize(NewBtPin())| - 16 == 0
    ensures NewMultiTouch().header.msgLen == |Serialize(NewMultiTouch())| - 16 == 0
    ensures NewSendFile().header.msgLen == |Serialize(NewSendFile())| - 16 == 0
    ensures NewSwVer().header.msgLen == |Serialize(NewSwVer())| - 16 == 0
  {
    SerializedLength(NewDevPlug());
    SerializedLength(NewDevUnplug());
    SerializedLength(NewTouch());
    SerializedLength(NewAudio());
    SerializedLength(NewButtonCtl());
    SerializedLength(NewBtAddr());
    SerializedLength(NewBtPin());
    SerializedLength(NewMultiTouch());
    SerializedLength(NewSendFile());
    SerializedLength(NewSwVer());
  }
}
