/** The bitfield decoder `PRIME.decodemsg` (src/rtcmDecoder.py lines 31-40) and the
    receive path of main.py that feeds it the payload `getmsg` extracted. The
    decoder reads the leading 12-bit message type, looks the layout up with
    `_getcontent` and unpacks the whole payload with it, returning the raw
    integers; the scaled values are only printed. */
module Decoder {
  import opened Bits
  import opened Results
  import opened Bitstruct
  import opened Messages
  import opened Frame
  import opened Crc

  /** What `decodemsg` raises, by the line that raises it. */
  datatype DecodeError =
    | TypeUnreadable(cause: UnpackError)    // `unpack('u12', ...)`: fewer than 12 bits
    | NoLayout(lookup: LookupError)         // `_getcontent` for a type other than 1019
    | PayloadTooShort(cause: UnpackError)   // the 1019 layout needs 488 bits

  /** `u12`: the message type that opens every RTCM3 message. */
  const TypeFormat: seq<FieldSpec> := [Unsigned(12)]

  /** `bitstruct.unpack('u12', msgcontent)[0]`: the message type. */
  function ReadType(content: seq<byte>): (r: Result<int, UnpackError>)
    ensures r.Success? <==> |content| >= 2
  {
    match Unpack(TypeFormat, content)
    case Failure(e) => Failure(e)
    case Success(head) => Success(head[0])
  }

  /** Looks up the layout of `msgtype` with `_getcontent` and unpacks the payload
      with it: only type 1019 with at least 61 bytes gets through, and then the values
      are a well-formed ephemeris whose first entry is the type the payload opens with. */
  function DecodeAs(msgtype: int, content: seq<byte>): (r: Result<seq<int>, DecodeError>)
    ensures r.Success? <==> msgtype == 1019 && |content| >= 61
    ensures r.Success? ==> Ephemeris(r.value) && r.value[0] == LeadingType(content)
  {
    Layout1019();
    match GetContent(msgtype)
    case Failure(e) => Failure(NoLayout(e))
    case Success(layout) =>
      match Unpack(layout.format, content)
      case Failure(e) => Failure(PayloadTooShort(e))
      case Success(vals) =>
        TypeField(content);
        FirstFieldIsType(Format1019, content);
        Success(vals)
  }

  /** `decodemsg(msgcontent)`: it succeeds exactly on payloads of at least 61 bytes
      that open with type 1019, and then returns the 31 raw values of a 1019 message. */
  function DecodeMsg(content: seq<byte>): (r: Result<seq<int>, DecodeError>)
    ensures r.Success? <==> |content| >= 61 && LeadingType(content) == 1019
    ensures r.Success? ==> Ephemeris(r.value) && r.value[0] == 1019
  {
    match ReadType(content)
    case Failure(e) => Failure(TypeUnreadable(e))
    case Success(msgtype) =>
      TypeField(content);
      DecodeAs(msgtype, content)
  }

  /** The message type as arithmetic on the payload: byte 0 followed by the high
      four bits of byte 1. */
  function LeadingType(content: seq<byte>): (t: nat)
    requires |content| >= 2
    ensures t < 4096
  {
    content[0] as int * 16 + content[1] as int / 16
  }

  /** The leading 12 bits of the payload are byte 0 followed by the high half of byte 1. */
  lemma LeadingBits(content: seq<byte>)
    requires |content| >= 2
    ensures Val(BytesBits(content)[..12]) == LeadingType(content)
  {
    var b0, b1 := content[0], content[1];
    var n0, n1 := NatBits(b0, 8), NatBits(b1, 8);
    var hi := n1[..4];
    TwoBytesBits(content);
    assert BytesBits(content)[..12] == (n0 + n1)[..12] == n0 + hi;
    Pow2Values();
    assert Pow2(4) == 16 && |hi| == 4;
    ValNatBits(b0, 8);
    HighNibble(b1);
    ValAppend(n0, hi);
    assert Val(n0 + hi) == b0 as int * 16 + b1 as int / 16;
  }

  /** Unpacking `u12` reads the message type from the payload. */
  lemma TypeField(content: seq<byte>)
    requires |content| >= 2
    ensures ReadType(content) == Success(LeadingType(content))
  {
    LeadingBits(content);
    UnpackFieldAt(TypeFormat, BytesBits(content), 0);
    assert TypeFormat[..0] == [];
  }

  /** What each message type leads to: only 1019 has a layout, and it needs 61 bytes. */
  lemma DecodeAsOutcome(msgtype: int, content: seq<byte>)
    ensures msgtype == 1002 ==> DecodeAs(msgtype, content) == Failure(NoLayout(CoeffUnbound))
    ensures msgtype != 1002 && msgtype != 1019
            ==> DecodeAs(msgtype, content) == Failure(NoLayout(FormatUnbound))
    ensures msgtype == 1019 && |content| < 61
            ==> DecodeAs(msgtype, content) == Failure(PayloadTooShort(NotEnoughBits(488, 8 * |content|)))
    ensures msgtype == 1019 && |content| >= 61 ==> Unpack(Format1019, content).Success?
    ensures msgtype == 1019 && |content| >= 61
            ==> DecodeAs(msgtype, content) == Success(Unpack(Format1019, content).value)
  {
    if msgtype == 1019 {
      Layout1019();
    }
  }

  /** Every way `decodemsg` can end: too short for the type, a type without a
      layout (1002 and everything else but 1019), too short for the 1019 layout,
      or the 31 raw values. */
  lemma DecodeMsgOutcome(content: seq<byte>)
    ensures |content| < 2 ==> DecodeMsg(content) == Failure(TypeUnreadable(NotEnoughBits(12, 8 * |content|)))
    ensures |content| >= 2 && LeadingType(content) == 1002
            ==> DecodeMsg(content) == Failure(NoLayout(CoeffUnbound))
    ensures |content| >= 2 && LeadingType(content) != 1002 && LeadingType(content) != 1019
            ==> DecodeMsg(content) == Failure(NoLayout(FormatUnbound))
    ensures |content| >= 2 && LeadingType(content) == 1019 && |content| < 61
            ==> DecodeMsg(content) == Failure(PayloadTooShort(NotEnoughBits(488, 8 * |content|)))
    ensures DecodeMsg(content).Success? <==> |content| >= 61 && LeadingType(content) == 1019
  {
    if |content| >= 2 {
      TypeField(content);
      DecodeAsOutcome(LeadingType(content), content);
    } else {
      assert TypeFormat[1..] == [];
    }
  }

  /** A successful decoding is `unpack` with the 1019 layout. */
  lemma DecodeMsgValue(content: seq<byte>)
    requires |content| >= 61 && LeadingType(content) == 1019
    ensures Unpack(Format1019, content).Success?
    ensures DecodeMsg(content) == Success(Unpack(Format1019, content).value)
  {
    TypeField(content);
    DecodeAsOutcome(1019, content);
  }

  /** A successful decoding holds the 31 values of message 1019, the first of them
      the type just read. */
  lemma DecodeMsgType(content: seq<byte>)
    requires |content| >= 61 && LeadingType(content) == 1019
    ensures DecodeMsg(content).Success?
    ensures |DecodeMsg(content).value| == 31
    ensures DecodeMsg(content).value[0] == LeadingType(content)
  {
    Layout1019();
    DecodeMsgValue(content);
    TypeField(content);
    FirstFieldIsType(Format1019, content);
  }

  /** A layout that opens with `u12` reads the type as its first value. */
  lemma FirstFieldIsType(fmt: seq<FieldSpec>, content: seq<byte>)
    requires |fmt| > 0 && fmt[0] == Unsigned(12) && |content| >= 2
    requires TotalWidth(fmt) <= 8 * |content|
    ensures Unpack(fmt, content).value[0] == ReadType(content).value
  {
    var bits := BytesBits(content);
    UnpackFieldAt(fmt, bits, 0);
    UnpackFieldAt(TypeFormat, bits, 0);
    assert fmt[..0] == [] && TypeFormat[..0] == [];
  }

  /** The fields of message 1019 are read MSB first and back to back: field `i` is
      bits [Offset(i), Offset(i) + width) of the payload, in the range its width and
      signedness allow. */
  lemma DecodeMsgFields(content: seq<byte>, i: nat)
    requires |content| >= 61 && LeadingType(content) == 1019 && i < 31
    ensures DecodeMsg(content).Success?
    ensures var vals := DecodeMsg(content).value;
            && i < |vals|
            && InRange(Format1019[i], vals[i])
            && vals[i] == FieldValue(Format1019[i],
                 BytesBits(content)[Offset(Format1019, i)..Offset(Format1019, i) + Format1019[i].width])
  {
    Layout1019();
    DecodeMsgValue(content);
    UnpackField(Format1019, content, i);
  }

  /** Bytes after the 61st never influence the decoding. */
  lemma DecodeMsgIgnoresTail(content: seq<byte>)
    requires |content| >= 61
    ensures DecodeMsg(content) == DecodeMsg(content[..61])
  {
    var head := content[..61];
    assert LeadingType(head) == LeadingType(content);
    if LeadingType(content) == 1019 {
      Layout1019();
      UnpackBytesPrefix(Format1019, content, 61);
      DecodeMsgValue(content);
      DecodeMsgValue(head);
    } else {
      DecodeMsgOutcome(content);
      DecodeMsgOutcome(head);
    }
  }

  /** The raw values of a well-formed 1019 message: 31 of them, each in its field's range. */
  predicate Ephemeris(vals: seq<int>)
  {
    |vals| == |Format1019| && forall i {:trigger InRange(Format1019[i], vals[i])} :: 0 <= i < |Format1019| ==> InRange(Format1019[i], vals[i])
  }

  /** The 61-byte payload a reference station sends for the given 1019 values. */
  function Encode1019(vals: seq<int>): (content: seq<byte>)
    requires Ephemeris(vals)
    ensures |content| == 61
  {
    Layout1019();
    BitsBytes(PackBits(Format1019, vals))
  }

  /** `decodemsg` recovers every well-formed 1019 message. */
  lemma DecodeEncode(vals: seq<int>)
    requires Ephemeris(vals) && vals[0] == 1019
    ensures DecodeMsg(Encode1019(vals)) == Success(vals)
  {
    Layout1019();
    var content := Encode1019(vals);
    UnpackPackBytes(Format1019, vals);
    TypeField(content);
    FirstFieldIsType(Format1019, content);
    DecodeMsgValue(content);
  }

  /** Whatever `decodemsg` accepts is, in its first 61 bytes, the encoding of what it returns. */
  lemma EncodeDecode(content: seq<byte>)
    requires DecodeMsg(content).Success?
    ensures |content| >= 61
    ensures Ephemeris(DecodeMsg(content).value)
    ensures Encode1019(DecodeMsg(content).value) == content[..61]
  {
    DecodeMsgOutcome(content);
    DecodeMsgValue(content);
    Layout1019();
    PackUnpackBytes(Format1019, content, 61);
  }

  /** What the receive path can fail with. */
  datatype ReceiveError = FrameFailed(frame: FrameError) | DecodeFailed(decode: DecodeError)

  /** main.py's sequence on a fresh object: extract the payload, then decode it. It
      uses the corrected `getmsg`, so a truncated buffer is never decoded: values
      come out only of an intact frame. */
  function Receive(data: seq<byte>): (r: Result<seq<int>, ReceiveError>)
    ensures r.Success? ==> FrameValid(data) && Ephemeris(r.value) && r.value[0] == 1019
  {
    match GetMsgChecked(Initial, data)
    case Failure(e) => Failure(FrameFailed(e))
    case Success(st) =>
      match DecodeMsg(st.msgcontent)
      case Failure(e) => Failure(DecodeFailed(e))
      case Success(vals) =>
        GetMsgCheckedAcceptsOnlyFullFrames(Initial, data);
        Success(vals)
  }

  /** main.py's sequence exactly as written, with `getmsg` as it stands: values come
      out only of a buffer that starts with the preamble and whose CRC over the clamped
      frame slice is zero, intact or not. Such a buffer can still fail to decode. */
  function ReceiveAsWritten(data: seq<byte>): (r: Result<seq<int>, ReceiveError>)
    ensures r.Success? ==> AcceptedAsWritten(data) && Ephemeris(r.value) && r.value[0] == 1019
  {
    match GetMsg(Initial, data)
    case Failure(e) => Failure(FrameFailed(e))
    case Success(st) =>
      match DecodeMsg(st.msgcontent)
      case Failure(e) => Failure(DecodeFailed(e))
      case Success(vals) =>
        GetMsgHeader(Initial, data);
        Success(vals)
  }

  /** On a buffer that holds the whole frame both receive paths agree. */
  lemma ReceiveAgrees(data: seq<byte>)
    requires |data| >= 3 && data[0] == Preamble && |data| >= 6 + LengthField(data)
    ensures ReceiveAsWritten(data) == Receive(data)
  {
    GetMsgCheckedAgrees(Initial, data);
  }

  /** Passing the CRC is not enough for the as-written path: an intact frame with an
      empty payload is accepted by `getmsg`, but `decodemsg` cannot read a type from
      it, so nothing comes out. */
  lemma EmptyFrameNotDecoded()
    ensures var h: seq<byte> := [Preamble, 0, 0];
            var data := h + BigEndian3(Crc24q(h));
            && FrameValid(data) && AcceptedAsWritten(data)
            && GetMsg(Initial, data) == Success(Prime(Some(0), [], 0))
            && ReceiveAsWritten(data).Failure?
  {
    var h: seq<byte> := [Preamble, 0, 0];
    var data := h + BigEndian3(Crc24q(h));
    assert |data| == 6 && data[0] == Preamble && data[..3] == h;
    assert LengthField(data) == 0;
    CrcZeroResidue(h);
    assert data[0..6] == data;
    GetMsgHeader(Initial, data);
  }

  /** As written, main.py decodes a 1019 message out of a frame cut short: the header
      announces 100 payload bytes, the buffer ends after 61 of them and a CRC over what
      is there, and the clamped slice makes that CRC check pass. The corrected path
      rejects the same buffer. */
  lemma TruncatedReceiveAccepted(vals: seq<int>)
    requires Ephemeris(vals) && vals[0] == 1019
    ensures var m := [Preamble, 0, 100] + Encode1019(vals);
            var data := m + BigEndian3(Crc24q(m));
            && !FrameValid(data)
            && ReceiveAsWritten(data) == Success(vals)
            && Receive(data).Failure?
  {
    var payload := Encode1019(vals);
    var m := [Preamble, 0, 100] + payload;
    var data := m + BigEndian3(Crc24q(m));
    ShortFrameAccepted(payload);
    var content := payload + BigEndian3(Crc24q(m));
    assert content[..61] == payload;
    DecodeMsgIgnoresTail(content);
    DecodeEncode(vals);
    GetMsgCheckedAcceptsOnlyFullFrames(Initial, data);
  }

  /** Only an intact frame is decoded, and the values come from its payload. */
  lemma ReceiveOnlyIntactFrames(data: seq<byte>)
    ensures Receive(data).Success? ==> FrameValid(data)
    ensures Receive(data).Success?
            ==> DecodeMsg(data[3..3 + LengthField(data)]) == Success(Receive(data).value)
  {
    if Receive(data).Success? {
      GetMsgCheckedAcceptsOnlyFullFrames(Initial, data);
    }
  }

  /** A well-formed 1019 message sent in a well-formed frame is received intact. */
  lemma ReceiveRoundTrip(reserved: nat, vals: seq<int>, rest: seq<byte>)
    requires reserved < 64 && Ephemeris(vals) && vals[0] == 1019
    ensures Receive(EncodeFrame(reserved, Encode1019(vals)) + rest) == Success(vals)
  {
    var payload := Encode1019(vals);
    var data := EncodeFrame(reserved, payload) + rest;
    EncodeFrameLayout(reserved, payload, rest);
    EncodeFrameValid(reserved, payload, rest);
    GetMsgCheckedAcceptsOnlyFullFrames(Initial, data);
    DecodeEncode(vals);
  }
}
