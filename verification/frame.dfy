/** RTCM3 frame extraction, `PRIME.getmsg` (src/rtcmDecoder.py lines 9-29), with
    the file read replaced by the buffer it returns. A frame is the preamble byte
    0xD3, six reserved bits, a 10-bit payload length L, L payload bytes and a
    24-bit CRC-24Q trailer (RTCM 10403.x, section 4). The object keeps the last
    length, payload and CRC it computed; `getmsg` overwrites them only on some
    paths and returns the pair (msglen, msgcontent) as it then stands. */
module Frame {
  import opened Bits
  import opened Results
  import opened Bitstruct
  import opened Crc

  const Preamble: byte := 0xD3

  /** `u8u6u10`: preamble, reserved bits, payload length. */
  const HeaderFormat: seq<FieldSpec> := [Unsigned(8), Unsigned(6), Unsigned(10)]

  /** The fields of a `PRIME` object that `getmsg` reads and writes. */
  datatype Prime = Prime(msglen: Option<nat>, msgcontent: seq<byte>, crcValue: nat)

  /** A fresh object: `msglen` is None, `msgcontent` empty, `crcValue` 0. */
  const Initial: Prime := Prime(None, [], 0)

  /** `getmsg` raises only when the header cannot be unpacked. */
  datatype FrameError = HeaderUnreadable(cause: UnpackError)

  function Min(a: nat, b: nat): nat
  {
    if a <= b then a else b
  }

  /** Python's `s[lo:hi]` for `0 <= lo <= hi`: bounds past the end are clamped. */
  function Slice(s: seq<byte>, lo: nat, hi: nat): (r: seq<byte>)
    requires lo <= hi
    ensures hi <= |s| ==> r == s[lo..hi]
    ensures |s| <= lo ==> r == []
    ensures |r| <= hi - lo
  {
    s[Min(lo, |s|)..Min(hi, |s|)]
  }

  /** A slice running past the end stops at the end. */
  lemma SliceClamped(s: seq<byte>, lo: nat, hi: nat)
    requires lo <= |s| <= hi
    ensures Slice(s, lo, hi) == s[lo..]
  {
  }

  /** The payload length as arithmetic on the header: the low two bits of byte 1
      followed by byte 2. */
  function LengthField(data: seq<byte>): (n: nat)
    requires |data| >= 3
    ensures n < 1024
  {
    (data[1] as int % 4) * 256 + data[2] as int
  }

  /** `getmsg` on a buffer holding the file's contents. */
  function GetMsg(st: Prime, data: seq<byte>): (r: Result<Prime, FrameError>)
    ensures |data| == 0 || data[0] != Preamble ==> r == Success(st)
    ensures |data| > 0 && data[0] == Preamble && |data| < 3 ==> r.Failure?
  {
    if Slice(data, 0, 1) != [Preamble] then Success(st)
    else
      match Unpack(HeaderFormat, Slice(data, 0, 3))
      case Failure(e) => Failure(HeaderUnreadable(e))
      case Success(header) =>
        assert InRange(HeaderFormat[2], header[2]);
        var msglen: nat := header[2];
        var crc := Crc24q(Slice(data, 0, 6 + msglen));
        var next := st.(msglen := Some(msglen), crcValue := crc);
        if crc == 0 then Success(next.(msgcontent := Slice(data, 3, 3 + msglen)))
        else Success(next)
  }

  /** Unpacking `u8u6u10` yields the length field as the third value. */
  lemma HeaderLength(data: seq<byte>)
    requires |data| >= 3
    ensures Unpack(HeaderFormat, data[..3]).Success?
    ensures Unpack(HeaderFormat, data[..3]).value[2] == LengthField(data)
  {
    var h := data[..3];
    var bits := BytesBits(h);
    LengthFieldBits(h);
    assert TotalWidth(HeaderFormat) == 24;
    assert Offset(HeaderFormat, 2) == 14 by {
      assert HeaderFormat[..2] == [Unsigned(8), Unsigned(6)];
    }
    UnpackFieldAt(HeaderFormat, bits, 2);
    LengthBits(h[1], h[2]);
  }

  /** Bits 14 to 23 of the header are the low two bits of byte 1, then byte 2. */
  lemma LengthFieldBits(h: seq<byte>)
    requires |h| == 3
    ensures BytesBits(h)[14..24] == NatBits(h[1], 8)[6..] + NatBits(h[2], 8)
  {
    ThreeBytesBits(h);
  }

  /** The low two bits of one byte followed by a whole byte, read as a number. */
  lemma LengthBits(b1: byte, b2: byte)
    ensures Val(NatBits(b1, 8)[6..] + NatBits(b2, 8)) == (b1 as int % 4) * 256 + b2 as int
  {
    var lo, n2 := NatBits(b1, 8)[6..], NatBits(b2, 8);
    Pow2Values();
    LowTwoBits(b1);
    ValNatBits(b2, 8);
    ValAppend(lo, n2);
  }

  /** On a buffer starting with the preamble and holding the three header bytes,
      `msglen` becomes the length field, the CRC is taken over the first `6 + msglen`
      bytes that exist, and the payload is taken exactly when that CRC is zero. */
  lemma GetMsgHeader(st: Prime, data: seq<byte>)
    requires |data| >= 3 && data[0] == Preamble
    ensures GetMsg(st, data).Success?
    ensures var L := LengthField(data);
            var crc := Crc24q(Slice(data, 0, 6 + L));
            GetMsg(st, data).value
            == Prime(Some(L), if crc == 0 then Slice(data, 3, 3 + L) else st.msgcontent, crc)
  {
    assert Slice(data, 0, 1) == [Preamble];
    HeaderLength(data);
  }

  /** The length is at most 1023 and the six reserved bits never affect it. */
  lemma ReservedBitsIgnored(st: Prime, data: seq<byte>, reserved: nat)
    requires |data| >= 3 && data[0] == Preamble && reserved < 64
    ensures GetMsg(st, data).value.msglen.value <= 1023
    ensures GetMsg(st, data[1 := reserved * 4 + data[1] % 4]).value.msglen
         == GetMsg(st, data).value.msglen
  {
    var data' := data[1 := reserved * 4 + data[1] % 4];
    assert data'[1] as int % 4 == data[1] as int % 4;
    assert LengthField(data') == LengthField(data);
    GetMsgHeader(st, data);
    GetMsgHeader(st, data');
  }

  /** On a buffer holding the whole frame the trailer test is exact: the payload is
      taken exactly when the three bytes after it are the CRC of header and payload. */
  lemma GetMsgCompleteFrame(st: Prime, data: seq<byte>)
    requires |data| >= 3 && data[0] == Preamble
    requires |data| >= 6 + LengthField(data)
    ensures var L := LengthField(data);
            GetMsg(st, data).value.msgcontent
            == if data[3 + L..6 + L] == BigEndian3(Crc24q(data[..3 + L])) then data[3..3 + L]
               else st.msgcontent
  {
    var L := LengthField(data);
    GetMsgHeader(st, data);
    assert data[..6 + L] == data[..3 + L] + data[3 + L..6 + L];
    CrcTrailerIff(data[..3 + L], data[3 + L..6 + L]);
  }

  /** The frame a reference station sends for `payload`, with any reserved bits. */
  function EncodeFrame(reserved: nat, payload: seq<byte>): (f: seq<byte>)
    requires reserved < 64 && |payload| <= 1023
    ensures |f| == 6 + |payload|
  {
    var header: seq<byte> := [Preamble, reserved * 4 + |payload| / 256, |payload| % 256];
    header + payload + BigEndian3(Crc24q(header + payload))
  }

  /** The header of an encoded frame carries the payload length, and the payload follows it. */
  lemma EncodeFrameLayout(reserved: nat, payload: seq<byte>, rest: seq<byte>)
    requires reserved < 64 && |payload| <= 1023
    ensures var data := EncodeFrame(reserved, payload) + rest;
            && |data| >= 6 + |payload| && data[0] == Preamble && LengthField(data) == |payload|
            && data[3..3 + |payload|] == payload
            && data[..3 + |payload|] == EncodeFrame(reserved, payload)[..3 + |payload|]
  {
    var data := EncodeFrame(reserved, payload) + rest;
    var L := |payload|;
    LengthBytes(reserved, L);
    assert data[1] == reserved * 4 + L / 256 && data[2] == L % 256;
  }

  lemma LengthBytes(reserved: nat, n: nat)
    requires reserved < 64 && n < 1024
    ensures ((reserved * 4 + n / 256) % 4) * 256 + n % 256 == n
  {
    assert (reserved * 4 + n / 256) % 4 == n / 256;
  }

  /** `getmsg` recovers the payload of any well-formed frame, whatever follows it in
      the buffer and whatever the object held before. */
  lemma GetMsgFrameRoundTrip(st: Prime, reserved: nat, payload: seq<byte>, rest: seq<byte>)
    requires reserved < 64 && |payload| <= 1023
    ensures GetMsg(st, EncodeFrame(reserved, payload) + rest)
         == Success(Prime(Some(|payload|), payload, 0))
  {
    var frame := EncodeFrame(reserved, payload);
    var data := frame + rest;
    var L := |payload|;
    EncodeFrameLayout(reserved, payload, rest);
    EncodeFrameResidue(reserved, payload);
    assert Slice(data, 0, 6 + L) == frame;
    assert Slice(data, 3, 3 + L) == payload;
    GetMsgHeader(st, data);
  }

  /** An encoded frame, trailer included, leaves a zero CRC residue. */
  lemma EncodeFrameResidue(reserved: nat, payload: seq<byte>)
    requires reserved < 64 && |payload| <= 1023
    ensures Crc24q(EncodeFrame(reserved, payload)) == 0
  {
    var frame := EncodeFrame(reserved, payload);
    var hp := frame[..3 + |payload|];
    assert frame == hp + BigEndian3(Crc24q(hp));
    CrcZeroResidue(hp);
  }

  /** What `getmsg` as written takes for an accepted frame: the CRC over the first
      `6 + L` bytes that exist is zero. */
  predicate AcceptedAsWritten(data: seq<byte>)
  {
    |data| >= 3 && data[0] == Preamble && Crc24q(Slice(data, 0, 6 + LengthField(data))) == 0
  }

  /** A complete, intact frame at the front of the buffer. */
  predicate FrameValid(data: seq<byte>)
  {
    && |data| >= 3 && data[0] == Preamble
    && var L := LengthField(data);
       |data| >= 6 + L && data[3 + L..6 + L] == BigEndian3(Crc24q(data[..3 + L]))
  }

  /** A buffer that ends no later than its announced payload (`|data| <= 3 + L`) but
      whose bytes leave a zero CRC residue is accepted as written: the clamped slices
      make the CRC cover the whole buffer and the payload everything after the header,
      so `msgcontent` gets at most `L` bytes. Such a buffer is not intact. */
  lemma ShortBufferAccepted(st: Prime, data: seq<byte>)
    requires |data| >= 3 && data[0] == Preamble && |data| <= 3 + LengthField(data)
    requires Crc24q(data) == 0
    ensures !FrameValid(data) && AcceptedAsWritten(data)
    ensures GetMsg(st, data) == Success(Prime(Some(LengthField(data)), data[3..], 0))
  {
    var L := LengthField(data);
    SliceClamped(data, 0, 6 + L);
    SliceClamped(data, 3, 3 + L);
    assert data[0..] == data;
    GetMsgHeader(st, data);
  }

  /** As written, `getmsg` accepts a buffer cut short after the header and the CRC of
      the header alone: the clamped slice makes the CRC cover exactly those six bytes,
      which leave a zero residue. `msglen` becomes 5 while `msgcontent` receives three
      bytes, the would-be trailer. */
  lemma TruncatedFrameAccepted()
    ensures var h: seq<byte> := [Preamble, 0, 5];
            var data := h + BigEndian3(Crc24q(h));
            && !FrameValid(data) && AcceptedAsWritten(data)
            && GetMsg(Initial, data) == Success(Prime(Some(5), data[3..6], 0))
            && |GetMsg(Initial, data).value.msgcontent| != GetMsg(Initial, data).value.msglen.value
  {
    var h: seq<byte> := [Preamble, 0, 5];
    var data := h + BigEndian3(Crc24q(h));
    assert |data| == 6 && data[0] == Preamble;
    assert LengthField(data) == 5;
    CrcZeroResidue(h);
    ShortBufferAccepted(Initial, data);
  }

  /** As written, `getmsg` also accepts a buffer cut inside its trailer: three payload
      bytes after the header `D3 00 05`, then the CRC of those six bytes. The CRC slice
      clamps to all nine bytes, while the payload slice takes its full five bytes, two
      of which are trailer bytes. */
  lemma TrailerCutAccepted(a: seq<byte>)
    requires |a| == 3
    ensures var m: seq<byte> := [Preamble, 0, 5] + a;
            var data := m + BigEndian3(Crc24q(m));
            && !FrameValid(data) && AcceptedAsWritten(data)
            && GetMsg(Initial, data) == Success(Prime(Some(5), data[3..8], 0))
            && |GetMsg(Initial, data).value.msgcontent| == GetMsg(Initial, data).value.msglen.value
  {
    var m: seq<byte> := [Preamble, 0, 5] + a;
    var data := m + BigEndian3(Crc24q(m));
    assert |data| == 9 && data[0] == Preamble;
    assert LengthField(data) == 5;
    CrcZeroResidue(m);
    SliceClamped(data, 0, 11);
    assert data[0..] == data;
    GetMsgHeader(Initial, data);
  }

  /** A header announcing 100 payload bytes, followed by only 61 of them and the CRC
      of what is there: as written `getmsg` takes the 61 bytes and the three CRC bytes
      as the payload, while the frame is not intact. */
  lemma ShortFrameAccepted(payload: seq<byte>)
    requires |payload| == 61
    ensures var m := [Preamble, 0, 100] + payload;
            var data := m + BigEndian3(Crc24q(m));
            && !FrameValid(data) && AcceptedAsWritten(data)
            && GetMsg(Initial, data).Success?
            && GetMsg(Initial, data).value.msgcontent == payload + BigEndian3(Crc24q(m))
  {
    var m := [Preamble, 0, 100] + payload;
    var data := m + BigEndian3(Crc24q(m));
    assert |data| == 67 && data[0] == Preamble;
    assert LengthField(data) == 100;
    CrcZeroResidue(m);
    ShortBufferAccepted(Initial, data);
    DropHead([Preamble, 0, 100], payload, BigEndian3(Crc24q(m)));
  }

  /** `getmsg` with the evidently intended guard: the payload is taken only when the
      buffer holds the whole frame (`len(data) >= 6 + msglen`) and the CRC is zero.
      On every other path it behaves as written. */
  function GetMsgChecked(st: Prime, data: seq<byte>): (r: Result<Prime, FrameError>)
    ensures |data| == 0 || data[0] != Preamble ==> r == Success(st)
    ensures |data| > 0 && data[0] == Preamble && |data| < 3 ==> r.Failure?
  {
    match GetMsg(st, data)
    case Failure(e) => Failure(e)
    case Success(next) =>
      if next.msglen.Some? && |data| < 6 + next.msglen.value then Success(next.(msgcontent := st.msgcontent))
      else Success(next)
  }

  /** The corrected `getmsg` takes the payload exactly from intact frames, and what
      it takes is then exactly `msglen` bytes long. */
  lemma GetMsgCheckedAcceptsOnlyFullFrames(st: Prime, data: seq<byte>)
    requires |data| >= 3 && data[0] == Preamble
    ensures GetMsgChecked(st, data).Success?
    ensures var L := LengthField(data);
            var r := GetMsgChecked(st, data).value;
            && r.msglen == Some(L)
            && r.msgcontent == (if FrameValid(data) then data[3..3 + L] else st.msgcontent)
            && (FrameValid(data) ==> |r.msgcontent| == L)
  {
    GetMsgHeader(st, data);
    if |data| >= 6 + LengthField(data) {
      GetMsgCompleteFrame(st, data);
    }
  }

  /** On buffers holding the whole frame the correction changes nothing. */
  lemma GetMsgCheckedAgrees(st: Prime, data: seq<byte>)
    requires |data| >= 3 && data[0] == Preamble && |data| >= 6 + LengthField(data)
    ensures GetMsgChecked(st, data) == GetMsg(st, data)
  {
    GetMsgHeader(st, data);
  }

  /** Every encoded frame is intact. */
  lemma EncodeFrameValid(reserved: nat, payload: seq<byte>, rest: seq<byte>)
    requires reserved < 64 && |payload| <= 1023
    ensures FrameValid(EncodeFrame(reserved, payload) + rest)
  {
    EncodeFrameLayout(reserved, payload, rest);
    var frame := EncodeFrame(reserved, payload);
    var L := |payload|;
    assert (frame + rest)[3 + L..6 + L] == BigEndian3(Crc24q(frame[..3 + L]));
  }
}
