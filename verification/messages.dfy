/** The message descriptor table `_getcontent` (src/rtcmDecoder.py lines 42-78).
    Only message 1019, the GPS ephemeris of RTCM 10403.x section 3.5, has a layout:
    a 31-field bitstruct format together with a parallel list of printed labels
    and a parallel list of scale factors. Each scale factor is a power of two and
    is kept here as its exponent: `1` is 0, `P2_k` (2^-k) is -k and `P2_P4` (16) is 4. */
module Messages {
  import opened Bits
  import opened Bitstruct
  import opened Results

  /** The three values `_getcontent` returns together. */
  datatype Content = Content(format: seq<FieldSpec>, labels: seq<string>, coeffExponents: seq<int>)

  /** The `UnboundLocalError` raised at the `return` of `_getcontent`: for message 1002
      the format and labels are bound but `coeff` is not; for any other type nothing is. */
  datatype LookupError = CoeffUnbound | FormatUnbound

  /** `u12u6u10u4s2s14u8u16s8s16s22u10s16s16s32s16u32s16u32u16s16s32s16s32s16s32s24s8u6s1s1`,
      written as its three groups of fields. */
  const Format1019: seq<FieldSpec> := Clock1019 + Orbit1019 + Status1019

  /** Message type, satellite, week, accuracy, L2 code, IDOT, IODE, toc, af2, af1, af0, IODC. */
  const Clock1019: seq<FieldSpec> := [
    Unsigned(12), Unsigned(6), Unsigned(10), Unsigned(4), Signed(2), Signed(14),
    Unsigned(8), Unsigned(16), Signed(8), Signed(16), Signed(22), Unsigned(10)
  ]

  /** The broadcast orbit: its in-plane half, then the orientation of its plane. */
  const Orbit1019: seq<FieldSpec> := InPlane1019 + Orientation1019

  /** Crs, delta n, M0, Cuc, e, Cus, sqrt A, toe. */
  const InPlane1019: seq<FieldSpec> := [
    Signed(16), Signed(16), Signed(32), Signed(16), Unsigned(32), Signed(16), Unsigned(32), Unsigned(16)
  ]

  /** Cic, Omega0, Cis, i0, Crc, omega, Omega dot. */
  const Orientation1019: seq<FieldSpec> := [
    Signed(16), Signed(32), Signed(16), Signed(32), Signed(16), Signed(32), Signed(24)
  ]

  /** tGD, SV health, L2 P data flag, fit interval. */
  const Status1019: seq<FieldSpec> := [Signed(8), Unsigned(6), Signed(1), Signed(1)]

  const Labels1019: seq<string> := [
    "Message type: ", "Satellite ID: ", "Week Number: ", "SV Accuracy: ", "CODE ON L2: ",
    "IDOT: ", "IODE: ", "toc: ", "af2: ", "af1: ", "af0: ", "IODC: ", "Crs: ",
    "\U{2206}n: ", "M0: ", "Cuc: ", "e: ", "Cus: ", "A\U{BD}: ", "toe: ", "Cic: ",
    "\U{3A9}0: ", "Cis: ", "i0: ", "Crc: ", "\U{3C9}: ", "\U{3A9}.: ", "tGD: ",
    "SV HEALTH: ", "L2 P data flag: ", "Fit Interval: "
  ]

  const CoeffExponents1019: seq<int> := [
    0, 0, 0, 0, 0, -43, 0, 4, -55, -43, -31, 0, -5, -43, -31, -29, -33,
    -29, -19, 4, -29, -31, -29, -31, -5, -31, -43, -31, 0, 0, 0
  ]

  /** `_getcontent(msgtype)`. */
  function GetContent(msgtype: int): (r: Result<Content, LookupError>)
    ensures r.Success? <==> msgtype == 1019
    ensures r.Success? ==> r.value.format == Format1019
    ensures r.Success? ==> r.value == Content(Format1019, Labels1019, CoeffExponents1019)
    ensures msgtype == 1002 ==> r == Failure(CoeffUnbound)
    ensures msgtype != 1002 && msgtype != 1019 ==> r == Failure(FormatUnbound)
  {
    if msgtype == 1002 then Failure(CoeffUnbound)
    else if msgtype == 1019 then Success(Content(Format1019, Labels1019, CoeffExponents1019))
    else Failure(FormatUnbound)
  }

  /** The 1019 layout: 31 fields, 488 bits (61 bytes), the three lists aligned
      index for index, and the message type first. */
  lemma Layout1019()
    ensures |Format1019| == 31 && |Labels1019| == 31 && |CoeffExponents1019| == 31
    ensures TotalWidth(Format1019) == 488 == 8 * 61
    ensures Format1019[0] == Unsigned(12) && Labels1019[0] == "Message type: "
    ensures Format1019[4] == Signed(2) && Format1019[29] == Signed(1) && Format1019[30] == Signed(1)
    ensures Labels1019[4] == "CODE ON L2: " && Labels1019[29] == "L2 P data flag: " && Labels1019[30] == "Fit Interval: "
  {
    Width1019();
  }

  /** The groups take 128, 176 + 168 and 16 bits. */
  lemma Width1019()
    ensures TotalWidth(Format1019) == 488
  {
    ClockWidth();
    OrbitWidth();
    assert TotalWidth(Status1019) == 16;
    TotalWidthAppend(Clock1019, Orbit1019);
    TotalWidthAppend(Clock1019 + Orbit1019, Status1019);
  }

  lemma ClockWidth()
    ensures TotalWidth(Clock1019) == 128
  {
  }

  lemma OrbitWidth()
    ensures TotalWidth(Orbit1019) == 344
  {
    assert TotalWidth(InPlane1019) == 176;
    assert TotalWidth(Orientation1019) == 168;
    TotalWidthAppend(InPlane1019, Orientation1019);
  }

  /** The two one-bit flags closing message 1019 are read as signed: a set bit is -1. */
  lemma FlagBitIsMinusOne()
    ensures FieldValue(Format1019[29], [true]) == -1
    ensures FieldValue(Format1019[30], [false]) == 0
  {
    assert [true][..0] == [];
    assert [false][..0] == [];
  }
}
