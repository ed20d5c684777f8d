# PRIME RTCM3 decoder, modelled in Dafny

PRIME reads an RTCM3 frame sent by a GNSS reference station and decodes the
GPS ephemeris it carries (message 1019). This project models the decoding path
of `src/rtcmDecoder.py`, with a byte buffer in place of the file:

- **Frame extraction** (`PRIME.getmsg`). It checks for the 0xD3 preamble and
  unpacks the `u8u6u10` header to get the payload length L. It then runs
  CRC-24Q over the first `6 + L` bytes and takes the payload `data[3:3+L]`
  when the CRC is zero.
- **The descriptor table** (`_getcontent`). Message 1019 maps to a 31-field
  bitstruct layout, with parallel lists of labels and scale factors. The
  1019 format string sums to 488 bits (61 bytes). Message 1002 and every
  other type fail.
- **The bitfield decoder** (`PRIME.decodemsg`). It reads the leading 12-bit
  message type, looks up the layout and unpacks the payload MSB first. The
  result is the raw integers: `u` fields are unsigned, `s` fields two's
  complement.

Modules, one file each:

- `Results` (`results.dfy`): `Option` and `Result`. These stand in for
  Python's `None` and for raised exceptions.
- `Bits` (`bits.dfy`): bytes and MSB-first bit strings, and conversions
  between them, including the big-endian CRC trailer.
- `Crc` (`crc24q.dfy`): CRC-24Q with polynomial 0x1864CFB, non-reflected,
  initial value 0, no final xor. It is modelled as a 24-bit shift register.
  Its properties are the zero residue, the exact trailer test and the
  detection of every single-bit error.
- `Bitstruct` (`bitstruct.dfy`): the semantics of `bitstruct.unpack` and
  `bitstruct.pack` for `u`/`s` formats. It has a pure definition and a
  one-pass loop proved equal to it.
- `Messages` (`messages.dfy`): `_getcontent` and the 1019 layout. Scale
  factors are kept as power-of-two exponents: `P2_k` is -k and `P2_P4` is 4.
- `Frame` (`frame.dfy`): `getmsg` over a `Prime` state record holding
  `msglen`, `msgcontent` and `crcValue`. It has both the code as written and
  the corrected guard (see Findings).
- `Decoder` (`decoder.dfy`): `decodemsg`, and the receive path of `main.py`
  (`getmsg`, then `decodemsg`), both as written and with the corrected
  `getmsg`.

## Model

| member | source | states |
|---|---|---|
| Frame.GetMsg | src/rtcmDecoder.py:23-29 | A buffer that is empty or does not start with 0xD3 leaves the whole state untouched and returns it. A buffer that starts with 0xD3 but is shorter than the 3 header bytes is an error. |
| Frame.Slice | src/rtcmDecoder.py:26 | A Python slice past the end is clamped: it equals the exact slice when the bounds fit, and is empty when it starts past the end. |
| Frame.HeaderLength | src/rtcmDecoder.py:24-25 | Unpacking `u8u6u10` from the first three bytes succeeds and its third value is `(data[1] mod 4) * 256 + data[2]`. |
| Frame.ReservedBitsIgnored | src/rtcmDecoder.py:24-25 | `msglen` is at most 1023, and rewriting the six reserved bits of byte 1 never changes it. |
| Frame.GetMsgHeader | src/rtcmDecoder.py:24-28 | On a buffer with preamble and header, `msglen` becomes L and `crcValue` the CRC of the first `6 + L` bytes that exist. `msgcontent` becomes `data[3:3+L]` when that CRC is zero and keeps its old value otherwise. |
| Frame.GetMsgCompleteFrame | src/rtcmDecoder.py:26-28 | When the buffer holds all `6 + L` bytes, the payload is taken exactly when the trailer equals the big-endian CRC of header and payload; otherwise the old payload stays. |
| Frame.GetMsgFrameRoundTrip | src/rtcmDecoder.py:23-29 | For every payload of at most 1023 bytes, any reserved bits, any trailing bytes and any prior state, `getmsg` on the encoded frame returns length `\|p\|`, payload `p` and CRC value 0. |
| Frame.EncodeFrameResidue | src/rtcmDecoder.py:26-27 | A frame built with its own CRC trailer leaves a zero CRC residue. |
| Frame.TruncatedFrameAccepted | src/rtcmDecoder.py:26-28 | As written, the six-byte buffer `D3 00 05` plus the CRC of those three bytes is not a valid frame, yet it is accepted: `msglen` is 5 and `msgcontent` holds only 3 bytes. |
| Frame.ShortBufferAccepted | src/rtcmDecoder.py:26-28 | As written, a buffer is accepted when it starts with 0xD3, ends no later than its announced payload (`len(data) <= 3 + msglen`), and its bytes leave a zero CRC residue. `msglen` is the length field, the payload is everything after the header (at most `msglen` bytes), and the buffer is not an intact frame. |
| Frame.TrailerCutAccepted | src/rtcmDecoder.py:26-28 | As written, a buffer cut inside its trailer is also accepted: `D3 00 05`, three payload bytes, then the CRC of those six bytes (9 bytes in all). The buffer is not an intact frame, `msglen` is 5, and `msgcontent` gets exactly 5 bytes, the last two of them trailer bytes. |
| Frame.ShortFrameAccepted | src/rtcmDecoder.py:26-28 | Take header `D3 00 64`, any 61 bytes, and the CRC of those 64 bytes. As written, `getmsg` accepts this and takes the 61 bytes plus the 3 CRC bytes as the payload, though the frame is not intact. |
| Frame.GetMsgChecked | src/rtcmDecoder.py:23-29 | The corrected `getmsg` keeps the as-written behaviour for non-preamble and header-less buffers. |
| Frame.GetMsgCheckedAcceptsOnlyFullFrames | src/rtcmDecoder.py:26-28 | The corrected `getmsg` sets `msglen` to L and takes the payload exactly when the buffer holds an intact frame, and the payload it takes is then exactly L bytes long. |
| Frame.GetMsgCheckedAgrees | src/rtcmDecoder.py:23-29 | On buffers holding the whole frame, the correction and the code as written give the same result. |
| Frame.EncodeFrameValid | src/rtcmDecoder.py:23-28 | Every encoded frame, followed by anything, is an intact frame. |
| Crc.Crc24q | src/rtcmDecoder.py:11 | The CRC is a 24-bit value. |
| Crc.ShiftZeroIff | src/rtcmDecoder.py:11 | `Step`, one shift of the register: shifting in a zero bit yields the zero register exactly from the zero register, because the x^0 tap feeds the bit leaving the top back in at the bottom. |
| Crc.StepLinear | src/rtcmDecoder.py:11 | `Step` is linear over GF(2): stepping the xor of two registers with the xor of two bits gives the xor of the two steps. |
| Crc.FeedAppend | src/rtcmDecoder.py:11 | `Feed`, the register run over a bit string: running it over `a + b` equals running it over `a` and then over `b`. |
| Crc.FlushZeroIff | src/rtcmDecoder.py:11 | `Feed` over any number of zero bits leaves the zero register exactly when it started from the zero register. |
| Crc.AbsorbBits | src/rtcmDecoder.py:11 | Shifting up to 24 message bits into the register is the same as xoring them into its top and shifting in zeros. |
| Crc.TrailerClearsIff | src/rtcmDecoder.py:11 | Shifting 24 bits into a register leaves zero exactly when those bits equal the register. |
| Crc.CrcTrailerIff | src/rtcmDecoder.py:26-27 | For every message m and three bytes t, the CRC of `m + t` is zero exactly when t is the big-endian CRC of m. No other trailer passes. |
| Crc.CrcZeroResidue | src/rtcmDecoder.py:26-27 | Appending a message's own big-endian CRC gives a zero CRC. |
| Crc.FeedLinear | src/rtcmDecoder.py:11 | The register update is linear over GF(2) in register and message together. |
| Crc.CrcDetectsSingleBitError | src/rtcmDecoder.py:11 | Flipping any single bit of the checked bytes changes the CRC, because the polynomial has an x^0 term. |
| Bits.BigEndian3Bits | src/rtcmDecoder.py:26-27 | The three trailer bytes carry exactly the 24 CRC bits, most significant first. |
| Bits.BytesBitsInverse | src/rtcmDecoder.py:24 | Packing the bits of a byte string back into bytes gives the byte string. |
| Bitstruct.Unpack | src/rtcmDecoder.py:34 | `unpack` succeeds exactly when the data holds at least the format's total width in bits. It then yields one value per field, each in its field's range. |
| Bitstruct.UnpackBits | src/rtcmDecoder.py:34 | One value per field, a `u` field of width w in [0, 2^w) and an `s` field in [-2^(w-1), 2^(w-1)). |
| Bitstruct.UnpackFieldAt | src/rtcmDecoder.py:34 | Field i is read from bits [offset, offset + width), where the offset is the sum of the widths before it, and from nowhere else. |
| Bitstruct.UnpackField | src/rtcmDecoder.py:34 | The same for `unpack` on bytes: field i comes from bits [Offset(i), Offset(i) + width) of the data. |
| Bitstruct.FieldValue | src/rtcmDecoder.py:34 | The value read from one `u` or `s` field lies in that field's range: [0, 2^w) for `u`, and [-2^(w-1), 2^(w-1)) for `s`. |
| Bitstruct.FieldValueMeaning | src/rtcmDecoder.py:34 | Two's complement: a field's value is the unsigned number its bits spell, or that number less 2^w. A `u` field is never negative, and an `s` field is negative exactly when its top bit is set. |
| Bitstruct.FieldValueUnique | src/rtcmDecoder.py:34 | Of those two candidates, the value read is the only one in the field's range. |
| Bitstruct.UnpackFields | src/rtcmDecoder.py:34 | One loop over the fields with a running bit offset produces exactly the values of `unpack`. |
| Bitstruct.UnpackIgnoresTail | src/rtcmDecoder.py:34 | Bits after the last field never influence the values. |
| Bitstruct.UnpackBytesPrefix | src/rtcmDecoder.py:34 | Bytes after those the format covers never influence `unpack`. |
| Bitstruct.FieldValueOfBits | src/rtcmDecoder.py:71 | Writing any in-range value into a `u` or `s` field and reading it back gives the value. |
| Bitstruct.FieldBitsOfValue | src/rtcmDecoder.py:71 | Reading any field's bits and writing the value back gives the bits. |
| Bitstruct.SignedExtremes | src/rtcmDecoder.py:71 | In an `s` field, 100…0 reads as -2^(w-1) and 011…1 as 2^(w-1) - 1. |
| Bitstruct.UnpackPack | src/rtcmDecoder.py:34 | Unpacking packed in-range values gives the values back. |
| Bitstruct.PackUnpack | src/rtcmDecoder.py:34 | Packing unpacked values gives back the bits the format covers. |
| Bitstruct.UnpackPackBytes | src/rtcmDecoder.py:34 | A record packed into whole bytes unpacks to its values. |
| Bitstruct.PackUnpackBytes | src/rtcmDecoder.py:34 | Packing what `unpack` read gives back the bytes the format covers. |
| Bitstruct.UnpackLoop | src/rtcmDecoder.py:34 | A single pass over the fields with a running bit offset computes exactly `unpack`, errors included. |
| Messages.GetContent | src/rtcmDecoder.py:67-78 | A layout exists exactly for type 1019, and it is the 1019 format with its labels and coefficient exponents. Type 1002 fails on the unbound coefficient list, and every other type on the unbound format string. |
| Messages.Layout1019 | src/rtcmDecoder.py:71-77 | Format, labels and coefficients have 31 entries each. The widths sum to 488 bits (61 bytes). Field 0 is `u12`, labelled as the message type. Field 4, labelled `CODE ON L2`, is `s2`. The last two fields, labelled `L2 P data flag` and `Fit Interval`, are `s1`. |
| Messages.FlagBitIsMinusOne | src/rtcmDecoder.py:71 | A set bit in the `s1` flags decodes to -1, and a clear bit to 0. |
| Decoder.ReadType | src/rtcmDecoder.py:32 | Reading the `u12` type succeeds exactly on payloads of at least two bytes. |
| Decoder.LeadingBits | src/rtcmDecoder.py:32 | The leading 12 bits of the payload are `data[0] * 16 + data[1] / 16`. |
| Decoder.TypeField | src/rtcmDecoder.py:32 | The type read is `data[0] * 16 + data[1] / 16`. |
| Decoder.DecodeAsOutcome | src/rtcmDecoder.py:33-34 | After the type is read: 1002 fails with the unbound coefficient list, and any type other than 1019 with the unbound format. 1019 fails on fewer than 61 bytes and otherwise unpacks the 1019 layout. |
| Decoder.DecodeMsgOutcome | src/rtcmDecoder.py:32-34 | `decodemsg` fails on fewer than 2 bytes, on types 1002 and others, and on a 1019 payload shorter than 61 bytes. It succeeds exactly when the payload has at least 61 bytes and type 1019. |
| Decoder.DecodeMsgValue | src/rtcmDecoder.py:34-40 | A successful `decodemsg` returns the raw values of `unpack` with the 1019 layout. |
| Decoder.DecodeMsgType | src/rtcmDecoder.py:32-34 | A successful decoding has 31 values, and the first equals the type read at line 32. |
| Decoder.FirstFieldIsType | src/rtcmDecoder.py:32-34 | Any layout that opens with `u12` reads the type as its first value. |
| Decoder.DecodeMsgFields | src/rtcmDecoder.py:34 | Field i of a 1019 decoding comes from bits [Offset(i), Offset(i) + width) of the payload and lies in its field's range. |
| Decoder.DecodeMsgIgnoresTail | src/rtcmDecoder.py:34 | Bytes after the 61st never change the decoding. |
| Decoder.Encode1019 | src/rtcmDecoder.py:71 | Any in-range 1019 record packs into exactly 61 bytes. |
| Decoder.DecodeEncode | src/rtcmDecoder.py:32-40 | `decodemsg` recovers every in-range 1019 record whose first value is 1019. |
| Decoder.EncodeDecode | src/rtcmDecoder.py:32-40 | Whatever `decodemsg` accepts is an in-range record whose encoding is the first 61 payload bytes. |
| Decoder.DecodeAs | src/rtcmDecoder.py:33-34 | Decoding under a given type succeeds exactly for type 1019 and a payload of at least 61 bytes. The values are then 31 in-range raw values, and the first is the type the payload opens with. |
| Decoder.DecodeMsg | src/rtcmDecoder.py:31-40 | `decodemsg` succeeds exactly on payloads of at least 61 bytes whose leading 12 bits are 1019. It then returns 31 values, each in its field's range, the first being 1019. |
| Decoder.Receive | main.py:10-12 | With the corrected `getmsg`, values come out only of an intact frame, and they form an in-range 1019 record. |
| Decoder.ReceiveAsWritten | main.py:10-12 | As written, values come out only of a buffer that starts with 0xD3 and whose CRC over the clamped slice `data[0:6+msglen]` is zero, intact or not. They form an in-range 1019 record. |
| Decoder.EmptyFrameNotDecoded | main.py:10-12 | As written, a CRC pass alone does not yield values: the intact frame `D3 00 00` plus its CRC is accepted by `getmsg` with `msglen` 0 and an empty `msgcontent`, and then `decodemsg` fails to read the type. |
| Decoder.ReceiveAgrees | main.py:10-12 | On a buffer holding the whole frame, the path as written and the corrected path give the same result. |
| Decoder.TruncatedReceiveAccepted | main.py:10-12 | For every in-range 1019 record, take the 67-byte buffer `D3 00 64`, then the 61-byte encoding, then the CRC of those 64 bytes. It is not an intact frame, since the header announces 100 payload bytes. The path as written still decodes the record from it, and the corrected path rejects it. |
| Decoder.ReceiveOnlyIntactFrames | main.py:10-12 | With the corrected `getmsg`, the `getmsg`-then-`decodemsg` path yields values only for an intact frame, and those are the decoding of that frame's payload. |
| Decoder.ReceiveRoundTrip | main.py:10-12 | With the corrected `getmsg`, a 1019 record sent in a well-formed frame, with any reserved bits and any trailing bytes, is received intact. |

## Left out

- The file read in `getmsg` (src/rtcmDecoder.py:20-22). `getmsg` takes the buffer the read would return.
- The printout of scaled values (src/rtcmDecoder.py:36-39). It is output formatting over floating point. `decodemsg` returns the raw integers, and that is what is modelled.
- The decimal scale constants (src/rtcmDecoder.py:43-65). Each is a power of two and is kept as its exponent.
- The writes of `decodemsg` to `self.msgtype`, `self.msgdecodestr`, `self.msgoutput`, `self.coeff` and `self.msgdecoded`. Nothing in the modelled path reads them back. `decodemsg` is modelled as a pure function of the payload.
- The code of `crcmod` and `bitstruct`. Their semantics are written down directly: a textbook MSB-first shift register, and contiguous MSB-first fields. Formats are given as lists of field specs, not parsed from the format strings. Only `u` and `s` fields occur in this code.
- `msgcontent` starts as the empty string `''`, not as bytes. It is modelled as an empty byte sequence; decoding it fails in both cases.
- `main.py` does nothing beyond its two calls. `ReceiveAsWritten` composes them on a fresh object exactly as written, and `Receive` does the same with the corrected `getmsg`. The commented-out `pyrtcm` cross-check is not modelled.
- Frame scanning and resynchronisation. The code looks at the first byte only, and so does the model.
- Where the code departs from the transport rules of RTCM 10403.x (section 4), the model follows the code:
  - A bad preamble returns the previous pair instead of failing or searching for the next frame.
  - A CRC mismatch returns the previous payload instead of failing.
  - No truncation check exists (see Findings).
- Further behaviour of the code that the model keeps:
  - There is no check that the decoded type matches the descriptor. `Decoder.DecodeMsgType` shows that they always agree.
  - Message 1002 has no layout.
  - The angle scale factors carry no factor of pi, so those values stay in semicircles.

## Findings

| source | as written | input that shows it | evidently intended | confidence | as-written member | corrected member |
|---|---|---|---|---|---|---|
| src/rtcmDecoder.py:26-28 | The CRC is taken over `data[0:6+msglen]`, which Python clamps to the buffer. A buffer shorter than the declared frame can therefore pass. `msgcontent` then gets at most `msglen` bytes. When the cut falls inside the trailer, it gets exactly `msglen` bytes, and some of them are trailer bytes. | `D3 00 05` followed by the 3-byte big-endian CRC-24Q of `D3 00 05` (6 bytes): `msglen` = 5, the CRC over all 6 bytes is 0, and `msgcontent` is the 3 trailer bytes. Also `D3 00 05`, three bytes, then the CRC of those six (9 bytes, `Frame.TrailerCutAccepted`): `msgcontent` is 5 bytes, two of them from the trailer. | Accept only when the buffer holds all `6 + msglen` bytes and the CRC is zero. | not executed | Frame.TruncatedFrameAccepted | Frame.GetMsgCheckedAcceptsOnlyFullFrames |
| main.py:10-12 | `decodemsg` is applied to whatever `getmsg` left in `msgcontent`. A buffer cut short inside its frame can therefore yield decoded values. | For any in-range 1019 record: `D3 00 64`, then the record's 61-byte encoding, then the CRC-24Q of those 64 bytes (67 bytes in all). The header announces 100 payload bytes, yet the record is decoded. | Decode only the payload of an intact frame. | not executed | Decoder.TruncatedReceiveAccepted | Decoder.ReceiveOnlyIntactFrames |
