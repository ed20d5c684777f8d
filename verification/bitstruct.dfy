/** The part of the `bitstruct` library the decoder uses: `unpack(fmt, data)` for
    formats made of `u<w>` and `s<w>` fields. Fields are read from the data as one
    contiguous bit string, most significant bit first, each taking the next `w`
    bits; `u` fields are plain binary and `s` fields two's complement. Bits after
    the last field are ignored, and data holding fewer bits than the format needs
    is an error. Formats are given here already parsed into their field list. */
module Bitstruct {
  import opened Bits
  import opened Results

  /** One field of a format: `u<width>` or `s<width>`. */
  datatype FieldSpec = Unsigned(width: nat) | Signed(width: nat)

  /** What `bitstruct.unpack` raises when the data is too short for the format. */
  datatype UnpackError = NotEnoughBits(needed: nat, available: nat)

  /** The number of bits a format consumes. */
  function TotalWidth(fmt: seq<FieldSpec>): nat
  {
    if |fmt| == 0 then 0 else fmt[0].width + TotalWidth(fmt[1..])
  }

  lemma {:induction false} TotalWidthAppend(a: seq<FieldSpec>, b: seq<FieldSpec>)
    ensures TotalWidth(a + b) == TotalWidth(a) + TotalWidth(b)
  {
    if |a| == 0 {
      assert a + b == b;
    } else {
      assert (a + b)[1..] == a[1..] + b;
      TotalWidthAppend(a[1..], b);
    }
  }

  /** The first bit of field `i`: the sum of the widths of the fields before it. */
  function Offset(fmt: seq<FieldSpec>, i: nat): (o: nat)
    requires i <= |fmt|
    ensures o <= TotalWidth(fmt)
    ensures i < |fmt| ==> o + fmt[i].width <= TotalWidth(fmt)
  {
    assert fmt == fmt[..i] + fmt[i..];
    TotalWidthAppend(fmt[..i], fmt[i..]);
    TotalWidth(fmt[..i])
  }

  /** Field `i` ends where field `i + 1` starts, and the last field ends the format. */
  lemma OffsetNext(fmt: seq<FieldSpec>, i: nat)
    requires i < |fmt|
    ensures Offset(fmt, i + 1) == Offset(fmt, i) + fmt[i].width
  {
    assert fmt[..i + 1] == fmt[..i] + [fmt[i]];
    TotalWidthAppend(fmt[..i], [fmt[i]]);
    assert [fmt[i]][1..] == [];
  }

  lemma OffsetTail(fmt: seq<FieldSpec>, i: nat)
    requires 0 < i <= |fmt|
    ensures Offset(fmt, i) == fmt[0].width + Offset(fmt[1..], i - 1)
  {
    assert fmt[..i][0] == fmt[0];
    assert fmt[..i][1..] == fmt[1..][..i - 1];
  }

  /** The values a field of the given kind and width can take. */
  predicate InRange(f: FieldSpec, v: int)
  {
    match f
    case Unsigned(w) => 0 <= v < Pow2(w)
    case Signed(w) => if w == 0 then v == 0 else -(Pow2(w - 1) as int) <= v < Pow2(w - 1)
  }

  /** The integer one field's bits stand for. */
  function FieldValue(f: FieldSpec, b: seq<bool>): (v: int)
    requires |b| == f.width
    ensures InRange(f, v)
  {
    ValBound(b);
    match f
    case Unsigned(_) => Val(b)
    case Signed(w) =>
      if w > 0 then
        TopBit(b);
        if b[0] then Val(b) - Pow2(w) else Val(b)
      else
        assert b == Zeros(0);
        ValZeros(0);
        Val(b)
  }

  /** Two's complement, stated without the reading rule: the value of a field is
      the unsigned number its bits spell, or that number less 2^width; a `u` field
      is never negative, and an `s` field is negative exactly when its top bit is set. */
  lemma FieldValueMeaning(f: FieldSpec, b: seq<bool>)
    requires |b| == f.width
    ensures FieldValue(f, b) == Val(b) || FieldValue(f, b) == Val(b) - Pow2(f.width)
    ensures f.Unsigned? ==> FieldValue(f, b) >= 0
    ensures f.Signed? && f.width > 0 ==> (FieldValue(f, b) < 0 <==> b[0])
  {
    ValBound(b);
    if f.Signed? && f.width > 0 {
      TopBit(b);
    }
  }

  /** Those two candidates lie 2^width apart, so only one of them is in the field's
      range: the in-range value the bits can stand for is unique. */
  lemma FieldValueUnique(f: FieldSpec, b: seq<bool>, v: int)
    requires |b| == f.width && InRange(f, v)
    requires v == Val(b) || v == Val(b) - Pow2(f.width)
    ensures v == FieldValue(f, b)
  {
    var w := f.width;
    FieldValueMeaning(f, b);
    if w > 0 {
      assert Pow2(w) == 2 * Pow2(w - 1);
    }
  }

  /** The bits `bitstruct.pack` writes for one field value. */
  function FieldBits(f: FieldSpec, v: int): (b: seq<bool>)
    requires InRange(f, v)
    ensures |b| == f.width
  {
    NatBits(v % Pow2(f.width), f.width)
  }

  /** Reading back a written field value gives the value. */
  lemma FieldValueOfBits(f: FieldSpec, v: int)
    requires InRange(f, v)
    ensures FieldValue(f, FieldBits(f, v)) == v
  {
    if v >= 0 {
      NonNegativeField(f, v);
    } else {
      NegativeField(f, v);
    }
  }

  lemma NonNegativeField(f: FieldSpec, v: int)
    requires InRange(f, v) && v >= 0
    ensures FieldValue(f, FieldBits(f, v)) == v
  {
    var w := f.width;
    var b := FieldBits(f, v);
    if w > 0 {
      assert Pow2(w) == 2 * Pow2(w - 1);
    }
    ModOfSmall(v, Pow2(w));
    ValNatBits(v, w);
    if f.Signed? && w > 0 {
      TopBit(b);
    }
  }

  lemma NegativeField(f: FieldSpec, v: int)
    requires InRange(f, v) && v < 0
    ensures FieldValue(f, FieldBits(f, v)) == v
  {
    var w := f.width;
    var b := FieldBits(f, v);
    assert f.Signed? && w > 0;
    assert Pow2(w) == 2 * Pow2(w - 1);
    ModOfNegative(v, Pow2(w));
    ValNatBits(v + Pow2(w), w);
    TopBit(b);
  }

  /** Writing out a read field value gives the bits back. */
  lemma FieldBitsOfValue(f: FieldSpec, b: seq<bool>)
    requires |b| == f.width
    ensures FieldBits(f, FieldValue(f, b)) == b
  {
    var w := f.width;
    ValBound(b);
    NatBitsVal(b);
    var v := FieldValue(f, b);
    if v == Val(b) {
      ModOfSmall(Val(b), Pow2(w));
    } else {
      ModOfShifted(Val(b), Pow2(w));
    }
  }

  function Ones(n: nat): (s: seq<bool>)
    ensures |s| == n
  {
    seq(n, _ => true)
  }

  lemma {:induction false} ValOnes(n: nat)
    ensures Val(Ones(n)) == Pow2(n) - 1
  {
    if n > 0 {
      assert Ones(n)[..n - 1] == Ones(n - 1);
      ValOnes(n - 1);
    }
  }

  /** The extreme two's-complement patterns: 100...0 is the most negative value and
      011...1 the most positive. */
  lemma SignedExtremes(w: nat)
    requires w > 0
    ensures FieldValue(Signed(w), [true] + Zeros(w - 1)) == -(Pow2(w - 1) as int)
    ensures FieldValue(Signed(w), [false] + Ones(w - 1)) == Pow2(w - 1) - 1
  {
    var lo, hi := [true] + Zeros(w - 1), [false] + Ones(w - 1);
    assert lo[1..] == Zeros(w - 1) && hi[1..] == Ones(w - 1);
    ValHead(lo);
    ValHead(hi);
    ValZeros(w - 1);
    ValOnes(w - 1);
  }

  /** The values of every field of `fmt`, read from the front of `bits`. */
  function UnpackBits(fmt: seq<FieldSpec>, bits: seq<bool>): (vals: seq<int>)
    requires TotalWidth(fmt) <= |bits|
    ensures |vals| == |fmt|
    ensures forall i {:trigger InRange(fmt[i], vals[i])} :: 0 <= i < |fmt| ==> InRange(fmt[i], vals[i])
  {
    if |fmt| == 0 then []
    else
      var w := fmt[0].width;
      [FieldValue(fmt[0], bits[..w])] + UnpackBits(fmt[1..], bits[w..])
  }

  /** `bitstruct.unpack(fmt, data)`. */
  function Unpack(fmt: seq<FieldSpec>, data: seq<byte>): (r: Result<seq<int>, UnpackError>)
    ensures r.Success? <==> TotalWidth(fmt) <= 8 * |data|
    ensures r.Success? ==> |r.value| == |fmt|
    ensures r.Success? ==> forall i {:trigger InRange(fmt[i], r.value[i])} :: 0 <= i < |fmt| ==> InRange(fmt[i], r.value[i])
  {
    if 8 * |data| < TotalWidth(fmt) then Failure(NotEnoughBits(TotalWidth(fmt), 8 * |data|))
    else Success(UnpackBits(fmt, BytesBits(data)))
  }

  lemma SliceOfSlice(s: seq<bool>, a: nat, b: nat, n: nat, c: nat)
    requires c == a + b && c + n <= |s|
    ensures s[a..][b..b + n] == s[c..c + n]
  {
  }

  /** The bits of each field of `fmt`, cut from the front of `bits`. */
  function FieldSlices(fmt: seq<FieldSpec>, bits: seq<bool>): (slices: seq<seq<bool>>)
    requires TotalWidth(fmt) <= |bits|
    ensures |slices| == |fmt|
    ensures forall i {:trigger slices[i]} :: 0 <= i < |fmt| ==> |slices[i]| == fmt[i].width
  {
    if |fmt| == 0 then []
    else
      var w := fmt[0].width;
      [bits[..w]] + FieldSlices(fmt[1..], bits[w..])
  }

  /** Each value is read from its field's bits. */
  lemma {:induction false} UnpackSlices(fmt: seq<FieldSpec>, bits: seq<bool>, i: nat)
    requires TotalWidth(fmt) <= |bits| && i < |fmt|
    ensures UnpackBits(fmt, bits)[i] == FieldValue(fmt[i], FieldSlices(fmt, bits)[i])
  {
    if i > 0 {
      UnpackSlices(fmt[1..], bits[fmt[0].width..], i - 1);
    }
  }

  /** Field `i`'s bits are bits [Offset(i), Offset(i) + width). */
  lemma {:induction false} SliceAt(fmt: seq<FieldSpec>, bits: seq<bool>, i: nat)
    requires TotalWidth(fmt) <= |bits| && i < |fmt|
    ensures FieldSlices(fmt, bits)[i] == bits[Offset(fmt, i)..Offset(fmt, i) + fmt[i].width]
  {
    var w := fmt[0].width;
    if i == 0 {
      assert Offset(fmt, 0) == 0 by {
        assert fmt[..0] == [];
      }
    } else {
      var rest := fmt[1..];
      assert TotalWidth(fmt) == w + TotalWidth(rest);
      SliceAt(rest, bits[w..], i - 1);
      OffsetTail(fmt, i);
      SliceOfSlice(bits, w, Offset(rest, i - 1), fmt[i].width, Offset(fmt, i));
    }
  }

  /** Field `i` is read from bits [Offset(i), Offset(i) + width) and nowhere else. */
  lemma UnpackFieldAt(fmt: seq<FieldSpec>, bits: seq<bool>, i: nat)
    requires TotalWidth(fmt) <= |bits| && i < |fmt|
    ensures UnpackBits(fmt, bits)[i]
         == FieldValue(fmt[i], bits[Offset(fmt, i)..Offset(fmt, i) + fmt[i].width])
  {
    UnpackSlices(fmt, bits, i);
    SliceAt(fmt, bits, i);
  }

  /** Bits after the last field never influence the result. */
  lemma {:induction false} UnpackIgnoresTail(fmt: seq<FieldSpec>, bits: seq<bool>, extra: seq<bool>)
    requires TotalWidth(fmt) <= |bits|
    ensures UnpackBits(fmt, bits + extra) == UnpackBits(fmt, bits)
  {
    if |fmt| > 0 {
      var w := fmt[0].width;
      assert (bits + extra)[..w] == bits[..w];
      assert (bits + extra)[w..] == bits[w..] + extra;
      UnpackIgnoresTail(fmt[1..], bits[w..], extra);
    }
  }

  /** The field values written back to back: `bitstruct.pack(fmt, *vals)`. */
  function PackBits(fmt: seq<FieldSpec>, vals: seq<int>): (bits: seq<bool>)
    requires |vals| == |fmt|
    requires forall i {:trigger InRange(fmt[i], vals[i])} :: 0 <= i < |fmt| ==> InRange(fmt[i], vals[i])
    ensures |bits| == TotalWidth(fmt)
  {
    if |fmt| == 0 then []
    else FieldBits(fmt[0], vals[0]) + PackBits(fmt[1..], vals[1..])
  }

  /** Unpacking what was packed gives back the values. */
  lemma {:induction false} UnpackPack(fmt: seq<FieldSpec>, vals: seq<int>)
    requires |vals| == |fmt|
    requires forall i {:trigger InRange(fmt[i], vals[i])} :: 0 <= i < |fmt| ==> InRange(fmt[i], vals[i])
    ensures UnpackBits(fmt, PackBits(fmt, vals)) == vals
  {
    if |fmt| > 0 {
      var bits := PackBits(fmt, vals);
      var w := fmt[0].width;
      assert bits[..w] == FieldBits(fmt[0], vals[0]);
      assert bits[w..] == PackBits(fmt[1..], vals[1..]);
      FieldValueOfBits(fmt[0], vals[0]);
      UnpackPack(fmt[1..], vals[1..]);
    }
  }

  /** Packing what was unpacked gives back the bits the format covers. */
  lemma {:induction false} PackUnpack(fmt: seq<FieldSpec>, bits: seq<bool>)
    requires TotalWidth(fmt) <= |bits|
    ensures PackBits(fmt, UnpackBits(fmt, bits)) == bits[..TotalWidth(fmt)]
  {
    if |fmt| > 0 {
      var w, rest := fmt[0].width, fmt[1..];
      var n := TotalWidth(rest);
      assert TotalWidth(fmt) == w + n;
      var vals := UnpackBits(fmt, bits);
      assert vals == [FieldValue(fmt[0], bits[..w])] + UnpackBits(rest, bits[w..]);
      DropFirst(FieldValue(fmt[0], bits[..w]), UnpackBits(rest, bits[w..]));
      FieldBitsOfValue(fmt[0], bits[..w]);
      PackUnpack(rest, bits[w..]);
      TakeConcat(bits, w, n);
    }
  }

  /** `unpack` reads field `i` MSB first from bits [Offset(i), Offset(i) + width) of
      the data, and nowhere else. */
  lemma UnpackField(fmt: seq<FieldSpec>, data: seq<byte>, i: nat)
    requires TotalWidth(fmt) <= 8 * |data| && i < |fmt|
    ensures Unpack(fmt, data).Success?
    ensures Unpack(fmt, data).value[i]
         == FieldValue(fmt[i], BytesBits(data)[Offset(fmt, i)..Offset(fmt, i) + fmt[i].width])
  {
    UnpackFieldAt(fmt, BytesBits(data), i);
  }

  /** Bytes after those the format covers never influence `unpack`. */
  lemma UnpackBytesPrefix(fmt: seq<FieldSpec>, data: seq<byte>, k: nat)
    requires TotalWidth(fmt) <= 8 * k && k <= |data|
    ensures Unpack(fmt, data) == Unpack(fmt, data[..k])
  {
    BytesBitsPrefix(data, k);
    var bits := BytesBits(data);
    assert bits == bits[..8 * k] + bits[8 * k..];
    UnpackIgnoresTail(fmt, bits[..8 * k], bits[8 * k..]);
  }

  /** A record packed into whole bytes unpacks to its values. */
  lemma UnpackPackBytes(fmt: seq<FieldSpec>, vals: seq<int>)
    requires TotalWidth(fmt) % 8 == 0 && |vals| == |fmt|
    requires forall i {:trigger InRange(fmt[i], vals[i])} :: 0 <= i < |fmt| ==> InRange(fmt[i], vals[i])
    ensures Unpack(fmt, BitsBytes(PackBits(fmt, vals))) == Success(vals)
  {
    BitsBytesInverse(PackBits(fmt, vals));
    UnpackPack(fmt, vals);
  }

  /** Packing what `unpack` read gives back the bytes the format covers. */
  lemma PackUnpackBytes(fmt: seq<FieldSpec>, data: seq<byte>, k: nat)
    requires TotalWidth(fmt) == 8 * k && k <= |data|
    ensures Unpack(fmt, data).Success?
    ensures BitsBytes(PackBits(fmt, Unpack(fmt, data).value)) == data[..k]
  {
    PackUnpack(fmt, BytesBits(data));
    BytesBitsPrefix(data, k);
    BytesBitsInverse(data[..k]);
  }

  /** One step of the pass: reading field `i` at the running offset extends the
      values read so far, and the next field starts where it ends. */
  lemma UnpackNext(fmt: seq<FieldSpec>, bits: seq<bool>, i: nat, vals: seq<int>, offset: nat)
    requires TotalWidth(fmt) <= |bits| && i < |fmt|
    requires offset == Offset(fmt, i) && vals == UnpackBits(fmt, bits)[..i]
    ensures offset + fmt[i].width <= |bits|
    ensures Offset(fmt, i + 1) == offset + fmt[i].width
    ensures vals + [FieldValue(fmt[i], bits[offset..offset + fmt[i].width])] == UnpackBits(fmt, bits)[..i + 1]
  {
    OffsetNext(fmt, i);
    UnpackFieldAt(fmt, bits, i);
    TakeNext(UnpackBits(fmt, bits), i);
  }

  /** The field loop of `bitstruct.unpack`: one pass over the fields with a running
      bit offset. */
  method UnpackFields(fmt: seq<FieldSpec>, bits: seq<bool>) returns (vals: seq<int>)
    requires TotalWidth(fmt) <= |bits|
    ensures vals == UnpackBits(fmt, bits)
  {
    vals := [];
    var offset := 0;
    TakeAll(UnpackBits(fmt, bits));
    assert Offset(fmt, 0) == 0 by {
      assert fmt[..0] == [];
    }
    for i := 0 to |fmt|
      invariant offset == Offset(fmt, i)
      invariant vals == UnpackBits(fmt, bits)[..i]
    {
      var w := fmt[i].width;
      UnpackNext(fmt, bits, i, vals, offset);
      vals := vals + [FieldValue(fmt[i], bits[offset..offset + w])];
      offset := offset + w;
    }
  }

  /** `bitstruct.unpack` as the library runs it: the length check, then the field loop. */
  method UnpackLoop(fmt: seq<FieldSpec>, data: seq<byte>) returns (r: Result<seq<int>, UnpackError>)
    ensures r == Unpack(fmt, data)
  {
    var bits := BytesBits(data);
    var total := TotalWidth(fmt);
    if |bits| < total {
      return Failure(NotEnoughBits(total, |bits|));
    }
    var vals := UnpackFields(fmt, bits);
    return Success(vals);
  }
}
