/** CRC-24Q as the decoder configures it (src/rtcmDecoder.py line 11): generator
    polynomial 0x1864CFB, most-significant bit first, no reflection, initial
    register 0, no final xor. The algorithm is the textbook shift register: each
    message bit is compared with the bit leaving the top of a 24-bit register and,
    when they differ, the polynomial's low 24 coefficients are xored in. */
module Crc {
  import opened Bits

  /** x^24 + x^23 + x^18 + x^17 + x^14 + x^11 + x^10 + x^7 + x^6 + x^5 + x^4 + x^3 + x + 1 */
  const Polynomial: nat := 0x1864CFB

  /** The coefficients of x^23 down to x^0 of the polynomial: the taps of the register. */
  const Taps: seq<bool> := NatBits(Polynomial % 0x1000000, 24)

  /** The register, coefficient of x^23 first. */
  type Register = r: seq<bool> | |r| == 24 witness Zeros(24)

  /** Shifts one message bit into the register. */
  function Step(r: Register, b: bool): Register
  {
    Xor(r[1..] + [false], if r[0] != b then Taps else Zeros(24))
  }

  /** Shifts a whole bit string into the register, first bit first. */
  function Feed(r: Register, bits: seq<bool>): Register
    decreases |bits|
  {
    if |bits| == 0 then r else Feed(Step(r, bits[0]), bits[1..])
  }

  /** The value the configured crcmod function returns for `data`. */
  function Crc24q(data: seq<byte>): (c: nat)
    ensures c < 0x1000000
  {
    var r := Feed(Zeros(24), BytesBits(data));
    ValBound(r);
    Pow2Values();
    Val(r)
  }

  lemma TapsLowBit()
    ensures Taps[23] && Taps != Zeros(24)
  {
    assert Taps[23] == (0x864CFB % 2 == 1);
  }

  lemma {:induction false} FeedAppend(r: Register, a: seq<bool>, b: seq<bool>)
    ensures Feed(r, a + b) == Feed(Feed(r, a), b)
    decreases |a|
  {
    if |a| == 0 {
      assert a + b == b;
    } else {
      assert (a + b)[1..] == a[1..] + b;
      FeedAppend(Step(r, a[0]), a[1..], b);
    }
  }

  lemma XorZeros(a: seq<bool>)
    ensures Xor(a, Zeros(|a|)) == a
  {
  }

  /** Shifting in a bit equals xoring it into the top of the register and shifting in a zero. */
  lemma {:induction false} AbsorbBits(r: Register, t: seq<bool>)
    requires |t| <= 24
    ensures Feed(r, t) == Feed(Xor(r, t + Zeros(24 - |t|)), Zeros(|t|))
    decreases |t|
  {
    var k := |t|;
    if k == 0 {
      assert t + Zeros(24) == Zeros(24);
      XorZeros(r);
    } else {
      AbsorbBits(Step(r, t[0]), t[1..]);
      AbsorbFirst(r, t);
      assert Zeros(k)[1..] == Zeros(k - 1);
    }
  }

  /** Absorbing the first bit of `t` into the register, then xoring in the rest,
      equals xoring in all of `t` and shifting in a zero. */
  lemma AbsorbFirst(r: Register, t: seq<bool>)
    requires 0 < |t| <= 24
    ensures Xor(Step(r, t[0]), t[1..] + Zeros(25 - |t|)) == Step(Xor(r, t + Zeros(24 - |t|)), false)
  {
    var k := |t|;
    var s := Step(r, t[0]);
    var x: Register := Xor(r, t + Zeros(24 - k));
    var pad := t[1..] + Zeros(25 - k);
    var mask := if r[0] != t[0] then Taps else Zeros(24);
    assert x[0] == (r[0] != t[0]);
    forall i | 0 <= i < 24
      ensures Xor(s, pad)[i] == Step(x, false)[i]
    {
      if i < 23 {
        assert (t + Zeros(24 - k))[i + 1] == pad[i];
      } else {
        assert pad[i] == false;
      }
    }
  }

  /** Shifting a zero into the register yields zero exactly from zero: the bit that
      leaves the top reappears at the bottom through the x^0 tap. */
  lemma ShiftZeroIff(r: Register)
    ensures Step(r, false) == Zeros(24) <==> r == Zeros(24)
  {
    TapsLowBit();
    var s := Step(r, false);
    if s == Zeros(24) {
      assert s[23] == r[0];
      forall i | 0 < i < 24
        ensures !r[i]
      {
        assert s[i - 1] == r[i];
      }
      assert r == Zeros(24);
    }
  }

  lemma {:induction false} FlushZeroIff(r: Register, n: nat)
    ensures Feed(r, Zeros(n)) == Zeros(24) <==> r == Zeros(24)
    decreases n
  {
    if n > 0 {
      assert Zeros(n)[1..] == Zeros(n - 1);
      ShiftZeroIff(r);
      FlushZeroIff(Step(r, false), n - 1);
    }
  }

  /** Shifting 24 bits into a register clears it exactly when the bits are the register. */
  lemma TrailerClearsIff(r: Register, t: seq<bool>)
    requires |t| == 24
    ensures Feed(r, t) == Zeros(24) <==> t == r
  {
    AbsorbBits(r, t);
    assert t + Zeros(0) == t;
    var x: Register := Xor(r, t);
    FlushZeroIff(x, 24);
    if x == Zeros(24) {
      forall i | 0 <= i < 24
        ensures t[i] == r[i]
      {
        assert !x[i];
      }
    }
  }

  /** The trailer test is exact: over a message followed by three bytes, CRC-24Q is
      zero exactly when those bytes are the message's CRC, big-endian. */
  lemma CrcTrailerIff(m: seq<byte>, t: seq<byte>)
    requires |t| == 3
    ensures Crc24q(m + t) == 0 <==> t == BigEndian3(Crc24q(m))
  {
    var c := Crc24q(m);
    var r := Feed(Zeros(24), BytesBits(m));
    BytesBitsAppend(m, t);
    FeedAppend(Zeros(24), BytesBits(m), BytesBits(t));
    var final := Feed(r, BytesBits(t));
    ValZeroIff(final);
    TrailerClearsIff(r, BytesBits(t));
    BigEndian3Bits(c);
    NatBitsVal(r);
    if t == BigEndian3(c) {
      assert BytesBits(t) == r;
    }
    if BytesBits(t) == r {
      BytesBitsInverse(t);
      BitsBytesInverse(NatBits(c, 24));
      BytesBitsInverse(BigEndian3(c));
    }
  }

  /** Appending a message's own CRC leaves a zero residue. */
  lemma CrcZeroResidue(m: seq<byte>)
    ensures Crc24q(m + BigEndian3(Crc24q(m))) == 0
  {
    CrcTrailerIff(m, BigEndian3(Crc24q(m)));
  }

  /** The register update is linear over GF(2) in register and message together. */
  lemma StepLinear(r1: Register, r2: Register, b1: bool, b2: bool)
    ensures Step(Xor(r1, r2), b1 != b2) == Xor(Step(r1, b1), Step(r2, b2))
  {
  }

  lemma {:induction false} FeedLinear(r1: Register, r2: Register, t1: seq<bool>, t2: seq<bool>)
    requires |t1| == |t2|
    ensures Feed(Xor(r1, r2), Xor(t1, t2)) == Xor(Feed(r1, t1), Feed(r2, t2))
    decreases |t1|
  {
    if |t1| > 0 {
      StepLinear(r1, r2, t1[0], t2[0]);
      assert Xor(t1, t2)[1..] == Xor(t1[1..], t2[1..]);
      FeedLinear(Step(r1, t1[0]), Step(r2, t2[0]), t1[1..], t2[1..]);
    }
  }

  /** A lone set bit anywhere in a zero message leaves a non-zero register. */
  lemma SingleBitNonZero(i: nat, n: nat)
    ensures Feed(Zeros(24), Zeros(i) + [true] + Zeros(n)) != Zeros(24)
  {
    var z: Register := Zeros(24);
    FeedAppend(z, Zeros(i) + [true], Zeros(n));
    FeedAppend(z, Zeros(i), [true]);
    FlushZeroIff(z, i);
    TapsLowBit();
    assert Feed(z, [true]) == Step(z, true);
    assert Step(z, true) == Taps;
    FlushZeroIff(Taps, n);
  }

  /** Flipping any single bit of the message changes the register. */
  lemma SingleBitChangesRegister(b: seq<bool>, i: nat)
    requires i < |b|
    ensures Feed(Zeros(24), b[i := !b[i]]) != Feed(Zeros(24), b)
  {
    var z: Register := Zeros(24);
    var e := Zeros(i) + [true] + Zeros(|b| - i - 1);
    assert b[i := !b[i]] == Xor(b, e);
    assert Xor(z, z) == z;
    FeedLinear(z, z, b, e);
    SingleBitNonZero(i, |b| - i - 1);
    XorNonZeroChanges(Feed(z, b), Feed(z, e));
  }

  /** Flipping any single bit of the checked bytes changes the CRC. */
  lemma CrcDetectsSingleBitError(d: seq<byte>, d': seq<byte>, i: nat)
    requires i < 8 * |d|
    requires BytesBits(d') == BytesBits(d)[i := !BytesBits(d)[i]]
    ensures Crc24q(d') != Crc24q(d)
  {
    var b := BytesBits(d);
    SingleBitChangesRegister(b, i);
    var f, f' := Feed(Zeros(24), b), Feed(Zeros(24), BytesBits(d'));
    if Val(f) == Val(f') {
      ValInjective(f, f');
    }
  }
}
