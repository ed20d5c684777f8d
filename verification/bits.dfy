/** Bytes, bit strings read most-significant bit first, and the conversions
    between them that both the CRC and the bitfield unpacker rely on. */
module Bits {

  /** One element of a Python `bytes` object. */
  type byte = x: int | 0 <= x < 256

  function Pow2(n: nat): (p: nat)
    ensures p >= 1
  {
    if n == 0 then 1 else 2 * Pow2(n - 1)
  }

  lemma Pow2Values()
    ensures Pow2(2) == 4 && Pow2(8) == 256 && Pow2(10) == 1024
    ensures Pow2(16) == 0x10000 && Pow2(24) == 0x1000000
  {
  }

  /** The unsigned value of a bit string, first bit most significant. */
  function Val(s: seq<bool>): nat
  {
    if |s| == 0 then 0 else 2 * Val(s[..|s| - 1]) + (if s[|s| - 1] then 1 else 0)
  }

  /** The `w` low bits of `n`, most significant first. */
  function NatBits(n: nat, w: nat): (s: seq<bool>)
    ensures |s| == w
  {
    if w == 0 then [] else NatBits(n / 2, w - 1) + [n % 2 == 1]
  }

  /** A run of `n` cleared bits. */
  function Zeros(n: nat): (s: seq<bool>)
    ensures |s| == n
  {
    seq(n, _ => false)
  }

  /** Bitwise exclusive or of two strings of one length. */
  function Xor(a: seq<bool>, b: seq<bool>): (c: seq<bool>)
    requires |a| == |b|
    ensures |c| == |a|
  {
    seq(|a|, i requires 0 <= i < |a| => a[i] != b[i])
  }

  lemma ModOfSmall(x: int, m: int)
    requires 0 <= x < m
    ensures x % m == x
  {
  }

  lemma ModOfNegative(x: int, m: int)
    requires -m <= x < 0
    ensures x % m == x + m
  {
  }

  lemma ModOfShifted(x: int, m: int)
    requires 0 <= x < m
    ensures (x - m) % m == x
  {
  }

  lemma SplitAt<T>(s: seq<T>, k: nat)
    requires k <= |s|
    ensures s == s[..k] + s[k..]
  {
  }

  lemma DropLast<T>(a: seq<T>, x: T)
    ensures (a + [x])[..|a|] == a && (a + [x])[|a|] == x
  {
  }

  lemma AppendParts<T>(a: seq<T>, b: seq<T>)
    ensures (a + b)[..|a|] == a && (a + b)[|a|..] == b
  {
  }

  lemma DropHead<T>(a: seq<T>, b: seq<T>, c: seq<T>)
    ensures (a + b + c)[|a|..] == b + c
  {
  }

  lemma DropFirst<T>(x: T, a: seq<T>)
    ensures ([x] + a)[0] == x && ([x] + a)[1..] == a
  {
  }

  lemma TakeConcat<T>(s: seq<T>, w: nat, n: nat)
    requires w + n <= |s|
    ensures s[..w + n] == s[..w] + s[w..][..n]
  {
  }

  lemma TakeAll<T>(s: seq<T>)
    ensures s[..|s|] == s && s[..0] == []
  {
  }

  lemma TakeNext<T>(s: seq<T>, i: nat)
    requires i < |s|
    ensures s[..i + 1] == s[..i] + [s[i]]
  {
  }

  /** Xoring in a string with a set bit changes the other string. */
  lemma XorNonZeroChanges(a: seq<bool>, b: seq<bool>)
    requires |a| == |b| && b != Zeros(|b|)
    ensures Xor(a, b) != a
  {
    assert exists k :: 0 <= k < |b| && b[k] != Zeros(|b|)[k];
    var k :| 0 <= k < |b| && b[k];
    assert Xor(a, b)[k] != a[k];
  }

  lemma {:induction false} ValBound(s: seq<bool>)
    ensures Val(s) < Pow2(|s|)
  {
    if |s| > 0 {
      ValBound(s[..|s| - 1]);
    }
  }

  /** Reading back the `w`-bit representation of a number that fits gives the number. */
  lemma {:induction false} ValNatBits(n: nat, w: nat)
    requires n < Pow2(w)
    ensures Val(NatBits(n, w)) == n
  {
    if w > 0 {
      var s := NatBits(n, w);
      assert Pow2(w) == 2 * Pow2(w - 1);
      assert n / 2 < Pow2(w - 1);
      assert s[..w - 1] == NatBits(n / 2, w - 1);
      assert s[w - 1] == (n % 2 == 1);
      ValNatBits(n / 2, w - 1);
      assert Val(s) == 2 * Val(s[..w - 1]) + (if s[w - 1] then 1 else 0);
    }
  }

  /** Writing out the value of a bit string in as many bits gives the string back. */
  lemma {:induction false} NatBitsVal(s: seq<bool>)
    ensures NatBits(Val(s), |s|) == s
  {
    if |s| > 0 {
      var init := s[..|s| - 1];
      NatBitsVal(init);
      var v := Val(s);
      assert v / 2 == Val(init);
      assert (v % 2 == 1) == s[|s| - 1];
      assert s == init + [s[|s| - 1]];
    }
  }

  /** Two bit strings of one length with one value are the same string. */
  lemma ValInjective(a: seq<bool>, b: seq<bool>)
    requires |a| == |b| && Val(a) == Val(b)
    ensures a == b
  {
    NatBitsVal(a);
    NatBitsVal(b);
  }

  lemma {:induction false} ValAppend(a: seq<bool>, b: seq<bool>)
    ensures Val(a + b) == Val(a) * Pow2(|b|) + Val(b)
  {
    if |b| == 0 {
      assert a + b == a;
    } else {
      var b' := b[..|b| - 1];
      var bit := if b[|b| - 1] then 1 else 0;
      assert (a + b)[..|a + b| - 1] == a + b';
      assert (a + b)[|a + b| - 1] == b[|b| - 1];
      ValAppend(a, b');
      assert Val(a + b) == 2 * Val(a + b') + bit;
      assert Pow2(|b|) == 2 * Pow2(|b'|);
      Distribute(Val(a), Pow2(|b'|), Val(b'), bit);
    }
  }

  lemma Distribute(x: int, p: int, y: int, bit: int)
    ensures 2 * (x * p + y) + bit == x * (2 * p) + (2 * y + bit)
  {
  }

  /** The first bit of a non-empty string carries weight 2^(|s|-1). */
  lemma ValHead(s: seq<bool>)
    requires |s| > 0
    ensures Val(s) == (if s[0] then Pow2(|s| - 1) else 0) + Val(s[1..])
  {
    assert s == [s[0]] + s[1..];
    ValAppend([s[0]], s[1..]);
    assert [s[0]][..0] == [];
    assert Val([s[0]]) == (if s[0] then 1 else 0);
  }

  /** The first bit is set exactly when the value reaches the upper half of the range. */
  lemma TopBit(s: seq<bool>)
    requires |s| > 0
    ensures s[0] <==> Val(s) >= Pow2(|s| - 1)
  {
    ValHead(s);
    ValBound(s[1..]);
  }

  lemma ValZeros(n: nat)
    ensures Val(Zeros(n)) == 0
  {
    if n > 0 {
      assert Zeros(n)[..n - 1] == Zeros(n - 1);
      ValZeros(n - 1);
    }
  }

  /** A bit string has value zero exactly when every bit is clear. */
  lemma ValZeroIff(s: seq<bool>)
    ensures Val(s) == 0 <==> s == Zeros(|s|)
  {
    ValZeros(|s|);
    if Val(s) == 0 {
      ValInjective(s, Zeros(|s|));
    }
  }

  /** The bits of a byte string, each byte most significant bit first. */
  function BytesBits(d: seq<byte>): (s: seq<bool>)
    ensures |s| == 8 * |d|
  {
    if |d| == 0 then [] else BytesBits(d[..|d| - 1]) + NatBits(d[|d| - 1], 8)
  }

  lemma {:induction false} BytesBitsAppend(a: seq<byte>, b: seq<byte>)
    ensures BytesBits(a + b) == BytesBits(a) + BytesBits(b)
  {
    if |b| == 0 {
      assert a + b == a;
    } else {
      var b' := b[..|b| - 1];
      assert (a + b)[..|a + b| - 1] == a + b';
      BytesBitsAppend(a, b');
    }
  }

  /** Cutting a byte string after `k` bytes cuts its bits after `8k` bits. */
  lemma BytesBitsPrefix(d: seq<byte>, k: nat)
    requires k <= |d|
    ensures BytesBits(d[..k]) == BytesBits(d)[..8 * k]
  {
    assert d == d[..k] + d[k..];
    BytesBitsAppend(d[..k], d[k..]);
  }

  /** Packs a whole number of octets into bytes, first octet first. */
  function BitsBytes(s: seq<bool>): (d: seq<byte>)
    requires |s| % 8 == 0
    ensures |d| == |s| / 8
  {
    if |s| == 0 then []
    else
      var last := s[|s| - 8..];
      ValBound(last);
      Pow2Values();
      BitsBytes(s[..|s| - 8]) + [Val(last)]
  }

  lemma {:induction false} BitsBytesInverse(s: seq<bool>)
    requires |s| % 8 == 0
    ensures BytesBits(BitsBytes(s)) == s
  {
    if |s| > 0 {
      var init, last := s[..|s| - 8], s[|s| - 8..];
      var front := BitsBytes(init);
      var d := BitsBytes(s);
      assert d == front + [Val(last)];
      DropLast(front, Val(last));
      BitsBytesInverse(init);
      NatBitsVal(last);
      assert BytesBits(d) == BytesBits(front) + NatBits(Val(last), 8);
      SplitAt(s, |s| - 8);
    }
  }

  lemma {:induction false} BytesBitsInverse(d: seq<byte>)
    ensures BitsBytes(BytesBits(d)) == d
  {
    if |d| > 0 {
      var init, x := d[..|d| - 1], d[|d| - 1];
      var a, b := BytesBits(init), NatBits(x, 8);
      assert BytesBits(d) == a + b;
      AppendParts(a, b);
      Pow2Values();
      ValNatBits(x, 8);
      BytesBitsInverse(init);
      TakeNext(d, |d| - 1);
      TakeAll(d);
    }
  }

  lemma ThreeBytesBits(t: seq<byte>)
    requires |t| == 3
    ensures BytesBits(t) == NatBits(t[0], 8) + NatBits(t[1], 8) + NatBits(t[2], 8)
  {
    assert t[..2][..1] == [t[0]];
    assert BytesBits([t[0]]) == NatBits(t[0], 8) by {
      assert [t[0]][..0] == [];
    }
  }

  lemma TwoBytesBits(d: seq<byte>)
    requires |d| >= 2
    ensures BytesBits(d)[..16] == NatBits(d[0], 8) + NatBits(d[1], 8)
  {
    BytesBitsPrefix(d, 2);
    var t := d[..2];
    assert t[..1] == [d[0]];
    assert BytesBits([d[0]]) == NatBits(d[0], 8) by {
      assert [d[0]][..0] == [];
    }
  }

  /** The first four bits of a byte are its high nibble. */
  lemma HighNibble(b: byte)
    ensures Val(NatBits(b, 8)[..4]) == b / 16
  {
    var n := NatBits(b, 8);
    Pow2Values();
    assert Pow2(4) == 16;
    ValNatBits(b, 8);
    assert n == n[..4] + n[4..];
    ValAppend(n[..4], n[4..]);
    ValBound(n[4..]);
    assert b as int == Val(n[..4]) * 16 + Val(n[4..]) && Val(n[4..]) < 16;
  }

  /** The last `k` of the `w` bits of `n` are the `k` bits of `n`. */
  lemma {:induction false} NatBitsSuffix(n: nat, w: nat, k: nat)
    requires k <= w
    ensures NatBits(n, w)[w - k..] == NatBits(n, k)
    decreases k
  {
    if k > 0 {
      NatBitsSuffix(n / 2, w - 1, k - 1);
      assert NatBits(n, w)[w - k..] == NatBits(n / 2, w - 1)[w - k..] + [n % 2 == 1];
    }
  }

  /** The last two bits of a byte are its value modulo 4. */
  lemma LowTwoBits(b: byte)
    ensures Val(NatBits(b, 8)[6..]) == b % 4
  {
    NatBitsSuffix(b, 8, 2);
    var lo := NatBits(b, 2);
    assert lo == [b / 2 % 2 == 1, b % 2 == 1];
    assert lo[..1] == [b / 2 % 2 == 1];
    assert lo[..1][..0] == [];
    assert Val(lo[..1]) == b / 2 % 2;
    assert Val(lo) == 2 * (b / 2 % 2) + b % 2;
    ModFour(b);
  }

  lemma ModFour(n: nat)
    ensures n % 4 == 2 * (n / 2 % 2) + n % 2
  {
  }

  /** A 24-bit number as three bytes, most significant first (the CRC trailer layout). */
  function BigEndian3(c: nat): (t: seq<byte>)
    requires c < 0x1000000
    ensures |t| == 3
  {
    [c / 0x10000, c / 0x100 % 0x100, c % 0x100]
  }

  /** The trailer bytes carry exactly the 24 bits of the number, in order. */
  lemma BigEndian3Bits(c: nat)
    requires c < 0x1000000
    ensures BytesBits(BigEndian3(c)) == NatBits(c, 24)
  {
    var t := BigEndian3(c);
    Pow2Values();
    var b0, b1, b2 := NatBits(t[0], 8), NatBits(t[1], 8), NatBits(t[2], 8);
    ThreeBytesBits(t);
    ValNatBits(t[0], 8);
    ValNatBits(t[1], 8);
    ValNatBits(t[2], 8);
    ValAppend(b0, b1);
    ValAppend(b0 + b1, b2);
    assert Val(b0 + b1) == t[0] as int * 256 + t[1] as int;
    assert Val(b0 + b1 + b2) == (t[0] as int * 256 + t[1] as int) * 256 + t[2] as int;
    BigEndian3Value(c);
    ValNatBits(c, 24);
    ValInjective(b0 + b1 + b2, NatBits(c, 24));
  }

  lemma BigEndian3Value(c: nat)
    requires c < 0x1000000
    ensures var t := BigEndian3(c); (t[0] as int * 256 + t[1] as int) * 256 + t[2] as int == c
  {
  }
}
