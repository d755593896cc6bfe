/** lib/utils/bn.dart: the bytes of a big integer, with the hand-written two's complement. */
module Bn {
  import opened Basics
  import opened Numbers
  import R = Radix

  predicate BinaryDigits(s: string) {
    forall i :: 0 <= i < |s| ==> s[i] == '0' || s[i] == '1'
  }

  function Flip(s: string): (t: string)
    ensures |t| == |s|
  {
    seq(|s|, i requires 0 <= i < |s| => if s[i] == '0' then '1' else '0')
  }

  /** The number of binary digits of v padded to whole bytes, at least one byte. */
  function PaddedBits(v: int): nat {
    (|R.ToRadix(Abs(v), 2)| + 7) / 8 * 8
  }

  /** How many binary digits `bitnot` writes: the requested length when it is larger, otherwise one
      extra byte exactly when |v| is above the half range of its own bytes. */
  function BitNotWidth(v: int, bitLength: Option<int>): nat {
    var bits := PaddedBits(v);
    if bitLength.Some? && bitLength.value > bits then bitLength.value
    else if bits > 0 && Abs(v) > Pow(2, bits - 1) then bits + 8
    else bits
  }

  lemma {:induction false} FlipValue(s: string)
    requires BinaryDigits(s)
    ensures R.DigitsValue(Flip(s), 2) + R.DigitsValue(s, 2) == Pow(2, |s|) - 1
  {
    if s != "" {
      FlipValue(s[..|s| - 1]);
      assert Flip(s)[..|s| - 1] == Flip(s[..|s| - 1]);
    }
  }

  lemma {:induction false} OnesValue(k: nat)
    ensures R.DigitsValue(Repeat('1', k), 2) == Pow(2, k) - 1
  {
    if k > 0 {
      OnesValue(k - 1);
      assert Repeat('1', k)[..k - 1] == Repeat('1', k - 1);
    }
  }

  lemma {:induction false} ValueZero(s: string)
    requires BinaryDigits(s)
    ensures R.DigitsValue(s, 2) == 0 <==> '1' !in s
  {
    if s != "" {
      ValueZero(s[..|s| - 1]);
      assert s == s[..|s| - 1] + [s[|s| - 1]];
    }
  }

  lemma BinaryAll(s: string)
    requires BinaryDigits(s)
    ensures R.AllDigits(s, 2)
  {
  }

  /** The prefix test of `bitnot` on the digit string, as arithmetic. */
  lemma HalfRangeTest(bin: string)
    requires BinaryDigits(bin) && |bin| >= 1
    ensures bin[0] == '1' && '1' in bin[1..] <==> R.DigitsValue(bin, 2) > Pow(2, |bin| - 1)
  {
    var rest := bin[1..];
    ValueZero(rest);
    BinaryAll(rest);
    R.ValueBound(rest, 2);
    R.ValueAppend(bin[..1], rest, 2);
    assert bin == bin[..1] + rest;
    R.ValueSnoc("", bin[0], 2);
    assert bin[..1] == "" + [bin[0]];
    assert R.DigitsValue(bin[..1], 2) == R.CharDigit(bin[0]);
    if bin[0] == '1' {
      assert 1 * Pow(2, |rest|) == Pow(2, |rest|);
    } else {
      assert 0 * Pow(2, |rest|) == 0;
    }
  }

  lemma {:induction false} LeadingZero(s: string)
    ensures R.DigitsValue("0" + s, 2) == R.DigitsValue(s, 2)
  {
    R.ValueAppend("0", s, 2);
    R.ValueSnoc("", '0', 2);
    assert "" + ['0'] == "0";
    R.ZeroTimes(Pow(2, |s|));
  }

  /** The digit string `bitnot` parses, plus one, is 2^width minus |v|. */
  lemma ComplementValue(k: nat, bin: string)
    requires BinaryDigits(bin)
    ensures R.DigitsValue(Repeat('1', k) + Flip(bin), 2) + 1 == Pow(2, k + |bin|) - R.DigitsValue(bin, 2)
  {
    hide R.DigitsValue;
    R.ValueAppend(Repeat('1', k), Flip(bin), 2);
    OnesValue(k);
    FlipValue(bin);
    PowAdd(2, k, |bin|);
    R.Distribute(Pow(2, k), -1, Pow(2, |bin|));
  }

  method BitNot(bn: int, bitLength: Option<int>) returns (r: int)
    ensures r == Pow(2, BitNotWidth(bn, bitLength)) - Abs(bn)
  {
    hide R.DigitsValue, R.ToRadix, Pow;
    var bin := R.ToRadix(Abs(bn), 2);
    R.ValueOfToRadix(Abs(bn), 2);
    BinaryOf(bin);
    ghost var digits := |bin|;
    while |bin| % 8 != 0
      invariant |bin| >= 1 && BinaryDigits(bin) && R.DigitsValue(bin, 2) == Abs(bn)
      invariant digits <= |bin| <= (digits + 7) / 8 * 8
      decreases (digits + 7) / 8 * 8 - |bin|
    {
      LeadingZero(bin);
      bin := "0" + bin;
    }
    HalfRangeTest(bin);
    var prefix := 0;
    if bin[0] == '1' && '1' in bin[1..] {
      prefix := 8;
    }
    if bitLength.Some? && bitLength.value > 0 && bitLength.value > |bin| {
      prefix := bitLength.value - |bin|;
    }
    ComplementValue(prefix, bin);
    var flipped := Repeat('1', prefix) + Flip(bin);
    r := R.DigitsValue(flipped, 2) + 1;
  }

  /** Without a requested length the digits kept are the least whole number of bytes whose half range reaches
      |v|: the least byte width at which -|v| is a two's complement number. */
  lemma BitNotWidthLeast(v: int, n: nat)
    requires n >= 1
    ensures BitNotWidth(v, None) % 8 == 0
    ensures BitNotWidth(v, None) <= 8 * n <==> Abs(v) <= Pow(2, 8 * n - 1)
  {
    hide Pow, R.ToRadix, Abs;
    var digits := |R.ToRadix(Abs(v), 2)|;
    R.ToRadixLength(Abs(v), 2, 8 * n);
    HalfOf(8 * n);
    var bits := PaddedBits(v);
    assert digits <= 8 * n <==> bits <= 8 * n;
    if bits < 8 * n {
      R.ToRadixLength(Abs(v), 2, bits);
      PowGrows(2, bits, 8 * n - 1);
    }
  }

  /** A requested length is kept when it is above a byte width that holds |v|, and ignored otherwise. */
  lemma BitNotWidthAsked(v: int, n: int)
    ensures BitNotWidth(v, Some(n))
         == if exists k: nat :: 1 <= k && 8 * k < n && Abs(v) < Pow(2, 8 * k) then n else BitNotWidth(v, None)
  {
    hide Pow, R.ToRadix, Abs;
    var bits := PaddedBits(v);
    R.ToRadixLength(Abs(v), 2, bits);
    if n > bits {
      assert 1 <= bits / 8 && 8 * (bits / 8) == bits;
    }
    if k: nat :| 1 <= k && 8 * k < n && Abs(v) < Pow(2, 8 * k) {
      R.ToRadixLength(Abs(v), 2, 8 * k);
    }
  }

  lemma HalfOf(k: nat)
    requires k > 0
    ensures 0 < Pow(2, k - 1) < Pow(2, k)
  {
    PowPositive(2, k - 1);
  }

  lemma BinaryOf(s: string)
    requires R.AllDigits(s, 2)
    ensures BinaryDigits(s)
  {
    forall i | 0 <= i < |s|
      ensures s[i] == '0' || s[i] == '1'
    {
      assert R.CharDigit(s[i]) < 2;
    }
  }

  // ----- bnToU8a -----

  /** The `bitLength` argument: -1 asks for the shortest encoding. */
  datatype Width = Auto | Bits(count: nat)

  /** `BigInt.toInt`, which clamps to the 64-bit range. */
  function ToInt(v: int): int {
    if v > 0x7FFF_FFFF_FFFF_FFFF then 0x7FFF_FFFF_FFFF_FFFF
    else if v < -0x8000_0000_0000_0000 then -0x8000_0000_0000_0000
    else v
  }

  /** `(0x80 & v.toInt()) > 0`: bit seven of the clamped two's complement number. */
  predicate SignBit(v: int) {
    ToInt(v) / 128 % 2 == 1
  }

  /** Within 64 bits it is the top bit of the low byte; of larger numbers it is their sign turned around. */
  lemma SignBitExact(v: int)
    ensures SignBit(v) <==> v >= 9223372036854775808 || (v >= -9223372036854775808 && v % 256 >= 128)
  {
  }

  function WidthBytes(v: int, width: Width): nat {
    match width
    case Auto => ByteLength(v)
    case Bits(n) => (n + 7) / 8
  }

  method BnToU8a(value: Option<int>, width: Width, endian: Endian, isNegative: bool) returns (r: bytes)
    ensures value.None? ==> r == Repeat(0, if width.Auto? then 1 else (width.count + 7) / 8)
    ensures value.Some? ==>
              var v := value.value;
              r == BytesOf(if isNegative && v > 0 && SignBit(v) then -v else v, WidthBytes(v, width), endian)
  {
    hide BytesOf, BitNotWidth, ByteLength, Pow, SignBit;
    var valueBn := if value.Some? then value.value else 0;
    var byteLength := WidthBytes(valueBn, width);
    if value.None? {
      if width.Auto? {
        return [0];
      }
      return Repeat(0, byteLength);
    }
    var number := valueBn;
    if isNegative && SignBit(valueBn) {
      number := BitNot(valueBn, Some(byteLength * 8));
      ComplementBytes(valueBn, byteLength, endian);
      ZeroUnsigned();
    }
    r := EncodeBigInt(number, endian, Some(byteLength * 8));
  }

  lemma ZeroUnsigned()
    ensures !SignBit(0)
  {
  }

  lemma WidthAtLeast(v: int, w: nat)
    ensures BitNotWidth(v, Some(8 * w)) >= 8 * w
  {
  }

  lemma PowerSplit(e: nat, w: nat)
    ensures Pow(2, e + 8 * w) == Pow(2, e) * Pow(256, w)
  {
    hide Pow;
    PowAdd(2, e, 8 * w);
    PowerOf256(w);
  }

  /** Numbers that differ by a multiple of 256^w have the same w bytes. */
  lemma SameBytes(x: int, y: int, q: int, w: nat, endian: Endian)
    requires x == y + q * Pow(256, w)
    ensures BytesOf(x, w, endian) == BytesOf(y, w, endian)
  {
    hide Pow, BytesLE, BytesOf;
    BytesPeriod(y, q, w);
    SameLowBytes(x, y + q * Pow(256, w), y, w, endian);
  }

  lemma SameLowBytes(x: int, z: int, y: int, w: nat, endian: Endian)
    requires x == z && BytesLE(z, w) == BytesLE(y, w)
    ensures BytesOf(x, w, endian) == BytesOf(y, w, endian)
  {
    hide BytesLE, Reverse;
  }

  /** Whatever number of digits `bitnot` writes, the bytes kept are those of -|v|. */
  lemma ComplementBytes(v: int, w: nat, endian: Endian)
    ensures BytesOf(Pow(2, BitNotWidth(v, Some(8 * w))) - Abs(v), w, endian) == BytesOf(-(Abs(v) as int), w, endian)
  {
    hide BitNotWidth, BytesLE, BytesOf, Pow, Abs;
    WidthAtLeast(v, w);
    var extra := BitNotWidth(v, Some(8 * w)) - 8 * w;
    PowerSplit(extra, w);
    var a: int := Abs(v);
    SameBytes(Pow(2, BitNotWidth(v, Some(8 * w))) - a, -a, Pow(2, extra), w, endian);
  }

  /** For a negative number both branches of `bnToU8a` write the same bytes, those of v modulo
      2^(8w), in either byte order: reading them back gives that residue. */
  lemma NegativeBranchesAgree(v: int, w: nat, endian: Endian)
    requires v < 0
    ensures BytesOf(Pow(2, BitNotWidth(v, Some(8 * w))) - Abs(v), w, endian) == BytesOf(v, w, endian)
    ensures Pow(256, w) > 0 && Value(BytesOf(v, w, endian), endian) == v % Pow(256, w)
  {
    ComplementBytes(v, w, endian);
    NumberRoundTrip(v, w, endian);
  }
}
