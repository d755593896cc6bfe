/** Compressed points of lib/crypto/curve.dart (SEC 1, 2.3.3 and 2.3.4), on y^2 = x^3 + 7 with a
    64-digit abscissa. The modulus p stands for the field constant of the curve. */
module Compress {
  import opened Basics
  import opened Modular
  import opened Fermat
  import opened Inverse
  import opened CurvePoints
  import opened Radix

  const SECP256K1_P: int := 0xfffffffffffffffffffffffffffffffffffffffffffffffffffffffefffffc2f

  /** `point2HexInCompress`. For a negative y the parity bit is the one of two's complement. */
  function Point2HexInCompress(q: Point): string {
    PadLeft(ToRadix(2 + q.y % 2, 16), 2, '0') + PadLeft(ToRadixString(q.x, 16), 64, '0')
  }

  /** `hex2PointFromCompress`, throwing at the same five places. */
  function Hex2PointFromCompress(hex: string, p: int): Result<Point>
    requires p > 3
  {
    if |hex| != 66 then Err("point length must be 66!")
    else
      var firstByte :- ParseRadix(hex[..2], 16);
      if firstByte != 2 && firstByte != 3 then Err("point prefix incorrect!")
      else
        var x :- ParseRadix(hex[2..], 16);
        PointFromAbscissa(x, firstByte, p)
  }

  function YSquared(x: int, p: int): int
    requires p > 3
  {
    (ModPow(x, 3, p) + 7) % p
  }

  function SquareMod(y: int, p: int): int
    requires p > 3
  {
    (y * y) % p
  }

  /** The second half of `hex2PointFromCompress`: the ordinate with the parity of the tag. */
  function PointFromAbscissa(x: int, firstByte: int, p: int): Result<Point>
    requires p > 3
  {
    var ySquared := YSquared(x, p);
    var p1 := p + 1;
    var power := (p1 - p1 % 4) / 4;
    var y := ModPow(ySquared, power, p);
    if SquareMod(y, p) != ySquared then Err("failed to retrieve y of public key from hex")
    else Ok(Point(x, if y % 2 != firstByte % 2 then p - y else y))
  }

  predicate FieldPrime(p: int) {
    p > 7 && p % 4 == 3 && p <= Pow(16, 64)
  }

  /** The field constant meets the arithmetic conditions of the results below. */
  lemma FieldConstant()
    ensures FieldPrime(SECP256K1_P)
  {
    PowAdd(16, 16, 16);
    PowAdd(16, 32, 32);
    assert Pow(16, 16) == 0x1_0000_0000_0000_0000 by {
      PowAdd(16, 8, 8);
      assert Pow(16, 8) == 0x1_0000_0000 by {
        PowAdd(16, 4, 4);
        FourDigits();
      }
    }
  }

  lemma FourDigits()
    ensures Pow(16, 4) == 0x1_0000
  {
    assert Pow(16, 1) == 16 * Pow(16, 0) && Pow(16, 2) == 16 * Pow(16, 1) && Pow(16, 3) == 16 * Pow(16, 2);
  }

  lemma SquareModCong(y: int, p: int)
    requires p > 3
    ensures Cong(y * y, SquareMod(y, p), p)
  {
    CongMod(y * y, p);
  }

  lemma CubicCong(x: int, p: int)
    requires p > 3
    ensures var s := YSquared(x, p); 0 <= s < p && Cong(s, Cubic(x, 0, 7), p)
  {
    hide Divides;
    var c := ModPow(x, 3, p);
    assert Pow(x, 3) == x * (x * (x * 1)) by {
      assert Pow(x, 1) == x * Pow(x, 0) && Pow(x, 2) == x * Pow(x, 1);
    }
    assert x * (x * (x * 1)) == x * x * x && 0 * x == 0;
    CongMod(Pow(x, 3), p);
    CongRefl(7, p);
    CongAdd(c, Pow(x, 3), 7, 7, p);
    CongMod(c + 7, p);
    CongTrans((c + 7) % p, c + 7, Cubic(x, 0, 7), p);
  }

  /** The candidate root the decoder computes is the square root of x^3 + 7 that is a square itself:
      it passes the check exactly when x^3 + 7 is a square modulo p. */
  lemma RootTest(s: int, p: int)
    requires IsPrime(p) && p > 3 && p % 4 == 3 && 0 <= s < p
    ensures var y := ModPow(s, (p + 1) / 4, p);
            0 <= y < p && (SquareMod(y, p) == s <==> exists t :: Cong(s, t * t, p))
  {
    hide Divides;
    var u := Pow(s, (p + 1) / 4);
    var y := u % p;
    CongMod(u, p);
    CongMul(y, u, y, u, p);
    CongMod(y * y, p);
    if (y * y) % p == s {
      assert Cong(s, y * y, p);
    }
    if t :| Cong(s, t * t, p) {
      RootOfSquare(s, t, p);
      CongTrans(y * y, u * u, t * t, p);
      CongSym(s, t * t, p);
      CongTrans(y * y, t * t, s, p);
      CongTrans((y * y) % p, y * y, s, p);
      CongUnique((y * y) % p, s, p);
    }
  }

  /** Two ordinates in range with the same square and the same parity are equal, for an odd prime;
      equal or complementary when the parity is not known. */
  lemma RootByParity(y: int, t: int, p: int)
    requires IsPrime(p) && p % 2 == 1 && 0 <= y < p && 0 <= t < p && Cong(y * y, t * t, p)
    ensures t == if y % 2 == t % 2 then y else p - y
  {
    hide Divides;
    RootsUpToSign(y, t, p);
    if Cong(y, t, p) {
      CongUnique(y, t, p);
    } else if t > 0 {
      Complement(y, t, p);
    }
  }

  lemma Complement(y: int, t: int, p: int)
    requires 0 <= y < p && 0 < t < p && Cong(y, -t, p)
    ensures y == p - t
  {
    Multiple(p, 1, p);
    DividesLinear(p, y - -t, p, 1, -1);
    DividesSmall(p, y + t - p);
  }

  /** The decoder undoes the encoder on every point of the curve with coordinates in range. */
  lemma CompressRoundTrip(q: Point, p: int)
    requires IsPrime(p) && FieldPrime(p) && InRange(q, p) && OnCurve(q, 0, 7, p)
    ensures Hex2PointFromCompress(Point2HexInCompress(q), p) == Ok(q)
  {
    hide Cong, Divides, IsPrime, Pow, ModPow, YSquared, SquareMod, ParseRadix, ToRadix, Point2HexInCompress, Cubic;
    CompressedFields(q, p);
    CubicCong(q.x, p);
    var s := YSquared(q.x, p);
    CongSym(q.y * q.y, Cubic(q.x, 0, 7), p);
    CongTrans(s, Cubic(q.x, 0, 7), q.y * q.y, p);
    RootTest(s, p);
    var y := ModPow(s, (p + 1) / 4, p);
    SquareModCong(y, p);
    CongTrans(y * y, s, q.y * q.y, p);
    RootByParity(y, q.y, p);
  }

  /** Capital digits are read as small ones. */
  lemma CaseIgnored(hex: string, p: int)
    requires p > 3
    ensures Hex2PointFromCompress(Lower(hex), p) == Hex2PointFromCompress(hex, p)
  {
    hide ParseRadix, PointFromAbscissa, Lower;
    if |hex| == 66 {
      LowerSlice(hex, 2);
      ParseIgnoresCase(hex[..2], 16);
      ParseIgnoresCase(hex[2..], 16);
    }
  }

  lemma CompressedFields(q: Point, p: int)
    requires FieldPrime(p) && InRange(q, p)
    ensures var hex := Point2HexInCompress(q);
            && |hex| == 66
            && ParseRadix(hex[..2], 16) == Ok(2 + q.y % 2)
            && ParseRadix(hex[2..], 16) == Ok(q.x)
  {
    hide Pow, DigitsValue, ToRadix, AllDigits, ParseRadix;
    var tag := PadLeft(ToRadix(2 + q.y % 2, 16), 2, '0');
    var abscissa := PadLeft(ToRadix(q.x, 16), 64, '0');
    TwoDigits();
    PaddedParses(2 + q.y % 2, 16, 2);
    PaddedParses(q.x, 16, 64);
    assert (tag + abscissa)[..2] == tag && (tag + abscissa)[2..] == abscissa;
  }

  lemma TwoDigits()
    ensures Pow(16, 2) == 256
  {
    assert Pow(16, 1) == 16 * Pow(16, 0);
  }

  /** The decoder finds an ordinate exactly when x^3 + 7 is a square; what it returns is on the
      curve and has the parity of the tag. It is p itself, outside the field, exactly when x^3 + 7 is a
      multiple of p and the tag is odd. */
  lemma AbscissaExact(x: int, tag: int, p: int)
    requires IsPrime(p) && p > 7 && p % 4 == 3
    ensures var r := PointFromAbscissa(x, tag, p);
            && (r.Ok? <==> exists t :: Cong(Cubic(x, 0, 7), t * t, p))
            && (r.Ok? ==> && r.value.x == x && OnCurve(r.value, 0, 7, p)
                          && 0 <= r.value.y <= p && r.value.y % 2 == tag % 2
                          && (r.value.y == p <==> tag % 2 == 1 && Divides(p, Cubic(x, 0, 7))))
  {
    hide Cong, Divides, IsPrime, Pow, ModPow, YSquared, SquareMod, Cubic;
    CubicCong(x, p);
    var s := YSquared(x, p);
    SquareClass(s, Cubic(x, 0, 7), p);
    RootTest(s, p);
    var y := ModPow(s, (p + 1) / 4, p);
    if SquareMod(y, p) == s {
      SquareModCong(y, p);
      CongTrans(y * y, s, Cubic(x, 0, 7), p);
      NegatedRoot(y, Cubic(x, 0, 7), p);
      ZeroRoot(y, Cubic(x, 0, 7), p);
      ChosenRoot(y, tag, p);
    }
  }

  /** The root of the wanted parity is p itself exactly for the root 0 and an odd tag. */
  lemma ChosenRoot(y: int, tag: int, p: int)
    requires 0 <= y < p && p % 4 == 3
    ensures var r := if y % 2 != tag % 2 then p - y else y;
            0 <= r <= p && r % 2 == tag % 2 && (r == p <==> tag % 2 == 1 && y == 0)
  {
    OddMinus(p / 4, y);
    assert p == 4 * (p / 4) + 3;
  }

  lemma OddMinus(k: int, y: int)
    ensures (4 * k + 3 - y) % 2 == 1 - y % 2
  {
    Parity(2 * k + 1 - y / 2, 1 - y % 2);
    assert 4 * k + 3 - y == 2 * (2 * k + 1 - y / 2) + (1 - y % 2);
  }

  lemma Parity(h: int, b: int)
    requires 0 <= b <= 1
    ensures (2 * h + b) % 2 == b
  {
  }

  lemma ZeroRoot(y: int, c: int, p: int)
    requires IsPrime(p) && 0 <= y < p && Cong(y * y, c, p)
    ensures y == 0 <==> Divides(p, c)
  {
    hide IsPrime;
    if y == 0 {
      DividesLinear(p, y * y - c, y * y - c, -1, 0);
    } else if Divides(p, c) {
      DividesLinear(p, y * y - c, c, 1, 1);
      EuclidLemma(y, y, p);
      DividesSmall(p, y);
    }
  }

  /** What the decoder accepts: 66 characters with a tag 2 or 3 whose abscissa x has x^3 + 7 a square. The
      point it returns is on the curve and has the tagged parity; it is in range exactly when the
      abscissa is, except for the odd tag of an abscissa with ordinate zero. */
  lemma DecompressExact(hex: string, p: int)
    requires IsPrime(p) && p > 7 && p % 4 == 3
    ensures var r := Hex2PointFromCompress(hex, p);
            && (r.Ok? <==> && |hex| == 66
                           && (ParseRadix(hex[..2], 16) == Ok(2) || ParseRadix(hex[..2], 16) == Ok(3))
                           && ParseRadix(hex[2..], 16).Ok?
                           && exists t :: Cong(Cubic(ParseRadix(hex[2..], 16).value, 0, 7), t * t, p))
            && (r.Ok? ==> && OnCurve(r.value, 0, 7, p) && 0 <= r.value.y <= p
                          && Ok(r.value.x) == ParseRadix(hex[2..], 16)
                          && r.value.y % 2 == ParseRadix(hex[..2], 16).value % 2
                          && (InRange(r.value, p) <==>
                                0 <= r.value.x < p
                                && !(ParseRadix(hex[..2], 16).value == 3 && Divides(p, Cubic(r.value.x, 0, 7)))))
  {
    hide Divides, IsPrime, ParseRadix, Cubic, PointFromAbscissa;
    if |hex| == 66 && ParseRadix(hex[..2], 16).Ok? && ParseRadix(hex[2..], 16).Ok? {
      AbscissaExact(ParseRadix(hex[2..], 16).value, ParseRadix(hex[..2], 16).value, p);
    }
  }

  /** The strings `point2HexInCompress` writes for points with an abscissa of at most 64 characters. */
  predicate Canonical(hex: string) {
    && |hex| == 66
    && (hex[..2] == "02" || hex[..2] == "03")
    && (LowerDigits(hex[2..]) || (hex[2] == '-' && hex[3] != '0' && LowerDigits(hex[3..])))
  }

  /** Compressing what was decompressed gives the string back exactly for the canonical strings. Others
      that are accepted, with white space, a plus sign, capital or missing digits, are changed. */
  lemma RecompressExact(hex: string, p: int)
    requires IsPrime(p) && p > 7 && p % 4 == 3 && Hex2PointFromCompress(hex, p).Ok?
    ensures Point2HexInCompress(Hex2PointFromCompress(hex, p).value) == hex <==> Canonical(hex)
  {
    hide Divides, IsPrime, ParseRadix, ToRadixString, PadLeft, LowerDigits, Hex2PointFromCompress, Cubic, ToRadix, InRange;
    DecompressExact(hex, p);
    var q := Hex2PointFromCompress(hex, p).value;
    Tags(q.y);
    TagDigits(hex[..2]);
    AbscissaDigits(hex[2..], q.x);
    assert hex == hex[..2] + hex[2..] && hex[2..][0] == hex[2] && hex[2..][1] == hex[3] && hex[2..][1..] == hex[3..];
    var tag, abscissa := PadLeft(ToRadix(2 + q.y % 2, 16), 2, '0'), PadLeft(ToRadixString(q.x, 16), 64, '0');
    if tag + abscissa == hex {
      assert hex[..2] == tag && hex[2..] == abscissa;
    }
  }

  /** Modulo 11 the abscissa 5 has x^3 + 7 = 0, and the odd tag gives the ordinate 11, out of range. The tag
      is written with a plus sign here, so compressing the point gives another string. */
  lemma OutOfRange()
    ensures var hex := "+3" + Repeat('0', 63) + "5";
            && Hex2PointFromCompress(hex, 11) == Ok(Point(5, 11))
            && Point2HexInCompress(Point(5, 11)) != hex
  {
    hide ParseRadix, PointFromAbscissa, DigitsValue, ToRadix;
    var hex := "+3" + Repeat('0', 63) + "5";
    var abscissa := Repeat('0', 63) + "5";
    assert hex[..2] == "+3" && hex[2..] == abscissa;
    PlusThree();
    PaddedFive();
    RootOfZero();
    Tags(11);
    assert Point2HexInCompress(Point(5, 11))[0] == '0';
  }

  lemma PlusThree()
    ensures ParseRadix("+3", 16) == Ok(3)
  {
    NothingToTrim("+3");
    assert "+3"[1..] == "3";
    assert "3"[..0] == "";
    assert DigitsValue("3", 16) == DigitsValue("", 16) * 16 + 3;
  }

  lemma PaddedFive()
    ensures ParseRadix(Repeat('0', 63) + "5", 16) == Ok(5)
  {
    hide ParseRadix;
    assert ToRadix(5, 16) == "5";
    PowGrows(16, 1, 64);
    assert Pow(16, 1) == 16 * Pow(16, 0);
    hide Pow;
    PaddedParses(5, 16, 64);
  }

  lemma RootOfZero()
    ensures PointFromAbscissa(5, 3, 11) == Ok(Point(5, 11))
  {
    assert Pow(5, 3) == 125 by {
      assert Pow(5, 1) == 5 * Pow(5, 0) && Pow(5, 2) == 5 * Pow(5, 1);
    }
    assert Pow(0, 3) == 0;
    assert ModPow(5, 3, 11) == 4 && YSquared(5, 11) == 0 && ModPow(0, 3, 11) == 0;
  }

  lemma Tags(y: int)
    ensures PadLeft(ToRadix(2 + y % 2, 16), 2, '0') == if y % 2 == 0 then "02" else "03"
  {
    assert Repeat('0', 1) == "0";
  }

  lemma TagDigits(s: string)
    ensures s == "02" ==> ParseRadix(s, 16) == Ok(2)
    ensures s == "03" ==> ParseRadix(s, 16) == Ok(3)
  {
    hide ParseRadix;
    if s == "02" || s == "03" {
      DigitsParse(s, 16);
      assert s[..1] == "0" && s[..1][..0] == "";
      assert DigitsValue("0", 16) == DigitsValue("", 16) * 16 + 0;
    }
  }

  /** Of the 64 characters that parse to x, the padded digits of x are the canonical ones. */
  lemma AbscissaDigits(s: string, x: int)
    requires |s| == 64 && ParseRadix(s, 16) == Ok(x)
    ensures PadLeft(ToRadixString(x, 16), 64, '0') == s <==>
              LowerDigits(s) || (s[0] == '-' && s[1] != '0' && LowerDigits(s[1..]))
  {
    hide DigitsValue, ToRadix, ParseRadix, LowerDigits;
    if LowerDigits(s) {
      LowerIsDigits(s);
      DigitsParse(s, 16);
      PaddedValue(s);
    } else if s[0] == '-' && s[1] != '0' && LowerDigits(s[1..]) {
      LowerIsDigits(s[1..]);
      DigitsParse(s[1..], 16);
      UnpaddedValue(s[1..]);
      assert "-" + s[1..] == s;
    } else if PadLeft(ToRadixString(x, 16), 64, '0') == s {
      WrittenIsCanonical(s, x);
    }
  }

  lemma WrittenIsCanonical(s: string, x: int)
    requires |s| == 64 && ParseRadix(s, 16) == Ok(x) && PadLeft(ToRadixString(x, 16), 64, '0') == s
    ensures LowerDigits(s) || (s[0] == '-' && s[1] != '0' && LowerDigits(s[1..]))
  {
    hide DigitsValue, ToRadix;
    ToRadixLower(Abs(x));
    var t := ToRadixString(x, 16);
    if x < 0 {
      if |t| < 64 {
        InnerMinus(s, 64 - |t|);
      } else {
        assert s == t && s[1..] == ToRadix(-x, 16);
      }
    }
  }

  /** A minus sign after other digits does not parse. */
  lemma InnerMinus(s: string, i: nat)
    requires 0 < i < |s| && s[i] == '-' && s[0] == '0' && !IsSpace(s[|s| - 1])
    ensures ParseRadix(s, 16).Err?
  {
    hide TrimLeft, TrimRight, DigitsValue;
    DigitIsNoSpace('0');
    NothingToTrim(s);
    assert CharDigit(s[i]) == 99;
  }

  lemma SquareClass(s: int, c: int, p: int)
    requires Cong(s, c, p)
    ensures (exists t :: Cong(s, t * t, p)) <==> (exists t :: Cong(c, t * t, p))
  {
    hide Divides;
    CongSym(s, c, p);
    if t :| Cong(s, t * t, p) {
      CongTrans(c, s, t * t, p);
    }
    if t :| Cong(c, t * t, p) {
      CongTrans(s, c, t * t, p);
    }
  }

  lemma NegatedRoot(y: int, c: int, p: int)
    requires Cong(y * y, c, p)
    ensures Cong((p - y) * (p - y), c, p)
  {
    Multiple(p, p - 2 * y, (p - y) * (p - y) - y * y);
    CongTrans((p - y) * (p - y), y * y, c, p);
  }
}
