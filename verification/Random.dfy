/** lib/util_crypto/random.dart over an arbitrary stream of generator outputs. */
module Random {
  import opened Basics
  import opened Numbers
  import R = Radix

  // ----- what the draws are, as functions of the stream and the position in it -----

  function BytesFrom(stream: nat -> nat, at: nat, n: nat): (b: bytes)
    ensures |b| == n
  {
    seq(n, i requires 0 <= i < n => stream(at + i) % 256)
  }

  function MainPart(stream: nat -> nat, at: nat, bitLength: nat): nat {
    Value(BytesFrom(stream, at, bitLength / 8), Big)
  }

  /** The bits that the drawn bytes leave unused, leading zero bits included. */
  function Remaining(stream: nat -> nat, at: nat, bitLength: nat): nat {
    MainBits(stream, at, bitLength);
    bitLength - BitLength(MainPart(stream, at, bitLength))
  }

  function Additional(stream: nat -> nat, at: nat, bitLength: nat): nat {
    var r := Remaining(stream, at, bitLength);
    PowPositive(2, r);
    if r < 4 then stream(at + bitLength / 8) % Pow(2, r) else r
  }

  function Drawn(stream: nat -> nat, at: nat, bitLength: nat): nat {
    MainPart(stream, at, bitLength) + ShiftLeft(Additional(stream, at, bitLength), bitLength / 8 * 8)
  }

  function ShiftLeft(x: nat, k: nat): nat {
    PowPositive(2, k);
    AtLeastOne(x, Pow(2, k));
    x * Pow(2, k)
  }

  lemma AtLeastOne(k: nat, x: nat)
    ensures k * x >= 0 && (k >= 1 ==> k * x >= x)
  {
  }

  function Position(stream: nat -> nat, at: nat, bitLength: nat): nat {
    at + bitLength / 8 + if Remaining(stream, at, bitLength) < 4 then 1 else 0
  }

  lemma MainBits(stream: nat -> nat, at: nat, bitLength: nat)
    ensures BitLength(MainPart(stream, at, bitLength)) <= bitLength / 8 * 8 <= bitLength
    ensures MainPart(stream, at, bitLength) < Pow(2, bitLength / 8 * 8)
  {
    hide BitLength, Pow;
    var n := bitLength / 8;
    ValueBound(Reverse(BytesFrom(stream, at, n)));
    PowerOf256(n);
    BitLengthExact(MainPart(stream, at, bitLength), 8 * n);
  }

  class DartRandom {
    const stream: nat -> nat
    var drawn: nat

    constructor (stream: nat -> nat)
      ensures this.stream == stream && drawn == 0
    {
      this.stream := stream;
      drawn := 0;
    }

    /** `Random.nextInt(max)`: the next output of the stream, below max. */
    method NextInt(max: nat) returns (r: nat)
      requires max > 0
      modifies this
      ensures r == stream(old(drawn)) % max && drawn == old(drawn) + 1
    {
      r := stream(drawn) % max;
      drawn := drawn + 1;
    }

    method NextBytes(count: nat) returns (list: bytes)
      modifies this
      ensures list == BytesFrom(stream, old(drawn), count) && drawn == old(drawn) + count
    {
      var a := new byte[count](_ => 0);
      for i := 0 to count
        invariant drawn == old(drawn) + i
        invariant forall j :: 0 <= j < i ==> a[j] == stream(old(drawn) + j) % 256
      {
        var x := NextInt(256);
        a[i] := x;
      }
      list := a[..];
    }

    method NextBigInteger(bitLength: nat) returns (result: nat)
      modifies this
      ensures result == Drawn(stream, old(drawn), bitLength)
      ensures drawn == Position(stream, old(drawn), bitLength)
    {
      hide BitLength, Pow, Value, BytesFrom;
      var at := drawn;
      var fullBytes := bitLength / 8;
      var list := NextBytes(fullBytes);
      var main := DecodeBigInt(list, Big);
      assert main == MainPart(stream, at, bitLength);
      MainBits(stream, at, bitLength);
      var remainingBits := bitLength - BitLength(main);
      var additional: nat;
      if remainingBits < 4 {
        PowPositive(2, remainingBits);
        additional := NextInt(Pow(2, remainingBits));
      } else {
        additional := remainingBits;
      }
      result := main + ShiftLeft(additional, fullBytes * 8);
    }
  }

  // ----- digits -----

  /** `hexAddPrefix().toU8a()` on a string of digits: an odd string gets a leading zero. */
  function HexBytes(s: string): bytes
    requires R.AllDigits(s, 16)
  {
    var t := if |s| % 2 == 1 then "0" + s else s;
    seq(|t| / 2, i requires 0 <= i < |t| / 2 => R.CharDigit(t[2 * i]) * 16 + R.CharDigit(t[2 * i + 1]))
  }

  /** At most 2*length digits are kept. */
  function Truncate(s: string, length: nat): string {
    if |s| > length * 2 then s[..length * 2] else s
  }

  lemma {:induction false} PowerOf16(k: nat)
    ensures Pow(2, 4 * k) == Pow(16, k)
  {
    if k > 0 {
      PowerOf16(k - 1);
      PowAdd(2, 4, 4 * (k - 1));
      assert Pow(2, 4) == 16;
    }
  }

  /** Every draw has at least 2*length hexadecimal digits, two for each drawn byte. */
  lemma DrawHasDigits(stream: nat -> nat, at: nat, length: nat)
    ensures |R.ToRadix(Drawn(stream, at, length * 8), 16)| >= 2 * length
  {
    hide Drawn, Additional, MainPart, R.ToRadix, Low;
    if length > 0 {
      DrawDigits(stream, at, length);
    }
  }

  method GetRandomValues(rn: DartRandom, length: nat) returns (r: bytes)
    modifies rn
    ensures |r| == length
    ensures var at := Position(rn.stream, old(rn.drawn), length * 8);
            && rn.drawn == Position(rn.stream, at, length * 8)
            && (length > 0 ==> r == HexBytes(Truncate(R.ToRadix(Drawn(rn.stream, at, length * 8), 16), length)))
            && (length > 0 ==> (r == BytesFrom(rn.stream, at, length) <==> KeepsBytes(rn.stream, at, length)))
  {
    hide Drawn, Position, KeepsBytes, R.ToRadix, BytesFrom;
    var first := rn.NextBigInteger(length * 8);
    var entropy := R.ToRadix(first, 16);
    if |entropy| > length * 2 {
      entropy := entropy[..length * 2];
    }
    DrawHasDigits(rn.stream, rn.drawn, length);
    if length > 0 {
      DrawnBytesExact(rn.stream, rn.drawn, length);
    }
    var second := rn.NextBigInteger(length * 8);
    var randomPers := R.ToRadix(second, 16);
    if |randomPers| > length * 2 {
      randomPers := randomPers[..length * 2];
    }
    r := HexBytes(randomPers);
  }

  // ----- which bytes come out -----

  /** The low k hexadecimal digits of a number, leading zeros included. */
  function Low(n: nat, k: nat): (s: string)
    ensures |s| == k
    decreases k
  {
    if k == 0 then "" else Low(n / 16, k - 1) + [R.DigitChar(n % 16)]
  }

  lemma LastDigit(n: nat)
    requires n >= 16
    ensures R.ToRadix(n, 16) == R.ToRadix(n / 16, 16) + [R.DigitChar(n % 16)]
  {
  }

  lemma SplitDigit(high: nat, low: nat, q: nat)
    requires high > 0 && q > 0
    ensures var n := high * (16 * q) + low;
            n >= 16 && high * q >= 0 && n / 16 == high * q + low / 16 && n % 16 == low % 16
  {
    var t := high * q;
    AtLeastOne(high, q);
    assert high * (16 * q) == 16 * t;
  }

  lemma {:induction false} DigitsAbove(high: nat, low: nat, k: nat)
    requires high > 0 && low < Pow(16, k)
    ensures high * Pow(16, k) >= 0
    ensures R.ToRadix(high * Pow(16, k) + low, 16) == R.ToRadix(high, 16) + Low(low, k)
    decreases k
  {
    hide R.ToRadix, R.DigitChar;
    PowPositive(16, k);
    AtLeastOne(high, Pow(16, k));
    if k == 0 {
      assert high * Pow(16, 0) == high && R.ToRadix(high, 16) + "" == R.ToRadix(high, 16);
    } else {
      PowPositive(16, k - 1);
      SplitDigit(high, low, Pow(16, k - 1));
      DigitsAbove(high, low / 16, k - 1);
      LastDigit(high * Pow(16, k) + low);
    }
  }

  /** A number that needs exactly k digits is written as its low k digits. */
  lemma {:induction false} DigitsOfFull(n: nat, k: nat)
    requires k >= 1 && n < Pow(16, k) && (k > 1 ==> n >= Pow(16, k - 1))
    ensures R.ToRadix(n, 16) == Low(n, k)
    decreases k
  {
    assert Pow(16, k) == 16 * Pow(16, k - 1);
    if k == 1 {
      assert Pow(16, 0) == 1 && Low(n / 16, 0) == "";
    } else {
      assert Pow(16, k - 1) == 16 * Pow(16, k - 2);
      PowPositive(16, k - 2);
      LastDigit(n);
      DigitsOfFull(n / 16, k - 1);
    }
  }

  /** The extra draw is zero only when at most three bits are unused, so the drawn bytes have all their digits. */
  lemma FullMain(stream: nat -> nat, at: nat, length: nat)
    requires length > 0 && Additional(stream, at, length * 8) == 0
    ensures Pow(16, 2 * length - 1) <= MainPart(stream, at, length * 8) < Pow(16, 2 * length)
  {
    hide BitLength, Pow, MainPart;
    MainBits(stream, at, length * 8);
    PowerOf16(2 * length);
    PowerOf16(2 * length - 1);
    BitLengthExact(MainPart(stream, at, length * 8), length * 8 - 4);
  }

  /** The digits of every draw: those of the extra draw, if it is not zero, and then two for each
      drawn byte. The extra draw is the count of unused bits when there are at least four. */
  lemma DrawDigits(stream: nat -> nat, at: nat, length: nat)
    requires length > 0
    ensures var add := Additional(stream, at, length * 8);
            R.ToRadix(Drawn(stream, at, length * 8), 16)
            == (if add > 0 then R.ToRadix(add, 16) else "") + Low(MainPart(stream, at, length * 8), 2 * length)
    ensures Remaining(stream, at, length * 8) >= 4 ==>
              Additional(stream, at, length * 8) == Remaining(stream, at, length * 8)
  {
    hide BitLength, Pow, MainPart, R.ToRadix, Low;
    var main, add := MainPart(stream, at, length * 8), Additional(stream, at, length * 8);
    PowerOf16(2 * length);
    if add > 0 {
      MainBits(stream, at, length * 8);
      DigitsAbove(add, main, 2 * length);
    } else {
      assert 0 * Pow(2, length * 8) == 0;
      FullMain(stream, at, length);
      DigitsOfFull(main, 2 * length);
      assert "" + Low(main, 2 * length) == Low(main, 2 * length);
    }
  }

  lemma BigValueSnoc(b: bytes)
    requires b != []
    ensures Value(b, Big) == 256 * Value(b[..|b| - 1], Big) + b[|b| - 1]
  {
    assert Reverse(b)[1..] == Reverse(b[..|b| - 1]);
  }

  /** The two digits of each byte, in order. */
  lemma {:induction false} LowOfBytes(b: bytes, i: nat)
    requires i < |b|
    ensures var s := Low(Value(b, Big), 2 * |b|);
            s[2 * i] == R.DigitChar(b[i] / 16) && s[2 * i + 1] == R.DigitChar(b[i] % 16)
    decreases |b|
  {
    hide Value, R.DigitChar;
    BigValueSnoc(b);
    var rest, last := b[..|b| - 1], b[|b| - 1];
    var v := Value(b, Big);
    assert v / 16 == 16 * Value(rest, Big) + last / 16 && v % 16 == last % 16;
    assert v / 16 / 16 == Value(rest, Big) && v / 16 % 16 == last / 16;
    assert Low(v, 2 * |b|) == Low(v / 16, 2 * |b| - 1) + [R.DigitChar(v % 16)];
    assert Low(v / 16, 2 * |b| - 1) == Low(v / 16 / 16, 2 * |rest|) + [R.DigitChar(v / 16 % 16)];
    if i < |rest| {
      LowOfBytes(rest, i);
    }
  }

  lemma {:induction false} LowDigits(n: nat, k: nat)
    ensures R.AllDigits(Low(n, k), 16)
    decreases k
  {
    if k > 0 {
      LowDigits(n / 16, k - 1);
      R.DigitOfChar(n % 16);
    }
  }

  lemma ByteOfDigits(s: string, i: nat, x: byte)
    requires R.AllDigits(s, 16) && |s| % 2 == 0 && 2 * i + 1 < |s|
    requires s[2 * i] == R.DigitChar(x / 16) && s[2 * i + 1] == R.DigitChar(x % 16)
    ensures i < |HexBytes(s)| && HexBytes(s)[i] == x
  {
    hide R.DigitChar, R.CharDigit;
    R.DigitOfChar(x / 16);
    R.DigitOfChar(x % 16);
  }

  lemma HexOfLow(b: bytes)
    ensures R.AllDigits(Low(Value(b, Big), 2 * |b|), 16) && HexBytes(Low(Value(b, Big), 2 * |b|)) == b
  {
    hide Value, Low, R.DigitChar, R.CharDigit, R.AllDigits;
    var s := Low(Value(b, Big), 2 * |b|);
    LowDigits(Value(b, Big), 2 * |b|);
    assert |HexBytes(s)| == |b|;
    forall i | 0 <= i < |b|
      ensures HexBytes(s)[i] == b[i]
    {
      hide HexBytes;
      LowOfBytes(b, i);
      ByteOfDigits(s, i, b[i]);
    }
  }

  /** What `getRandomValues` makes of a draw: the drawn bytes when the extra draw is zero. Otherwise
      the digits of the extra draw come first and as many digits of the bytes are cut off. */
  lemma RandomBytesExact(stream: nat -> nat, at: nat, length: nat)
    requires length > 0
    ensures var add := Additional(stream, at, length * 8);
            var kept := Truncate(R.ToRadix(Drawn(stream, at, length * 8), 16), length);
            && R.AllDigits(kept, 16)
            && (add == 0 ==> HexBytes(kept) == BytesFrom(stream, at, length))
            && (add > 0 ==> var lead := R.ToRadix(add, 16);
                            |lead| <= 2 * length
                            && kept == lead + Low(MainPart(stream, at, length * 8), 2 * length)[..2 * length - |lead|])
  {
    hide BytesFrom, HexBytes, Drawn, Additional, Remaining, MainPart, Value, Low, R.ToRadix;
    var main := MainPart(stream, at, length * 8);
    var add := Additional(stream, at, length * 8);
    DrawDigits(stream, at, length);
    var digits := R.ToRadix(Drawn(stream, at, length * 8), 16);
    var low := Low(main, 2 * length);
    if add == 0 {
      assert digits == low;
      MainIsValue(stream, at, length);
      HexOfLow(BytesFrom(stream, at, length));
    } else {
      var lead := R.ToRadix(add, 16);
      AdditionalSmall(stream, at, length);
      R.ToRadixLength(add, 16, 2 * length);
      assert (lead + low)[..2 * length] == lead + low[..2 * length - |lead|];
    }
  }

  // ----- when they are the drawn bytes -----

  /** The drawn bytes survive when the extra draw is zero, or when every one of them repeats the digit of
      the extra draw, 1, 2 or 3: then the digit put in front is the one cut off at the end. */
  predicate KeepsBytes(stream: nat -> nat, at: nat, length: nat) {
    var add := Additional(stream, at, length * 8);
    add == 0 || (add <= 3 && Repeats(BytesFrom(stream, at, length), add))
  }

  predicate Repeats(b: bytes, digit: nat) {
    forall i :: 0 <= i < |b| ==> b[i] == 17 * digit
  }

  predicate AllEqual(s: string, c: char) {
    forall i :: 0 <= i < |s| ==> s[i] == c
  }

  /** A string that equals its shift by a character consists of that character. */
  lemma {:induction false} ShiftedIsConstant(s: string, c: char)
    requires s != ""
    ensures [c] + s[..|s| - 1] == s <==> AllEqual(s, c)
  {
    if AllEqual(s, c) {
      assert [c] + s[..|s| - 1] == s;
    }
    if [c] + s[..|s| - 1] == s {
      ShiftedAt(s, c, |s| - 1);
    }
  }

  lemma {:induction false} ShiftedAt(s: string, c: char, k: nat)
    requires k < |s| && [c] + s[..|s| - 1] == s
    ensures forall i :: 0 <= i <= k ==> s[i] == c
  {
    if k > 0 {
      ShiftedAt(s, c, k - 1);
      assert s[k] == ([c] + s[..|s| - 1])[k] == s[k - 1];
    }
  }

  /** The digits of bytes are all the same digit exactly when the bytes are. */
  lemma DigitsOfRepeated(b: bytes, digit: nat)
    requires digit < 16
    ensures AllEqual(Low(Value(b, Big), 2 * |b|), R.DigitChar(digit)) <==> Repeats(b, digit)
  {
    hide Low, Value, R.DigitChar, R.CharDigit;
    var s := Low(Value(b, Big), 2 * |b|);
    forall i | 0 <= i < |b|
      ensures s[2 * i] == R.DigitChar(digit) && s[2 * i + 1] == R.DigitChar(digit) <==> b[i] == 17 * digit
    {
      LowOfBytes(b, i);
      DigitCharInjective(b[i] / 16, digit);
      DigitCharInjective(b[i] % 16, digit);
    }
    if Repeats(b, digit) {
      forall j | 0 <= j < |s|
        ensures s[j] == R.DigitChar(digit)
      {
        assert b[j / 2] == 17 * digit;
        assert j == 2 * (j / 2) || j == 2 * (j / 2) + 1;
      }
    }
  }

  lemma DigitCharInjective(d: nat, e: nat)
    requires d < 16 && e < 16
    ensures R.DigitChar(d) == R.DigitChar(e) <==> d == e
  {
    R.DigitOfChar(d);
    R.DigitOfChar(e);
  }

  lemma {:induction false} LowIsLower(n: nat, k: nat)
    ensures R.LowerDigits(Low(n, k))
    decreases k
  {
    if k > 0 {
      LowIsLower(n / 16, k - 1);
    }
  }

  /** A number that does not reach its top digit is written with a leading zero. */
  lemma {:induction false} LowLeadingZero(n: nat, k: nat)
    requires k >= 1 && n < Pow(16, k - 1)
    ensures Low(n, k)[0] == '0'
    decreases k
  {
    if k == 1 {
      assert Low(0, 0) == "";
    } else {
      assert Pow(16, k - 1) == 16 * Pow(16, k - 2);
      LowLeadingZero(n / 16, k - 1);
    }
  }

  /** Canonical digits are determined by the bytes they stand for. */
  lemma HexBytesInjective(s: string, t: string)
    requires R.LowerDigits(s) && R.LowerDigits(t) && |s| == |t| && |s| % 2 == 0
    requires R.AllDigits(s, 16) && R.AllDigits(t, 16) && HexBytes(s) == HexBytes(t)
    ensures s == t
  {
    hide HexBytes, R.AllDigits, R.CharDigit;
    forall i | 0 <= i < |s| / 2
      ensures s[2 * i] == t[2 * i] && s[2 * i + 1] == t[2 * i + 1]
    {
      HexByteAt(s, i);
      HexByteAt(t, i);
      SamePair(s[2 * i], s[2 * i + 1], t[2 * i], t[2 * i + 1]);
    }
    forall j | 0 <= j < |s|
      ensures s[j] == t[j]
    {
      assert j == 2 * (j / 2) || j == 2 * (j / 2) + 1;
    }
  }

  lemma HexByteAt(s: string, i: nat)
    requires R.AllDigits(s, 16) && |s| % 2 == 0 && 2 * i + 1 < |s|
    ensures i < |HexBytes(s)| && HexBytes(s)[i] == R.CharDigit(s[2 * i]) * 16 + R.CharDigit(s[2 * i + 1])
  {
    hide R.CharDigit;
  }

  lemma SamePair(a: char, b: char, c: char, d: char)
    requires R.LowerDigits([a, b]) && R.LowerDigits([c, d])
    requires R.CharDigit(a) * 16 + R.CharDigit(b) == R.CharDigit(c) * 16 + R.CharDigit(d)
    ensures a == c && b == d
  {
    assert [a, b][0] == a && [a, b][1] == b && [c, d][0] == c && [c, d][1] == d;
    assert R.CharDigit(b) < 16 && R.CharDigit(d) < 16;
  }

  lemma {:induction false} TopByteBound(b: bytes)
    requires b != []
    ensures Value(b, Big) >= b[0] * Pow(256, |b| - 1)
    decreases |b|
  {
    hide Value;
    if |b| == 1 {
      BigValueSnoc(b);
      assert b[..0] == [] && Pow(256, 0) == 1;
    } else {
      BigValueSnoc(b);
      TopByteBound(b[..|b| - 1]);
      assert b[0] * Pow(256, |b| - 1) == 256 * (b[0] * Pow(256, |b| - 2));
    }
  }

  /** Bytes that repeat a digit from 4 on leave at most one bit unused, so the extra draw is at most 1. */
  lemma LargeDigitsLeaveNoRoom(stream: nat -> nat, at: nat, length: nat, digit: nat)
    requires length > 0 && 4 <= digit < 16 && Repeats(BytesFrom(stream, at, length), digit)
    ensures Additional(stream, at, length * 8) <= 1
  {
    hide BitLength, Pow, BytesFrom, Value;
    var b := BytesFrom(stream, at, length);
    var main := MainPart(stream, at, length * 8);
    MainIsValue(stream, at, length);
    TopByteBound(b);
    assert b[0] >= 64;
    PowerOf256(length - 1);
    PowAdd(2, 6, 8 * (length - 1));
    SixtyFour();
    PowPositive(256, length - 1);
    R.Distribute(64, b[0] - 64, Pow(256, length - 1));
    assert (b[0] - 64) * Pow(256, length - 1) >= 0 by {
      AtLeastOne(b[0] - 64, Pow(256, length - 1));
    }
    assert main >= Pow(2, 8 * length - 2);
    BitLengthExact(main, 8 * length - 2);
    var r := Remaining(stream, at, length * 8);
    assert r <= 1;
    PowGrows(2, r, 1);
    TwoIsPower();
  }

  lemma SixtyFour()
    ensures Pow(2, 6) == 64
  {
    PowAdd(2, 3, 3);
    EightIsPower();
  }

  lemma TwoIsPower()
    ensures Pow(2, 1) == 2
  {
  }

  /** With an extra draw of one digit the kept digits are those of the bytes exactly when all are equal to it. */
  lemma OneDigitInFront(stream: nat -> nat, at: nat, length: nat)
    requires length > 0 && 0 < Additional(stream, at, length * 8) < 16
    ensures var add := Additional(stream, at, length * 8);
            var low := Low(Value(BytesFrom(stream, at, length), Big), 2 * length);
            && R.ToRadix(add, 16) == [R.DigitChar(add)]
            && (R.ToRadix(add, 16) + low[..2 * length - 1] == low <==> Repeats(BytesFrom(stream, at, length), add))
  {
    hide Additional, BytesFrom, Value, Low, Repeats, AllEqual, R.DigitChar;
    var add, b := Additional(stream, at, length * 8), BytesFrom(stream, at, length);
    var low := Low(Value(b, Big), 2 * length);
    ShiftedIsConstant(low, R.DigitChar(add));
    DigitsOfRepeated(b, add);
  }

  /** With a count of unused bits in front the first digit is not zero, but that of the bytes is. */
  lemma CountInFront(stream: nat -> nat, at: nat, length: nat)
    requires length > 0 && Remaining(stream, at, length * 8) >= 4
    ensures var low := Low(Value(BytesFrom(stream, at, length), Big), 2 * length);
            Additional(stream, at, length * 8) >= 4 && low[0] == '0' && R.ToRadix(Additional(stream, at, length * 8), 16)[0] != '0'
  {
    hide BytesFrom, Value, Low, Pow, MainPart, Remaining, R.ToRadix;
    MainIsValue(stream, at, length);
    ShortMain(stream, at, length);
    LowLeadingZero(MainPart(stream, at, length * 8), 2 * length);
    R.ToRadixLower(Additional(stream, at, length * 8));
  }

  lemma ShortMain(stream: nat -> nat, at: nat, length: nat)
    requires length > 0 && Remaining(stream, at, length * 8) >= 4
    ensures MainPart(stream, at, length * 8) < Pow(16, 2 * length - 1)
  {
    hide BitLength, MainPart, Pow;
    PowerOf16(2 * length - 1);
    BitLengthExact(MainPart(stream, at, length * 8), 8 * length - 4);
  }

  /** `getRandomValues` returns the drawn bytes exactly when `KeepsBytes` holds. */
  lemma DrawnBytesExact(stream: nat -> nat, at: nat, length: nat)
    requires length > 0
    ensures var kept := Truncate(R.ToRadix(Drawn(stream, at, length * 8), 16), length);
            R.AllDigits(kept, 16) && (HexBytes(kept) == BytesFrom(stream, at, length) <==> KeepsBytes(stream, at, length))
  {
    hide BytesFrom, HexBytes, Drawn, Additional, Remaining, Value, Low, Repeats, R.ToRadix, R.AllDigits, R.LowerDigits, Truncate;
    var add, b := Additional(stream, at, length * 8), BytesFrom(stream, at, length);
    var kept := Truncate(R.ToRadix(Drawn(stream, at, length * 8), 16), length);
    RandomBytesExact(stream, at, length);
    MainIsValue(stream, at, length);
    if add > 0 {
      var low := Low(Value(b, Big), 2 * length);
      KeptIsLow(stream, at, length, kept, low);
      SmallOrCount(stream, at, length);
      if Remaining(stream, at, length * 8) >= 4 {
        CountInFront(stream, at, length);
        var lead := R.ToRadix(add, 16);
        assert kept[0] == lead[0];
      } else {
        OneDigitInFront(stream, at, length);
        if 4 <= add && Repeats(b, add) {
          LargeDigitsLeaveNoRoom(stream, at, length, add);
        }
      }
    }
  }

  lemma SmallOrCount(stream: nat -> nat, at: nat, length: nat)
    requires length > 0
    ensures Remaining(stream, at, length * 8) < 4 ==> Additional(stream, at, length * 8) < 8
  {
    hide BitLength, MainPart, Pow;
    var r := Remaining(stream, at, length * 8);
    PowPositive(2, r);
    if r < 4 {
      PowGrows(2, r, 3);
      EightIsPower();
    }
  }

  /** The kept digits stand for the drawn bytes exactly when they are the digits of these bytes. */
  lemma KeptIsLow(stream: nat -> nat, at: nat, length: nat, kept: string, low: string)
    requires length > 0 && Additional(stream, at, length * 8) > 0
    requires low == Low(Value(BytesFrom(stream, at, length), Big), 2 * length)
    requires var lead := R.ToRadix(Additional(stream, at, length * 8), 16);
             |lead| <= 2 * length && kept == lead + low[..2 * length - |lead|]
    ensures R.AllDigits(kept, 16) && |kept| == 2 * length
    ensures HexBytes(kept) == BytesFrom(stream, at, length) <==> kept == low
  {
    hide HexBytes, BytesFrom, Additional, Value, Low, R.ToRadix, R.AllDigits;
    var b := BytesFrom(stream, at, length);
    HexOfLow(b);
    LowIsLower(Value(b, Big), 2 * length);
    R.ToRadixLower(Additional(stream, at, length * 8));
    R.LowerIsDigits(kept);
    if HexBytes(kept) == b {
      HexBytesInjective(kept, low);
    }
  }

  function ElevenThenOne(i: nat): nat {
    if i == 0 then 0x11 else 1
  }

  /** A nonzero extra draw that does no harm: 0x11 is drawn, then 1, and 0x11 comes out of the digits 111. */
  lemma RepeatedByteKept()
    ensures Additional(ElevenThenOne, 0, 8) == 1 && BytesFrom(ElevenThenOne, 0, 1) == [0x11]
    ensures HexBytes(Truncate(R.ToRadix(Drawn(ElevenThenOne, 0, 8), 16), 1)) == [0x11]
  {
    ElevenDrawn();
    hide Drawn, Additional, MainPart, BytesFrom, ElevenThenOne, Remaining;
    DrawnBytesExact(ElevenThenOne, 0, 1);
  }

  lemma ElevenDrawn()
    ensures Additional(ElevenThenOne, 0, 8) == 1 && BytesFrom(ElevenThenOne, 0, 1) == [0x11]
  {
    var stream: nat -> nat := ElevenThenOne;
    assert stream(0) == 0x11 && stream(1) == 1;
    assert BytesFrom(stream, 0, 1)[0] == stream(0 + 0) % 256;
    assert BytesFrom(stream, 0, 1) == [0x11];
    assert Reverse([0x11 as byte]) == [0x11];
    assert ValueLE([0x11]) == 0x11 + 256 * ValueLE([]);
    BitsOfEleven();
    assert MainPart(stream, 0, 8) == 0x11 && Remaining(stream, 0, 8) == 3;
    EightIsPower();
  }

  lemma BitsOfEleven()
    ensures BitLength(0x11) == 5
  {
    assert BitLength(8) == 4 by {
      assert BitLength(4) == 3 by {
        assert BitLength(2) == 2;
      }
    }
  }

  function AlwaysOne(i: nat): nat {
    1
  }

  lemma OneByte()
    ensures BytesFrom(AlwaysOne, 0, 1) == [1] && MainPart(AlwaysOne, 0, 8) == 1 && Additional(AlwaysOne, 0, 8) == 7
  {
    var stream: nat -> nat := AlwaysOne;
    assert stream(0) == 1;
    assert BytesFrom(stream, 0, 1)[0] == stream(0 + 0) % 256;
    assert BytesFrom(stream, 0, 1) == [1];
    assert Reverse([1 as byte]) == [1];
    assert ValueLE([1]) == 1 + 256 * ValueLE([]);
    assert BitLength(1) == 1;
  }

  /** A generator that always answers 1: one byte is asked for, 1 is drawn, and 0x70 comes out, the
      first two digits of 701. */
  lemma DrawnByteLost()
    ensures BytesFrom(AlwaysOne, 0, 1) == [1]
    ensures HexBytes(Truncate(R.ToRadix(Drawn(AlwaysOne, 0, 8), 16), 1)) == [0x70]
  {
    hide Drawn, Additional, MainPart, BytesFrom, AlwaysOne, Remaining;
    OneByte();
    RandomBytesExact(AlwaysOne, 0, 1);
    assert R.ToRadix(7, 16) == "7" && Low(1, 2) == "01";
    assert "7" + "01"[..1] == "70";
  }

  lemma {:induction false} EightTimesSmall(length: nat)
    requires length > 0
    ensures 8 * length < Pow(16, 2 * length)
  {
    assert Pow(16, 2 * length) == 16 * Pow(16, 2 * length - 1) == 16 * (16 * Pow(16, 2 * length - 2));
    PowPositive(16, 2 * length - 2);
    if length > 1 {
      EightTimesSmall(length - 1);
    }
  }

  lemma AdditionalSmall(stream: nat -> nat, at: nat, length: nat)
    requires length > 0
    ensures Additional(stream, at, length * 8) < Pow(16, 2 * length)
  {
    hide BitLength, MainPart, Pow;
    EightTimesSmall(length);
    var r := Remaining(stream, at, length * 8);
    if r < 4 {
      PowGrows(2, r, 3);
      PowPositive(2, r);
      EightIsPower();
    }
  }

  lemma EightIsPower()
    ensures Pow(2, 3) == 8
  {
  }

  lemma MainIsValue(stream: nat -> nat, at: nat, length: nat)
    ensures MainPart(stream, at, length * 8) == Value(BytesFrom(stream, at, length), Big)
  {
  }
}
