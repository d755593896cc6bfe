/** Dart's `toRadixString`, `padLeft` and radix parsing, for bases up to sixteen. */
module Radix {
  import opened Basics

  predicate Base(b: nat) {
    2 <= b <= 16
  }

  function DigitChar(d: nat): char
    requires d < 16
  {
    if d < 10 then '0' + d as char else 'a' + (d - 10) as char
  }

  /** The value of a digit character, upper or lower case; 99 for any other character. */
  function CharDigit(c: char): nat {
    if '0' <= c <= '9' then (c - '0') as nat
    else if 'a' <= c <= 'f' then (c - 'a') as nat + 10
    else if 'A' <= c <= 'F' then (c - 'A') as nat + 10
    else 99
  }

  lemma DigitOfChar(d: nat)
    requires d < 16
    ensures CharDigit(DigitChar(d)) == d
  {
  }

  /** The digits written are these, and read are these and the capital letters. */
  lemma DigitTable(d: nat, c: char)
    requires d < 16
    ensures DigitChar(d) == "0123456789abcdef"[d]
    ensures CharDigit(c) == d <==> c == "0123456789abcdef"[d] || c == "0123456789ABCDEF"[d]
  {
  }

  predicate AllDigits(s: string, b: nat) {
    forall i :: 0 <= i < |s| ==> CharDigit(s[i]) < b
  }

  /** The number a digit string denotes, most significant digit first. */
  function DigitsValue(s: string, b: nat): nat {
    if s == "" then 0
    else
      DigitsValue(s[..|s| - 1], b) * b + CharDigit(s[|s| - 1])
  }

  /** `n.toRadixString(b)` for a nonnegative n. */
  function ToRadix(n: nat, b: nat): (s: string)
    requires Base(b)
    ensures |s| >= 1 && AllDigits(s, b)
  {
    if n < b then [DigitChar(n)] else
      Shrinks(n, b);
      ToRadix(n / b, b) + [DigitChar(n % b)]
  }

  /** `x.toRadixString(b)`: a minus sign and the digits of the absolute value for a negative x. */
  function ToRadixString(x: int, b: nat): string
    requires Base(b)
  {
    if x < 0 then "-" + ToRadix(-x, b) else ToRadix(x, b)
  }

  lemma Shrinks(n: nat, b: nat)
    requires b >= 2 && n >= b
    ensures 0 < n / b < n
  {
    var q := n / b;
    assert n == q * b + n % b;
    assert q <= 0 ==> q * b <= 0;
    assert q * b >= q * 2;
  }

  /** The white space `int.parse` and `BigInt.parse` skip at either end. */
  predicate IsSpace(c: char) {
    '\t' <= c <= '\r' || c == ' ' || c == '\U{00A0}' || c == '\U{1680}' || '\U{2000}' <= c <= '\U{200A}'
    || c in {'\U{2028}', '\U{2029}', '\U{202F}', '\U{205F}', '\U{3000}', '\U{FEFF}'}
  }

  function TrimLeft(s: string): string {
    if s != "" && IsSpace(s[0]) then TrimLeft(s[1..]) else s
  }

  function TrimRight(s: string): string {
    if s != "" && IsSpace(s[|s| - 1]) then TrimRight(s[..|s| - 1]) else s
  }

  /** `int.parse` and `BigInt.parse` with radix b: between white space an optional sign and one or more
      digits, otherwise they throw. */
  function ParseRadix(s: string, b: nat): Result<int>
    requires Base(b)
  {
    ParseSigned(TrimRight(TrimLeft(s)), b)
  }

  function ParseSigned(s: string, b: nat): Result<int>
    requires Base(b)
  {
    if |s| >= 1 && (s[0] == '-' || s[0] == '+') then
      if |s| > 1 && AllDigits(s[1..], b) then
        Ok(if s[0] == '-' then -(DigitsValue(s[1..], b) as int) else DigitsValue(s[1..], b))
      else Err("FormatException")
    else if s != "" && AllDigits(s, b) then Ok(DigitsValue(s, b))
    else Err("FormatException")
  }

  function PadLeft(s: string, width: nat, c: char): string {
    if |s| < width then Repeat(c, width - |s|) + s else s
  }

  // ----- reading back what was written -----

  lemma ValueSnoc(s: string, c: char, b: nat)
    ensures DigitsValue(s + [c], b) == DigitsValue(s, b) * b + CharDigit(c)
  {
    assert (s + [c])[..|s|] == s;
  }

  lemma DivMod(n: nat, b: nat)
    requires b > 0
    ensures n / b * b + n % b == n && n % b < b
  {
  }

  lemma DigitStep(s: string, n: nat, b: nat)
    requires Base(b) && DigitsValue(s, b) == n / b
    ensures DigitsValue(s + [DigitChar(n % b)], b) == n
  {
    ValueSnoc(s, DigitChar(n % b), b);
    DigitOfChar(n % b);
    DivMod(n, b);
  }

  lemma SingleDigit(n: nat, b: nat)
    requires Base(b) && n < b
    ensures DigitsValue(ToRadix(n, b), b) == n
  {
    assert ToRadix(n, b) == "" + [DigitChar(n)] && DigitsValue("", b) == 0;
    hide DigitsValue, ToRadix;
    ValueSnoc("", DigitChar(n), b);
    DigitOfChar(n);
    ZeroTimes(b);
  }

  lemma {:induction false} ValueOfToRadix(n: nat, b: nat)
    requires Base(b)
    ensures DigitsValue(ToRadix(n, b), b) == n
  {
    hide DigitsValue;
    if n < b {
      SingleDigit(n, b);
    } else {
      Shrinks(n, b);
      ValueOfToRadix(n / b, b);
      DigitStep(ToRadix(n / b, b), n, b);
    }
  }

  lemma {:induction false} ValueAppend(s: string, t: string, b: nat)
    ensures DigitsValue(s + t, b) == DigitsValue(s, b) * Pow(b, |t|) + DigitsValue(t, b)
  {
    if t == "" {
      assert s + t == s;
    } else {
      var u := t[..|t| - 1];
      ValueAppend(s, u, b);
      assert (s + t)[..|s + t| - 1] == s + u;
      AppendIdentity(DigitsValue(s, b), Pow(b, |u|), DigitsValue(u, b), CharDigit(t[|t| - 1]), b);
    }
  }

  lemma AppendIdentity(v: int, q: int, u: int, c: int, b: int)
    ensures (v * q + u) * b + c == v * (b * q) + (u * b + c)
  {
    Distribute(v * q, u, b);
    assert v * q * b == v * (b * q);
  }

  lemma Distribute(x: int, y: int, b: int)
    ensures (x + y) * b == x * b + y * b
  {
  }

  lemma {:induction false} ValueOfZeros(k: nat, b: nat)
    ensures DigitsValue(Repeat('0', k), b) == 0
  {
    if k > 0 {
      ValueOfZeros(k - 1, b);
      assert Repeat('0', k)[..k - 1] == Repeat('0', k - 1);
    }
  }

  lemma BelowNext(v: nat, d: nat, b: nat, q: int)
    requires v < q && d < b
    ensures v * b + d < b * q
  {
    assert (v + 1) * b <= q * b;
  }

  lemma {:induction false} ValueBound(s: string, b: nat)
    requires AllDigits(s, b)
    ensures DigitsValue(s, b) < Pow(b, |s|)
  {
    if s != "" {
      ValueBound(s[..|s| - 1], b);
      BelowNext(DigitsValue(s[..|s| - 1], b), CharDigit(s[|s| - 1]), b, Pow(b, |s| - 1));
    }
  }

  /** The digit string has at most k digits exactly when the number is below b^k. */
  lemma {:induction false} ToRadixLength(n: nat, b: nat, k: nat)
    requires Base(b) && k >= 1
    ensures |ToRadix(n, b)| <= k <==> n < Pow(b, k)
    decreases k
  {
    if k == 1 {
      assert Pow(b, 1) == b * Pow(b, 0);
      if n >= b {
        Shrinks(n, b);
      }
    } else if n < b {
      PowGrows(b, 1, k);
      assert Pow(b, 1) == b * Pow(b, 0);
    } else {
      Shrinks(n, b);
      ToRadixLength(n / b, b, k - 1);
      QuotientBelow(n, b, Pow(b, k - 1));
    }
  }

  lemma QuotientBelow(n: nat, b: nat, q: int)
    requires b > 0
    ensures n / b < q <==> n < b * q
  {
    assert n == b * (n / b) + n % b;
    if n / b < q {
      assert b * (n / b + 1) <= b * q;
    } else {
      assert b * (n / b) >= b * q;
    }
  }

  lemma ZeroTimes(x: int)
    ensures 0 * x == 0
  {
  }

  /** Digits, and a sign before them, are not white space. */
  lemma NothingToTrim(s: string)
    requires s != "" && !IsSpace(s[0]) && !IsSpace(s[|s| - 1])
    ensures TrimRight(TrimLeft(s)) == s
  {
  }

  lemma DigitIsNoSpace(c: char)
    requires CharDigit(c) < 16 || c == '-' || c == '+'
    ensures !IsSpace(c)
  {
  }

  /** A string of digits parses to its value, with a minus sign to the negative of it. */
  lemma DigitsParse(s: string, b: nat)
    requires Base(b) && s != "" && AllDigits(s, b)
    ensures ParseRadix(s, b) == Ok(DigitsValue(s, b))
    ensures ParseRadix("-" + s, b) == Ok(-(DigitsValue(s, b) as int))
  {
    hide DigitsValue, IsSpace, TrimLeft, TrimRight;
    DigitIsNoSpace(s[0]);
    DigitIsNoSpace(s[|s| - 1]);
    DigitIsNoSpace('-');
    NothingToTrim(s);
    var t := "-" + s;
    assert t[|t| - 1] == s[|s| - 1] && t[1..] == s;
    NothingToTrim(t);
    assert CharDigit(s[0]) < 16 && s[0] != '-' && s[0] != '+';
  }

  /** A number padded with zeros to a width it fits in parses back to itself. */
  lemma PaddedParses(n: nat, b: nat, width: nat)
    requires Base(b) && width >= 1 && n < Pow(b, width)
    ensures var s := PadLeft(ToRadix(n, b), width, '0');
            |s| == width && AllDigits(s, b) && ParseRadix(s, b) == Ok(n)
  {
    hide DigitsValue, ToRadix, Pow, ParseRadix;
    var t := ToRadix(n, b);
    ToRadixLength(n, b, width);
    var z := Repeat('0', width - |t|);
    var s := z + t;
    assert PadLeft(t, width, '0') == s;
    ValueOfToRadix(n, b);
    ValueOfZeros(|z|, b);
    ValueAppend(z, t, b);
    ZeroTimes(Pow(b, |t|));
    DigitsParse(s, b);
  }

  // ----- canonical digits -----

  /** The digits `toRadixString(16)` writes. */
  predicate LowerDigits(s: string) {
    forall i :: 0 <= i < |s| ==> '0' <= s[i] <= '9' || 'a' <= s[i] <= 'f'
  }

  lemma {:induction false} ToRadixLower(n: nat)
    ensures LowerDigits(ToRadix(n, 16))
    ensures n > 0 ==> ToRadix(n, 16)[0] != '0'
    decreases n
  {
    if n >= 16 {
      ToRadixLower(n / 16);
    }
  }

  lemma LowerIsDigits(s: string)
    requires LowerDigits(s)
    ensures AllDigits(s, 16)
  {
  }

  lemma LowerDigit(c: char, d: char)
    requires '0' <= c <= '9' || 'a' <= c <= 'f'
    requires '0' <= d <= '9' || 'a' <= d <= 'f'
    ensures CharDigit(c) < 16 && CharDigit(d) < 16 && (CharDigit(c) == CharDigit(d) ==> c == d)
  {
  }

  lemma LastDigitAndRest(u: nat, c: nat, v: nat, d: nat)
    requires c < 16 && d < 16 && u * 16 + c == v * 16 + d
    ensures u == v && c == d
  {
  }

  /** Canonical digit strings of one length and one value are equal. */
  lemma {:induction false} LowerDigitsInjective(s: string, t: string)
    requires LowerDigits(s) && LowerDigits(t) && |s| == |t| && DigitsValue(s, 16) == DigitsValue(t, 16)
    ensures s == t
    decreases |s|
  {
    if s != "" {
      var c, d := s[|s| - 1], t[|t| - 1];
      LowerDigit(c, d);
      LastDigitAndRest(DigitsValue(s[..|s| - 1], 16), CharDigit(c), DigitsValue(t[..|t| - 1], 16), CharDigit(d));
      LowerDigitsInjective(s[..|s| - 1], t[..|t| - 1]);
      assert s == s[..|s| - 1] + [c] && t == t[..|t| - 1] + [d];
    }
  }

  /** Every canonical digit string is the padded form of its value. */
  lemma PaddedValue(s: string)
    requires s != "" && LowerDigits(s)
    ensures PadLeft(ToRadix(DigitsValue(s, 16), 16), |s|, '0') == s
  {
    hide DigitsValue, ToRadix, Pow, ParseRadix;
    LowerIsDigits(s);
    ValueBound(s, 16);
    var n := DigitsValue(s, 16);
    PaddedParses(n, 16, |s|);
    var t := PadLeft(ToRadix(n, 16), |s|, '0');
    ToRadixLower(n);
    DigitsParse(t, 16);
    LowerDigitsInjective(s, t);
  }

  // ----- what parsing ignores -----

  function LowerChar(c: char): char {
    if 'A' <= c <= 'F' then c - 'A' + 'a' else c
  }

  /** The text with the capital hexadecimal digits made small. */
  function Lower(s: string): (t: string)
    ensures |t| == |s| && forall i :: 0 <= i < |s| ==> t[i] == LowerChar(s[i])
  {
    seq(|s|, i requires 0 <= i < |s| => LowerChar(s[i]))
  }

  lemma LowerSlice(s: string, i: nat)
    requires i <= |s|
    ensures Lower(s[i..]) == Lower(s)[i..] && Lower(s[..i]) == Lower(s)[..i]
  {
  }

  lemma LowerCharKeeps(c: char)
    ensures CharDigit(LowerChar(c)) == CharDigit(c) && IsSpace(LowerChar(c)) == IsSpace(c)
    ensures (LowerChar(c) == '-' <==> c == '-') && (LowerChar(c) == '+' <==> c == '+')
  {
  }

  lemma {:induction false} LowerTrimsLeft(s: string)
    ensures TrimLeft(Lower(s)) == Lower(TrimLeft(s))
    decreases |s|
  {
    hide IsSpace, LowerChar;
    if s != "" {
      LowerCharKeeps(s[0]);
      LowerTrimsLeft(s[1..]);
      LowerSlice(s, 1);
    }
  }

  lemma {:induction false} LowerTrimsRight(s: string)
    ensures TrimRight(Lower(s)) == Lower(TrimRight(s))
    decreases |s|
  {
    hide IsSpace, LowerChar;
    if s != "" {
      LowerCharKeeps(s[|s| - 1]);
      LowerTrimsRight(s[..|s| - 1]);
      LowerSlice(s, |s| - 1);
    }
  }

  lemma {:induction false} LowerValue(s: string, b: nat)
    ensures DigitsValue(Lower(s), b) == DigitsValue(s, b)
    decreases |s|
  {
    hide LowerChar, CharDigit;
    if s != "" {
      LowerCharKeeps(s[|s| - 1]);
      LowerValue(s[..|s| - 1], b);
      LowerSlice(s, |s| - 1);
    }
  }

  lemma LowerDigitsSame(s: string, b: nat)
    ensures AllDigits(Lower(s), b) <==> AllDigits(s, b)
  {
    hide LowerChar, CharDigit;
    forall i | 0 <= i < |s|
      ensures CharDigit(Lower(s)[i]) == CharDigit(s[i])
    {
      LowerCharKeeps(s[i]);
    }
  }

  /** Capital and small digits parse alike. */
  lemma ParseIgnoresCase(s: string, b: nat)
    requires Base(b)
    ensures ParseRadix(Lower(s), b) == ParseRadix(s, b)
  {
    hide LowerChar, CharDigit, TrimLeft, TrimRight, AllDigits, DigitsValue;
    LowerTrimsLeft(s);
    LowerTrimsRight(TrimLeft(s));
    var t := TrimRight(TrimLeft(s));
    LowerValue(t, b);
    LowerDigitsSame(t, b);
    if t != "" {
      LowerCharKeeps(t[0]);
      LowerSlice(t, 1);
      LowerValue(t[1..], b);
      LowerDigitsSame(t[1..], b);
    }
  }

  predicate AllSpace(s: string) {
    forall i :: 0 <= i < |s| ==> IsSpace(s[i])
  }

  lemma {:induction false} TrimLeftSpace(w: string, s: string)
    requires AllSpace(w)
    ensures TrimLeft(w + s) == TrimLeft(s)
    decreases |w|
  {
    hide IsSpace;
    if w == "" {
      assert w + s == s;
    } else {
      TrimLeftSpace(w[1..], s);
      assert (w + s)[1..] == w[1..] + s;
    }
  }

  lemma {:induction false} TrimLeftSnoc(s: string, c: char)
    requires IsSpace(c)
    ensures TrimRight(TrimLeft(s + [c])) == TrimRight(TrimLeft(s))
    decreases |s|
  {
    hide IsSpace;
    if s == "" {
      assert s + [c] == [c] && [c][1..] == "";
    } else if IsSpace(s[0]) {
      TrimLeftSnoc(s[1..], c);
      assert (s + [c])[1..] == s[1..] + [c];
    } else {
      assert (s + [c])[..|s|] == s;
    }
  }

  /** White space around a text is skipped. */
  lemma {:induction false} ParseSkipsSpace(before: string, s: string, after: string, b: nat)
    requires Base(b) && AllSpace(before) && AllSpace(after)
    ensures ParseRadix(before + s + after, b) == ParseRadix(s, b)
    decreases |after|
  {
    hide IsSpace, TrimLeft, TrimRight, ParseSigned;
    if after == "" {
      assert before + s + after == before + s;
      TrimLeftSpace(before, s);
    } else {
      var k := |after| - 1;
      ParseSkipsSpace(before, s, after[..k], b);
      assert before + s + after == (before + s + after[..k]) + [after[k]];
      TrimLeftSnoc(before + s + after[..k], after[k]);
    }
  }

  /** Without leading zeros it needs no padding. */
  lemma UnpaddedValue(s: string)
    requires s != "" && LowerDigits(s) && s[0] != '0'
    ensures ToRadix(DigitsValue(s, 16), 16) == s && DigitsValue(s, 16) > 0
  {
    hide DigitsValue, ToRadix;
    PaddedValue(s);
    ZeroDigit();
  }

  lemma ZeroDigit()
    ensures ToRadix(0, 16) == "0"
  {
  }
}
