/** lib/util_crypto/base32.dart with its 64-bit buffer, against RFC 4648, section 6 (lower case,
    without padding characters), stated on bit strings. */
module Base32 {
  import opened Basics

  const ALPHABET: string := "abcdefghijklmnopqrstuvwxyz234567"
  const TWO_64: int := 0x1_0000_0000_0000_0000

  predicate InAlphabet(c: char) {
    'a' <= c <= 'z' || '2' <= c <= '7'
  }

  predicate AllInAlphabet(s: string) {
    forall i :: 0 <= i < |s| ==> InAlphabet(s[i])
  }

  /** The character at an index of the alphabet; `AlphabetText` compares it with the text. */
  function SymbolAt(k: nat): char
    requires k < 32
  {
    if k < 26 then 'a' + k as char else '2' + (k - 26) as char
  }

  lemma AlphabetText(k: nat)
    requires k < 32
    ensures ALPHABET[k] == SymbolAt(k)
  {
    if k < 8 {
      FirstEight(k);
    } else if k < 16 {
      SecondEight(k);
    } else if k < 24 {
      ThirdEight(k);
    } else {
      LastEight(k);
    }
  }

  lemma FirstEight(k: nat)
    requires k < 8
    ensures ALPHABET[k] == SymbolAt(k)
  {
  }

  lemma SecondEight(k: nat)
    requires 8 <= k < 16
    ensures ALPHABET[k] == SymbolAt(k)
  {
  }

  lemma ThirdEight(k: nat)
    requires 16 <= k < 24
    ensures ALPHABET[k] == SymbolAt(k)
  {
  }

  lemma LastEight(k: nat)
    requires 24 <= k < 32
    ensures ALPHABET[k] == SymbolAt(k)
  {
  }

  /** The index of a character in the alphabet, as in `lookupList`. */
  function Lookup(c: char): (k: nat)
    requires InAlphabet(c)
    ensures k < 32 && SymbolAt(k) == c
  {
    if 'a' <= c <= 'z' then (c - 'a') as nat else (c - '2') as nat + 26
  }

  // ----- 64-bit machine integers -----

  /** The signed 64-bit integer congruent to x. */
  function Wrap64(x: int): int {
    (x + TWO_64 / 2) % TWO_64 - TWO_64 / 2
  }

  /** Dart's `x << k`. */
  function Shl(x: int, k: nat): int {
    Wrap64(Pow(2, k) * x)
  }

  /** Dart's arithmetic `x >> k`: k halvings rounding down. */
  function Shr(x: int, k: nat): int
    decreases k
  {
    if k == 0 then x else Shr(x / 2, k - 1)
  }

  /** `(x << k) | d` for 0 <= d < 2^k, as a sum: `ShiftInIsOr` says why. */
  function ShiftIn(x: int, k: nat, d: nat): int {
    Shl(x, k) + d
  }

  // ----- bit strings -----

  type Bits = seq<bool>

  /** The low n bits of x, most significant first. */
  function LowBits(x: int, n: nat): (b: Bits)
    ensures |b| == n
    decreases n
  {
    if n == 0 then [] else LowBits(x / 2, n - 1) + [x % 2 == 1]
  }

  function ByteBits(b: bytes): (r: Bits)
    ensures |r| == 8 * |b|
  {
    if b == [] then [] else ByteBits(b[..|b| - 1]) + LowBits(b[|b| - 1], 8)
  }

  function SymbolBits(s: string): (r: Bits)
    requires AllInAlphabet(s)
    ensures |r| == 5 * |s|
  {
    if s == "" then [] else SymbolBits(s[..|s| - 1]) + LowBits(Lookup(s[|s| - 1]), 5)
  }

  function Zeros(n: nat): Bits {
    Repeat(false, n)
  }

  /** s is the base32 text of b: its bits are those of b and fewer than five zeros. */
  ghost predicate IsText(b: bytes, s: string) {
    && AllInAlphabet(s)
    && 0 <= 5 * |s| - 8 * |b| < 5
    && SymbolBits(s) == ByteBits(b) + Zeros(5 * |s| - 8 * |b|)
  }

  lemma {:induction false} LowBitsShr(x: int, n: nat, k: nat)
    ensures LowBits(x, n + k) == LowBits(Shr(x, k), n) + LowBits(x, k)
    decreases k
  {
    if k > 0 {
      LowBitsShr(x / 2, n, k - 1);
      assert LowBits(x, n + k) == LowBits(x / 2, n + (k - 1)) + [x % 2 == 1];
    }
  }

  lemma {:induction false} LowBitsJoin(x: int, d: nat, n: nat, k: nat)
    requires d < Pow(2, k)
    ensures LowBits(Pow(2, k) * x + d, n + k) == LowBits(x, n) + LowBits(d, k)
  {
    if k == 0 {
      assert Pow(2, 0) * x == x;
    } else {
      var y := Pow(2, k - 1) * x;
      assert Pow(2, k) * x == 2 * y;
      assert (2 * y + d) / 2 == y + d / 2 && (2 * y + d) % 2 == d % 2;
      LowBitsJoin(x, d / 2, n, k - 1);
      assert LowBits(2 * y + d, n + k) == LowBits(y + d / 2, n + (k - 1)) + [d % 2 == 1];
    }
  }

  lemma {:induction false} LowBitsPeriod(x: int, q: int, n: nat, m: nat)
    requires n <= m
    ensures LowBits(x + q * Pow(2, m), n) == LowBits(x, n)
    decreases n
  {
    if n > 0 {
      var t := q * Pow(2, m - 1);
      assert q * Pow(2, m) == 2 * t;
      assert (x + 2 * t) / 2 == x / 2 + t && (x + 2 * t) % 2 == x % 2;
      LowBitsPeriod(x / 2, q, n - 1, m - 1);
    }
  }

  lemma PowersOfTwo()
    ensures Pow(2, 5) == 32 && Pow(2, 8) == 256 && Pow(2, 64) == TWO_64
  {
    PowAdd(2, 8, 8);
    PowAdd(2, 16, 16);
    PowAdd(2, 32, 32);
  }

  /** The overflowing shift keeps every bit that is still pending. */
  lemma LowBitsShiftIn(x: int, k: nat, d: nat, n: nat)
    requires d < Pow(2, k) && n + k <= 64
    ensures LowBits(ShiftIn(x, k, d), n + k) == LowBits(x, n) + LowBits(d, k)
  {
    hide Pow, LowBits;
    var y := Pow(2, k) * x;
    LowBitsJoin(x, d, n, k);
    PowersOfTwo();
    var q := (y + TWO_64 / 2) / TWO_64;
    assert y + d == ShiftIn(x, k, d) + q * Pow(2, 64);
    LowBitsPeriod(ShiftIn(x, k, d), q, n + k, 64);
  }

  /** Bitwise disjunction of two words of the same width. */
  function Or(a: Bits, b: Bits): Bits
    requires |a| == |b|
  {
    seq(|a|, i requires 0 <= i < |a| => a[i] || b[i])
  }

  lemma HalfRange()
    ensures Pow(2, 63) == TWO_64 / 2
  {
    PowAdd(2, 63, 1);
    PowersOfTwo();
  }

  lemma ShlMultiple(x: int, k: nat) returns (t: int)
    requires k <= 63
    ensures Shl(x, k) == Pow(2, k) * t && t < Pow(2, 63 - k)
  {
    hide Pow;
    PowersOfTwo();
    HalfRange();
    PowAdd(2, k, 64 - k);
    PowAdd(2, k, 63 - k);
    PowPositive(2, k);
    var q := (Pow(2, k) * x + TWO_64 / 2) / TWO_64;
    t := x - q * Pow(2, 64 - k);
    MultipleOfDifference(Pow(2, k), x, q, Pow(2, 64 - k));
    if t >= Pow(2, 63 - k) {
      TimesGrows(Pow(2, k), Pow(2, 63 - k), t);
    }
  }

  lemma MultipleOfDifference(w: int, x: int, q: int, v: int)
    ensures w * (x - q * v) == w * x - q * (w * v)
  {
  }

  lemma TimesGrows(w: int, u: int, t: int)
    requires w > 0 && u <= t
    ensures w * u <= w * t
  {
  }

  /** The shifted word ends in k zero bits, so adding d stays in the 64-bit range. */
  lemma ShiftInRange(x: int, k: nat, d: nat)
    requires k <= 63 && d < Pow(2, k)
    ensures -TWO_64 / 2 <= ShiftIn(x, k, d) < TWO_64 / 2
  {
    hide Pow;
    var t := ShlMultiple(x, k);
    PowPositive(2, k);
    TimesGrows(Pow(2, k), t + 1, Pow(2, 63 - k));
    assert Pow(2, k) * (t + 1) == Pow(2, k) * t + Pow(2, k);
    PowAdd(2, k, 63 - k);
    HalfRange();
  }

  /** The sum is the 64-bit disjunction of the shifted word and d. */
  lemma ShiftInIsOr(x: int, k: nat, d: nat)
    requires k <= 63 && d < Pow(2, k)
    ensures LowBits(ShiftIn(x, k, d), 64) == Or(LowBits(Shl(x, k), 64), LowBits(d, 64))
  {
    hide Pow, LowBits, Shl;
    PowPositive(2, k);
    LowBitsShiftIn(x, k, d, 64 - k);
    LowBitsShiftIn(x, k, 0, 64 - k);
    ZeroTimes(Pow(2, k));
    LowBitsJoin(0, d, 64 - k, k);
    LowBitsZero(k);
    LowBitsZero(64 - k);
  }

  lemma ZeroTimes(w: int)
    ensures w * 0 == 0
  {
  }

  lemma LowBitsMod(x: int)
    ensures LowBits(x % 32, 5) == LowBits(x, 5) && LowBits(x % 256, 8) == LowBits(x, 8)
  {
    hide Pow, LowBits;
    PowersOfTwo();
    LowBitsPeriod(x % 32, x / 32, 5, 5);
    LowBitsPeriod(x % 256, x / 256, 8, 8);
  }

  lemma {:induction false} LowBitsZero(n: nat)
    ensures LowBits(0, n) == Zeros(n)
  {
    if n > 0 {
      LowBitsZero(n - 1);
    }
  }

  lemma {:induction false} LowBitsInjective(x: nat, y: nat, n: nat)
    requires x < Pow(2, n) && y < Pow(2, n) && LowBits(x, n) == LowBits(y, n)
    ensures x == y
  {
    if n > 0 {
      assert LowBits(x, n)[..n - 1] == LowBits(x / 2, n - 1) && LowBits(y, n)[..n - 1] == LowBits(y / 2, n - 1);
      LowBitsInjective(x / 2, y / 2, n - 1);
      assert LowBits(x, n)[n - 1] == LowBits(y, n)[n - 1];
    }
  }

  lemma ByteBitsSnoc(b: bytes, x: byte)
    ensures ByteBits(b + [x]) == ByteBits(b) + LowBits(x, 8)
  {
    hide LowBits;
    assert (b + [x])[..|b|] == b;
  }

  lemma SymbolBitsSnoc(s: string, c: char)
    requires AllInAlphabet(s) && InAlphabet(c)
    ensures AllInAlphabet(s + [c]) && SymbolBits(s + [c]) == SymbolBits(s) + LowBits(Lookup(c), 5)
  {
    hide LowBits;
    assert (s + [c])[..|s|] == s;
  }

  lemma AlphabetAt(k: nat)
    requires k < 32
    ensures InAlphabet(SymbolAt(k)) && Lookup(SymbolAt(k)) == k
  {
  }

  // ----- encoding -----

  /** Appending one symbol moves five pending bits into the text. */
  lemma EmitSymbol(all: Bits, out: string, buffer: int, bits: nat)
    requires AllInAlphabet(out) && all == SymbolBits(out) + LowBits(buffer, bits + 5)
    ensures var c := SymbolAt(Shr(buffer, bits) % 32);
            && AllInAlphabet(out + [c])
            && all == SymbolBits(out + [c]) + LowBits(buffer, bits)
  {
    hide LowBits, SymbolBits, Shr;
    var k := Shr(buffer, bits) % 32;
    AlphabetAt(k);
    LowBitsShr(buffer, 5, bits);
    LowBitsMod(Shr(buffer, bits));
    SymbolBitsSnoc(out, SymbolAt(k));
  }

  /** The last symbol: the pending bits followed by zeros. */
  lemma EmitLast(out: string, buffer: int, bits: nat)
    requires AllInAlphabet(out) && bits <= 5
    ensures var c := SymbolAt(Shl(buffer, 5 - bits) % 32);
            && AllInAlphabet(out + [c])
            && SymbolBits(out + [c]) == SymbolBits(out) + (LowBits(buffer, bits) + Zeros(5 - bits))
  {
    hide LowBits, SymbolBits, Wrap64, Pow, SymbolAt;
    var w := Shl(buffer, 5 - bits);
    AlphabetAt(w % 32);
    PowPositive(2, 5 - bits);
    LowBitsShiftIn(buffer, 5 - bits, 0, bits);
    LowBitsMod(w);
    LowBitsZero(5 - bits);
    SymbolBitsSnoc(out, SymbolAt(w % 32));
  }

  method Base32Encode(u8a: bytes, ipfsCompat: bool) returns (r: string)
    ensures ipfsCompat ==> |r| >= 1 && r[0] == 'b' && IsText(u8a, r[1..])
    ensures !ipfsCompat ==> IsText(u8a, r)
  {
    hide LowBits, SymbolBits, ByteBits, Shr, Shl, AllInAlphabet;
    var out, bits, buffer := EncodeLoop(u8a);
    ghost var whole := out;
    if bits != 0 {
      EmitLast(out, buffer, bits);
      out := out + [SymbolAt(Shl(buffer, 5 - bits) % 32)];
    }
    assert IsText(u8a, out) by {
      if bits == 0 {
        assert LowBits(buffer, 0) == [] && Zeros(0) == [];
        assert ByteBits(u8a) + [] == ByteBits(u8a) && SymbolBits(out) + [] == SymbolBits(out);
      } else {
        assert SymbolBits(out) == (SymbolBits(whole) + LowBits(buffer, bits)) + Zeros(5 - bits);
      }
    }
    if ipfsCompat {
      r := "b" + out;
      assert r[1..] == out;
    } else {
      r := out;
    }
  }

  /** The loop of `base32Encode`: the bits read so far are the bits written and those pending. */
  method EncodeLoop(u8a: bytes) returns (out: string, bits: nat, buffer: int)
    ensures AllInAlphabet(out) && bits <= 5
    ensures ByteBits(u8a) == SymbolBits(out) + LowBits(buffer, bits)
  {
    hide LowBits, SymbolBits, ByteBits, Shr, Shl, ShiftIn;
    out, bits, buffer := "", 0, 0;
    EmptyBits();
    for i := 0 to |u8a|
      invariant bits <= 5 && AllInAlphabet(out)
      invariant ByteBits(u8a[..i]) == SymbolBits(out) + LowBits(buffer, bits)
    {
      ByteBitsSnoc(u8a[..i], u8a[i]);
      assert u8a[..i + 1] == u8a[..i] + [u8a[i]];
      PowersOfTwo();
      LowBitsShiftIn(buffer, 8, u8a[i], bits);
      buffer := ShiftIn(buffer, 8, u8a[i]);
      bits := bits + 8;
      while bits > 5
        invariant bits <= 13 && AllInAlphabet(out)
        invariant ByteBits(u8a[..i + 1]) == SymbolBits(out) + LowBits(buffer, bits)
      {
        bits := bits - 5;
        EmitSymbol(ByteBits(u8a[..i + 1]), out, buffer, bits);
        out := out + [SymbolAt(Shr(buffer, bits) % 32)];
      }
    }
    assert u8a[..|u8a|] == u8a;
  }

  lemma EmptyBits()
    ensures ByteBits([]) == [] && SymbolBits("") == [] && LowBits(0, 0) == []
  {
  }

  // ----- decoding -----

  /** Appending one byte moves eight pending bits into the output. */
  lemma EmitByte(all: Bits, out: bytes, buffer: int, bits: nat)
    requires all == ByteBits(out) + LowBits(buffer, bits + 8)
    ensures all == ByteBits(out + [Shr(buffer, bits) % 256]) + LowBits(buffer, bits)
  {
    hide LowBits, ByteBits, Shr;
    LowBitsShr(buffer, 8, bits);
    LowBitsMod(Shr(buffer, bits));
    ByteBitsSnoc(out, Shr(buffer, bits) % 256);
  }

  /** `decode`: fills `output` from the characters at and after `offset`. */
  method Decode(output: array<byte>, input: string, offset: nat) returns (bits: nat, buffer: int)
    requires offset <= |input| && AllInAlphabet(input[offset..])
    requires output.Length == (|input| - offset) * 5 / 8
    modifies output
    ensures bits < 8
    ensures SymbolBits(input[offset..]) == ByteBits(output[..]) + LowBits(buffer, bits)
  {
    hide LowBits, SymbolBits, ByteBits, Shr, ShiftIn, Pow, Lookup;
    bits, buffer := 0, 0;
    var written := 0;
    var i := offset;
    ghost var s := input[offset..];
    EmptyBits();
    assert output[..0] == [] && s[..0] == "";
    while i < |input|
      invariant offset <= i <= |input| && bits < 8 && written <= output.Length
      invariant 8 * written + bits == 5 * (i - offset)
      invariant AllInAlphabet(s[..i - offset])
      invariant SymbolBits(s[..i - offset]) == ByteBits(output[..written]) + LowBits(buffer, bits)
    {
      var c := input[i];
      assert s[i - offset] == c;
      SymbolBitsSnoc(s[..i - offset], c);
      assert s[..i + 1 - offset] == s[..i - offset] + [c];
      PowersOfTwo();
      LowBitsShiftIn(buffer, 5, Lookup(c), bits);
      buffer := ShiftIn(buffer, 5, Lookup(c));
      bits := bits + 5;
      assert SymbolBits(s[..i + 1 - offset]) == ByteBits(output[..written]) + LowBits(buffer, bits);
      if bits >= 8 {
        bits := bits - 8;
        EmitByte(SymbolBits(s[..i + 1 - offset]), output[..written], buffer, bits);
        ghost var before := output[..written];
        output[written] := Shr(buffer, bits) % 256;
        assert output[..written + 1] == before + [Shr(buffer, bits) % 256];
        written := written + 1;
      }
      i := i + 1;
    }
    assert s[..|input| - offset] == s && output[..written] == output[..];
  }

  /** The final test of `base32Decode`: fewer than five bits are left and all of them are zero. */
  lemma LeftoverTest(buffer: int, bits: nat)
    requires bits < 8
    ensures Shl(buffer, 8 - bits) % 256 == 0 <==> LowBits(buffer, bits) == Zeros(bits)
  {
    hide LowBits, Shl;
    var w := Shl(buffer, 8 - bits);
    PowPositive(2, 8 - bits);
    LowBitsShiftIn(buffer, 8 - bits, 0, bits);
    assert ShiftIn(buffer, 8 - bits, 0) == w;
    LowBitsZero(8 - bits);
    LowBitsZero(8);
    LowBitsMod(w);
    PowersOfTwo();
    var whole := LowBits(w, 8);
    assert whole == LowBits(buffer, bits) + Zeros(8 - bits);
    assert whole[..bits] == LowBits(buffer, bits);
    assert Zeros(bits) + Zeros(8 - bits) == Zeros(8);
    if whole == Zeros(8) {
      LowBitsInjective(w % 256, 0, 8);
      assert LowBits(buffer, bits) == Zeros(8)[..bits] == Zeros(bits);
    }
  }

  lemma TextByLeftover(s: string, b: bytes, buffer: int, bits: nat)
    requires AllInAlphabet(s) && bits < 8 && SymbolBits(s) == ByteBits(b) + LowBits(buffer, bits)
    ensures IsText(b, s) <==> bits < 5 && LowBits(buffer, bits) == Zeros(bits)
    ensures (exists b' :: IsText(b', s)) ==> IsText(b, s)
  {
    hide LowBits, SymbolBits, ByteBits;
    assert SymbolBits(s)[8 * |b|..] == LowBits(buffer, bits);
    if b' :| IsText(b', s) {
      assert |b'| == |b|;
      assert SymbolBits(s)[8 * |b'|..] == Zeros(5 * |s| - 8 * |b'|);
    }
  }

  method Base32Decode(value: string, ipfsCompat: bool) returns (r: Result<bytes>)
    ensures ipfsCompat && (value == "" || value[0] != 'b') ==> r.Err?
    ensures ipfsCompat && value != "" && value[0] == 'b' ==> (r.Ok? <==> exists b :: IsText(b, value[1..]))
    ensures !ipfsCompat ==> (r.Ok? <==> exists b :: IsText(b, value))
    ensures r.Ok? ==> IsText(r.value, if ipfsCompat then value[1..] else value)
  {
    hide LowBits, SymbolBits, ByteBits, Shl, Zeros;
    if ipfsCompat {
      if value == "" {
        return Err("RangeError");
      }
      if value[0] != 'b' {
        return Err("Expected base32 to start with 'b'");
      }
    }
    var offset := if ipfsCompat then 1 else 0;
    ghost var s := value[offset..];
    assert !ipfsCompat ==> s == value;
    for i := offset to |value|
      invariant forall j :: offset <= j < i ==> InAlphabet(value[j])
    {
      if !InAlphabet(value[i]) {
        assert s[i - offset] == value[i];
        return Err("Invalid base32 character");
      }
    }
    assert AllInAlphabet(s);
    var output := new byte[(|value| - offset) * 5 / 8](_ => 0);
    var bits, buffer := Decode(output, value, offset);
    TextByLeftover(s, output[..], buffer, bits);
    LeftoverTest(buffer, bits);
    if bits >= 5 || Shl(buffer, 8 - bits) % 256 != 0 {
      return Err("Unexpected end of data");
    }
    r := Ok(output[..]);
  }

  // ----- the text determines the bytes and the bytes the text -----

  lemma {:induction false} ByteBitsInjective(a: bytes, b: bytes)
    requires ByteBits(a) == ByteBits(b)
    ensures a == b
  {
    hide LowBits;
    if a != [] {
      var n := |a| - 1;
      assert |b| == |a|;
      assert ByteBits(a)[..8 * n] == ByteBits(a[..n]) && ByteBits(b)[..8 * n] == ByteBits(b[..n]);
      assert ByteBits(a)[8 * n..] == LowBits(a[n], 8) && ByteBits(b)[8 * n..] == LowBits(b[n], 8);
      ByteBitsInjective(a[..n], b[..n]);
      PowersOfTwo();
      LowBitsInjective(a[n], b[n], 8);
      assert a == a[..n] + [a[n]] && b == b[..n] + [b[n]];
    }
  }

  lemma {:induction false} SymbolBitsInjective(s: string, t: string)
    requires AllInAlphabet(s) && AllInAlphabet(t) && SymbolBits(s) == SymbolBits(t)
    ensures s == t
  {
    hide LowBits;
    if s != "" {
      var n := |s| - 1;
      assert |t| == |s|;
      assert SymbolBits(s)[..5 * n] == SymbolBits(s[..n]) && SymbolBits(t)[..5 * n] == SymbolBits(t[..n]);
      assert SymbolBits(s)[5 * n..] == LowBits(Lookup(s[n]), 5) && SymbolBits(t)[5 * n..] == LowBits(Lookup(t[n]), 5);
      SymbolBitsInjective(s[..n], t[..n]);
      PowersOfTwo();
      LowBitsInjective(Lookup(s[n]), Lookup(t[n]), 5);
      assert s == s[..n] + [s[n]] && t == t[..n] + [t[n]];
    }
  }

  /** Base32 is a bijection between byte strings and texts, and a text has ceil(8n/5) symbols. */
  lemma TextBijection(a: bytes, s: string, b: bytes, t: string)
    requires IsText(a, s) && IsText(b, t)
    ensures a == b <==> s == t
    ensures |s| == (8 * |a| + 4) / 5
  {
    hide LowBits, SymbolBits, ByteBits;
    if a == b {
      assert |s| == |t|;
      SymbolBitsInjective(s, t);
    }
    if s == t {
      assert |a| == |b|;
      assert SymbolBits(s)[..8 * |a|] == ByteBits(a) && SymbolBits(s)[..8 * |b|] == ByteBits(b);
      ByteBitsInjective(a, b);
    }
  }

  /** Decoding undoes encoding on every byte string, and encoding undoes decoding on every accepted text. */
  method EncodeThenDecode(b: bytes, ipfsCompat: bool) returns (r: Result<bytes>)
    ensures r == Ok(b)
  {
    var s := Base32Encode(b, ipfsCompat);
    r := Base32Decode(s, ipfsCompat);
    TextBijection(b, if ipfsCompat then s[1..] else s, r.value, if ipfsCompat then s[1..] else s);
  }

  method DecodeThenEncode(s: string, ipfsCompat: bool) returns (r: Result<string>)
    ensures r.Ok? ==> r.value == s
    ensures !ipfsCompat && (exists b :: IsText(b, s)) ==> r.Ok?
    ensures ipfsCompat && s != "" && s[0] == 'b' && (exists b :: IsText(b, s[1..])) ==> r.Ok?
  {
    var b := Base32Decode(s, ipfsCompat);
    if b.Err? {
      return Err(b.error);
    }
    hide IsText, AllInAlphabet;
    var t := Base32Encode(b.value, ipfsCompat);
    TextBijection(b.value, if ipfsCompat then s[1..] else s, b.value, if ipfsCompat then t[1..] else t);
    if ipfsCompat {
      SameHeadAndTail(s, t);
    }
    r := Ok(t);
  }

  lemma SameHeadAndTail(s: string, t: string)
    requires s != "" && t != "" && s[0] == t[0] && s[1..] == t[1..]
    ensures s == t
  {
    assert s == [s[0]] + s[1..] && t == [t[0]] + t[1..];
  }
}
