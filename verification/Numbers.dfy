/** lib/utils/number.dart: byte lists as little- and big-endian numbers. */
module Numbers {
  import opened Basics

  datatype Endian = Little | Big

  function Reverse<T>(s: seq<T>): (r: seq<T>)
    ensures |r| == |s| && forall i :: 0 <= i < |s| ==> r[i] == s[|s| - 1 - i]
  {
    seq(|s|, i requires 0 <= i < |s| => s[|s| - 1 - i])
  }

  function ValueLE(b: bytes): nat {
    if b == [] then 0 else b[0] + 256 * ValueLE(b[1..])
  }

  /** The low n bytes of v in two's complement, least significant first. */
  function BytesLE(v: int, n: nat): (b: bytes)
    ensures |b| == n
    decreases n
  {
    if n == 0 then [] else [v % 256] + BytesLE(v / 256, n - 1)
  }

  function Value(b: bytes, endian: Endian): nat {
    ValueLE(if endian.Little? then b else Reverse(b))
  }

  function BytesOf(v: int, n: nat, endian: Endian): (b: bytes)
    ensures |b| == n
  {
    if endian.Little? then BytesLE(v, n) else Reverse(BytesLE(v, n))
  }

  /** `BigInt.bitLength`: the bits of v without its sign. */
  function BitLength(v: int): nat
    decreases v < 0, Abs(v)
  {
    if v < 0 then BitLength(-v - 1) else if v == 0 then 0 else 1 + BitLength(v / 2)
  }

  method DecodeBigInt(b: bytes, endian: Endian) returns (result: nat)
    ensures result == Value(b, endian)
  {
    ghost var read := if endian.Little? then b else Reverse(b);
    result := 0;
    for i := 0 to |b|
      invariant result == ValueLE(read[..i])
    {
      var x := b[if endian.Little? then i else |b| - i - 1];
      ValueSnoc(read[..i], x);
      assert read[..i + 1] == read[..i] + [x];
      PowPositive(256, i);
      // x << (8 * i)
      result := result + x * Pow(256, i);
    }
    assert read[..|b|] == read;
  }

  /** One step of the loop: the low byte, and the bytes of the number shifted by eight bits. */
  lemma BytesStep(v: int, n: nat)
    requires n > 0
    ensures BytesLE(v, n)[0] == v % 256 && BytesLE(v, n)[1..] == BytesLE(v / 256, n - 1)
  {
  }

  lemma BytesAt(v: int, n: nat, endian: Endian, k: nat)
    requires k < n
    ensures BytesOf(v, n, endian)[k] == BytesLE(v, n)[if endian.Little? then k else n - k - 1]
  {
    hide BytesLE, Reverse;
    ReverseAt(BytesLE(v, n), k);
  }

  lemma ReverseAt<T>(s: seq<T>, k: nat)
    requires k < |s|
    ensures Reverse(s)[k] == s[|s| - 1 - k]
  {
  }

  method EncodeBigInt(number: int, endian: Endian, bitLength: Option<nat>) returns (r: bytes)
    ensures r == BytesOf(number, ((if bitLength.Some? then bitLength.value else BitLength(number)) + 7) / 8, endian)
  {
    hide BitLength, BytesLE, BytesOf;
    var bl := if bitLength.Some? then bitLength.value else BitLength(number);
    var size := (bl + 7) / 8;
    var result := new byte[size](_ => 0);
    var rest := number;
    ghost var all := BytesLE(number, size);
    for i := 0 to size
      invariant BytesLE(rest, size - i) == all[i..]
      invariant forall j :: 0 <= j < i ==> result[if endian.Little? then j else size - j - 1] == all[j]
    {
      BytesStep(rest, size - i);
      assert all[i] == all[i..][0] && all[i..][1..] == all[i + 1..];
      result[if endian.Little? then i else size - i - 1] := rest % 256;
      rest := rest / 256;
    }
    r := result[..];
    forall k | 0 <= k < size
      ensures r[k] == BytesOf(number, size, endian)[k]
    {
      BytesAt(number, size, endian, k);
      var j := if endian.Little? then k else size - k - 1;
      assert result[if endian.Little? then j else size - j - 1] == all[j];
    }
  }

  lemma {:induction false} ValueSnoc(b: bytes, x: byte)
    ensures ValueLE(b + [x]) == ValueLE(b) + x * Pow(256, |b|)
  {
    if b == [] {
      assert [] + [x] == [x];
    } else {
      ValueSnoc(b[1..], x);
      assert (b + [x])[1..] == b[1..] + [x];
      assert x * Pow(256, |b|) == 256 * (x * Pow(256, |b| - 1));
    }
  }

  lemma {:induction false} ZerosAfter(b: bytes, k: nat)
    ensures ValueLE(b + Repeat(0, k)) == ValueLE(b)
  {
    if k == 0 {
      assert b + Repeat(0, 0) == b;
    } else {
      ZerosAfter(b, k - 1);
      ValueSnoc(b + Repeat(0, k - 1), 0);
      assert b + Repeat(0, k - 1) + [0] == b + Repeat(0, k);
      assert 0 * Pow(256, |b + Repeat(0, k - 1)|) == 0;
    }
  }

  lemma {:induction false} ValueBound(b: bytes)
    ensures ValueLE(b) < Pow(256, |b|)
  {
    if b != [] {
      ValueBound(b[1..]);
    }
  }

  /** Adding a multiple of 256^n does not change the low n bytes. */
  lemma {:induction false} BytesPeriod(v: int, q: int, n: nat)
    ensures BytesLE(v + q * Pow(256, n), n) == BytesLE(v, n)
    decreases n
  {
    if n > 0 {
      var t := q * Pow(256, n - 1);
      assert q * Pow(256, n) == 256 * t;
      assert (v + 256 * t) % 256 == v % 256 && (v + 256 * t) / 256 == v / 256 + t;
      BytesPeriod(v / 256, q, n - 1);
    }
  }

  /** Decoding the bytes of v gives v modulo 256^n, for every integer v. */
  lemma {:induction false} ValueOfBytes(v: int, n: nat)
    ensures exists q :: v == ValueLE(BytesLE(v, n)) + q * Pow(256, n)
    ensures ValueLE(BytesLE(v, n)) < Pow(256, n)
    decreases n
  {
    ValueBound(BytesLE(v, n));
    if n == 0 {
      assert v == ValueLE(BytesLE(v, 0)) + v * Pow(256, 0);
    } else {
      ValueOfBytes(v / 256, n - 1);
      var q :| v / 256 == ValueLE(BytesLE(v / 256, n - 1)) + q * Pow(256, n - 1);
      assert BytesLE(v, n)[1..] == BytesLE(v / 256, n - 1);
      assert 256 * (q * Pow(256, n - 1)) == q * Pow(256, n);
      assert v == 256 * (v / 256) + v % 256;
    }
  }

  lemma ModUnique(v: int, r: nat, q: int, m: nat)
    requires v == r + q * m && r < m
    ensures v % m == r
  {
    var d := v / m;
    assert v == m * d + v % m;
    assert (q - d) * m == v % m - r by {
      assert (q - d) * m == q * m - d * m;
    }
    assert q - d >= 1 ==> (q - d) * m >= m;
    assert q - d <= -1 ==> (q - d) * m + m <= 0;
  }

  /** The round trip of lib/utils/number.dart in either byte order, for every integer and width. */
  lemma NumberRoundTrip(v: int, n: nat, endian: Endian)
    ensures Pow(256, n) > 0
    ensures Value(BytesOf(v, n, endian), endian) == v % Pow(256, n)
  {
    PowPositive(256, n);
    ValueOfBytes(v, n);
    var q :| v == ValueLE(BytesLE(v, n)) + q * Pow(256, n);
    ModUnique(v, ValueLE(BytesLE(v, n)), q, Pow(256, n));
    assert Reverse(Reverse(BytesLE(v, n))) == BytesLE(v, n);
  }

  lemma ByteSplits(x: byte, v: nat)
    ensures (x + 256 * v) % 256 == x && (x + 256 * v) / 256 == v
  {
  }

  lemma {:induction false} BytesOfValue(b: bytes)
    ensures BytesLE(ValueLE(b), |b|) == b
  {
    if b != [] {
      BytesOfValue(b[1..]);
      ByteSplits(b[0], ValueLE(b[1..]));
    }
  }

  lemma BytesRoundTrip(b: bytes, endian: Endian)
    ensures BytesOf(Value(b, endian), |b|, endian) == b
  {
    BytesOfValue(b);
    BytesOfValue(Reverse(b));
    assert Reverse(Reverse(b)) == b;
  }

  lemma {:induction false} BitLengthExact(v: nat, k: nat)
    ensures BitLength(v) <= k <==> v < Pow(2, k)
    decreases k
  {
    if v > 0 && k > 0 {
      BitLengthExact(v / 2, k - 1);
    } else {
      PowPositive(2, k);
    }
  }

  lemma {:induction false} PowerOf256(n: nat)
    ensures Pow(2, 8 * n) == Pow(256, n)
  {
    if n > 0 {
      PowerOf256(n - 1);
      PowAdd(2, 8, 8 * (n - 1));
      assert Pow(2, 8) == 256;
    }
  }

  /** The number of bytes the code takes for v when no width is asked for. */
  function ByteLength(v: int): nat {
    (BitLength(v) + 7) / 8
  }

  /** It is the least n with -256^n <= v < 256^n: a negative number has no room for its sign. */
  lemma ByteLengthExact(v: int, n: nat)
    ensures Pow(256, n) > 0
    ensures ByteLength(v) <= n <==> -Pow(256, n) <= v < Pow(256, n)
  {
    PowPositive(256, n);
    BitLengthExact(if v < 0 then -v - 1 else v, 8 * n);
    PowerOf256(n);
  }

  /** What the byte orders mean: the first byte counts least in little-endian order and the last byte in
      big-endian order. */
  lemma EndianLaw(x: byte, b: bytes)
    ensures Value([], Little) == 0 == Value([], Big)
    ensures Value([x] + b, Little) == x + 256 * Value(b, Little)
    ensures Value(b + [x], Big) == 256 * Value(b, Big) + x
  {
    assert Reverse(b + [x]) == [x] + Reverse(b);
    assert ([x] + b)[1..] == b && ([x] + Reverse(b))[1..] == Reverse(b);
  }
}
