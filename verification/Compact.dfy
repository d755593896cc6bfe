/** SCALE compact integers and length-prefixed byte lists of lib/utils/compact.dart. */
module Compact {
  import opened Basics
  import opened Numbers
  import Bn

  const MAX_U8: int := 0x3F
  const MAX_U16: int := 0x3FFF
  const MAX_U32: int := 0x3FFF_FFFF

  /** The bytes `compactToU8a` writes for a nonnegative value. */
  function Bytes(v: nat): bytes {
    if v <= MAX_U8 then [4 * v]
    else if v <= MAX_U16 then BytesLE(4 * v + 1, 2)
    else if v <= MAX_U32 then BytesLE(4 * v + 2, 4)
    else
      var n := ByteLength(v);
      // Uint8List.fromList keeps the low eight bits of the header
      [((n - 4) * 4 + 3) % 256] + BytesLE(v, n)
  }

  lemma AboveU32(v: nat)
    requires v > MAX_U32
    ensures ByteLength(v) >= 4
  {
    ByteLengthExact(v, 3);
    assert Pow(256, 3) == 0x100_0000 by {
      assert Pow(256, 1) == 256 * Pow(256, 0) && Pow(256, 2) == 256 * Pow(256, 1);
    }
  }

  lemma SmallMod(v: nat, m: nat)
    requires v < m
    ensures v % m == v
  {
    ModUnique(v, v, 0, m);
  }

  lemma OneByte(v: int)
    requires v <= MAX_U8
    ensures Bn.ToInt(v) * 4 % 256 == Bn.ToInt(v) % 64 * 4
    ensures v >= 0 ==> Bn.ToInt(v) == v && v % 64 == v
  {
  }

  lemma BytesOne(v: nat)
    requires v <= MAX_U8
    ensures Bytes(v) == [4 * v]
  {
  }

  lemma BytesTwo(v: nat)
    requires MAX_U8 < v <= MAX_U16
    ensures Bytes(v) == BytesLE(4 * v + 1, 2)
  {
    hide BytesLE;
  }

  lemma BytesFour(v: nat)
    requires MAX_U16 < v <= MAX_U32
    ensures Bytes(v) == BytesLE(4 * v + 2, 4)
  {
    hide BytesLE;
  }

  lemma BytesBig(v: nat)
    requires v > MAX_U32
    ensures ByteLength(v) >= 4
    ensures Bytes(v) == [((ByteLength(v) - 4) * 4 + 3) % 256] + BytesLE(v, ByteLength(v))
  {
    hide BytesLE, ByteLength;
    AboveU32(v);
  }

  /** The four modes of the format: the two low bits of the first byte name the mode, the rest holds the value,
      least significant byte first, and the long mode ends in a nonzero byte. */
  lemma Format(v: nat)
    ensures v < 64 ==> Bytes(v) == [4 * v]
    ensures 64 <= v < 16384 ==> |Bytes(v)| == 2 && ValueLE(Bytes(v)) == 4 * v + 1
    ensures 16384 <= v < 1073741824 ==> |Bytes(v)| == 4 && ValueLE(Bytes(v)) == 4 * v + 2
    ensures v >= 1073741824 && Encodable(v) ==>
              var b := Bytes(v);
              && 5 <= |b| <= 68 && b[0] == 4 * (|b| - 5) + 3
              && ValueLE(b[1..]) == v && b[|b| - 1] != 0
  {
    hide ValueLE, BytesLE, ByteLength, Pow;
    SmallPowers();
    if 64 <= v < 16384 {
      ValueOfPadded(4 * v + 1, 2);
    } else if 16384 <= v < 1073741824 {
      ValueOfPadded(4 * v + 2, 4);
    } else if v >= 1073741824 && Encodable(v) {
      AboveU32(v);
      ByteLengthExact(v, LIMIT_BYTES);
      ShortestValue(v);
      var s := BytesLE(v, ByteLength(v));
      LengthByTop(s);
      assert Bytes(v)[1..] == s;
    }
  }

  /** The loop of `compactToU8a` that passes over zero bytes at the end. */
  method TrimmedLength(u8a: bytes) returns (length: nat)
    requires ValueLE(u8a) > 0
    ensures 0 < length <= |u8a| && u8a[length - 1] != 0
    ensures ValueLE(u8a[..length]) == ValueLE(u8a)
  {
    length := |u8a|;
    assert u8a[..length] == u8a;
    hide ValueLE;
    while u8a[length - 1] == 0
      invariant 0 < length <= |u8a| && ValueLE(u8a[..length]) == ValueLE(u8a)
      decreases length
    {
      TrimZero(u8a[..length]);
      assert u8a[..length][..length - 1] == u8a[..length - 1];
      length := length - 1;
    }
  }

  /** A negative value takes the first branch: one byte, of the low six bits of the clamped value. */
  method CompactToU8a(value: int) returns (r: bytes)
    ensures r == if value >= 0 then Bytes(value) else [Bn.ToInt(value) % 64 * 4]
  {
    hide Bytes, BytesLE, BitLength, ByteLength, ValueLE, Bn.ToInt;
    var ls2 := value * 4;
    if value <= MAX_U8 {
      OneByte(value);
      if value >= 0 {
        BytesOne(value);
      }
      // a shift of a 64-bit word, of which a Uint8List keeps the low eight bits
      return [Bn.ToInt(value) * 4 % 256];
    } else if value <= MAX_U16 {
      BytesTwo(value);
      r := Bn.BnToU8a(Some(ls2 + 1), Bn.Bits(16), Little, false);
      return;
    } else if value <= MAX_U32 {
      BytesFour(value);
      r := Bn.BnToU8a(Some(ls2 + 2), Bn.Bits(32), Little, false);
      return;
    }
    BytesBig(value);
    var u8a := Bn.BnToU8a(Some(value), Bn.Auto, Little, false);
    ShortestValue(value);
    var length := TrimmedLength(u8a);
    // nothing was trimmed: the bytes are already the fewest that hold the value
    ValueBound(u8a[..length]);
    ByteLengthExact(value, length);
    assert u8a[..length] == u8a;
    r := [((length - 4) * 4 + 3) % 256] + u8a[..length];
  }

  /** A negative value never reads back as itself: what is decoded is its clamped value modulo 64. */
  lemma NegativeMisread(v: int, t: bytes)
    requires v < 0
    ensures FromU8a([Bn.ToInt(v) % 64 * 4] + t) == Ok(Decoded(1, Bn.ToInt(v) % 64))
  {
    var input: bytes := [Bn.ToInt(v) % 64 * 4] + t;
    assert input[0] % 4 == 0 && input[0] / 4 == Bn.ToInt(v) % 64;
  }

  lemma ShortestValue(v: nat)
    ensures ValueLE(BytesLE(v, ByteLength(v))) == v
  {
    ByteLengthExact(v, ByteLength(v));
    ValueOfPadded(v, ByteLength(v));
  }

  lemma TrimZero(b: bytes)
    requires b != [] && b[|b| - 1] == 0
    ensures ValueLE(b[..|b| - 1]) == ValueLE(b)
    ensures ValueLE(b) > 0 ==> |b| > 1
  {
    ValueSnoc(b[..|b| - 1], 0);
    assert b == b[..|b| - 1] + [0];
    assert 0 * Pow(256, |b| - 1) == 0;
  }

  // ----- decoding -----

  datatype Decoded = Decoded(offset: nat, value: nat)

  /** `compactFromU8a`. The little-endian value of no bytes at all cannot be parsed and throws. */
  function FromU8a(input: bytes): Result<Decoded> {
    var b := if input == [] then [0] else input;
    var flag := b[0] % 4;
    if flag == 0 then Ok(Decoded(1, b[0] / 4))
    else if flag == 1 then Ok(Decoded(2, ValueLE(b[..Min(2, |b|)]) / 4))
    else if flag == 2 then Ok(Decoded(4, ValueLE(b[..Min(4, |b|)]) / 4))
    else
      var length := b[0] / 4 + 4;
      var offset := 1 + length;
      if |b| == 1 then Err("can not parse")
      else Ok(Decoded(offset, ValueLE(b[1..Min(offset, |b|)])))
  }

  /** The first n bytes, with zeros for those that are missing. */
  function First(b: bytes, n: nat): (r: bytes)
    ensures |r| == n && forall i :: 0 <= i < n ==> r[i] == if i < |b| then b[i] else 0
  {
    seq(n, i requires 0 <= i => if i < |b| then b[i] else 0)
  }

  lemma FirstValue(b: bytes, n: nat)
    ensures ValueLE(First(b, n)) == ValueLE(b[..Min(n, |b|)])
    ensures n > 0 && b != [] ==> ValueLE(First(b, n)) == b[0] + 256 * ValueLE(b[1..Min(n, |b|)])
  {
    var m := Min(n, |b|);
    assert First(b, n) == b[..m] + Repeat(0, n - m);
    ZerosAfter(b[..m], n - m);
    if m > 0 {
      assert b[..m][0] == b[0] && b[..m][1..] == b[1..m];
    }
  }

  /** Every reading, of any input: the two low bits of the first byte choose the mode, missing bytes read as
      zeros, and only a long mode without any byte of value throws. */
  lemma ReadExact(b: bytes)
    ensures FromU8a(b).Err? <==> |b| == 1 && b[0] % 4 == 3
    ensures FromU8a(b).Ok? ==>
              var d := FromU8a(b).value;
              match First(b, 1)[0] % 4
              case 0 => d.offset == 1 && 4 * d.value == First(b, 1)[0]
              case 1 => d.offset == 2 && 4 * d.value + 1 == ValueLE(First(b, 2))
              case 2 => d.offset == 4 && 4 * d.value + 2 == ValueLE(First(b, 4))
              case _ => 4 * (d.offset - 5) + 3 == b[0] && b[0] + 256 * d.value == ValueLE(First(b, d.offset))
  {
    hide ValueLE;
    if b != [] {
      FirstValue(b, 2);
      FirstValue(b, 4);
      FirstValue(b, b[0] / 4 + 5);
      LowByte(b[..Min(2, |b|)]);
      LowByte(b[..Min(4, |b|)]);
    }
  }

  /** The bound of the format: 67 bytes of value. */
  const LIMIT_BYTES: nat := 67

  ghost predicate Encodable(v: nat) {
    v < Pow(256, LIMIT_BYTES)
  }

  lemma LimitIs536Bits()
    ensures Pow(256, LIMIT_BYTES) == Pow(2, 536)
  {
    PowerOf256(LIMIT_BYTES);
  }

  lemma SmallPowers()
    ensures Pow(256, 2) == 0x1_0000 && Pow(256, 4) == 0x1_0000_0000
  {
    assert Pow(256, 1) == 256 * Pow(256, 0) && Pow(256, 2) == 256 * Pow(256, 1) && Pow(256, 3) == 256 * Pow(256, 2);
  }

  lemma ValueOfPadded(v: nat, n: nat)
    requires v < Pow(256, n)
    ensures ValueLE(BytesLE(v, n)) == v
  {
    NumberRoundTrip(v, n, Little);
    SmallMod(v, Pow(256, n));
  }

  lemma PaddedReads(w: nat, n: nat, t: bytes)
    requires n > 0 && w < Pow(256, n)
    ensures var b := BytesLE(w, n) + t; b[0] == w % 256 && ValueLE(b[..n]) == w
  {
    ValueOfPadded(w, n);
    assert (BytesLE(w, n) + t)[..n] == BytesLE(w, n);
  }

  lemma SmallEncodable(v: nat)
    requires v <= MAX_U32
    ensures Encodable(v)
  {
    hide Pow;
    SmallPowers();
    PowGrows(256, 4, LIMIT_BYTES);
  }

  lemma OneByteRoundTrip(v: nat, t: bytes)
    requires v <= MAX_U8
    ensures FromU8a([4 * v] + t) == Ok(Decoded(1, v))
  {
    hide ValueLE;
  }

  lemma ReadTwo(b: bytes)
    requires |b| >= 2 && b[0] % 4 == 1
    ensures FromU8a(b) == Ok(Decoded(2, ValueLE(b[..2]) / 4))
  {
    hide ValueLE;
  }

  lemma ReadFour(b: bytes)
    requires |b| >= 4 && b[0] % 4 == 2
    ensures FromU8a(b) == Ok(Decoded(4, ValueLE(b[..4]) / 4))
  {
    hide ValueLE;
  }

  lemma FlagAndValue(v: nat, flag: nat)
    requires flag < 4
    ensures (4 * v + flag) % 256 % 4 == flag && (4 * v + flag) / 4 == v
  {
  }

  lemma TwoByteRoundTrip(v: nat, t: bytes)
    requires MAX_U8 < v <= MAX_U16
    ensures FromU8a(BytesLE(4 * v + 1, 2) + t) == Ok(Decoded(2, v))
  {
    hide Pow, BytesLE, ValueLE, FromU8a;
    SmallPowers();
    PaddedReads(4 * v + 1, 2, t);
    FlagAndValue(v, 1);
    ReadTwo(BytesLE(4 * v + 1, 2) + t);
  }

  lemma FourByteRoundTrip(v: nat, t: bytes)
    requires MAX_U16 < v <= MAX_U32
    ensures FromU8a(BytesLE(4 * v + 2, 4) + t) == Ok(Decoded(4, v))
  {
    hide Pow, BytesLE, ValueLE, FromU8a;
    SmallPowers();
    PaddedReads(4 * v + 2, 4, t);
    FlagAndValue(v, 2);
    ReadFour(BytesLE(4 * v + 2, 4) + t);
  }

  /** Decoding an encoding followed by anything gives the value and the length of the encoding, for
      exactly the values below 2^536. */
  lemma RoundTrip(v: nat, t: bytes)
    ensures FromU8a(Bytes(v) + t) == Ok(Decoded(|Bytes(v)|, v)) <==> Encodable(v)
  {
    hide Bytes, FromU8a, Encodable, BytesLE;
    if v > MAX_U32 {
      BigRoundTrip(v, t);
    } else {
      SmallEncodable(v);
      if v <= MAX_U8 {
        BytesOne(v);
        OneByteRoundTrip(v, t);
      } else if v <= MAX_U16 {
        BytesTwo(v);
        TwoByteRoundTrip(v, t);
      } else {
        BytesFour(v);
        FourByteRoundTrip(v, t);
      }
    }
  }

  lemma BigRoundTrip(v: nat, t: bytes)
    requires v > MAX_U32
    ensures FromU8a(Bytes(v) + t) == Ok(Decoded(|Bytes(v)|, v)) <==> Encodable(v)
  {
    hide Pow, BytesLE, ValueLE, BitLength, ByteLength;
    var n := ByteLength(v);
    var b := Bytes(v) + t;
    AboveU32(v);
    ByteLengthExact(v, LIMIT_BYTES);
    ShortestValue(v);
    var header := ((n - 4) * 4 + 3) % 256;
    assert b[0] == header && header % 4 == 3;
    if n <= LIMIT_BYTES {
      assert header / 4 + 5 == n + 1;
      assert b[1..n + 1] == BytesLE(v, n);
    } else {
      assert header / 4 + 5 < n + 1;
    }
  }

  /** The offset reported with a value is never less than the length of its encoding. The input itself
      may be shorter, because bytes that are missing at its end are read as zeros: `TruncatedInput`. */
  lemma Shortest(input: bytes)
    requires FromU8a(input).Ok?
    ensures var d := FromU8a(input).value; |Bytes(d.value)| <= d.offset && Encodable(d.value)
  {
    hide Pow, BytesLE, ValueLE, BitLength, ByteLength;
    SmallPowers();
    var b := if input == [] then [0] else input;
    var d := FromU8a(input).value;
    PowGrows(256, 4, LIMIT_BYTES);
    if b[0] % 4 == 1 {
      BoundedValue(b[..Min(2, |b|)], 2);
    } else if b[0] % 4 == 2 {
      BoundedValue(b[..Min(4, |b|)], 4);
    } else if b[0] % 4 == 3 {
      var s := b[1..Min(d.offset, |b|)];
      BoundedValue(s, d.offset - 1);
      ByteLengthExact(d.value, d.offset - 1);
      PowGrows(256, d.offset - 1, LIMIT_BYTES);
    }
  }

  /** Three bytes are accepted with an offset of four, which is past their end, for a value whose
      encoding has four bytes. */
  lemma TruncatedInput()
    ensures FromU8a([2, 0, 1]) == Ok(Decoded(4, 16384)) && |Bytes(16384)| == 4
  {
    var input: bytes := [2, 0, 1];
    assert input[..3] == input;
    assert ValueLE(input) == 2 + 256 * ValueLE(input[1..]) && input[1..] == [0, 1];
    assert ValueLE([0, 1]) == 256 * ValueLE([0, 1][1..]) && [0, 1][1..] == [1];
    assert ValueLE([1]) == 1 + 256 * ValueLE([]);
  }

  /** Reading b spends no more bytes than its value needs: the mode is the smallest, and a value in the
      long mode does not end in a zero byte. */
  predicate SmallestMode(b: bytes, value: nat)
    requires b != []
  {
    match b[0] % 4
    case 0 => true
    case 1 => value > MAX_U8
    case 2 => value > MAX_U16
    case _ =>
      var offset := b[0] / 4 + 5;
      value > MAX_U32 && |b| >= offset && b[offset - 1] != 0
  }

  /** Which inputs are canonical: encoding the value gives back the bytes read exactly when none of them
      is missing and the mode is the smallest, that is, when the offset is the length of the encoding. */
  lemma CanonicalExact(input: bytes)
    requires input != [] && FromU8a(input).Ok? && FromU8a(input).value.offset <= |input|
    ensures var d := FromU8a(input).value;
            && (input[..d.offset] == Bytes(d.value) <==> SmallestMode(input, d.value))
            && (input[..d.offset] == Bytes(d.value) <==> |Bytes(d.value)| == d.offset)
  {
    hide Pow, BytesLE, ValueLE, BitLength, ByteLength;
    var d := FromU8a(input).value;
    match input[0] % 4
    case 0 =>
      assert input[..1] == [input[0]];
    case 1 => CanonicalTwo(input);
    case 2 => CanonicalFour(input);
    case _ => CanonicalLong(input);
  }

  lemma CanonicalTwo(input: bytes)
    requires |input| >= 2 && input[0] % 4 == 1
    ensures var v := ValueLE(input[..2]) / 4;
            && (input[..2] == Bytes(v) <==> v > MAX_U8) && (|Bytes(v)| == 2 <==> v > MAX_U8)
  {
    hide Pow, BytesLE, ValueLE, BitLength, ByteLength;
    SmallPowers();
    var w := ValueLE(input[..2]);
    ValueBound(input[..2]);
    LowByte(input[..2]);
    BytesOfValue(input[..2]);
    assert 4 * (w / 4) + 1 == w;
  }

  lemma CanonicalFour(input: bytes)
    requires |input| >= 4 && input[0] % 4 == 2
    ensures var v := ValueLE(input[..4]) / 4;
            && (input[..4] == Bytes(v) <==> v > MAX_U16) && (|Bytes(v)| == 4 <==> v > MAX_U16)
  {
    hide Pow, BytesLE, ValueLE, BitLength, ByteLength;
    SmallPowers();
    var w := ValueLE(input[..4]);
    ValueBound(input[..4]);
    LowByte(input[..4]);
    BytesOfValue(input[..4]);
    assert 4 * (w / 4) + 2 == w;
  }

  lemma CanonicalLong(input: bytes)
    requires input != [] && input[0] % 4 == 3 && |input| >= input[0] / 4 + 5
    ensures var offset := input[0] / 4 + 5;
            var v := ValueLE(input[1..offset]);
            && (input[..offset] == Bytes(v) <==> v > MAX_U32 && input[offset - 1] != 0)
            && (|Bytes(v)| == offset <==> v > MAX_U32 && input[offset - 1] != 0)
  {
    hide Pow, BytesLE, ValueLE, BitLength, ByteLength;
    var n := input[0] / 4 + 4;
    var s := input[1..n + 1];
    var v := ValueLE(s);
    assert s[n - 1] == input[n];
    LengthByTop(s);
    BytesOfValue(s);
    if v > MAX_U32 {
      AboveU32(v);
      if s[n - 1] != 0 {
        assert ((n - 4) * 4 + 3) % 256 == input[0];
        assert input[..n + 1] == [input[0]] + s;
      }
    }
  }

  lemma LowByte(b: bytes)
    requires b != []
    ensures ValueLE(b) % 4 == b[0] % 4
  {
    assert ValueLE(b) == b[0] + 256 * ValueLE(b[1..]);
  }

  /** A number has as many bytes as a list that holds it exactly when the list does not end in a zero. */
  lemma LengthByTop(s: bytes)
    requires s != []
    ensures ByteLength(ValueLE(s)) <= |s|
    ensures ByteLength(ValueLE(s)) == |s| <==> s[|s| - 1] != 0
  {
    hide ValueLE, BitLength, ByteLength, Pow;
    var k := |s| - 1;
    ValueBound(s);
    ByteLengthExact(ValueLE(s), |s|);
    ByteLengthExact(ValueLE(s), k);
    ValueSnoc(s[..k], s[k]);
    assert s == s[..k] + [s[k]];
    ValueBound(s[..k]);
    PowPositive(256, k);
    TopByte(s[k], Pow(256, k));
  }

  lemma TopByte(x: nat, p: nat)
    ensures x == 0 ==> x * p == 0
    ensures x > 0 ==> x * p >= p
  {
  }

  lemma BoundedValue(b: bytes, n: nat)
    requires |b| <= n
    ensures ValueLE(b) < Pow(256, n)
  {
    ValueBound(b);
    PowGrows(256, |b|, n);
  }

  /** Encodings are prefix-free: a stream of them can be read in one way only. */
  lemma PrefixFree(v: nat, w: nat, t: bytes, u: bytes)
    requires Encodable(v) && Encodable(w) && Bytes(v) + t == Bytes(w) + u
    ensures v == w && t == u
  {
    hide Bytes, Encodable, FromU8a;
    RoundTrip(v, t);
    RoundTrip(w, u);
    assert t == (Bytes(v) + t)[|Bytes(v)|..] && u == (Bytes(w) + u)[|Bytes(w)|..];
  }

  // ----- length-prefixed byte lists -----

  function AddLength(input: bytes): bytes {
    Bytes(|input|) + input
  }

  /** What the prefix of a frame says: it reads as the length of the content, which follows it. */
  lemma FrameRead(x: bytes)
    requires Encodable(|x|)
    ensures |AddLength(x)| >= |x|
    ensures FromU8a(AddLength(x)) == Ok(Decoded(|AddLength(x)| - |x|, |x|))
    ensures AddLength(x)[|AddLength(x)| - |x|..] == x
  {
    hide Bytes, Encodable, FromU8a;
    RoundTrip(|x|, x);
  }

  datatype Stripped = Stripped(total: nat, content: bytes)

  function StripLength(input: bytes): Result<Stripped> {
    var d :- FromU8a(input);
    var total := d.offset + d.value;
    var content :- Sublist(input, d.offset, total);
    Ok(Stripped(total, content))
  }

  function Frames(xs: seq<bytes>): bytes {
    if xs == [] then [] else AddLength(xs[0]) + Frames(xs[1..])
  }

  /** Repeatedly stripping one frame until nothing is left. */
  function SplitFrames(b: bytes): Result<seq<bytes>>
    decreases |b|
  {
    if b == [] then Ok([])
    else
      var s :- StripLength(b);
      StripShrinks(b);
      var rest :- SplitFrames(b[s.total..]);
      Ok([s.content] + rest)
  }

  lemma StripShrinks(b: bytes)
    requires StripLength(b).Ok?
    ensures 0 < StripLength(b).value.total <= |b|
  {
  }

  lemma StripAdded(x: bytes, t: bytes)
    requires Encodable(|x|)
    ensures StripLength(AddLength(x) + t) == Ok(Stripped(|AddLength(x)|, x))
  {
    hide Bytes, Encodable, FromU8a;
    RoundTrip(|x|, x + t);
    var b := AddLength(x) + t;
    assert b == Bytes(|x|) + (x + t);
    var k := |Bytes(|x|)|;
    assert b[k..k + |x|] == x;
  }

  /** What is stripped: the content x comes off, with no byte of its prefix to spare, exactly when the input
      starts with the frame of x and its length can be encoded. */
  lemma StripExact(b: bytes, x: bytes)
    ensures StripLength(b) == Ok(Stripped(|AddLength(x)|, x)) <==> Encodable(|x|) && AddLength(x) <= b
  {
    hide AddLength, Encodable, StripLength;
    var n := |AddLength(x)|;
    if Encodable(|x|) && AddLength(x) <= b {
      StripAdded(x, b[n..]);
      assert AddLength(x) + b[n..] == b;
    }
    if StripLength(b) == Ok(Stripped(n, x)) {
      StrippedFront(b, x);
    }
  }

  lemma StrippedFront(b: bytes, x: bytes)
    requires StripLength(b) == Ok(Stripped(|AddLength(x)|, x))
    ensures Encodable(|x|) && AddLength(x) <= b
  {
    hide Bytes, Encodable, FromU8a, First, ValueLE;
    var d, total := FromU8a(b).value, |AddLength(x)|;
    ReadExact(b);
    assert 0 < d.offset <= total <= |b| && b[d.offset..total] == x && d.value == |x|;
    Shortest(b);
    CanonicalExact(b);
    assert b[..total] == b[..d.offset] + b[d.offset..total];
  }

  lemma BytesNonempty(v: nat)
    ensures Bytes(v) != []
  {
  }

  lemma SplitOnce(b: bytes, x: bytes, t: bytes, total: nat, rest: seq<bytes>)
    requires b != [] && StripLength(b) == Ok(Stripped(total, x)) && total <= |b| && b[total..] == t
    requires SplitFrames(t) == Ok(rest)
    ensures SplitFrames(b) == Ok([x] + rest)
  {
    hide StripLength;
  }

  /** A concatenation of frames splits back into the same byte lists. */
  lemma {:induction false} FramesSplit(xs: seq<bytes>)
    requires forall i :: 0 <= i < |xs| ==> Encodable(|xs[i]|)
    ensures SplitFrames(Frames(xs)) == Ok(xs)
  {
    hide Bytes, Encodable, FromU8a, StripLength;
    if xs != [] {
      hide SplitFrames;
      var x, rest := xs[0], xs[1..];
      FramesSplit(rest);
      StripAdded(x, Frames(rest));
      BytesNonempty(|x|);
      SplitOnce(Frames(xs), x, Frames(rest), |AddLength(x)|, rest);
      assert [x] + rest == xs;
    }
  }

  /** So two different lists of byte lists never have the same concatenation. */
  lemma FramesInjective(xs: seq<bytes>, ys: seq<bytes>)
    requires forall i :: 0 <= i < |xs| ==> Encodable(|xs[i]|)
    requires forall i :: 0 <= i < |ys| ==> Encodable(|ys[i]|)
    requires Frames(xs) == Frames(ys)
    ensures xs == ys
  {
    FramesSplit(xs);
    FramesSplit(ys);
  }
}
