/** `isUtf8` of lib/utils/is.dart on a byte list, against the encoding of RFC 3629. */
module Utf8 {
  import opened Basics

  /** A Unicode scalar value: no surrogates, nothing above 10FFFF. */
  type Scalar = c: int | 0 <= c < 0xD800 || 0xE000 <= c <= 0x10FFFF

  /** RFC 3629, section 3: the bytes of one scalar value. */
  function EncodeScalar(c: Scalar): bytes {
    if c < 0x80 then [c]
    else if c < 0x800 then [0xC0 + c / 64, 0x80 + c % 64]
    else if c < 0x10000 then [0xE0 + c / 4096, 0x80 + c / 64 % 64, 0x80 + c % 64]
    else [0xF0 + c / 262144, 0x80 + c / 4096 % 64, 0x80 + c / 64 % 64, 0x80 + c % 64]
  }

  function Encode(cs: seq<Scalar>): bytes {
    if cs == [] then [] else EncodeScalar(cs[0]) + Encode(cs[1..])
  }

  // ----- the acceptor -----

  predicate Between(b: bytes, i: nat, lo: int, hi: int) {
    i < |b| && lo <= b[i] <= hi
  }

  /** RFC 3629, section 4: the length of the well-formed character at index i, 0 if there is none. */
  function LeadLength(b: bytes, i: nat): (k: nat)
    ensures k > 0 ==> i + k <= |b|
  {
    if Between(b, i, 0x00, 0x7F) then 1
    else if Between(b, i, 0xC2, 0xDF) && Between(b, i + 1, 0x80, 0xBF) then 2
    else if && (|| (Between(b, i, 0xE0, 0xE0) && Between(b, i + 1, 0xA0, 0xBF))
                || (Between(b, i, 0xE1, 0xEC) && Between(b, i + 1, 0x80, 0xBF))
                || (Between(b, i, 0xED, 0xED) && Between(b, i + 1, 0x80, 0x9F))
                || (Between(b, i, 0xEE, 0xEF) && Between(b, i + 1, 0x80, 0xBF)))
            && Between(b, i + 2, 0x80, 0xBF) then 3
    else if && (|| (Between(b, i, 0xF0, 0xF0) && Between(b, i + 1, 0x90, 0xBF))
                || (Between(b, i, 0xF1, 0xF3) && Between(b, i + 1, 0x80, 0xBF))
                || (Between(b, i, 0xF4, 0xF4) && Between(b, i + 1, 0x80, 0x8F)))
            && Between(b, i + 2, 0x80, 0xBF) && Between(b, i + 3, 0x80, 0xBF) then 4
    else 0
  }

  predicate AcceptsFrom(b: bytes, i: nat)
    requires i <= |b|
    decreases |b| - i
  {
    i == |b| || (LeadLength(b, i) > 0 && AcceptsFrom(b, i + LeadLength(b, i)))
  }

  predicate Accepts(b: bytes) {
    AcceptsFrom(b, 0)
  }

  method IsUtf8(u8a: bytes) returns (r: bool)
    ensures r <==> exists cs :: Encode(cs) == u8a
  {
    AcceptsExact(u8a);
    hide Encode, EncodeScalar;
    var len := |u8a|;
    var i := 0;
    while i < len
      invariant 0 <= i <= len
      invariant AcceptsFrom(u8a, 0) == AcceptsFrom(u8a, i)
    {
      ghost var start := i;
      if u8a[i] <= 0x7F {
        i := i + 1;
      } else if u8a[i] >= 0xC2 && u8a[i] <= 0xDF {
        if i + 1 < len {
          if u8a[i + 1] < 0x80 || u8a[i + 1] > 0xBF { return false; }
        } else {
          return false;
        }
        i := i + 2;
      } else if u8a[i] == 0xE0 {
        if i + 2 < len {
          if u8a[i + 1] < 0xA0 || u8a[i + 1] > 0xBF { return false; }
          if u8a[i + 2] < 0x80 || u8a[i + 2] > 0xBF { return false; }
        } else {
          return false;
        }
        i := i + 3;
      } else if u8a[i] >= 0xE1 && u8a[i] <= 0xEC {
        if i + 2 < len {
          if u8a[i + 1] < 0x80 || u8a[i + 1] > 0xBF { return false; }
          if u8a[i + 2] < 0x80 || u8a[i + 2] > 0xBF { return false; }
        } else {
          return false;
        }
        i := i + 3;
      } else if u8a[i] == 0xED {
        if i + 2 < len {
          if u8a[i + 1] < 0x80 || u8a[i + 1] > 0x9F { return false; }
          if u8a[i + 2] < 0x80 || u8a[i + 2] > 0xBF { return false; }
        } else {
          return false;
        }
        i := i + 3;
      } else if u8a[i] >= 0xEE && u8a[i] <= 0xEF {
        if i + 2 < len {
          if u8a[i + 1] < 0x80 || u8a[i + 1] > 0xBF { return false; }
          if u8a[i + 2] < 0x80 || u8a[i + 2] > 0xBF { return false; }
        } else {
          return false;
        }
        i := i + 3;
      } else if u8a[i] == 0xF0 {
        if i + 3 < len {
          if u8a[i + 1] < 0x90 || u8a[i + 1] > 0xBF { return false; }
          if u8a[i + 2] < 0x80 || u8a[i + 2] > 0xBF { return false; }
          if u8a[i + 3] < 0x80 || u8a[i + 3] > 0xBF { return false; }
        } else {
          return false;
        }
        i := i + 4;
      } else if u8a[i] >= 0xF1 && u8a[i] <= 0xF3 {
        if i + 3 < len {
          if u8a[i + 1] < 0x80 || u8a[i + 1] > 0xBF { return false; }
          if u8a[i + 2] < 0x80 || u8a[i + 2] > 0xBF { return false; }
          if u8a[i + 3] < 0x80 || u8a[i + 3] > 0xBF { return false; }
        } else {
          return false;
        }
        i := i + 4;
      } else if u8a[i] == 0xF4 {
        if i + 3 < len {
          if u8a[i + 1] < 0x80 || u8a[i + 1] > 0x8F { return false; }
          if u8a[i + 2] < 0x80 || u8a[i + 2] > 0xBF { return false; }
          if u8a[i + 3] < 0x80 || u8a[i + 3] > 0xBF { return false; }
        } else {
          return false;
        }
        i := i + 4;
      } else {
        return false;
      }
      assert LeadLength(u8a, start) == i - start;
    }
    r := true;
  }

  // ----- the grammar and the encoding agree -----

  /** The scalar value of a well-formed character. */
  function DecodeLead(b: bytes): Scalar
    requires LeadLength(b, 0) > 0
  {
    var k := LeadLength(b, 0);
    if k == 1 then b[0]
    else if k == 2 then Join(b[0] as int - 0xC0, b[1])
    else if k == 3 then Join(Join(b[0] as int - 0xE0, b[1]), b[2])
    else Join(Join(Join(b[0] as int - 0xF0, b[1]), b[2]), b[3])
  }

  /** Six more bits from a continuation byte. */
  function Join(high: int, y: byte): int {
    high * 64 + (y as int - 0x80)
  }

  lemma JoinSplits(high: int, y: byte)
    requires 0x80 <= y <= 0xBF
    ensures Join(high, y) / 64 == high && Join(high, y) % 64 == y as int - 0x80
  {
  }

  lemma DivideTwice(c: nat)
    ensures c / 4096 == c / 64 / 64 && c / 262144 == c / 64 / 64 / 64 && c / 4096 % 64 == c / 64 / 64 % 64
  {
  }

  lemma DecodeTwo(b: bytes)
    requires LeadLength(b, 0) == 2
    ensures EncodeScalar(DecodeLead(b)) == b[..2]
  {
    hide Join;
    JoinBetween(b[0] as int - 0xC0, b[1], 2, 0x1F);
  }

  lemma DecodeThree(b: bytes)
    requires LeadLength(b, 0) == 3
    ensures EncodeScalar(DecodeLead(b)) == b[..3]
  {
    hide Join;
    var high := b[0] as int - 0xE0;
    DivideTwice(DecodeLead(b));
    JoinBetween(high, b[1], 0, 0xF);
    JoinBetween(Join(high, b[1]), b[2], 0, 0x3FF);
    ThreeBytes(b, high);
  }

  /** The three bytes stand for a number above 7FF that is no surrogate. */
  lemma ThreeBytes(b: bytes, high: int)
    requires LeadLength(b, 0) == 3 && high == b[0] as int - 0xE0
    ensures 0x20 <= Join(high, b[1]) <= 0x3FF && !(0x360 <= Join(high, b[1]) <= 0x37F)
  {
  }

  lemma DecodeFour(b: bytes)
    requires LeadLength(b, 0) == 4
    ensures EncodeScalar(DecodeLead(b)) == b[..4]
  {
    hide Join;
    var high := b[0] as int - 0xF0;
    DivideTwice(DecodeLead(b));
    JoinBetween(high, b[1], 0, 4);
    FourBytes(b, high);
    JoinBetween(Join(high, b[1]), b[2], 0x10, 0x10F);
    JoinBetween(Join(Join(high, b[1]), b[2]), b[3], 0x400, 0x43FF);
  }

  lemma FourBytes(b: bytes, high: int)
    requires LeadLength(b, 0) == 4 && high == b[0] as int - 0xF0
    ensures 0x10 <= Join(high, b[1]) <= 0x10F
  {
  }

  lemma JoinBetween(high: int, y: byte, low: int, top: int)
    requires 0x80 <= y <= 0xBF && low <= high <= top
    ensures Join(high, y) / 64 == high && Join(high, y) % 64 == y as int - 0x80
    ensures low * 64 <= Join(high, y) <= top * 64 + 63
  {
    JoinSplits(high, y);
  }

  lemma DecodeLeadEncodes(b: bytes)
    requires LeadLength(b, 0) > 0
    ensures EncodeScalar(DecodeLead(b)) == b[..LeadLength(b, 0)]
  {
    var k := LeadLength(b, 0);
    if k == 2 {
      DecodeTwo(b);
    } else if k == 3 {
      DecodeThree(b);
    } else if k == 4 {
      DecodeFour(b);
    }
  }

  /** The bytes of one scalar value are one character of the grammar, of that value. */
  lemma EncodeScalarWellFormed(c: Scalar)
    ensures var e := EncodeScalar(c); LeadLength(e, 0) == |e| > 0 && DecodeLead(e) == c
  {
    DivideTwice(c);
  }

  /** The length at an index is not changed by what precedes it, nor, once positive, by what follows. */
  lemma LeadLengthLocal(a: bytes, b: bytes, t: bytes)
    ensures LeadLength(a + b, |a|) == LeadLength(b, 0)
    ensures LeadLength(b, 0) > 0 ==> LeadLength(b + t, 0) == LeadLength(b, 0)
  {
    forall i: nat, lo, hi
      ensures Between(a + b, |a| + i, lo, hi) == Between(b, i, lo, hi)
    {
    }
    forall i: nat, lo, hi | Between(b, i, lo, hi)
      ensures Between(b + t, i, lo, hi)
    {
    }
    assert b != [] ==> (b + t)[0] == b[0];
  }

  /** Whatever follows the bytes of a scalar value, the grammar reads exactly that value. */
  lemma EncodeScalarReads(c: Scalar, t: bytes)
    ensures var b := EncodeScalar(c) + t;
            LeadLength(b, 0) == |EncodeScalar(c)| > 0 && DecodeLead(b) == c
  {
    hide EncodeScalar;
    EncodeScalarWellFormed(c);
    LeadLengthLocal([], EncodeScalar(c), t);
    SameLead(EncodeScalar(c), t);
  }

  lemma SameLead(b: bytes, t: bytes)
    requires LeadLength(b, 0) > 0 && LeadLength(b + t, 0) == LeadLength(b, 0)
    ensures DecodeLead(b + t) == DecodeLead(b)
  {
    hide LeadLength;
  }

  lemma {:induction false} AcceptsSuffix(a: bytes, b: bytes, i: nat)
    requires i <= |b|
    ensures AcceptsFrom(a + b, |a| + i) == AcceptsFrom(b, i)
    decreases |b| - i
  {
    hide LeadLength;
    if i < |b| {
      assert a + b == (a + b[..i]) + b[i..] && b == b[..i] + b[i..];
      LeadLengthLocal(a + b[..i], b[i..], []);
      LeadLengthLocal(b[..i], b[i..], []);
      LeadInside(b, i);
      if LeadLength(b, i) > 0 {
        AcceptsSuffix(a, b, i + LeadLength(b, i));
      }
    }
  }

  lemma LeadInside(b: bytes, i: nat)
    ensures LeadLength(b, i) > 0 ==> i + LeadLength(b, i) <= |b|
  {
  }

  /** Acceptance character by character. */
  lemma AcceptsHead(b: bytes)
    requires b != []
    ensures LeadLength(b, 0) <= |b|
    ensures Accepts(b) <==> LeadLength(b, 0) > 0 && Accepts(b[LeadLength(b, 0)..])
  {
    hide LeadLength;
    LeadInside(b, 0);
    var k := LeadLength(b, 0);
    if k > 0 {
      AcceptsSuffix(b[..k], b[k..], 0);
      assert b == b[..k] + b[k..];
    }
  }

  lemma {:induction false} AcceptsEncoding(cs: seq<Scalar>)
    ensures Accepts(Encode(cs))
  {
    if cs != [] {
      hide EncodeScalar, LeadLength, DecodeLead, Accepts;
      AcceptsEncoding(cs[1..]);
      EncodeScalarReads(cs[0], Encode(cs[1..]));
      AcceptsHead(Encode(cs));
      assert Encode(cs)[|EncodeScalar(cs[0])|..] == Encode(cs[1..]);
    }
  }

  lemma {:induction false} AcceptedIsEncoding(b: bytes) returns (cs: seq<Scalar>)
    requires Accepts(b)
    ensures Encode(cs) == b
    decreases |b|
  {
    if b == [] {
      cs := [];
    } else {
      hide EncodeScalar, LeadLength, DecodeLead, Accepts;
      AcceptsHead(b);
      var k := LeadLength(b, 0);
      var rest := AcceptedIsEncoding(b[k..]);
      DecodeLeadEncodes(b);
      cs := [DecodeLead(b)] + rest;
      assert cs[1..] == rest;
      assert b == b[..k] + b[k..];
    }
  }

  /** The grammar accepts exactly the encodings of sequences of scalar values. */
  lemma AcceptsExact(b: bytes)
    ensures Accepts(b) <==> exists cs :: Encode(cs) == b
  {
    if Accepts(b) {
      var cs := AcceptedIsEncoding(b);
    }
    if cs :| Encode(cs) == b {
      AcceptsEncoding(cs);
    }
  }

  /** A byte list encodes at most one sequence of scalar values. */
  lemma {:induction false} EncodeInjective(cs: seq<Scalar>, ds: seq<Scalar>)
    requires Encode(cs) == Encode(ds)
    ensures cs == ds
  {
    hide EncodeScalar, LeadLength, DecodeLead;
    if cs == [] || ds == [] {
      if cs != [] {
        EncodeScalarReads(cs[0], Encode(cs[1..]));
      }
      if ds != [] {
        EncodeScalarReads(ds[0], Encode(ds[1..]));
      }
    } else {
      EncodeScalarReads(cs[0], Encode(cs[1..]));
      EncodeScalarReads(ds[0], Encode(ds[1..]));
      var k := |EncodeScalar(cs[0])|;
      assert Encode(cs)[k..] == Encode(cs[1..]) && Encode(ds)[k..] == Encode(ds[1..]);
      EncodeInjective(cs[1..], ds[1..]);
    }
  }

  lemma AppendAssociates(a: bytes, b: bytes, c: bytes)
    ensures a + (b + c) == (a + b) + c
  {
  }

  lemma {:induction false} EncodeAppend(cs: seq<Scalar>, ds: seq<Scalar>)
    ensures Encode(cs + ds) == Encode(cs) + Encode(ds)
  {
    hide EncodeScalar;
    if cs == [] {
      assert cs + ds == ds;
    } else {
      EncodeAppend(cs[1..], ds);
      assert (cs + ds)[1..] == cs[1..] + ds && (cs + ds)[0] == cs[0];
      assert cs + ds != [];
      AppendAssociates(EncodeScalar(cs[0]), Encode(cs[1..]), Encode(ds));
    }
  }

  /** After an accepted prefix a byte list is accepted exactly when the rest is: acceptance is closed
      under concatenation, and no accepted text ends inside a character. */
  lemma {:induction false} AcceptsConcat(a: bytes, b: bytes)
    requires Accepts(a)
    ensures Accepts(a + b) <==> Accepts(b)
    decreases |a|
  {
    if a == [] {
      assert a + b == b;
    } else {
      hide LeadLength, Accepts;
      AcceptsHead(a);
      AcceptsHead(a + b);
      var k := LeadLength(a, 0);
      LeadLengthLocal([], a, b);
      assert (a + b)[k..] == a[k..] + b;
      AcceptsConcat(a[k..], b);
    }
  }
}
