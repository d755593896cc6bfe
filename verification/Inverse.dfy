/** `inverseMulti` of lib/crypto/curve.dart: extended Euclid over two rows of three numbers. */
module Inverse {
  import opened Basics
  import opened Modular

  /** The six loop variables: x1*m + x2*v = x3 and y1*m + y2*v = y3. */
  datatype Rows = Rows(x1: int, x2: int, x3: int, y1: int, y2: int, y3: int)

  function PositiveMod(n: int, m: int): int
    requires m > 0
  {
    (n % m + m) % m
  }

  lemma PositiveModIsMod(n: int, m: int)
    requires m > 0
    ensures PositiveMod(n, m) == n % m
  {
    CongMod(n, m);
    CongRefl(m, m);
    Multiple(m, 1, m - 0);
    CongAdd(n % m, n, m, 0, m);
    CongIffMod(n % m + m, n, m);
  }

  function Start(x: int, m: int): Rows
    requires m > 0
  {
    Rows(1, 0, m, 0, 1, PositiveMod(x, m))
  }

  function Advance(s: Rows, q: int): Rows {
    Rows(s.y1, s.y2, s.y3, s.x1 - q * s.y1, s.x2 - q * s.y2, s.x3 - q * s.y3)
  }

  ghost predicate Bezout(s: Rows, v: int, m: int) {
    s.x1 * m + s.x2 * v == s.x3 && s.y1 * m + s.y2 * v == s.y3
  }

  /** Both rows stay Bezout combinations whatever integer is used as the quotient. */
  lemma AdvanceKeepsBezout(s: Rows, q: int, v: int, m: int)
    requires Bezout(s, v, m)
    ensures Bezout(Advance(s, q), v, m)
  {
    assert (s.x1 - q * s.y1) * m + (s.x2 - q * s.y2) * v
        == (s.x1 * m + s.x2 * v) - q * (s.y1 * m + s.y2 * v);
  }

  lemma BezoutGivesInverse(s: Rows, x: int, m: int)
    requires m > 0 && Bezout(s, PositiveMod(x, m), m) && s.y3 == 1
    ensures Cong(s.y2 * x, 1, m)
  {
    PositiveModIsMod(x, m);
    Multiple(m, -s.y1, s.y2 * (x % m) - 1);
    CongMod(x, m);
    CongRefl(s.y2, m);
    CongMul(s.y2, s.y2, x, x % m, m);
    CongTrans(s.y2 * x, s.y2 * (x % m), 1, m);
  }

  lemma StartBezout(x: int, m: int)
    requires m > 0
    ensures Bezout(Start(x, m), PositiveMod(x, m), m)
  {
  }

  datatype Outcome = Returned(inverse: int) | NoAnswer | StillRunning

  /** Where the loop gets from rows s with the given quotients. */
  function Follow(s: Rows, quotients: seq<int>): Outcome
    decreases |quotients|
  {
    if s.y3 == 0 then NoAnswer
    else if s.y3 == 1 then Returned(s.y2)
    else if quotients == [] then StillRunning
    else Follow(Advance(s, quotients[0]), quotients[1..])
  }

  /** The loop with an arbitrary quotient at each step, as the division of two BigInts through a
      double may produce. Whatever the quotients, a value that is returned is an inverse. */
  method InverseAnyQuotient(x: int, m: int, quotients: seq<int>) returns (r: Outcome)
    requires m > 0
    ensures r == Follow(Start(x, m), quotients)
    ensures r.Returned? ==> Cong(r.inverse * x, 1, m)
  {
    hide Start, Advance, Bezout, Cong, PositiveMod;
    StartBezout(x, m);
    var s := Start(x, m);
    var i := 0;
    while s.y3 != 0 && s.y3 != 1 && i < |quotients|
      invariant i <= |quotients| && Bezout(s, PositiveMod(x, m), m)
      invariant Follow(s, quotients[i..]) == Follow(Start(x, m), quotients)
      decreases |quotients| - i
    {
      AdvanceKeepsBezout(s, quotients[i], PositiveMod(x, m), m);
      s := Advance(s, quotients[i]);
      assert quotients[i..][1..] == quotients[i + 1..];
      i := i + 1;
    }
    if s.y3 == 1 {
      BezoutGivesInverse(s, x, m);
    }
    r := if s.y3 == 0 then NoAnswer else if s.y3 == 1 then Returned(s.y2) else StillRunning;
  }

  lemma {:induction false} FollowSound(s: Rows, quotients: seq<int>, x: int, m: int)
    requires m > 0 && Bezout(s, PositiveMod(x, m), m)
    ensures Follow(s, quotients).Returned? ==> Cong(Follow(s, quotients).inverse * x, 1, m)
    decreases |quotients|
  {
    hide Bezout, Cong;
    if s.y3 == 1 {
      BezoutGivesInverse(s, x, m);
    } else if s.y3 != 0 && quotients != [] {
      AdvanceKeepsBezout(s, quotients[0], PositiveMod(x, m), m);
      FollowSound(Advance(s, quotients[0]), quotients[1..], x, m);
    }
  }

  /** The exact quotients are among the possible ones. */
  lemma {:induction false} ExactIsFollowed(s: Rows) returns (quotients: seq<int>)
    requires s.y3 >= 0
    ensures InverseFrom(s).Ok? ==> Follow(s, quotients) == Returned(InverseFrom(s).value)
    ensures InverseFrom(s).Err? ==> Follow(s, quotients) == NoAnswer
    decreases s.y3
  {
    quotients := [];
    if s.y3 > 1 {
      ExactRemainder(s.x3, s.y3);
      var rest := ExactIsFollowed(Advance(s, s.x3 / s.y3));
      quotients := [s.x3 / s.y3] + rest;
      assert quotients[1..] == rest;
    }
  }

  // the order of the secp256k1 group
  const SECP256K1_N: int := 0xfffffffffffffffffffffffffffffffebaaedce6af48a03bbfd25e8cd0364141

  /** q is the quotient of a and b to the precision of a double, or rounded toward zero. */
  predicate AsDouble(q: int, a: int, b: int) {
    Abs(a - q * b) < Abs(b) || Abs(a - q * b) * 0x10_0000_0000_0000 <= 2 * Abs(a)
  }

  /** The remainders a, b lead to the throw along quotients that are right to the precision of a double. */
  predicate Dies(a: int, b: int, quotients: seq<int>)
    decreases |quotients|
  {
    b == 0 || (b != 1 && quotients != [] && AsDouble(quotients[0], a, b) && Dies(b, a - quotients[0] * b, quotients[1..]))
  }

  lemma DieStep(a: int, b: int, q: int, quotients: seq<int>)
    requires b != 0 && b != 1 && AsDouble(q, a, b) && Dies(b, a - q * b, quotients)
    ensures Dies(a, b, [q] + quotients)
  {
    assert ([q] + quotients)[1..] == quotients;
  }

  lemma {:induction false} DiesWithoutAnswer(s: Rows, quotients: seq<int>)
    requires Dies(s.x3, s.y3, quotients)
    ensures Follow(s, quotients) == NoAnswer
    decreases |quotients|
  {
    if s.y3 != 0 {
      DiesWithoutAnswer(Advance(s, quotients[0]), quotients[1..]);
    }
  }

  lemma LastRemainders() returns (quotients: seq<int>)
    ensures Dies(-2143990431423, 5, quotients)
  {
    hide Dies;
    quotients := [];
    DiesAtZero(-1);
    DieStep(2, -1, -2, quotients);
    quotients := [-2] + quotients;
    DieStep(-3, 2, -1, quotients);
    quotients := [-1] + quotients;
    DieStep(5, -3, -1, quotients);
    quotients := [-1] + quotients;
    DieStep(-2143990431423, 5, -428798086284, quotients);
    quotients := [-428798086284] + quotients;
  }

  lemma MiddleRemainders() returns (quotients: seq<int>)
    ensures Dies(356811490756103404604914639941507389127541057, 5, quotients)
  {
    hide Dies;
    quotients := LastRemainders();
    DieStep(5, -2143990431423, 0, quotients);
    quotients := [0] + quotients;
    DieStep(24537115115715887387169407297, 5, 4907423023143177906231967744, quotients);
    quotients := [4907423023143177906231967744] + quotients;
    DieStep(5, 24537115115715887387169407297, 0, quotients);
    quotients := [0] + quotients;
    DieStep(356811490756103404604914639941507389127541057, 5, 71362298151220676013559904845124000391626752, quotients);
    quotients := [71362298151220676013559904845124000391626752] + quotients;
  }

  lemma EarlyRemainders() returns (quotients: seq<int>)
    ensures Dies(-6427752177035961102168280789751216069745664395997566309351103, 5, quotients)
  {
    hide Dies;
    quotients := MiddleRemainders();
    DieStep(5, 356811490756103404604914639941507389127541057, 0, quotients);
    quotients := [0] + quotients;
    DieStep(-6427752177035961102168280789751216069745664395997566309351103, 5,
            -1285550435407192291795954309170924134932060867500991087378432, quotients);
    quotients := [-1285550435407192291795954309170924134932060867500991087378432] + quotients;
  }

  lemma RoundedRemainders() returns (quotients: seq<int>)
    ensures Dies(SECP256K1_N, 5, quotients)
  {
    hide Dies;
    quotients := EarlyRemainders();
    DieStep(5, -6427752177035961102168280789751216069745664395997566309351103, 0, quotients);
    quotients := [0] + quotients;
    DieStep(SECP256K1_N, 5, 23158417847463240370264632408929802004223670806058194825653911827816894169088, quotients);
    quotients := [23158417847463240370264632408929802004223670806058194825653911827816894169088] + quotients;
  }

  lemma DiesAtZero(a: int)
    ensures Dies(a, 0, [])
  {
  }

  /** Exactness matters: 5 has an inverse modulo the order of the curve, which exact quotients find, and
      yet quotients that are right to the precision of a double lead the loop to the throw. */
  lemma RoundedQuotientsThrow() returns (quotients: seq<int>)
    ensures InverseOf(5, SECP256K1_N).Ok?
    ensures Dies(SECP256K1_N, 5, quotients) && Follow(Start(5, SECP256K1_N), quotients) == NoAnswer
  {
    hide Dies, Follow;
    quotients := RoundedRemainders();
    assert PositiveMod(5, SECP256K1_N) == 5;
    DiesWithoutAnswer(Start(5, SECP256K1_N), quotients);
    assert InverseFrom(Advance(Start(5, SECP256K1_N), SECP256K1_N / 5)).Ok?;
  }

  /** The value the loop reaches from rows `s` when every quotient is exact. */
  function InverseFrom(s: Rows): Result<int>
    requires s.y3 >= 0
    decreases s.y3
  {
    if s.y3 == 0 then Err("multiplicative inverse modulo is no answer!")
    else if s.y3 == 1 then Ok(s.y2)
    else
      ExactRemainder(s.x3, s.y3);
      InverseFrom(Advance(s, s.x3 / s.y3))
  }

  function InverseOf(x: int, m: int): Result<int>
    requires m > 0
  {
    InverseFrom(Start(x, m))
  }

  lemma ExactRemainder(a: int, b: int)
    requires b > 0
    ensures 0 <= a - (a / b) * b < b
  {
  }

  /** `inverseMulti` with exact division. */
  method InverseMulti(x: int, m: int) returns (r: Result<int>)
    requires m > 0
    ensures r == InverseOf(x, m)
    ensures r.Ok? ==> Cong(r.value * x, 1, m)
  {
    var x1, x2, x3 := 1, 0, m;
    var y1, y2, y3 := 0, 1, (x % m + m) % m;
    while true
      invariant y3 >= 0
      invariant InverseFrom(Rows(x1, x2, x3, y1, y2, y3)) == InverseOf(x, m)
      invariant Bezout(Rows(x1, x2, x3, y1, y2, y3), PositiveMod(x, m), m)
      decreases y3
    {
      ghost var s := Rows(x1, x2, x3, y1, y2, y3);
      if y3 == 0 {
        return Err("multiplicative inverse modulo is no answer!");
      }
      if y3 == 1 {
        BezoutGivesInverse(s, x, m);
        return Ok(y2);
      }
      var q := x3 / y3;
      ExactRemainder(x3, y3);
      AdvanceKeepsBezout(s, q, PositiveMod(x, m), m);
      var t1, t2, t3 := x1 - q * y1, x2 - q * y2, x3 - q * y3;
      x1, x2, x3 := y1, y2, y3;
      y1, y2, y3 := t1, t2, t3;
    }
  }

  // ----- exactly when an inverse is found, and how large it is -----

  ghost predicate SameDivisors(s: Rows, x: int, m: int) {
    forall d :: Divides(d, s.x3) && Divides(d, s.y3) <==> Divides(d, x) && Divides(d, m)
  }

  /** The rows of exact division alternate in sign and their cross product is the modulus. */
  ghost predicate Cross(s: Rows, m: int) {
    && s.x3 > 1 && 0 <= s.y3 < s.x3
    && Abs(s.y2) * s.x3 + Abs(s.x2) * s.y3 == m
    && s.y2 != 0
    && (s.x2 <= 0 < s.y2 || s.y2 < 0 <= s.x2)
  }

  lemma StartDivisors(x: int, m: int)
    requires m > 0
    ensures SameDivisors(Start(x, m), x, m)
  {
    hide Divides, PositiveMod;
    PositiveModIsMod(x, m);
    forall d
      ensures Divides(d, m) && Divides(d, x % m) <==> Divides(d, x) && Divides(d, m)
    {
      RemainderDivisors(d, x, m);
    }
  }

  lemma RemainderDivisors(d: int, x: int, m: int)
    requires m > 0
    ensures Divides(d, m) && Divides(d, x % m) <==> Divides(d, x) && Divides(d, m)
  {
    hide Divides;
    var k := x / m;
    DivisionIdentity(x, m);
    if Divides(d, m) && Divides(d, x % m) {
      DividesLinear(d, m, x % m, k, 1);
    }
    if Divides(d, m) && Divides(d, x) {
      DividesLinear(d, m, x, -k, 1);
    }
  }

  lemma DivisionIdentity(x: int, m: int)
    requires m > 0
    ensures x / m * m + 1 * (x % m) == x && -(x / m) * m + 1 * x == x % m
  {
    Commute(x / m, m);
    NegatedProduct(x / m, m);
  }

  lemma NegatedProduct(x: int, y: int)
    ensures -x * y == -(x * y)
  {
  }

  lemma AdvanceDivisors(s: Rows, q: int, x: int, m: int)
    requires SameDivisors(s, x, m)
    ensures SameDivisors(Advance(s, q), x, m)
  {
    var t := Advance(s, q);
    forall d
      ensures Divides(d, t.x3) && Divides(d, t.y3) <==> Divides(d, s.x3) && Divides(d, s.y3)
    {
      if Divides(d, t.x3) && Divides(d, t.y3) {
        DividesLinear(d, t.x3, t.y3, q, 1);
        assert q * t.x3 + 1 * t.y3 == s.x3;
      }
      if Divides(d, s.x3) && Divides(d, s.y3) {
        DividesLinear(d, s.x3, s.y3, 1, -q);
        assert 1 * s.x3 + -q * s.y3 == t.y3;
      }
    }
  }

  lemma AdvanceCross(s: Rows, m: int)
    requires Cross(s, m) && s.y3 > 1
    ensures Cross(Advance(s, s.x3 / s.y3), m)
  {
    var q := s.x3 / s.y3;
    var t := Advance(s, q);
    ExactRemainder(s.x3, s.y3);
    assert q >= 1;
    assert Abs(t.y2) == Abs(s.x2) + q * Abs(s.y2) by {
      if s.y2 > 0 {
        assert q * s.y2 >= s.y2;
      } else {
        assert q * s.y2 <= s.y2;
        assert q * (-s.y2) == -(q * s.y2);
      }
    }
    assert (Abs(s.x2) + q * Abs(s.y2)) * s.y3 + Abs(s.y2) * (s.x3 - q * s.y3)
        == Abs(s.x2) * s.y3 + Abs(s.y2) * s.x3;
    assert t.y2 != 0 && (t.x2 <= 0 < t.y2 || t.y2 < 0 <= t.x2) by {
      if s.y2 > 0 {
        assert q * s.y2 >= s.y2;
      } else {
        assert q * s.y2 <= s.y2;
      }
    }
  }

  lemma {:induction false} InverseFromExact(s: Rows, x: int, m: int)
    requires m > 1 && Cross(s, m) && SameDivisors(s, x, m)
    ensures InverseFrom(s).Ok? <==> Coprime(x, m)
    ensures InverseFrom(s).Ok? ==> Abs(InverseFrom(s).value) < m
    decreases s.y3
  {
    if s.y3 == 0 {
      Multiple(s.x3, 1, s.x3);
      Multiple(s.x3, 0, 0);
      assert Divides(s.x3, x) && Divides(s.x3, m);
    } else if s.y3 == 1 {
      forall d | d > 1 && Divides(d, x) && Divides(d, m)
        ensures false
      {
        DivisorAtMost(d, 1);
      }
      assert Abs(s.y2) * s.x3 >= Abs(s.y2) * 2;
    } else {
      AdvanceCross(s, m);
      AdvanceDivisors(s, s.x3 / s.y3, x, m);
      ExactRemainder(s.x3, s.y3);
      InverseFromExact(Advance(s, s.x3 / s.y3), x, m);
    }
  }

  /** With exact division the loop throws exactly when x and m have a common factor, and the
      inverse it returns is smaller than the modulus in absolute value. */
  lemma InverseExact(x: int, m: int)
    requires m > 1
    ensures InverseOf(x, m).Ok? <==> Coprime(x, m)
    ensures InverseOf(x, m).Ok? ==> Cong(InverseOf(x, m).value * x, 1, m) && Abs(InverseOf(x, m).value) < m
  {
    PositiveModIsMod(x, m);
    StartDivisors(x, m);
    InverseFromExact(Start(x, m), x, m);
    InverseFromSound(Start(x, m), x, m);
  }

  lemma {:induction false} InverseFromSound(s: Rows, x: int, m: int)
    requires m > 0 && s.y3 >= 0 && Bezout(s, PositiveMod(x, m), m)
    ensures InverseFrom(s).Ok? ==> Cong(InverseFrom(s).value * x, 1, m)
    decreases s.y3
  {
    if s.y3 == 1 {
      BezoutGivesInverse(s, x, m);
    } else if s.y3 > 1 {
      ExactRemainder(s.x3, s.y3);
      AdvanceKeepsBezout(s, s.x3 / s.y3, PositiveMod(x, m), m);
      InverseFromSound(Advance(s, s.x3 / s.y3), x, m);
    }
  }

  /** Modulo one the loop always throws: its first remainder is already zero. */
  lemma NoInverseModuloOne(x: int)
    ensures InverseOf(x, 1).Err?
  {
    PositiveModIsMod(x, 1);
  }

  // ----- consequences for a prime modulus -----

  lemma PrimeInverse(x: int, p: int)
    requires IsPrime(p) && !Divides(p, x)
    ensures InverseOf(x, p).Ok? && Cong(InverseOf(x, p).value * x, 1, p)
  {
    PrimeCoprime(x, p);
    InverseExact(x, p);
  }

  lemma NoInverseOfMultiple(x: int, p: int)
    requires p > 1 && Divides(p, x)
    ensures InverseOf(x, p).Err?
  {
    Multiple(p, 1, p);
    InverseExact(x, p);
  }

  lemma Regroup(v: int, a: int, b: int)
    ensures v * (a * b) + -b * (v * a - 1) == b
  {
    assert v * (a * b) == b * (v * a);
    assert -b * (v * a - 1) == b - b * (v * a);
  }

  /** Euclid's lemma, obtained from the inverse the loop computes. */
  lemma EuclidLemma(a: int, b: int, p: int)
    requires IsPrime(p) && Divides(p, a * b)
    ensures Divides(p, a) || Divides(p, b)
  {
    if !Divides(p, a) {
      PrimeInverse(a, p);
      var v := InverseOf(a, p).value;
      DividesLinear(p, a * b, v * a - 1, v, -b);
      Regroup(v, a, b);
    }
  }

  lemma CancelFactor(a: int, b: int, c: int, p: int)
    requires IsPrime(p) && !Divides(p, a) && Cong(a * b, a * c, p)
    ensures Cong(b, c, p)
  {
    assert a * b - a * c == a * (b - c);
    EuclidLemma(a, b - c, p);
  }
}
