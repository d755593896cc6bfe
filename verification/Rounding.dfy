/** The division of two `BigInt`s through a double, in lib/crypto/curve.dart and lib/utils/bn.dart, for numbers
    that a double holds exactly. */
module Rounding {
  import opened Basics
  import opened Modular
  import opened Inverse
  import opened Sqrt

  /** The integers up to 2^53 are doubles. */
  const EXACT: int := 0x20_0000_0000_0000

  /** What is used of rounding to the nearest double: it is monotone, keeps the integers up to 2^53, and its
      relative error is below 2^-53 between 2^-53 and 2^53. */
  ghost predicate Rounds(round: real -> real) {
    && (forall x, y {:trigger round(x), round(y)} :: x <= y ==> round(x) <= round(y))
    && (forall k: int {:trigger round(k as real)} :: -EXACT <= k <= EXACT ==> round(k as real) == k as real)
    && (forall x {:trigger round(x)} :: x * EXACT as real >= 1.0 && x <= EXACT as real ==>
          -x < (round(x) - x) * EXACT as real < x)
  }

  /** Rounding that changes nothing is an instance. */
  lemma NoRounding()
    ensures Rounds(x => x)
  {
  }

  /** `BigInt.from(d)` drops the fraction. */
  function Truncated(x: real): int {
    if x >= 0.0 then x.Floor else -(-x).Floor
  }

  lemma IntegerKept(round: real -> real, k: int)
    requires Rounds(round) && -EXACT <= k <= EXACT
    ensures round(k as real) == k as real
  {
  }

  lemma OrderKept(round: real -> real, x: real, y: real)
    requires Rounds(round) && x <= y
    ensures round(x) <= round(y)
  {
  }

  lemma ErrorBelow(round: real -> real, x: real)
    requires Rounds(round) && x * EXACT as real >= 1.0 && x <= EXACT as real
    ensures (round(x) - x) * EXACT as real < x
  {
  }

  /** `BigInt.from(a / b)` */
  function DoubleQuotient(round: real -> real, a: int, b: int): int
    requires Rounds(round) && 0 <= a <= EXACT && 0 < b <= EXACT
  {
    IntegerKept(round, b);
    Truncated(round(round(a as real) / round(b as real)))
  }

  lemma Monotone(x: real, y: real, b: real)
    requires b >= 0.0 && x <= y
    ensures x * b <= y * b
  {
  }

  lemma MonotoneRight(x: real, y: real, b: real)
    requires b >= 0.0 && x <= y
    ensures b * x <= b * y
  {
    Monotone(x, y, b);
    assert b * x == x * b && b * y == y * b;
  }

  lemma Strict(x: real, y: real, b: real)
    requires b > 0.0 && x < y
    ensures x * b < y * b
  {
  }

  lemma Cancel(x: real, y: real, b: real)
    requires b > 0.0 && x * b < y * b
    ensures x < y
  {
    if y <= x {
      Monotone(y, x, b);
    }
  }

  lemma Swap(d: real, b: real, e: real)
    ensures d * e * b == d * b * e
  {
  }

  lemma MinusTimes(x: real, y: real, b: real)
    ensures (y - x) * b == y * b - x * b
  {
  }

  /** An error of y below x / e moves y * b by less than one from a. */
  lemma ScaleError(x: real, y: real, a: real, b: real, e: real)
    requires b > 0.0 && e > 0.0 && x * b == a && (y - x) * e < x && a <= e
    ensures y * b < a + 1.0
  {
    Strict((y - x) * e, x, b);
    Swap(y - x, b, e);
    Cancel((y - x) * b, 1.0, e);
    MinusTimes(x, y, b);
  }

  /** A quotient x of a number between 1 and e by another one is itself between 1/e and e. */
  lemma InRangeOfError(x: real, a: real, b: real, e: real)
    requires x * b == a && 1.0 <= a <= e && 1.0 <= b <= e
    ensures x * e >= 1.0 && 0.0 < x <= e
  {
    if x <= 0.0 {
      Monotone(x, 0.0, b);
    }
    MonotoneRight(b, e, x);
    assert x * e >= 1.0;
    if x > e {
      Strict(e, x, b);
      MonotoneRight(1.0, b, e);
    }
  }

  lemma QuotientBelow(q: real, x: real, a: real, b: real)
    requires b > 0.0 && x * b == a && q * b <= a
    ensures q <= x
  {
    if x < q {
      Strict(x, q, b);
    }
  }

  lemma IntegerProduct(a: int, b: int)
    requires b > 0
    ensures (a / b) as real * b as real <= a as real && a as real + 1.0 <= (a / b + 1) as real * b as real
  {
    var q := a / b;
    assert a == b * q + a % b;
    assert (b * q) as real == b as real * q as real;
    MinusTimes(-1.0, q as real, b as real);
  }

  lemma QuotientAtMost(a: int, b: int)
    requires 0 <= a && 0 < b
    ensures 0 <= a / b <= a
  {
    hide *;
    ExactRemainder(a, b);
    TimesAtLeast(a / b, b);
  }

  lemma TimesAtLeast(q: int, b: int)
    requires b > 0
    ensures q >= 0 ==> q * b >= q
    ensures q < 0 ==> q * b <= -b
  {
  }

  lemma RealQuotient(a: real, b: real)
    requires b != 0.0
    ensures a / b * b == a
  {
  }

  /** Below 2^53 rounding down is stopped by the integer below the quotient, and the next integer is
      further away than the error reaches. */
  lemma RoundedBetween(round: real -> real, a: int, b: int, x: real)
    requires Rounds(round) && 0 <= a <= EXACT && 0 < b <= EXACT && x * b as real == a as real
    ensures 0 <= a / b && (a / b) as real <= round(x) < (a / b + 1) as real
  {
    hide Rounds;
    var q := a / b;
    var ra, rb := a as real, b as real;
    QuotientAtMost(a, b);
    IntegerKept(round, q);
    IntegerProduct(a, b);
    QuotientBelow(q as real, x, ra, rb);
    OrderKept(round, q as real, x);
    if a == 0 {
      ZeroQuotient(x, rb);
      IntegerKept(round, 0);
    } else {
      RoundedBelow(round, a, b, x);
      Cancel(round(x), (q + 1) as real, rb);
    }
  }

  lemma RoundedBelow(round: real -> real, a: int, b: int, x: real)
    requires Rounds(round) && 0 < a <= EXACT && 0 < b <= EXACT && x * b as real == a as real
    ensures round(x) * b as real < a as real + 1.0
  {
    hide Rounds;
    InRangeOfError(x, a as real, b as real, EXACT as real);
    ErrorBelow(round, x);
    ScaleError(x, round(x), a as real, b as real, EXACT as real);
  }

  /** So the rounded quotient, cut to an integer, is the exact one. */
  lemma QuotientExact(round: real -> real, a: int, b: int)
    requires Rounds(round) && 0 <= a <= EXACT && 0 < b <= EXACT
    ensures DoubleQuotient(round, a, b) == a / b
  {
    hide Rounds, Truncated;
    IntegerKept(round, a);
    IntegerKept(round, b);
    RealQuotient(a as real, b as real);
    var x := a as real / b as real;
    RoundedBetween(round, a, b, x);
    FloorIs(round(x), a / b);
  }

  lemma ZeroQuotient(x: real, b: real)
    requires b > 0.0 && x * b == 0.0
    ensures x == 0.0
  {
    if x > 0.0 {
      Strict(0.0, x, b);
    } else if x < 0.0 {
      Strict(x, 0.0, b);
    }
  }

  lemma FloorIs(y: real, q: int)
    requires 0 <= q && q as real <= y < (q + 1) as real
    ensures Truncated(y) == q
  {
  }

  /** `inverseMulti` as it is written, with the division through a double: modulo m up to 2^53 it does what
      exact quotients do, and finds an inverse exactly of the numbers coprime to m. */
  method InverseMultiDouble(round: real -> real, x: int, m: int) returns (r: Result<int>)
    requires Rounds(round) && 0 < m <= EXACT
    ensures r == InverseOf(x, m)
    ensures m > 1 ==> (r.Ok? <==> Coprime(x, m))
    ensures r.Ok? ==> Cong(r.value * x, 1, m)
  {
    hide Rounds, Coprime, Cong, DoubleQuotient, Bezout, PositiveMod;
    StartInRange(x, m);
    InverseFromSound(Start(x, m), x, m);
    if m > 1 {
      InverseExact(x, m);
    }
    var s := Start(x, m);
    while s.y3 != 0 && s.y3 != 1
      invariant 0 <= s.y3 <= s.x3 <= EXACT
      invariant InverseFrom(s) == InverseOf(x, m)
      decreases s.y3
    {
      var q := DoubleQuotient(round, s.x3, s.y3);
      QuotientExact(round, s.x3, s.y3);
      ExactRemainder(s.x3, s.y3);
      s := Advance(s, q);
    }
    r := if s.y3 == 0 then Err("multiplicative inverse modulo is no answer!") else Ok(s.y2);
  }

  lemma StartInRange(x: int, m: int)
    requires m > 0
    ensures var s := Start(x, m); 0 <= s.y3 < s.x3 == m && Bezout(s, PositiveMod(x, m), m)
  {
    StartBezout(x, m);
    PositiveModIsMod(x, m);
  }

  /** `newtonIteration` with the division through a double. */
  function NewtonIterationDouble(round: real -> real, n: nat, x0: nat): (r: nat)
    requires Rounds(round) && 0 < n <= EXACT && 0 < x0 <= EXACT
    ensures r == NewtonIteration(n, x0)
    decreases Measure(n, x0)
  {
    hide Rounds, DoubleQuotient;
    QuotientExact(round, n, x0);
    QuotientAtMost(n, x0);
    var x1 := (DoubleQuotient(round, n, x0) + x0) / 2;
    assert x1 == Next(n, x0);
    if x0 == x1 || x0 == x1 - 1 then x0
    else
      NextDecreases(n, x0);
      NewtonIterationDouble(round, n, x1)
  }

  function BnSqrtDouble(round: real -> real, n: int): (r: int)
    requires Rounds(round) && n <= EXACT
    ensures IsRoot(r, n) <==> n >= 0 && n != 4
  {
    SqrtExact(n);
    if n < 2 then n else NewtonIterationDouble(round, n, 1)
  }
}
