/** Newton square root of lib/utils/bn.dart, with the quotient of two BigInts taken exactly. */
module Sqrt {

  /** r is the integer square root of n. */
  predicate IsRoot(r: int, n: int) {
    0 <= r && r * r <= n < (r + 1) * (r + 1)
  }

  function Next(n: nat, x: nat): nat
    requires x > 0
  {
    (n / x + x) / 2
  }

  /** `newtonIteration`. Below the root the next iterate may jump up to n; from the root on iterates
      decrease, which is why the recursion ends. */
  function NewtonIteration(n: nat, x0: nat): nat
    requires n > 0 && x0 > 0
    decreases Measure(n, x0)
  {
    var x1 := Next(n, x0);
    if x0 == x1 || x0 == x1 - 1 then x0
    else
      NextDecreases(n, x0);
      NewtonIteration(n, x1)
  }

  function BnSqrt(n: int): int {
    if n < 2 then n else NewtonIteration(n, 1)
  }

  lemma QuotientBounds(n: nat, x: nat)
    requires x > 0
    ensures n / x * x <= n < (n / x + 1) * x
  {
    assert n == x * (n / x) + n % x;
    assert (n / x + 1) * x == x * (n / x) + x;
  }

  /** The arithmetic mean of x and n/x is at least the root, rounding included. */
  lemma NextAtLeastRoot(n: nat, x: nat, s: nat)
    requires x > 0 && s * s <= n
    ensures Next(n, x) >= s
  {
    QuotientBounds(n, x);
    var q := n / x;
    if q + x <= 2 * s - 1 {
      // (q + 1) + x <= 2s, so (q + 1) * x <= s * s <= n
      MeanSquare(q + 1, x, s);
    }
  }

  lemma MeanSquare(a: nat, b: nat, s: nat)
    requires a + b <= 2 * s
    ensures a * b <= s * s
  {
    var c := 2 * s - b;
    ProductGrows(a, c, b);
    assert c * b == s * s - (s - b) * (s - b);
  }

  lemma ProductGrows(a: nat, b: nat, x: nat)
    requires a <= b
    ensures a * x <= b * x
  {
  }

  lemma SquareGrows(a: nat, b: nat)
    requires a <= b
    ensures a * a <= b * b
  {
    ProductGrows(a, b, a);
    ProductGrows(a, b, b);
  }

  lemma NextBelow(n: nat, x: nat)
    requires x > 0 && n < x * x
    ensures Next(n, x) < x
  {
    var q := n / x;
    QuotientBounds(n, x);
    if x <= q {
      ProductGrows(x, q, x);
    }
  }

  /** The measure of the recursion: n + 1 below the root, the iterate itself from the root on. */
  function Measure(n: nat, x: nat): nat {
    if (x + 1) * (x + 1) <= n then n + 1 else x
  }

  lemma NextDecreases(n: nat, x0: nat)
    requires n > 0 && x0 > 0 && Next(n, x0) != x0 && Next(n, x0) != x0 + 1
    ensures Next(n, x0) > 0 && Measure(n, Next(n, x0)) < Measure(n, x0)
  {
    hide Next;
    var x1 := Next(n, x0);
    NextAtLeastRoot(n, x0, 1);
    RootExists(n, 0);
    var s :| s >= 0 && IsRoot(s, n);
    NextAtLeastRoot(n, x0, s);
    SquareGrows(s + 1, x1 + 1);
    if (x0 + 1) * (x0 + 1) <= n {
      NextAtMost(n, x0);
    } else {
      AtLeastRoot(s, x0, n);
      if x0 == s {
        NextAtRoot(n, s);
      } else {
        SquareGrows(s + 1, x0);
        NextBelow(n, x0);
      }
    }
  }

  lemma AtLeastRoot(s: nat, x: nat, n: nat)
    requires IsRoot(s, n) && n < (x + 1) * (x + 1)
    ensures s <= x
  {
    if s >= x + 1 {
      SquareGrows(x + 1, s);
    }
  }

  lemma NextAtMost(n: nat, x: nat)
    requires x > 0 && (x + 1) * (x + 1) <= n
    ensures Next(n, x) <= n
  {
    var q := n / x;
    QuotientBounds(n, x);
    ProductGrows(1, x, q);
    ProductGrows(1, x + 1, x + 1);
    assert q * x == x * q;
  }

  /** At the root the mean is the root or one more, so the iteration stops there. */
  lemma NextAtRoot(n: nat, s: nat)
    requires s > 0 && IsRoot(s, n)
    ensures Next(n, s) == s || Next(n, s) == s + 1
  {
    var q := n / s;
    QuotientBounds(n, s);
    RootQuotient(n, s, q);
  }

  lemma RootQuotient(n: nat, s: nat, q: nat)
    requires s > 0 && s * s <= n < (s + 1) * (s + 1) && q * s <= n < (q + 1) * s
    ensures s <= q <= s + 2
  {
    if q + 1 <= s {
      ProductGrows(q + 1, s, s);
    }
    assert (s + 3) * s == s * s + 3 * s && (s + 1) * (s + 1) == s * s + 2 * s + 1;
    if s + 3 <= q {
      ProductGrows(s + 3, q, s);
    }
  }

  lemma {:induction false} RootExists(n: nat, low: nat)
    requires low * low <= n
    ensures exists s :: s >= low && IsRoot(s, n)
    decreases n - low
  {
    if n < (low + 1) * (low + 1) {
      assert IsRoot(low, n);
    } else {
      assert (low + 1) * (low + 1) > low;
      RootExists(n, low + 1);
      var s :| s >= low + 1 && IsRoot(s, n);
    }
  }

  /** Started at or above the root, every iterate stays at or above it, each one is below the one
      before, and the one the stop test keeps is the root. */
  lemma {:induction false} FromAbove(n: nat, x0: nat, s: nat)
    requires n > 0 && x0 > 0 && IsRoot(s, n) && x0 >= s
    ensures NewtonIteration(n, x0) == s
    ensures x0 > s ==> s <= Next(n, x0) < x0
    decreases x0
  {
    NextAtLeastRoot(n, x0, s);
    if x0 == s {
      NextAtRoot(n, s);
    } else {
      SquareGrows(s + 1, x0);
      NextBelow(n, x0);
      assert s > 0 by {
        assert s == 0 ==> n < 1;
      }
      FromAbove(n, Next(n, x0), s);
    }
  }

  /** `bnSqrt` answers an integer square root exactly for the nonnegative arguments other than 4: of 4
      it answers 1, and a negative argument, which has no root, comes back unchanged. */
  lemma SqrtExact(n: int)
    ensures IsRoot(BnSqrt(n), n) <==> n >= 0 && n != 4
    ensures n == 4 ==> BnSqrt(n) == 1
    ensures n < 0 ==> BnSqrt(n) == n && !exists r :: IsRoot(r, n)
  {
    hide NewtonIteration;
    if n >= 5 {
      RootExists(n, 2);
      var s :| s >= 2 && IsRoot(s, n);
      FirstStep(n);
      NextAtLeastRoot(n, 1, s);
      FromAbove(n, Next(n, 1), s);
    } else if n >= 2 {
      SmallArguments();
    } else if n < 0 {
      forall r | 0 <= r
        ensures !IsRoot(r, n)
      {
        SquareGrows(0, r);
      }
    }
  }

  /** From 1 the first iterate is (n + 1) / 2, which passes the stop test from 5 on. */
  lemma FirstStep(n: nat)
    requires n >= 5
    ensures Next(n, 1) == (n + 1) / 2 >= 3 && NewtonIteration(n, 1) == NewtonIteration(n, Next(n, 1))
  {
    assert n / 1 == n;
  }

  lemma SmallArguments()
    ensures NewtonIteration(2, 1) == 1 && NewtonIteration(3, 1) == 1 && NewtonIteration(4, 1) == 1
  {
    hide NewtonIteration;
    StopsAt(2, 1);
    StopsAt(3, 1);
    StopsAt(4, 1);
  }

  lemma StopsAt(n: nat, x0: nat)
    requires n > 0 && x0 > 0 && (Next(n, x0) == x0 || Next(n, x0) == x0 + 1)
    ensures NewtonIteration(n, x0) == x0
  {
    hide Next;
  }
}
