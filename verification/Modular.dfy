/** Divisibility and congruence over the integers, in the form the curve arithmetic needs. */
module Modular {
  import opened Basics

  /** k copies of m. Written by recursion so that divisibility brings no products into a proof. */
  function Times(k: int, m: int): int
    decreases k < 0, Abs(k)
  {
    if k == 0 then 0 else if k > 0 then Times(k - 1, m) + m else -Times(-k, m)
  }

  lemma {:induction false} TimesIsProduct(k: int, m: int)
    ensures Times(k, m) == k * m
    decreases k < 0, Abs(k)
  {
    if k > 0 {
      TimesIsProduct(k - 1, m);
    } else if k < 0 {
      TimesIsProduct(-k, m);
    }
  }

  ghost predicate Divides(m: int, a: int) {
    exists k :: Times(k, m) == a
  }

  ghost predicate Cong(a: int, b: int, m: int) {
    Divides(m, a - b)
  }

  ghost predicate IsPrime(p: int) {
    p >= 2 && forall d :: 1 < d < p ==> !Divides(d, p)
  }

  ghost predicate Coprime(a: int, b: int) {
    forall d :: d > 1 ==> !(Divides(d, a) && Divides(d, b))
  }

  lemma Multiple(m: int, k: int, a: int)
    requires a == k * m
    ensures Divides(m, a)
  {
    TimesIsProduct(k, m);
  }

  lemma Quotient(m: int, a: int) returns (k: int)
    requires Divides(m, a)
    ensures a == k * m
  {
    k :| Times(k, m) == a;
    TimesIsProduct(k, m);
  }

  lemma DividesLinear(m: int, a: int, b: int, u: int, v: int)
    requires Divides(m, a) && Divides(m, b)
    ensures Divides(m, u * a + v * b)
  {
    var i := Quotient(m, a);
    var j := Quotient(m, b);
    assert u * (i * m) + v * (j * m) == (u * i + v * j) * m;
    Multiple(m, u * i + v * j, u * a + v * b);
  }

  lemma DividesSmall(m: int, a: int)
    requires m > 0 && -m < a < m && Divides(m, a)
    ensures a == 0
  {
    var k := Quotient(m, a);
    assert k >= 1 ==> k * m >= m;
    assert k <= -1 ==> k * m <= -m;
  }

  lemma DividesIffRemainder(m: int, a: int)
    requires m > 0
    ensures Divides(m, a) <==> a % m == 0
  {
    assert a == m * (a / m) + a % m;
    Multiple(m, a / m, a - a % m);
    if a % m == 0 {
    } else if Divides(m, a) {
      DividesLinear(m, a, a - a % m, 1, -1);
      DividesSmall(m, a % m);
    }
  }

  lemma Commute(x: int, y: int)
    ensures x * y == y * x
  {
  }

  lemma Associate(x: int, y: int, z: int)
    ensures x * (y * z) == (x * y) * z == y * (x * z)
  {
  }

  lemma CongRefl(a: int, m: int)
    ensures Cong(a, a, m)
  {
    Multiple(m, 0, a - a);
  }

  lemma CongSym(a: int, b: int, m: int)
    requires Cong(a, b, m)
    ensures Cong(b, a, m)
  {
    DividesLinear(m, a - b, a - b, -1, 0);
  }

  lemma CongTrans(a: int, b: int, c: int, m: int)
    requires Cong(a, b, m) && Cong(b, c, m)
    ensures Cong(a, c, m)
  {
    DividesLinear(m, a - b, b - c, 1, 1);
  }

  lemma CongAdd(a: int, b: int, c: int, d: int, m: int)
    requires Cong(a, b, m) && Cong(c, d, m)
    ensures Cong(a + c, b + d, m) && Cong(a - c, b - d, m)
  {
    DividesLinear(m, a - b, c - d, 1, 1);
    DividesLinear(m, a - b, c - d, 1, -1);
  }

  lemma CongMul(a: int, b: int, c: int, d: int, m: int)
    requires Cong(a, b, m) && Cong(c, d, m)
    ensures Cong(a * c, b * d, m)
  {
    DividesLinear(m, a - b, c - d, c, b);
    assert c * (a - b) + b * (c - d) == a * c - b * d;
  }

  lemma CongMod(a: int, m: int)
    requires m > 0
    ensures Cong(a % m, a, m) && Cong(a, a % m, m)
  {
    assert a == m * (a / m) + a % m;
    Multiple(m, a / m, a - a % m);
    Multiple(m, -(a / m), a % m - a);
  }

  lemma CongIffMod(a: int, b: int, m: int)
    requires m > 0
    ensures Cong(a, b, m) <==> a % m == b % m
  {
    CongMod(a, m);
    CongMod(b, m);
    if Cong(a, b, m) {
      CongTrans(a % m, a, b, m);
      CongTrans(a % m, b, b % m, m);
      DividesSmall(m, a % m - b % m);
    } else if a % m == b % m {
      CongTrans(a, a % m, b, m);
    }
  }

  lemma CongUnique(a: int, b: int, m: int)
    requires 0 <= a < m && 0 <= b < m && Cong(a, b, m)
    ensures a == b
  {
    DividesSmall(m, a - b);
  }

  lemma DivisorAtMost(d: int, a: int)
    requires a > 0 && Divides(d, a)
    ensures d <= a
  {
    var k := Quotient(d, a);
    assert k >= 1 && d > 0 ==> k * d >= d;
    assert k <= 0 && d > 0 ==> k * d <= 0;
  }

  /** A prime shares no factor with an integer it does not divide. */
  lemma PrimeCoprime(a: int, p: int)
    requires IsPrime(p) && !Divides(p, a)
    ensures Coprime(a, p)
  {
    forall d | d > 1 && Divides(d, a) && Divides(d, p)
      ensures false
    {
      DivisorAtMost(d, p);
    }
  }
}
