/** Modular powers: Fermat's little theorem and square roots for a prime p with p % 4 == 3.
    This is what makes the (p+1)/4 power in lib/crypto/curve.dart a square root. */
module Fermat {
  import opened Basics
  import opened Modular
  import opened Inverse

  /** Dart's `BigInt.modPow`. */
  function ModPow(x: int, e: nat, m: int): int
    requires m > 0
  {
    Pow(x, e) % m
  }

  lemma {:induction false} CongPow(a: int, b: int, e: nat, m: int)
    requires Cong(a, b, m)
    ensures Cong(Pow(a, e), Pow(b, e), m)
  {
    if e == 0 {
      CongRefl(1, m);
    } else {
      CongPow(a, b, e - 1, m);
      CongMul(a, b, Pow(a, e - 1), Pow(b, e - 1), m);
    }
  }

  lemma {:induction false} PowProduct(a: int, b: int, e: nat)
    ensures Pow(a * b, e) == Pow(a, e) * Pow(b, e)
  {
    if e > 0 {
      PowProduct(a, b, e - 1);
      Shuffle(a, b, Pow(a, e - 1), Pow(b, e - 1));
    }
  }

  // ----- Fermat's little theorem: multiplying by a permutes the nonzero residues -----

  lemma EmptyWithoutMembers(s: set<int>)
    ensures (forall x :: x !in s) ==> s == {}
  {
    if forall x :: x !in s {
      assert s == {};
    }
  }

  ghost function Pick(s: set<int>): (x: int)
    requires s != {}
    ensures x in s
  {
    EmptyWithoutMembers(s);
    var x :| x in s;
    x
  }

  ghost function Product(s: set<int>): int {
    if s == {} then 1 else Pick(s) * Product(s - {Pick(s)})
  }

  lemma {:induction false} ProductRemove(x: int, s: set<int>)
    requires x in s
    ensures Product(s) == x * Product(s - {x})
    decreases s
  {
    hide Product, Pick;
    var y := Pick(s);
    ProductOfPick(s);
    if x != y {
      ProductRemove(x, s - {y});
      assert s - {y} - {x} == s - {x} - {y};
      ProductRemove(y, s - {x});
      Associate(y, x, Product(s - {x} - {y}));
    }
  }

  lemma ProductOfPick(s: set<int>)
    requires s != {}
    ensures Product(s) == Pick(s) * Product(s - {Pick(s)})
  {
    hide Pick;
  }

  function MulMod(a: int, x: int, p: int): int
    requires p > 0
  {
    (a * x) % p
  }

  ghost function Scaled(a: int, s: set<int>, p: int): set<int>
    requires p > 0
  {
    set x | x in s :: MulMod(a, x, p)
  }

  ghost predicate Nonzero(s: set<int>, p: int) {
    forall x :: x in s ==> 0 < x < p
  }

  lemma ScaledDistinct(a: int, x: int, y: int, p: int)
    requires IsPrime(p) && !Divides(p, a) && 0 < x < p && 0 < y < p
    requires MulMod(a, x, p) == MulMod(a, y, p)
    ensures x == y
  {
    CongIffMod(a * x, a * y, p);
    CancelFactor(a, x, y, p);
    CongUnique(x, y, p);
  }

  lemma {:induction false} ScaledProduct(a: int, s: set<int>, p: int)
    requires IsPrime(p) && !Divides(p, a) && Nonzero(s, p)
    ensures |Scaled(a, s, p)| == |s|
    ensures Cong(Product(Scaled(a, s, p)), Pow(a, |s|) * Product(s), p)
    decreases s
  {
    if s == {} {
      assert Scaled(a, s, p) == {};
      CongRefl(1, p);
    } else {
      hide Cong, Divides, IsPrime, Scaled, MulMod, Pick;
      var x := Pick(s);
      var rest := s - {x};
      PrimeAtLeastTwo(p);
      var ax := MulMod(a, x, p);
      ScaledProduct(a, rest, p);
      ScaledWithout(a, x, s, p);
      ProductRemove(ax, Scaled(a, s, p));
      ScaledStep(a, x, Product(Scaled(a, rest, p)), Pow(a, |rest|), Product(rest), p);
    }
  }

  lemma PrimeAtLeastTwo(p: int)
    requires IsPrime(p)
    ensures p >= 2
  {
  }

  /** Scaling is one to one: without x the scaled set is without its multiple. */
  lemma ScaledWithout(a: int, x: int, s: set<int>, p: int)
    requires IsPrime(p) && !Divides(p, a) && Nonzero(s, p) && x in s
    ensures var ax := MulMod(a, x, p);
            && ax in Scaled(a, s, p) && Scaled(a, s, p) - {ax} == Scaled(a, s - {x}, p)
            && |Scaled(a, s, p)| == |Scaled(a, s - {x}, p)| + 1
  {
    hide Divides, IsPrime;
    PrimeAtLeastTwo(p);
    hide MulMod;
    var rest, all := s - {x}, Scaled(a, s, p);
    var ax := MulMod(a, x, p);
    assert ax !in Scaled(a, rest, p) by {
      if ax in Scaled(a, rest, p) {
        var y :| y in rest && MulMod(a, y, p) == ax;
        ScaledDistinct(a, x, y, p);
      }
    }
    assert all == Scaled(a, rest, p) + {ax};
    assert all - {ax} == Scaled(a, rest, p);
  }

  lemma ScaledStep(a: int, x: int, scaled: int, power: int, product: int, p: int)
    requires p > 0 && Cong(scaled, power * product, p)
    ensures Cong(MulMod(a, x, p) * scaled, (a * power) * (x * product), p)
  {
    CongMod(a * x, p);
    CongMul(MulMod(a, x, p), a * x, scaled, power * product, p);
    Shuffle(a, x, power, product);
  }

  lemma Shuffle(a: int, x: int, u: int, v: int)
    ensures (a * x) * (u * v) == (a * u) * (x * v)
  {
  }

  ghost function Residues(k: nat): (s: set<int>)
    ensures forall x :: x in s <==> 0 < x <= k
    ensures |s| == k
  {
    if k == 0 then {} else Residues(k - 1) + {k}
  }

  lemma {:induction false} ProductIndivisible(s: set<int>, p: int)
    requires IsPrime(p) && Nonzero(s, p)
    ensures !Divides(p, Product(s))
    decreases s
  {
    if s == {} {
      if Divides(p, 1) {
        DivisorAtMost(p, 1);
      }
    } else {
      var x := Pick(s);
      ProductIndivisible(s - {x}, p);
      if Divides(p, x) {
        DivisorAtMost(p, x);
      }
      if Divides(p, Product(s)) {
        EuclidLemma(x, Product(s - {x}), p);
      }
    }
  }

  lemma SubsetOfSameSize(s: set<int>, t: set<int>)
    requires s <= t && |s| == |t|
    ensures s == t
  {
    assert t == s + (t - s);
  }

  lemma ScaledResidues(a: int, p: int)
    requires IsPrime(p) && !Divides(p, a)
    ensures Scaled(a, Residues(p - 1), p) == Residues(p - 1)
  {
    var r := Residues(p - 1);
    ScaledProduct(a, r, p);
    forall x | x in r
      ensures MulMod(a, x, p) in r
    {
      DividesIffRemainder(p, a * x);
      if Divides(p, a * x) {
        EuclidLemma(a, x, p);
        DivisorAtMost(p, x);
      }
    }
    SubsetOfSameSize(Scaled(a, r, p), r);
  }

  lemma CancelRight(w: int, u: int, p: int)
    requires IsPrime(p) && !Divides(p, w) && Cong(w, u * w, p)
    ensures Cong(u, 1, p)
  {
    CongSym(w, u * w, p);
    assert u * w == w * u && w == w * 1;
    CancelFactor(w, u, 1, p);
  }

  lemma FixedProduct(a: int, r: set<int>, k: nat, p: int)
    requires IsPrime(p) && !Divides(p, a) && Nonzero(r, p) && Scaled(a, r, p) == r && |r| == k
    ensures Cong(Product(r), Pow(a, k) * Product(r), p)
  {
    ScaledProduct(a, r, p);
  }

  lemma FactorOut(a: int, p: int)
    requires IsPrime(p) && !Divides(p, a)
    ensures Cong(Product(Residues(p - 1)), Pow(a, p - 1) * Product(Residues(p - 1)), p)
  {
    hide Product, Scaled, Cong, Divides, Pow, Residues;
    var r := Residues(p - 1);
    ScaledResidues(a, p);
    FixedProduct(a, r, p - 1, p);
  }

  /** Fermat's little theorem. */
  lemma FermatLittle(a: int, p: int)
    requires IsPrime(p) && !Divides(p, a)
    ensures Cong(Pow(a, p - 1), 1, p)
  {
    var w := Product(Residues(p - 1));
    FactorOut(a, p);
    ProductIndivisible(Residues(p - 1), p);
    CancelRight(w, Pow(a, p - 1), p);
  }

  // ----- square roots -----

  lemma {:induction false} PowOfSquare(y: int, e: nat)
    ensures Pow(y * y, e) == Pow(y, 2 * e)
  {
    PowProduct(y, y, e);
    PowAdd(y, e, e);
  }

  /** The (p+1)/4 power of a square is one of its square roots. */
  lemma RootOfSquare(s: int, y: int, p: int)
    requires IsPrime(p) && p % 4 == 3 && Cong(s, y * y, p)
    ensures var r := Pow(s, (p + 1) / 4); Cong(r * r, y * y, p)
  {
    var e := (p + 1) / 4;
    var r := Pow(s, e);
    assert 2 * (2 * e) == (p - 1) + 2;
    CongPow(s, y * y, e, p);
    PowOfSquare(y, e);
    CongMul(r, Pow(y, 2 * e), r, Pow(y, 2 * e), p);
    PowAdd(y, 2 * e, 2 * e);
    assert Cong(r * r, Pow(y, p - 1 + 2), p);
    PowAdd(y, p - 1, 2);
    assert Pow(y, 2) == y * y by {
      assert Pow(y, 2) == y * Pow(y, 1) == y * (y * Pow(y, 0));
    }
    if Divides(p, y) {
      var k := Quotient(p, y);
      assert Pow(y, p - 1) * (y * y) - y * y == ((Pow(y, p - 1) * y - y) * k) * p by {
        Regroup3(Pow(y, p - 1), y, k, p);
      }
      Multiple(p, (Pow(y, p - 1) * y - y) * k, Pow(y, p - 1) * (y * y) - y * y);
    } else {
      FermatLittle(y, p);
      CongRefl(y * y, p);
      CongMul(Pow(y, p - 1), 1, y * y, y * y, p);
    }
    CongTrans(r * r, Pow(y, p - 1) * (y * y), y * y, p);
  }

  lemma Regroup3(u: int, y: int, k: int, p: int)
    requires y == k * p
    ensures u * (y * y) - y * y == ((u * y - y) * k) * p
  {
    assert ((u * y - y) * k) * p == (u * y - y) * (k * p);
    assert (u * y - y) * y == u * (y * y) - y * y;
  }

  /** Modulo a prime a number has at most the two square roots y and -y. */
  lemma RootsUpToSign(r: int, y: int, p: int)
    requires IsPrime(p) && Cong(r * r, y * y, p)
    ensures Cong(r, y, p) || Cong(r, -y, p)
  {
    assert r * r - y * y == (r - y) * (r + y);
    EuclidLemma(r - y, r + y, p);
    assert r + y == r - -y;
  }
}
