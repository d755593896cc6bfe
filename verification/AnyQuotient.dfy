/** The curve functions with the inverse as the code computes it, by quotients that may be rounded: whenever
    they answer at all, they answer what exact quotients give. */
module AnyQuotient {
  import opened Basics
  import opened Modular
  import opened Inverse
  import opened CurvePoints
  import opened Radix
  import opened Ecdsa

  /** What a call of `inverseMulti` returns for x and a modulus; an error when it throws or never ends. */
  type Inverter = (int, int) -> Result<int>

  /** Every value returned is one the loop returns for some quotients, which may differ from call to call. */
  ghost predicate ByLoop(inv: Inverter) {
    forall x, m {:trigger inv(x, m)} :: m > 0 && inv(x, m).Ok? ==>
      exists quotients :: Follow(Start(x, m), quotients) == Returned(inv(x, m).value)
  }

  function ExactInverter(x: int, m: int): Result<int> {
    if m > 0 then InverseOf(x, m) else Err("modulus")
  }

  /** Exact quotients are one instance. */
  lemma ExactByLoop()
    ensures ByLoop(ExactInverter)
  {
    hide InverseFrom, Follow, Start;
    var inv: Inverter := ExactInverter;
    forall x, m | m > 0 && inv(x, m).Ok?
      ensures exists quotients :: Follow(Start(x, m), quotients) == Returned(inv(x, m).value)
    {
      StartNonnegative(x, m);
      var quotients := ExactIsFollowed(Start(x, m));
    }
  }

  lemma StartNonnegative(x: int, m: int)
    requires m > 0
    ensures Start(x, m).y3 >= 0
  {
  }

  lemma InverterSound(inv: Inverter, x: int, m: int)
    requires ByLoop(inv) && m > 0 && inv(x, m).Ok?
    ensures Cong(inv(x, m).value * x, 1, m)
  {
    hide Follow, Start, Cong;
    var quotients :| Follow(Start(x, m), quotients) == Returned(inv(x, m).value);
    StartBezout(x, m);
    FollowSound(Start(x, m), quotients, x, m);
  }

  /** Two inverses of the same number give the same residue of every multiple. */
  lemma SameResidue(num: int, den: int, i: int, i': int, p: int)
    requires IsPrime(p) && Cong(i * den, 1, p) && Cong(i' * den, 1, p)
    ensures PositiveMod(num * i, p) == PositiveMod(num * i', p)
  {
    hide Divides, IsPrime, PositiveMod;
    Indivisible(i, den, p);
    CongSym(i' * den, 1, p);
    CongTrans(i * den, 1, i' * den, p);
    assert i * den == den * i && i' * den == den * i';
    CancelFactor(den, i, i', p);
    CongRefl(num, p);
    CongMul(num, num, i, i', p);
    PrimePositive(p);
    CongIffMod(num * i, num * i', p);
    PositiveModIsMod(num * i, p);
    PositiveModIsMod(num * i', p);
  }

  lemma PrimePositive(p: int)
    requires IsPrime(p)
    ensures p > 1
  {
  }

  lemma Indivisible(i: int, den: int, p: int)
    requires IsPrime(p) && Cong(i * den, 1, p)
    ensures !Divides(p, den)
  {
    if Divides(p, den) {
      DividesLinear(p, den, i * den - 1, i, -1);
      DividesSmall(p, 1);
    }
  }

  /** When the code finds an inverse modulo a prime so do exact quotients, and products agree modulo p. */
  lemma InverterAgrees(inv: Inverter, num: int, x: int, p: int)
    requires ByLoop(inv) && IsPrime(p) && p > 0 && inv(x, p).Ok?
    ensures InverseOf(x, p).Ok? && PositiveMod(num * inv(x, p).value, p) == PositiveMod(num * InverseOf(x, p).value, p)
  {
    hide Divides, IsPrime, PositiveMod, InverseOf, ByLoop;
    InverterSound(inv, x, p);
    Indivisible(inv(x, p).value, x, p);
    PrimeInverse(x, p);
    SameResidue(num, x, inv(x, p).value, InverseOf(x, p).value, p);
  }

  // ----- the functions of the source over an inverter -----

  function AddSamePointBy(inv: Inverter, p1: Point, m: int, a: int): Result<Point>
    requires m > 0
  {
    var i :- inv(2 * p1.y, m);
    Ok(FromSlope(PositiveMod((3 * (p1.x * p1.x) + a) * i, m), p1, p1, m))
  }

  function AddDiffPointBy(inv: Inverter, p1: Point, p2: Point, m: int): Result<Point>
    requires m > 0
  {
    var i :- inv(p2.x - p1.x, m);
    Ok(FromSlope(PositiveMod((p2.y - p1.y) * i, m), p1, p2, m))
  }

  function AccumulateBy(inv: Inverter, digit: char, now: Option<Point>, next: Point, p: int): Result<Option<Point>>
    requires p > 0
  {
    if digit != '1' then Ok(now)
    else
      match now
      case None => Ok(Some(next))
      case Some(q) =>
        var r :- AddDiffPointBy(inv, q, next, p);
        Ok(Some(r))
  }

  function ScanBy(inv: Inverter, bin: string, i: nat, now: Option<Point>, next: Point, p: int, a: int): Result<Option<Point>>
    requires p > 0 && i <= |bin|
    decreases i
  {
    if i == 0 then Ok(now)
    else
      var now' :- AccumulateBy(inv, bin[i - 1], now, next, p);
      var next' :- AddSamePointBy(inv, next, p, a);
      ScanBy(inv, bin, i - 1, now', next', p, a)
  }

  function PointByBigBy(inv: Inverter, m: int, p: int, a: int, base: Point): Result<Option<Point>>
    requires p > 0
  {
    var bin := ToRadixString(m, 2);
    ScanBy(inv, bin, |bin|, None, base, p, a)
  }

  function SignWithBy(inv: Inverter, n: int, p: int, a: int, d: int, pointG: Point, e: int,
                      k: int): Result<Option<Signature>>
    requires n > 0 && p > 0
  {
    if k < 1 || k >= n - 1 then Ok(None)
    else
      var point :- PointByBigBy(inv, k, p, a, pointG);
      if point.None? then Err("NoSuchMethodError")
      else
        var r := PositiveMod(point.value.x, n);
        if r == 0 then Ok(None)
        else
          var i :- inv(k, n);
          var s := PositiveMod((e + r * d) * i, n);
          var recovery := (if point.value.y % 2 == 1 then 1 else 0) + (if point.value.x != r then 2 else 0);
          if s == 0 then Ok(None) else Ok(Some(Signature(r, s, recovery)))
  }

  function VerifierPointBy(inv: Inverter, n: int, p: int, a: int, pointG: Point, pointQ: Point, r: int, e: int,
                           w: int): Result<Point>
    requires n > 0 && p > 0
  {
    var q1 :- PointByBigBy(inv, PositiveMod(e * w, n), p, a, pointG);
    var q2 :- PointByBigBy(inv, PositiveMod(r * w, n), p, a, pointQ);
    if q1.None? || q2.None? then Err("NoSuchMethodError")
    else if q1.value == q2.value then AddSamePointBy(inv, q1.value, p, a)
    else AddDiffPointBy(inv, q1.value, q2.value, p)
  }

  function CurveVerifyBy(inv: Inverter, n: int, p: int, a: int, pointG: Point, pointQ: Point, r: int, s: int,
                         e: int): Result<bool>
    requires n > 0 && p > 0
  {
    if r < 1 || r >= n then Ok(false)
    else if s < 1 || s >= n then Ok(false)
    else
      var w :- inv(s, n);
      var pointR :- VerifierPointBy(inv, n, p, a, pointG, pointQ, r, e, w);
      if pointR.x == 0 && pointR.y == 0 then Ok(false)
      else Ok(PositiveMod(pointR.x, n) == r)
  }

  // ----- they answer nothing but the exact answers -----

  /** A doubling or addition that returns gives the point exact quotients give. */
  lemma AdditionsAgree(inv: Inverter, q1: Point, q2: Point, p: int, a: int)
    requires ByLoop(inv) && IsPrime(p) && p > 0
    ensures AddSamePointBy(inv, q1, p, a).Ok? ==> AddSamePointBy(inv, q1, p, a) == AddSamePoint(q1, p, a)
    ensures AddDiffPointBy(inv, q1, q2, p).Ok? ==> AddDiffPointBy(inv, q1, q2, p) == AddDiffPoint(q1, q2, p)
  {
    hide ByLoop, IsPrime, PositiveMod, InverseOf, FromSlope;
    if inv(2 * q1.y, p).Ok? {
      InverterAgrees(inv, 3 * (q1.x * q1.x) + a, 2 * q1.y, p);
    }
    if inv(q2.x - q1.x, p).Ok? {
      InverterAgrees(inv, q2.y - q1.y, q2.x - q1.x, p);
    }
  }

  lemma {:induction false} ScanAgrees(inv: Inverter, bin: string, i: nat, now: Option<Point>, next: Point, p: int, a: int)
    requires ByLoop(inv) && IsPrime(p) && p > 0 && i <= |bin|
    ensures ScanBy(inv, bin, i, now, next, p, a).Ok? ==>
              ScanBy(inv, bin, i, now, next, p, a) == Scan(bin, i, now, next, p, a)
    decreases i
  {
    hide ByLoop, IsPrime, AddSamePoint, AddDiffPoint, AddSamePointBy, AddDiffPointBy;
    if i > 0 && ScanBy(inv, bin, i, now, next, p, a).Ok? {
      AdditionsAgree(inv, if now.Some? then now.value else next, next, p, a);
      AdditionsAgree(inv, next, next, p, a);
      var now' := AccumulateBy(inv, bin[i - 1], now, next, p).value;
      var next' := AddSamePointBy(inv, next, p, a).value;
      ScanAgrees(inv, bin, i - 1, now', next', p, a);
    }
  }

  lemma PointByBigAgrees(inv: Inverter, m: int, p: int, a: int, base: Point)
    requires ByLoop(inv) && IsPrime(p) && p > 0
    ensures PointByBigBy(inv, m, p, a, base).Ok? ==> PointByBigBy(inv, m, p, a, base) == PointByBig(m, p, a, base)
  {
    hide ByLoop, IsPrime, Scan, ScanBy, ToRadixString;
    var bin := ToRadixString(m, 2);
    ScanAgrees(inv, bin, |bin|, None, base, p, a);
  }

  /** A turn of `sign` that does not throw rejects the nonce or signs exactly as with exact quotients. */
  lemma SignAgrees(inv: Inverter, n: int, p: int, a: int, d: int, pointG: Point, e: int, k: int)
    requires ByLoop(inv) && IsPrime(n) && IsPrime(p) && n > 0 && p > 0
    ensures SignWithBy(inv, n, p, a, d, pointG, e, k).Ok? ==>
              SignWithBy(inv, n, p, a, d, pointG, e, k) == SignWith(n, p, a, d, pointG, e, k)
  {
    hide ByLoop, IsPrime, PointByBig, PointByBigBy, InverseOf, PositiveMod;
    PointByBigAgrees(inv, k, p, a, pointG);
    var point := PointByBigBy(inv, k, p, a, pointG);
    if point.Ok? && point.value.Some? && inv(k, n).Ok? {
      var r := PositiveMod(point.value.value.x, n);
      InverterAgrees(inv, e + r * d, k, n);
    }
  }

  lemma VerifierPointAgrees(inv: Inverter, n: int, p: int, a: int, pointG: Point, pointQ: Point, r: int, e: int, w: int)
    requires ByLoop(inv) && IsPrime(p) && n > 0 && p > 0
    ensures VerifierPointBy(inv, n, p, a, pointG, pointQ, r, e, w).Ok? ==>
              VerifierPointBy(inv, n, p, a, pointG, pointQ, r, e, w) == VerifierPoint(n, p, a, pointG, pointQ, r, e, w)
  {
    hide ByLoop, IsPrime, PointByBig, PointByBigBy, PositiveMod, AddSamePoint, AddDiffPoint, AddSamePointBy, AddDiffPointBy;
    PointByBigAgrees(inv, PositiveMod(e * w, n), p, a, pointG);
    PointByBigAgrees(inv, PositiveMod(r * w, n), p, a, pointQ);
    var q1 := PointByBigBy(inv, PositiveMod(e * w, n), p, a, pointG);
    var q2 := PointByBigBy(inv, PositiveMod(r * w, n), p, a, pointQ);
    if q1.Ok? && q2.Ok? && q1.value.Some? && q2.value.Some? {
      AdditionsAgree(inv, q1.value.value, q2.value.value, p, a);
    }
  }

  /** An answer of `curveVerify` is the answer of exact quotients. */
  lemma VerifyAgrees(inv: Inverter, n: int, p: int, a: int, pointG: Point, pointQ: Point, r: int, s: int, e: int)
    requires ByLoop(inv) && IsPrime(n) && IsPrime(p) && n > 0 && p > 0
    ensures CurveVerifyBy(inv, n, p, a, pointG, pointQ, r, s, e).Ok? ==>
              CurveVerifyBy(inv, n, p, a, pointG, pointQ, r, s, e) == CurveVerify(n, p, a, pointG, pointQ, r, s, e)
  {
    hide ByLoop, IsPrime, InverseOf, PositiveMod, VerifierPointBy, VerifierPoint;
    if inv(s, n).Ok? {
      var w := inv(s, n).value;
      InverterAgrees(inv, e, s, n);
      InverterAgrees(inv, r, s, n);
      VerifierPointAgrees(inv, n, p, a, pointG, pointQ, r, e, w);
      SameVerifierPoint(n, p, a, pointG, pointQ, r, e, w, InverseOf(s, n).value);
    }
  }

  lemma SameVerifierPoint(n: int, p: int, a: int, pointG: Point, pointQ: Point, r: int, e: int, w: int, w': int)
    requires n > 0 && p > 0
    requires PositiveMod(e * w, n) == PositiveMod(e * w', n) && PositiveMod(r * w, n) == PositiveMod(r * w', n)
    ensures VerifierPoint(n, p, a, pointG, pointQ, r, e, w) == VerifierPoint(n, p, a, pointG, pointQ, r, e, w')
  {
    hide PointByBig, PositiveMod;
  }

  lemma NonceInRange(g: Group, d: int, e: int, k: int)
    requires g.n > 0 && Usable(g, d, e, k)
    ensures 1 <= k < g.n
  {
  }

  /** ECDSA with whatever quotients signing and verifying happen to use: a signature that comes out
      verifies if verification answers at all, and it never answers for a hash that is 0 modulo n. */
  lemma SignedIsNotRefused(signer: Inverter, verifier: Inverter, g: Group, d: int, e: int, k: int)
    requires ByLoop(signer) && ByLoop(verifier) && g.Law() && IsPrime(g.p) && g.Live(d)
    requires SignWithBy(signer, g.n, g.p, g.a, d, g.pt(1), e, k).Ok?
    requires SignWithBy(signer, g.n, g.p, g.a, d, g.pt(1), e, k).value.Some?
    ensures var sig := SignWithBy(signer, g.n, g.p, g.a, d, g.pt(1), e, k).value.value;
            var v := CurveVerifyBy(verifier, g.n, g.p, g.a, g.pt(1), g.pt(d), sig.r, sig.s, e);
            v.Ok? ==> v.value && e % g.n != 0
  {
    hide *;
    LawBasics(g);
    SignAgrees(signer, g.n, g.p, g.a, d, g.pt(1), e, k);
    var sig := SignWithBy(signer, g.n, g.p, g.a, d, g.pt(1), e, k).value.value;
    SignWithExact(g, d, e, k);
    NonceInRange(g, d, e, k);
    SignedIsVerified(g, d, e, k, sig);
    VerifyAgrees(verifier, g.n, g.p, g.a, g.pt(1), g.pt(d), sig.r, sig.s, e);
  }

  // ----- moduli with exact inverses -----

  /** Modulo m the inverses are found as with exact quotients. A double is enough for that up to 2^53. */
  ghost predicate ExactOn(inv: Inverter, m: int) {
    m > 0 && forall x {:trigger inv(x, m)} :: inv(x, m) == InverseOf(x, m)
  }

  lemma AdditionsExact(inv: Inverter, q1: Point, q2: Point, p: int, a: int)
    requires ExactOn(inv, p)
    ensures AddSamePointBy(inv, q1, p, a) == AddSamePoint(q1, p, a)
    ensures AddDiffPointBy(inv, q1, q2, p) == AddDiffPoint(q1, q2, p)
  {
    hide InverseOf, FromSlope, PositiveMod;
    assert inv(2 * q1.y, p) == InverseOf(2 * q1.y, p);
    assert inv(q2.x - q1.x, p) == InverseOf(q2.x - q1.x, p);
  }

  lemma {:induction false} ScanIsExact(inv: Inverter, bin: string, i: nat, now: Option<Point>, next: Point, p: int, a: int)
    requires ExactOn(inv, p) && i <= |bin|
    ensures ScanBy(inv, bin, i, now, next, p, a) == Scan(bin, i, now, next, p, a)
    decreases i
  {
    hide AddSamePoint, AddDiffPoint, AddSamePointBy, AddDiffPointBy;
    if i > 0 {
      AdditionsExact(inv, if now.Some? then now.value else next, next, p, a);
      AdditionsExact(inv, next, next, p, a);
      var now' := Accumulate(bin[i - 1], now, next, p);
      var next' := AddSamePoint(next, p, a);
      if now'.Ok? && next'.Ok? {
        ScanIsExact(inv, bin, i - 1, now'.value, next'.value, p, a);
      }
    }
  }

  lemma PointByBigIsExact(inv: Inverter, m: int, p: int, a: int, base: Point)
    requires ExactOn(inv, p)
    ensures PointByBigBy(inv, m, p, a, base) == PointByBig(m, p, a, base)
  {
    hide ExactOn, Scan, ScanBy, ToRadixString;
    var bin := ToRadixString(m, 2);
    ExactPositive(inv, p);
    ScanIsExact(inv, bin, |bin|, None, base, p, a);
  }

  lemma ExactPositive(inv: Inverter, m: int)
    requires ExactOn(inv, m)
    ensures m > 0
  {
  }

  /** Where both moduli have exact inverses, signing and verifying succeed, fail and answer as with exact
      quotients. */
  lemma SignIsExact(inv: Inverter, n: int, p: int, a: int, d: int, pointG: Point, e: int, k: int)
    requires ExactOn(inv, n) && ExactOn(inv, p)
    ensures SignWithBy(inv, n, p, a, d, pointG, e, k) == SignWith(n, p, a, d, pointG, e, k)
  {
    hide PointByBig, PointByBigBy, InverseOf, PositiveMod;
    PointByBigIsExact(inv, k, p, a, pointG);
    assert inv(k, n) == InverseOf(k, n);
  }

  lemma VerifyIsExact(inv: Inverter, n: int, p: int, a: int, pointG: Point, pointQ: Point, r: int, s: int, e: int)
    requires ExactOn(inv, n) && ExactOn(inv, p)
    ensures CurveVerifyBy(inv, n, p, a, pointG, pointQ, r, s, e) == CurveVerify(n, p, a, pointG, pointQ, r, s, e)
  {
    hide InverseOf, PositiveMod, VerifierPointBy, VerifierPoint;
    var w := inv(s, n);
    assert w == InverseOf(s, n);
    if w.Ok? {
      VerifierPointIsExact(inv, n, p, a, pointG, pointQ, r, e, w.value);
    }
  }

  lemma VerifierPointIsExact(inv: Inverter, n: int, p: int, a: int, pointG: Point, pointQ: Point, r: int, e: int, w: int)
    requires n > 0 && ExactOn(inv, p)
    ensures VerifierPointBy(inv, n, p, a, pointG, pointQ, r, e, w) == VerifierPoint(n, p, a, pointG, pointQ, r, e, w)
  {
    hide ExactOn, PointByBig, PointByBigBy, PositiveMod, AddSamePoint, AddDiffPoint, AddSamePointBy, AddDiffPointBy;
    ExactPositive(inv, p);
    var q1, q2 := PointByBig(PositiveMod(e * w, n), p, a, pointG), PointByBig(PositiveMod(r * w, n), p, a, pointQ);
    PointByBigIsExact(inv, PositiveMod(e * w, n), p, a, pointG);
    PointByBigIsExact(inv, PositiveMod(r * w, n), p, a, pointQ);
    if q1.Ok? && q2.Ok? && q1.value.Some? && q2.value.Some? {
      AdditionsExact(inv, q1.value.value, q2.value.value, p, a);
    }
  }
}
