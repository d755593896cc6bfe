/** Chord and tangent addition of lib/crypto/curve.dart on y^2 = x^3 + a*x + b modulo a prime. */
module CurvePoints {
  import opened Basics
  import opened Modular
  import opened Inverse

  datatype Point = Point(x: int, y: int)

  function AddSamePoint(p1: Point, m: int, a: int): Result<Point>
    requires m > 0
  {
    var i :- InverseOf(2 * p1.y, m);
    var ru := PositiveMod((3 * (p1.x * p1.x) + a) * i, m);
    Ok(FromSlope(ru, p1, p1, m))
  }

  function AddDiffPoint(p1: Point, p2: Point, m: int): Result<Point>
    requires m > 0
  {
    var i :- InverseOf(p2.x - p1.x, m);
    var ru := PositiveMod((p2.y - p1.y) * i, m);
    Ok(FromSlope(ru, p1, p2, m))
  }

  /** The last two lines of both formulas: the third intersection, reflected. */
  function FromSlope(ru: int, p1: Point, p2: Point, m: int): Point
    requires m > 0
  {
    var x3 := PositiveMod(ru * ru - p1.x - p2.x, m);
    var y3 := PositiveMod(ru * (p1.x - x3) - p1.y, m);
    Point(x3, y3)
  }

  function Cubic(x: int, a: int, b: int): int {
    x * x * x + a * x + b
  }

  ghost predicate OnCurve(q: Point, a: int, b: int, p: int) {
    Cong(q.y * q.y, Cubic(q.x, a, b), p)
  }

  predicate InRange(q: Point, p: int) {
    0 <= q.x < p && 0 <= q.y < p
  }

  /** r is the reflected third intersection of the curve with the line of slope num/den through q1:
      both coordinates of r are fixed modulo p without mentioning any inverse. */
  ghost predicate ReflectedIntersection(q1: Point, q2: Point, num: int, den: int, r: Point, p: int) {
    && Cong((r.x + q1.x + q2.x) * (den * den), num * num, p)
    && Cong((-r.y - q1.y) * den, num * (r.x - q1.x), p)
  }

  lemma SlopeTimesDenominator(ru: int, num: int, i: int, den: int, p: int)
    requires p > 0 && ru == PositiveMod(num * i, p) && Cong(i * den, 1, p)
    ensures Cong(ru * den, num, p)
  {
    hide Cong, PositiveMod;
    PositiveModIsMod(num * i, p);
    CongMod(num * i, p);
    CongRefl(den, p);
    CongRefl(num, p);
    CongMul(ru, num * i, den, den, p);
    CongMul(num, num, i * den, 1, p);
    Associate(num, i, den);
    CongTrans(ru * den, num * i * den, num, p);
  }

  lemma FromSlopeCong(ru: int, p1: Point, p2: Point, p: int)
    requires p > 0
    ensures var r := FromSlope(ru, p1, p2, p);
            && InRange(r, p)
            && Cong(r.x, ru * ru - p1.x - p2.x, p)
            && Cong(r.y, ru * (p1.x - (ru * ru - p1.x - p2.x)) - p1.y, p)
  {
    hide Cong, PositiveMod;
    var r := FromSlope(ru, p1, p2, p);
    var x := ru * ru - p1.x - p2.x;
    PositiveModIsMod(x, p);
    CongMod(x, p);
    PositiveModIsMod(ru * (p1.x - r.x) - p1.y, p);
    CongMod(ru * (p1.x - r.x) - p1.y, p);
    CongRefl(p1.x, p);
    CongRefl(p1.y, p);
    CongRefl(ru, p);
    CongAdd(p1.x, p1.x, r.x, x, p);
    CongMul(ru, ru, p1.x - r.x, p1.x - x, p);
    CongAdd(ru * (p1.x - r.x), ru * (p1.x - x), p1.y, p1.y, p);
    CongTrans(r.y, ru * (p1.x - r.x) - p1.y, ru * (p1.x - x) - p1.y, p);
  }

  lemma OnCurveCong(q: Point, r: Point, a: int, b: int, p: int)
    requires OnCurve(q, a, b, p) && Cong(r.x, q.x, p) && Cong(r.y, q.y, p)
    ensures OnCurve(r, a, b, p)
  {
    CongMul(r.y, q.y, r.y, q.y, p);
    CongMul(r.x, q.x, r.x, q.x, p);
    CongMul(r.x * r.x, q.x * q.x, r.x, q.x, p);
    CongRefl(a, p);
    CongRefl(b, p);
    CongMul(a, a, r.x, q.x, p);
    CongAdd(r.x * r.x * r.x, q.x * q.x * q.x, a * r.x, a * q.x, p);
    CongAdd(r.x * r.x * r.x + a * r.x, q.x * q.x * q.x + a * q.x, b, b, p);
    CongTrans(r.y * r.y, q.y * q.y, Cubic(q.x, a, b), p);
    CongSym(Cubic(r.x, a, b), Cubic(q.x, a, b), p);
    CongTrans(r.y * r.y, Cubic(q.x, a, b), Cubic(r.x, a, b), p);
  }

  lemma ReflectedFromSlope(ru: int, q1: Point, q2: Point, num: int, den: int, r: Point, p: int)
    requires Cong(ru * den, num, p)
    requires Cong(r.x, ru * ru - q1.x - q2.x, p)
    requires Cong(r.y, ru * (q1.x - (ru * ru - q1.x - q2.x)) - q1.y, p)
    ensures ReflectedIntersection(q1, q2, num, den, r, p)
  {
    hide Cong;
    ReflectedAbscissa(ru, q1, q2, num, den, r.x, p);
    ReflectedOrdinate(ru, q1, ru * ru - q1.x - q2.x, num, den, r, p);
  }

  lemma ReflectedAbscissa(ru: int, q1: Point, q2: Point, num: int, den: int, x: int, p: int)
    requires Cong(ru * den, num, p) && Cong(x, ru * ru - q1.x - q2.x, p)
    ensures Cong((x + q1.x + q2.x) * (den * den), num * num, p)
  {
    hide Cong;
    var s := q1.x + q2.x;
    CongRefl(s, p);
    CongRefl(den * den, p);
    CongAdd(x, ru * ru - q1.x - q2.x, s, s, p);
    CongMul(x + s, ru * ru, den * den, den * den, p);
    CongMul(ru * den, num, ru * den, num, p);
    SquareOfProduct(ru, den);
    CongTrans((x + s) * (den * den), (ru * ru) * (den * den), num * num, p);
    assert x + s == x + q1.x + q2.x;
  }

  lemma SquareOfProduct(u: int, d: int)
    ensures (u * u) * (d * d) == (u * d) * (u * d)
  {
    Associate(u * d, u, d);
    Associate(u, d, u);
    Associate(u, u, d);
    Commute(u * d, u);
    Associate(u * u, d, d);
  }

  lemma ReflectedOrdinate(ru: int, q1: Point, x: int, num: int, den: int, r: Point, p: int)
    requires Cong(ru * den, num, p) && Cong(r.x, x, p) && Cong(r.y, ru * (q1.x - x) - q1.y, p)
    ensures Cong((-r.y - q1.y) * den, num * (r.x - q1.x), p)
  {
    hide Cong;
    var line := ru * (q1.x - x);
    CongRefl(0, p);
    CongRefl(q1.x, p);
    CongRefl(q1.y, p);
    CongRefl(den, p);
    CongRefl(num, p);
    CongAdd(0, 0, r.y, line - q1.y, p);
    CongAdd(0 - r.y, 0 - (line - q1.y), q1.y, q1.y, p);
    assert 0 - r.y - q1.y == -r.y - q1.y && 0 - (line - q1.y) - q1.y == -line;
    CongMul(-r.y - q1.y, -line, den, den, p);
    CongRefl(x - q1.x, p);
    CongMul(ru * den, num, x - q1.x, x - q1.x, p);
    SignedRegroup(ru, q1.x, x, den);
    CongTrans((-r.y - q1.y) * den, -line * den, num * (x - q1.x), p);
    CongAdd(r.x, x, q1.x, q1.x, p);
    CongSym(r.x - q1.x, x - q1.x, p);
    CongMul(num, num, x - q1.x, r.x - q1.x, p);
    CongTrans((-r.y - q1.y) * den, num * (x - q1.x), num * (r.x - q1.x), p);
  }

  lemma SignedRegroup(u: int, x: int, y: int, d: int)
    ensures -(u * (x - y)) * d == (u * d) * (y - x)
  {
    assert -(u * (x - y)) == u * (y - x);
    assert (u * (y - x)) * d == (u * d) * (y - x);
  }

  // ----- the two polynomial identities -----

  /** On the tangent of slope u at (x, y) the cubic minus the square of the line is
      (X-x)^2 (X-x3) plus terms that vanish modulo p. */
  lemma TangentIdentity(x: int, y: int, u: int, a: int, b: int)
    ensures var x3 := u * u - x - x;
            var y3 := u * (x - x3) - y;
            Cubic(x3, a, b) - y3 * y3
            == (3 * (x * x) + a - u * (2 * y)) * (x3 - x) + (Cubic(x, a, b) - y * y)
  {
    var t := u * u - x - x - x;
    ChordValue(x, y, t, u, a, b);
    assert (t * t) * (3 * x + t - u * u) == 0;
    NegatedSquare(u, x, t, y);
  }

  lemma NegatedSquare(u: int, x: int, t: int, y: int)
    ensures (u * (x - (x + t)) - y) * (u * (x - (x + t)) - y) == (u * t + y) * (u * t + y)
  {
    assert u * (x - (x + t)) - y == -(u * t + y);
  }

  lemma SquareSum(s: int, t: int)
    ensures (-s - t) * (-s - t) == s * s + 2 * t * s + t * t
  {
  }

  lemma CubeSum(x: int, t: int)
    ensures (x + t) * (x + t) * (x + t) == x * x * x + 3 * (x * x) * t + 3 * x * (t * t) + t * (t * t)
  {
    assert (x + t) * (x + t) == x * x + 2 * (x * t) + t * t;
    assert (x * x + 2 * (x * t) + t * t) * (x + t)
        == x * x * x + 3 * (x * x) * t + 3 * x * (t * t) + t * (t * t);
  }

  /** With t1 = x3 - x and c the slack of the chord, the value at x3 is c*t1 modulo p, and the
      value at x2 is c*d: this is the common factor of both. */
  lemma ChordIdentity(x: int, y: int, d: int, u: int, a: int, b: int)
    ensures var c := 3 * (x * x) + a - u * (2 * y) + d * (3 * x + d - u * u);
            var x2 := x + d;
            var x3 := u * u - x - x2;
            var y3 := u * (x - x3) - y;
            && Cubic(x2, a, b) - (u * d + y) * (u * d + y) == c * d + (Cubic(x, a, b) - y * y)
            && Cubic(x3, a, b) - y3 * y3 == c * (x3 - x) + (Cubic(x, a, b) - y * y)
  {
    var k := 3 * (x * x) + a - u * (2 * y);
    var x3 := u * u - x - (x + d);
    ChordValue(x, y, d, u, a, b);
    ChordValue(x, y, x3 - x, u, a, b);
    var t := x3 - x;
    var y3 := u * (x - x3) - y;
    MirroredOrdinate(u, x, x3, y);
    assert 3 * x + t - u * u == -d;
    assert 3 * x + d - u * u == -t;
    FactorOnce(k, t, d);
    FactorTwice(k, d, 3 * x + d - u * u);
  }

  lemma MirroredOrdinate(u: int, x: int, x3: int, y: int)
    ensures (u * (x - x3) - y) * (u * (x - x3) - y) == (u * (x3 - x) + y) * (u * (x3 - x) + y)
  {
    var z := u * (x3 - x) + y;
    assert u * (x - x3) == -(u * (x3 - x));
    assert u * (x - x3) - y == -z;
    assert -z * -z == z * z;
  }

  lemma FactorOnce(k: int, t: int, d: int)
    ensures k * t + (t * t) * -d == (k + d * -t) * t
  {
    assert (d * -t) * t == (t * t) * -d;
  }

  lemma FactorTwice(k: int, d: int, e: int)
    ensures k * d + (d * d) * e == (k + d * e) * d
  {
    assert (d * e) * d == (d * d) * e;
  }

  lemma ChordValue(x: int, y: int, t: int, u: int, a: int, b: int)
    ensures Cubic(x + t, a, b) - (u * t + y) * (u * t + y)
         == (3 * (x * x) + a - u * (2 * y)) * t + (t * t) * (3 * x + t - u * u) + (Cubic(x, a, b) - y * y)
  {
    CubeSum(x, t);
    SquareOfLine(u, t, y);
    SlopeTerms(x, y, t, u, a);
    CurvatureTerms(x, t, u);
    Expanded(a, x, t);
  }

  lemma Expanded(a: int, x: int, t: int)
    ensures a * (x + t) == a * x + a * t
  {
  }

  lemma SquareOfLine(u: int, t: int, y: int)
    ensures (u * t + y) * (u * t + y) == (u * u) * (t * t) + 2 * y * (u * t) + y * y
  {
    SquareSum(-(u * t), -y);
    SquareOfProduct(u, t);
  }

  lemma SlopeTerms(x: int, y: int, t: int, u: int, a: int)
    ensures (3 * (x * x) + a - u * (2 * y)) * t == 3 * (x * x) * t + a * t - 2 * y * (u * t)
  {
    SplitProduct(3 * (x * x) + a, u * (2 * y), t);
    SplitProduct(3 * (x * x), -a, t);
    assert -a * t == -(a * t);
    Associate(2 * y, u, t);
    Commute(2 * y, u);
  }

  lemma CurvatureTerms(x: int, t: int, u: int)
    ensures (t * t) * (3 * x + t - u * u) == 3 * x * (t * t) + t * (t * t) - (u * u) * (t * t)
  {
    Commute(t * t, 3 * x + t - u * u);
    SplitProduct(3 * x + t, u * u, t * t);
    SplitProduct(3 * x, -t, t * t);
    assert -t * (t * t) == -(t * (t * t));
  }

  lemma SplitProduct(x: int, y: int, t: int)
    ensures (x - y) * t == x * t - y * t
  {
  }

  // ----- closure -----

  /** `addSamePoint` succeeds exactly when y is nonzero, stays on the curve and in range, and is the
      tangent construction. */
  lemma AddSamePointClosed(q: Point, a: int, b: int, p: int)
    requires IsPrime(p) && p > 2 && OnCurve(q, a, b, p)
    ensures AddSamePoint(q, p, a).Ok? <==> !Divides(p, q.y)
    ensures AddSamePoint(q, p, a).Ok? ==>
              var r := AddSamePoint(q, p, a).value;
              && OnCurve(r, a, b, p) && InRange(r, p)
              && ReflectedIntersection(q, q, 3 * (q.x * q.x) + a, 2 * q.y, r, p)
  {
    if Divides(p, q.y) {
      DividesLinear(p, q.y, q.y, 2, 0);
      NoInverseOfMultiple(2 * q.y, p);
    } else {
      if Divides(p, 2 * q.y) {
        EuclidLemma(2, q.y, p);
        DivisorAtMost(p, 2);
      }
      PrimeInverse(2 * q.y, p);
      var i := InverseOf(2 * q.y, p).value;
      var num := 3 * (q.x * q.x) + a;
      var ru := PositiveMod(num * i, p);
      var r := FromSlope(ru, q, q, p);
      SlopeTimesDenominator(ru, num, i, 2 * q.y, p);
      FromSlopeCong(ru, q, q, p);
      ReflectedFromSlope(ru, q, q, num, 2 * q.y, r, p);
      TangentOnCurve(q, ru, a, b, p);
      OnCurveCong(Point(ru * ru - q.x - q.x, ru * (q.x - (ru * ru - q.x - q.x)) - q.y), r, a, b, p);
    }
  }

  lemma TangentOnCurve(q: Point, u: int, a: int, b: int, p: int)
    requires OnCurve(q, a, b, p) && Cong(u * (2 * q.y), 3 * (q.x * q.x) + a, p)
    ensures var x3 := u * u - q.x - q.x; OnCurve(Point(x3, u * (q.x - x3) - q.y), a, b, p)
  {
    var x3 := u * u - q.x - q.x;
    var y3 := u * (q.x - x3) - q.y;
    TangentIdentity(q.x, q.y, u, a, b);
    hide Divides, Cubic;
    var e := u * (2 * q.y) - (3 * (q.x * q.x) + a);
    var f := q.y * q.y - Cubic(q.x, a, b);
    DividesLinear(p, e, f, x3 - q.x, 1);
    SwapSign(e, x3 - q.x);
  }

  lemma SwapSign(e: int, t: int)
    ensures -e * t == -(t * e)
  {
  }

  /** `addDiffPoint` succeeds exactly when the abscissas differ modulo p, stays on the curve and in
      range, and is the chord construction. */
  lemma AddDiffPointClosed(q1: Point, q2: Point, a: int, b: int, p: int)
    requires IsPrime(p) && OnCurve(q1, a, b, p) && OnCurve(q2, a, b, p)
    ensures AddDiffPoint(q1, q2, p).Ok? <==> !Cong(q2.x, q1.x, p)
    ensures AddDiffPoint(q1, q2, p).Ok? ==>
              var r := AddDiffPoint(q1, q2, p).value;
              && OnCurve(r, a, b, p) && InRange(r, p)
              && ReflectedIntersection(q1, q2, q2.y - q1.y, q2.x - q1.x, r, p)
  {
    var d := q2.x - q1.x;
    if Divides(p, d) {
      NoInverseOfMultiple(d, p);
    } else {
      PrimeInverse(d, p);
      var i := InverseOf(d, p).value;
      var num := q2.y - q1.y;
      var ru := PositiveMod(num * i, p);
      var r := FromSlope(ru, q1, q2, p);
      SlopeTimesDenominator(ru, num, i, d, p);
      FromSlopeCong(ru, q1, q2, p);
      ReflectedFromSlope(ru, q1, q2, num, d, r, p);
      ChordOnCurve(q1, q2, ru, a, b, p);
      OnCurveCong(Point(ru * ru - q1.x - q2.x, ru * (q1.x - (ru * ru - q1.x - q2.x)) - q1.y), r, a, b, p);
    }
  }

  lemma ChordOnCurve(q1: Point, q2: Point, u: int, a: int, b: int, p: int)
    requires IsPrime(p) && OnCurve(q1, a, b, p) && OnCurve(q2, a, b, p)
    requires !Divides(p, q2.x - q1.x) && Cong(u * (q2.x - q1.x), q2.y - q1.y, p)
    ensures var x3 := u * u - q1.x - q2.x; OnCurve(Point(x3, u * (q1.x - x3) - q1.y), a, b, p)
  {
    hide Divides, Cubic;
    var d := q2.x - q1.x;
    var x3 := u * u - q1.x - q2.x;
    var y3 := u * (q1.x - x3) - q1.y;
    var c := 3 * (q1.x * q1.x) + a - u * (2 * q1.y) + d * (3 * q1.x + d - u * u);
    ChordIdentity(q1.x, q1.y, d, u, a, b);
    assert q1.x + d == q2.x;
    var f1 := q1.y * q1.y - Cubic(q1.x, a, b);
    // the line meets q2, so c*d vanishes, and d is invertible
    CongRefl(q1.y, p);
    CongAdd(u * d, q2.y - q1.y, q1.y, q1.y, p);
    CongMul(u * d + q1.y, q2.y, u * d + q1.y, q2.y, p);
    CongTrans((u * d + q1.y) * (u * d + q1.y), q2.y * q2.y, Cubic(q2.x, a, b), p);
    DividesLinear(p, (u * d + q1.y) * (u * d + q1.y) - Cubic(q2.x, a, b), f1, -1, 1);
    assert Divides(p, c * d);
    EuclidLemma(c, d, p);
    DividesLinear(p, c, f1, -(x3 - q1.x), 1);
    SwapSign(x3 - q1.x, c);
  }
}
