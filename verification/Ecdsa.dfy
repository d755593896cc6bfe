/** Double-and-add, signing and verification of lib/crypto/curve.dart (SEC 1, 4.1.3 and 4.1.4). */
module Ecdsa {
  import opened Basics
  import opened Modular
  import opened Inverse
  import opened CurvePoints
  import opened Radix

  // ----- double-and-add -----

  /** One turn of the loop of `getPointByBig` for a digit of the binary expansion. */
  function Accumulate(digit: char, now: Option<Point>, next: Point, p: int): Result<Option<Point>>
    requires p > 0
  {
    if digit != '1' then Ok(now)
    else
      match now
      case None => Ok(Some(next))
      case Some(q) =>
        var r :- AddDiffPoint(q, next, p);
        Ok(Some(r))
  }

  /** The loop over bin[i-1], ..., bin[0], from accumulator `now` and running point `next`. */
  function Scan(bin: string, i: nat, now: Option<Point>, next: Point, p: int, a: int): Result<Option<Point>>
    requires p > 0 && i <= |bin|
    decreases i
  {
    if i == 0 then Ok(now)
    else
      var now' :- Accumulate(bin[i - 1], now, next, p);
      var next' :- AddSamePoint(next, p, a);
      Scan(bin, i - 1, now', next', p, a)
  }

  /** `getPointByBig` as a function; None is Dart's null. */
  function PointByBig(m: int, p: int, a: int, base: Point): Result<Option<Point>>
    requires p > 0
  {
    var bin := ToRadixString(m, 2);
    Scan(bin, |bin|, None, base, p, a)
  }

  method GetPointByBig(m: int, p: int, a: int, pointG: Point) returns (r: Result<Option<Point>>)
    requires p > 0
    ensures r == PointByBig(m, p, a, pointG)
  {
    hide AddSamePoint, AddDiffPoint, ToRadixString;
    var bin := ToRadixString(m, 2);
    var nowPoint: Option<Point> := None;
    var nextPoint := pointG;
    var i := |bin|;
    while i > 0
      invariant 0 <= i <= |bin|
      invariant Scan(bin, i, nowPoint, nextPoint, p, a) == PointByBig(m, p, a, pointG)
    {
      i := i - 1;
      if bin[i] == '1' {
        if nowPoint.None? {
          nowPoint := Some(nextPoint);
        } else {
          var sum := AddDiffPoint(nowPoint.value, nextPoint, p);
          if sum.Err? {
            return Err(sum.error);
          }
          nowPoint := Some(sum.value);
        }
      }
      var doubled := AddSamePoint(nextPoint, p, a);
      if doubled.Err? {
        return Err(doubled.error);
      }
      nextPoint := doubled.value;
    }
    r := Ok(nowPoint);
  }

  /** The points of a group of odd prime order n, as an n-periodic family: pt(k) is k times the
      generator for every k that is not a multiple of n. Associativity of the curve group is
      contained in `Law`; it is a hypothesis here, not a result. */
  datatype Group = Group(p: int, a: int, n: int, pt: int -> Point) {
    ghost predicate Live(k: int) {
      !Divides(n, k)
    }

    ghost predicate Law() {
      && p > 2 && n > 2 && IsPrime(n)
      && (forall j, k {:trigger Cong(j, k, n)} :: Cong(j, k, n) ==> pt(j) == pt(k))
      && (forall k {:trigger AddSamePoint(pt(k), p, a)} :: Live(k) ==> AddSamePoint(pt(k), p, a) == Ok(pt(k + k)))
      && (forall j, k {:trigger AddDiffPoint(pt(j), pt(k), p)} ::
            Live(j) && Live(k) && Live(j - k) && Live(j + k) ==> AddDiffPoint(pt(j), pt(k), p) == Ok(pt(j + k)))
      && (forall j, k {:trigger pt(j).x, pt(k).x} ::
            Live(j) && Live(k) ==> (pt(j).x == pt(k).x <==> Divides(n, j - k) || Divides(n, j + k)))
      && (forall j, k {:trigger pt(j), pt(k)} :: Live(j) && Live(k) && pt(j) == pt(k) ==> Divides(n, j - k))
    }
  }

  lemma LawBasics(g: Group)
    requires g.Law()
    ensures g.p > 2 && g.n > 2 && IsPrime(g.n)
  {
  }

  lemma Periodic(g: Group, j: int, k: int)
    requires g.Law() && Cong(j, k, g.n)
    ensures g.pt(j) == g.pt(k)
  {
    hide Divides, IsPrime, AddSamePoint, AddDiffPoint;
  }

  lemma PowNext(j: nat)
    ensures Pow(2, j + 1) == 2 * Pow(2, j)
  {
  }

  lemma DoubleAt(g: Group, k: int)
    requires g.Law() && g.Live(k)
    ensures AddSamePoint(g.pt(k), g.p, g.a) == Ok(g.pt(k + k)) && g.Live(k + k)
  {
    if Divides(g.n, k + k) {
      assert k + k == 2 * k;
      EuclidLemma(2, k, g.n);
      DivisorAtMost(g.n, 2);
    }
  }

  lemma AddAt(g: Group, j: int, k: int)
    requires g.Law() && g.Live(j) && g.Live(k) && g.Live(j - k) && g.Live(j + k)
    ensures AddDiffPoint(g.pt(j), g.pt(k), g.p) == Ok(g.pt(j + k))
  {
  }

  /** No point of a group of odd order lies on the axis: doubling it would throw. */
  lemma OrdinateNonzero(g: Group, k: int)
    requires g.Law() && g.Live(k)
    ensures !Divides(g.p, g.pt(k).y)
  {
    hide AddSamePoint, InverseOf;
    if Divides(g.p, g.pt(k).y) {
      DividesLinear(g.p, g.pt(k).y, g.pt(k).y, 2, 0);
      NoInverseOfMultiple(2 * g.pt(k).y, g.p);
      DoubleAt(g, k);
      NoInverseNoDouble(g.pt(k), g.p, g.a);
    }
  }

  lemma NoInverseNoDouble(q: Point, p: int, a: int)
    requires p > 0 && InverseOf(2 * q.y, p).Err?
    ensures AddSamePoint(q, p, a).Err?
  {
  }

  /** The digits still to be read hold the high part of m. */
  ghost predicate Split(bin: string, i: nat, j: nat, r: nat, m: nat)
    requires i <= |bin|
  {
    && (forall t :: 0 <= t < |bin| ==> bin[t] == '0' || bin[t] == '1')
    && r < Pow(2, j)
    && m == DigitsValue(bin[..i], 2) * Pow(2, j) + r
  }

  lemma ShiftIdentity(h: int, bit: int, w: int, r: int)
    ensures (h * 2 + bit) * w + r == h * (2 * w) + (bit * w + r)
  {
    Distribute(h * 2, bit, w);
    assert h * 2 * w == h * (2 * w);
  }

  lemma ScanStep(bin: string, i: nat, j: nat, r: nat, m: nat) returns (bit: nat)
    requires 0 < i <= |bin| && Split(bin, i, j, r, m)
    ensures bit == if bin[i - 1] == '1' then 1 else 0
    ensures bit * Pow(2, j) + r >= 0 && Split(bin, i - 1, j + 1, bit * Pow(2, j) + r, m)
    ensures bit == 1 ==> 0 < Pow(2, j) && Pow(2, j) + r <= m
  {
    bit := CharDigit(bin[i - 1]);
    var h := DigitsValue(bin[..i - 1], 2);
    assert bin[..i][..i - 1] == bin[..i - 1];
    ShiftIdentity(h, bit, Pow(2, j), r);
    PowPositive(2, j);
    NonnegativeProduct(h, 2 * Pow(2, j));
    if bit == 0 {
      assert bit * Pow(2, j) == 0;
    } else {
      assert bit * Pow(2, j) == Pow(2, j);
    }
  }

  lemma NonnegativeProduct(x: nat, y: nat)
    ensures x * y >= 0
  {
  }

  /** The accumulator after reading digits of value r. */
  function NowAt(g: Group, d: int, r: int): Option<Point> {
    if r == 0 then None else Some(g.pt(r * d))
  }

  /** Adding w*d to r*d for 0 < r < w: neither index is a multiple of n, nor are sum and difference. */
  lemma AddBelow(g: Group, d: int, r: nat, w: int)
    requires g.Law() && !Divides(g.n, d) && !Divides(g.n, w * d)
    requires 0 < r < w && w + r < g.n
    ensures AddDiffPoint(g.pt(r * d), g.pt(w * d), g.p) == Ok(g.pt((w + r) * d))
  {
    hide Divides, IsPrime, AddDiffPoint;
    LawBasics(g);
    NotMultiple(r, d, g.n);
    NotMultiple(w - r, d, g.n);
    NotMultiple(w + r, d, g.n);
    Distribute(w, r, d);
    Distribute(w - r, r, d);
    NegatedDivides(g.n, (w - r) * d);
    AddAt(g, r * d, w * d);
  }

  lemma AccumulateExact(g: Group, d: int, bit: nat, r: nat, w: int)
    requires g.Law() && !Divides(g.n, d) && !Divides(g.n, w * d)
    requires bit <= 1 && (bit == 1 ==> r < w && w + r < g.n)
    ensures Accumulate(if bit == 1 then '1' else '0', NowAt(g, d, r), g.pt(w * d), g.p) == Ok(NowAt(g, d, bit * w + r))
  {
    hide Group.Law, Divides, AddDiffPoint;
    LawBasics(g);
    if bit == 0 {
      assert 0 * w == 0;
    } else {
      assert 1 * w == w;
      if r > 0 {
        AddBelow(g, d, r, w);
      }
    }
  }

  lemma TwiceProduct(w: int, d: int)
    ensures w * d + w * d == (2 * w) * d
  {
    Distribute(w, w, d);
  }

  lemma DoubleExact(g: Group, d: int, w: int)
    requires g.Law() && !Divides(g.n, w * d)
    ensures AddSamePoint(g.pt(w * d), g.p, g.a) == Ok(g.pt((2 * w) * d))
    ensures !Divides(g.n, (2 * w) * d)
  {
    hide Divides, IsPrime, AddSamePoint;
    DoubleAt(g, w * d);
    TwiceProduct(w, d);
  }

  /** Below the order of the group every addition of the loop is between points with different
      abscissas and every doubling, the unused last one included, is of a point with nonzero
      ordinate: the accumulator is r*d and the running point 2^j*d after j digits of value r. */
  lemma {:induction false} ScanExact(g: Group, d: int, bin: string, i: nat, j: nat, r: nat, m: nat)
    requires g.Law() && !Divides(g.n, d) && m < g.n && i <= |bin| && Split(bin, i, j, r, m)
    requires !Divides(g.n, Pow(2, j) * d)
    ensures Scan(bin, i, NowAt(g, d, r), g.pt(Pow(2, j) * d), g.p, g.a) == Ok(NowAt(g, d, m))
    decreases i
  {
    hide *;
    LawBasics(g);
    PowNext(j);
    if i == 0 {
      ScanDone(bin, j, r, m);
      ScanEnd(bin, NowAt(g, d, r), g.pt(Pow(2, j) * d), g.p, g.a);
    } else {
      var bit := ScanStep(bin, i, j, r, m);
      AccumulateExact(g, d, bit, r, Pow(2, j));
      DoubleExact(g, d, Pow(2, j));
      var now, next := NowAt(g, d, bit * Pow(2, j) + r), g.pt(Pow(2, j + 1) * d);
      ScanOnce(bin, i, NowAt(g, d, r), g.pt(Pow(2, j) * d), now, next, g.p, g.a);
      ScanExact(g, d, bin, i - 1, j + 1, bit * Pow(2, j) + r, m);
    }
  }

  lemma ScanDone(bin: string, j: nat, r: nat, m: nat)
    requires Split(bin, 0, j, r, m)
    ensures r == m
  {
    assert bin[..0] == "";
    assert 0 * Pow(2, j) == 0;
  }

  lemma ScanEnd(bin: string, now: Option<Point>, next: Point, p: int, a: int)
    requires p > 0
    ensures Scan(bin, 0, now, next, p, a) == Ok(now)
  {
  }

  lemma ScanOnce(bin: string, i: nat, now: Option<Point>, next: Point, now': Option<Point>, next': Point, p: int, a: int)
    requires p > 0 && 0 < i <= |bin|
    requires Accumulate(if bin[i - 1] == '1' then '1' else '0', now, next, p) == Ok(now')
    requires AddSamePoint(next, p, a) == Ok(next')
    ensures Scan(bin, i, now, next, p, a) == Scan(bin, i - 1, now', next', p, a)
  {
  }

  lemma NotMultiple(k: int, d: int, n: int)
    requires IsPrime(n) && 0 < k < n && !Divides(n, d)
    ensures !Divides(n, k * d)
  {
    if Divides(n, k * d) {
      EuclidLemma(k, d, n);
      DivisorAtMost(n, k);
    }
  }

  lemma NegatedDivides(n: int, k: int)
    ensures Divides(n, k) <==> Divides(n, -k)
  {
    if Divides(n, k) {
      DividesLinear(n, k, k, -1, 0);
    }
    if Divides(n, -k) {
      DividesLinear(n, -k, -k, -1, 0);
    }
  }

  lemma UnitTimes(d: int)
    ensures Pow(2, 0) * d == d && d * 1 == d
  {
  }

  lemma SplitAtStart(m: nat)
    ensures var bin := ToRadix(m, 2); Split(bin, |bin|, 0, 0, m)
  {
    var bin := ToRadix(m, 2);
    ValueOfToRadix(m, 2);
    assert bin[..|bin|] == bin;
    forall t | 0 <= t < |bin|
      ensures bin[t] == '0' || bin[t] == '1'
    {
      assert CharDigit(bin[t]) < 2;
    }
  }

  /** `getPointByBig(m)` on d times the generator is m*d times the generator, and null for m = 0. */
  lemma PointByBigExact(g: Group, d: int, m: nat)
    requires g.Law() && !Divides(g.n, d) && m < g.n
    ensures PointByBig(m, g.p, g.a, g.pt(d)) == Ok(NowAt(g, d, m))
  {
    var bin := ToRadix(m, 2);
    SplitAtStart(m);
    UnitTimes(d);
    ScanExact(g, d, bin, |bin|, 0, 0, m);
  }

  /** A minus sign in front of the digits is read as one more digit that is not 1: nothing is added and
      the running point is doubled once more. */
  lemma {:induction false} ScanMinus(g: Group, bin: string, i: nat, now: Option<Point>, k: int)
    requires g.Law() && i <= |bin| && g.Live(k)
    ensures Scan("-" + bin, i + 1, now, g.pt(k), g.p, g.a) == Scan(bin, i, now, g.pt(k), g.p, g.a)
    decreases i
  {
    hide *;
    LawBasics(g);
    DoubleAt(g, k);
    MinusUnread("-" + bin, now, g.pt(k), g.pt(k + k), g.p, g.a);
    if i == 0 {
      ScanEnd(bin, now, g.pt(k), g.p, g.a);
    } else {
      var sum := Accumulate(bin[i - 1], now, g.pt(k), g.p);
      if sum.Ok? {
        ScanMinus(g, bin, i - 1, sum.value, k + k);
      }
      ScanSameDigit(bin, i, now, g.pt(k), g.pt(k + k), g.p, g.a);
    }
  }

  lemma MinusUnread(bin: string, now: Option<Point>, next: Point, next': Point, p: int, a: int)
    requires p > 0 && bin != "" && bin[0] == '-' && AddSamePoint(next, p, a) == Ok(next')
    ensures Scan(bin, 1, now, next, p, a) == Ok(now)
  {
    hide AddSamePoint;
    assert Scan(bin, 0, now, next', p, a) == Ok(now);
  }

  lemma ScanSameDigit(bin: string, i: nat, now: Option<Point>, next: Point, next': Point, p: int, a: int)
    requires p > 0 && 0 < i <= |bin| && AddSamePoint(next, p, a) == Ok(next')
    requires var sum := Accumulate(bin[i - 1], now, next, p);
             sum.Ok? ==> Scan("-" + bin, i, sum.value, next', p, a) == Scan(bin, i - 1, sum.value, next', p, a)
    ensures Scan("-" + bin, i + 1, now, next, p, a) == Scan(bin, i, now, next, p, a)
  {
    hide AddSamePoint, Accumulate;
    assert ("-" + bin)[i] == bin[i - 1];
  }

  /** For a negative scalar `getPointByBig` answers the multiple for its absolute value, not its negative. */
  lemma PointByBigNegative(g: Group, d: int, m: int)
    requires g.Law() && !Divides(g.n, d) && 0 < m < g.n
    ensures PointByBig(-m, g.p, g.a, g.pt(d)) == Ok(Some(g.pt(m * d)))
  {
    hide Group.Law, Divides, Scan, ToRadix;
    LawBasics(g);
    var bin := ToRadix(m, 2);
    assert g.Live(d);
    assert |"-" + bin| == |bin| + 1;
    ScanMinus(g, bin, |bin|, None, d);
    PointByBigExact(g, d, m);
  }

  // ----- signing -----

  datatype Signature = Signature(r: int, s: int, recovery: nat)

  /** One turn of the retry loop of `sign` with the drawn nonce k; None means `continue`. */
  function SignWith(n: int, p: int, a: int, d: int, pointG: Point, e: int, k: int): Result<Option<Signature>>
    requires n > 0 && p > 0
  {
    if k < 1 || k >= n - 1 then Ok(None)
    else
      var point :- PointByBig(k, p, a, pointG);
      if point.None? then Err("NoSuchMethodError")
      else
        var r := PositiveMod(point.value.x, n);
        if r == 0 then Ok(None)
        else
          var i :- InverseOf(k, n);
          var s := PositiveMod((e + r * d) * i, n);
          var recovery := (if point.value.y % 2 == 1 then 1 else 0) + (if point.value.x != r then 2 else 0);
          if s == 0 then Ok(None) else Ok(Some(Signature(r, s, recovery)))
  }

  /** The first nonce of the stream that is accepted decides the signature. */
  function FirstSigned(n: int, p: int, a: int, d: int, pointG: Point, e: int, nonces: seq<int>): Result<Option<Signature>>
    requires n > 0 && p > 0
  {
    if nonces == [] then Ok(None)
    else
      var first :- SignWith(n, p, a, d, pointG, e, nonces[0]);
      if first.Some? then Ok(first) else FirstSigned(n, p, a, d, pointG, e, nonces[1..])
  }

  /** `sign`, with the nonces it draws given as a finite stream. */
  method Sign(n: int, p: int, a: int, d: int, pointG: Point, bigHash: int, nonces: seq<int>)
    returns (result: Result<Option<Signature>>)
    requires n > 0 && p > 0
    ensures result == FirstSigned(n, p, a, d, pointG, bigHash, nonces)
  {
    hide PointByBig, InverseOf, PositiveMod;
    for i := 0 to |nonces|
      invariant FirstSigned(n, p, a, d, pointG, bigHash, nonces[i..])
             == FirstSigned(n, p, a, d, pointG, bigHash, nonces)
    {
      var k := nonces[i];
      assert nonces[i..][0] == k && nonces[i..][1..] == nonces[i + 1..];
      if k < 1 || k >= n - 1 {
        continue;
      }
      var point := GetPointByBig(k, p, a, pointG);
      if point.Err? {
        return Err(point.error);
      }
      if point.value.None? {
        return Err("NoSuchMethodError");
      }
      var q := point.value.value;
      var r := PositiveMod(q.x, n);
      if r == 0 {
        continue;
      }
      var inverse := InverseMulti(k, n);
      if inverse.Err? {
        return Err(inverse.error);
      }
      var s := PositiveMod((bigHash + r * d) * inverse.value, n);
      var recovery := (if q.y % 2 == 1 then 1 else 0) + (if q.x != r then 2 else 0);
      if s == 0 {
        continue;
      }
      return Ok(Some(Signature(r, s, recovery)));
    }
    result := Ok(None);
  }

  // ----- verification -----

  /** The sum of the two multiplied points, with w the inverse of s. */
  function VerifierPoint(n: int, p: int, a: int, pointG: Point, pointQ: Point, r: int, e: int, w: int): Result<Point>
    requires n > 0 && p > 0
  {
    var q1 :- PointByBig(PositiveMod(e * w, n), p, a, pointG);
    var q2 :- PointByBig(PositiveMod(r * w, n), p, a, pointQ);
    if q1.None? || q2.None? then Err("NoSuchMethodError")
    else if q1.value == q2.value then AddSamePoint(q1.value, p, a)
    else AddDiffPoint(q1.value, q2.value, p)
  }

  function CurveVerify(n: int, p: int, a: int, pointG: Point, pointQ: Point, r: int, s: int, e: int): Result<bool>
    requires n > 0 && p > 0
  {
    if r < 1 || r >= n then Ok(false)
    else if s < 1 || s >= n then Ok(false)
    else
      var w :- InverseOf(s, n);
      var pointR :- VerifierPoint(n, p, a, pointG, pointQ, r, e, w);
      if pointR.x == 0 && pointR.y == 0 then Ok(false)
      else Ok(PositiveMod(pointR.x, n) == r)
  }

  /** The index of the point the verifier recomputes: (e + r*d) / s modulo n. */
  function VerifierIndex(n: int, d: int, r: int, s: int, e: int): int
    requires n > 0
  {
    match InverseOf(s, n)
    case Ok(w) => (e + r * d) * w
    case Err(_) => 0
  }

  /** It solves k*s = e + r*d, and so does only what is congruent to it. */
  lemma IndexSolves(n: int, d: int, r: int, s: int, e: int, k: int)
    requires IsPrime(n) && 1 <= s < n
    ensures n > 0 && (Cong(k * s, e + r * d, n) <==> Cong(k, VerifierIndex(n, d, r, s, e), n))
  {
    hide IsPrime, Divides, Cong, InverseOf;
    SmallNotMultiple(s, n);
    PrimeInverse(s, n);
    PrimePositive(n);
    var w, t := InverseOf(s, n).value, e + r * d;
    CongRefl(t, n);
    CongMul(t, t, w * s, 1, n);
    Associate(t, w, s);
    // t*w solves the equation
    assert Cong(t * w * s, t, n);
    if Cong(k * s, t, n) {
      CongSym(t * w * s, t, n);
      CongTrans(k * s, t, t * w * s, n);
      Commute(k, s);
      Commute(t * w, s);
      CancelFactor(s, k, t * w, n);
    } else if Cong(k, t * w, n) {
      CongRefl(s, n);
      CongMul(k, t * w, s, s, n);
      CongTrans(k * s, t * w * s, t, n);
    }
  }

  lemma PrimePositive(n: int)
    requires IsPrime(n)
    ensures n > 1
  {
  }

  lemma ScaledResidue(x: int, w: int, n: int)
    requires IsPrime(n) && !Divides(n, w)
    ensures var u := PositiveMod(x * w, n);
            0 <= u < n && Cong(u, x * w, n) && (u == 0 <==> Divides(n, x))
  {
    PositiveModIsMod(x * w, n);
    CongMod(x * w, n);
    DividesIffRemainder(n, x * w);
    if Divides(n, x) {
      DividesLinear(n, x, x, w, 0);
      assert w * x + 0 * x == x * w;
    } else if Divides(n, x * w) {
      EuclidLemma(x, w, n);
    }
  }

  lemma InverseNotMultiple(s: int, w: int, n: int)
    requires IsPrime(n) && Cong(w * s, 1, n)
    ensures !Divides(n, w)
  {
    if Divides(n, w) {
      DividesLinear(n, w, w * s - 1, s, -1);
      assert s * w + -1 * (w * s - 1) == 1;
      DivisorAtMost(n, 1);
    }
  }

  lemma CombineIndices(e: int, r: int, d: int, w: int, u1: int, u2: int, n: int)
    requires Cong(u1, e * w, n) && Cong(u2, r * w, n)
    ensures Cong(u1 + u2 * d, (e + r * d) * w, n)
  {
    hide Cong;
    CongRefl(d, n);
    CongMul(u2, r * w, d, d, n);
    CongAdd(u1, e * w, u2 * d, r * w * d, n);
    Distribute(e, r * d, w);
    Associate(r, w, d);
    Associate(r, d, w);
    Commute(w, d);
  }

  /** The final choice of addition: it throws exactly on two opposite points. */
  lemma AddChoice(g: Group, j: int, k: int)
    requires g.Law() && g.Live(j) && g.Live(k)
    ensures var sum := if g.pt(j) == g.pt(k) then AddSamePoint(g.pt(j), g.p, g.a)
                       else AddDiffPoint(g.pt(j), g.pt(k), g.p);
            if Divides(g.n, j + k) then sum.Err? else sum == Ok(g.pt(j + k))
  {
    hide Divides, IsPrime, AddSamePoint;
    if Divides(g.n, j - k) {
      assert Cong(j, k, g.n);
      DoubleAt(g, j);
      Multiple(g.n, 0, j - j);
      CongAdd(j, j, j, k, g.n);
      assert Cong(j + j, j + k, g.n);
      SameDivisibility(g.n, j + j, j + k);
    } else if Divides(g.n, j + k) {
      assert g.pt(j).x == g.pt(k).x;
      Multiple(g.p, 0, 0);
      NoInverseOfMultiple(0, g.p);
    } else {
      AddAt(g, j, k);
    }
  }

  /** What `curveVerify` answers for the public key of d, for every r, s and hash e. It throws in
      exactly two cases: e is a multiple of n, so that u1*G is null, and e + r*d is a multiple of n,
      so that the two points are opposite. */
  lemma VerifyExact(g: Group, d: int, r: int, s: int, e: int)
    requires g.Law() && g.Live(d)
    ensures var v := CurveVerify(g.n, g.p, g.a, g.pt(1), g.pt(d), r, s, e);
            if r < 1 || r >= g.n || s < 1 || s >= g.n then v == Ok(false)
            else if Divides(g.n, e) || Divides(g.n, e + r * d) then v.Err?
            else v == Ok(g.pt(VerifierIndex(g.n, d, r, s, e)).x % g.n == r)
  {
    hide Group.Law, IsPrime, Divides, InverseOf, PositiveMod, VerifierPoint;
    LawBasics(g);
    if 1 <= r < g.n && 1 <= s < g.n {
      SmallNotMultiple(s, g.n);
      PrimeInverse(s, g.n);
      var w := InverseOf(s, g.n).value;
      InverseNotMultiple(s, w, g.n);
      VerifyPoints(g, d, r, e, w);
      DividesProduct(g.n, e + r * d, w);
      if g.Live(e) && g.Live(e + r * d) {
        PositiveModIsMod(g.pt((e + r * d) * w).x, g.n);
        ZeroResidue(g.n);
      }
    }
  }

  lemma ZeroResidue(n: int)
    requires n > 0
    ensures 0 % n == 0
  {
  }

  lemma VerifyPoints(g: Group, d: int, r: int, e: int, w: int)
    requires g.Law() && g.Live(d) && g.Live(w) && 1 <= r < g.n
    ensures var v := VerifierPoint(g.n, g.p, g.a, g.pt(1), g.pt(d), r, e, w);
            if Divides(g.n, e) || Divides(g.n, (e + r * d) * w) then v.Err?
            else v == Ok(g.pt((e + r * d) * w))
  {
    hide Group.Law, IsPrime, Divides, Cong, PositiveMod, VerifierPoint, PointByBig, AddSamePoint, AddDiffPoint;
    LawBasics(g);
    var n := g.n;
    SmallNotMultiple(r, n);
    SmallNotMultiple(1, n);
    ScaledResidue(e, w, n);
    ScaledResidue(r, w, n);
    var u1, u2 := PositiveMod(e * w, n), PositiveMod(r * w, n);
    PointByBigExact(g, 1, u1);
    PointByBigExact(g, d, u2);
    UnitTimes(u1);
    VerifierPointFrom(n, g.p, g.a, g.pt(1), g.pt(d), r, e, w, NowAt(g, 1, u1), NowAt(g, d, u2));
    if g.Live(e) {
      NotMultiple(u2, d, n);
      SmallNotMultiple(u1, n);
      CombineIndices(e, r, d, w, u1, u2, n);
      SumChoice(g, u1, u2 * d, (e + r * d) * w);
    }
  }

  lemma SumChoice(g: Group, j: int, k: int, m: int)
    requires g.Law() && g.Live(j) && g.Live(k) && Cong(j + k, m, g.n)
    ensures var sum := if g.pt(j) == g.pt(k) then AddSamePoint(g.pt(j), g.p, g.a)
                       else AddDiffPoint(g.pt(j), g.pt(k), g.p);
            if Divides(g.n, m) then sum.Err? else sum == Ok(g.pt(m))
  {
    AddChoice(g, j, k);
    SameDivisibility(g.n, j + k, m);
  }

  lemma VerifierPointFrom(n: int, p: int, a: int, pointG: Point, pointQ: Point, r: int, e: int, w: int,
                          q1: Option<Point>, q2: Option<Point>)
    requires n > 0 && p > 0
    requires PointByBig(PositiveMod(e * w, n), p, a, pointG) == Ok(q1)
    requires PointByBig(PositiveMod(r * w, n), p, a, pointQ) == Ok(q2)
    ensures VerifierPoint(n, p, a, pointG, pointQ, r, e, w)
         == if q1.None? || q2.None? then Err("NoSuchMethodError")
            else if q1.value == q2.value then AddSamePoint(q1.value, p, a)
            else AddDiffPoint(q1.value, q2.value, p)
  {
  }

  lemma SmallNotMultiple(k: int, n: int)
    requires 0 < k < n
    ensures !Divides(n, k)
  {
    if Divides(n, k) {
      DivisorAtMost(n, k);
    }
  }

  lemma SameDivisibility(n: int, x: int, y: int)
    requires Cong(x, y, n)
    ensures Divides(n, x) <==> Divides(n, y)
  {
    if Divides(n, x) {
      DividesLinear(n, x, x - y, 1, -1);
    }
    if Divides(n, y) {
      DividesLinear(n, y, x - y, 1, 1);
    }
  }

  lemma DividesProduct(n: int, x: int, w: int)
    requires IsPrime(n) && !Divides(n, w)
    ensures Divides(n, x * w) <==> Divides(n, x)
  {
    if Divides(n, x * w) {
      EuclidLemma(x, w, n);
    }
    if Divides(n, x) {
      DividesLinear(n, x, x, w, 0);
      assert w * x + 0 * x == x * w;
    }
  }

  /** sig is the ECDSA signature of hash e under d for the nonce k with q = k*G: r is the abscissa of q
      modulo n, k*s = e + r*d modulo n, and the recovery number is odd for an odd ordinate and has its
      second bit set when the abscissa was reduced. */
  ghost predicate IsSignature(sig: Signature, n: int, d: int, e: int, k: int, q: Point)
    requires n > 0
  {
    && 1 <= sig.r < n && 1 <= sig.s < n
    && sig.r == q.x % n && Cong(k * sig.s, e + sig.r * d, n)
    && (sig.recovery % 2 == 1 <==> q.y % 2 == 1)
    && (sig.recovery < 2 <==> q.x == sig.r) && sig.recovery < 4
  }

  /** A nonce gives a signature when it is in the range the code allows, the abscissa of k*G is not 0 modulo
      n, and neither is e + r*d. */
  ghost predicate Usable(g: Group, d: int, e: int, k: int)
    requires g.n > 0
  {
    && 1 <= k < g.n - 1
    && !Divides(g.n, g.pt(k).x)
    && !Divides(g.n, e + g.pt(k).x % g.n * d)
  }

  /** One turn of `sign` never throws; it signs exactly for the usable nonces, and what it answers is the
      signature for the nonce. */
  lemma SignWithExact(g: Group, d: int, e: int, k: int)
    requires g.Law()
    ensures g.n > 0
    ensures var o := SignWith(g.n, g.p, g.a, d, g.pt(1), e, k);
            && o.Ok? && (o.value.Some? <==> Usable(g, d, e, k))
            && (o.value.Some? ==> IsSignature(o.value.value, g.n, d, e, k, g.pt(k)))
  {
    hide Group.Law, SignWith, IsPrime, Divides, Cong, PointByBig, InverseOf, IsSignature, Usable;
    LawBasics(g);
    var n := g.n;
    if 1 <= k < n - 1 {
      SmallNotMultiple(1, n);
      SmallNotMultiple(k, n);
      PointByBigExact(g, 1, k);
      UnitTimes(k);
      PrimeInverse(k, n);
      SignWithFrom(g, d, e, k, InverseOf(k, n).value);
    } else {
      SignOutOfRange(g, d, e, k);
    }
  }

  lemma SignOutOfRange(g: Group, d: int, e: int, k: int)
    requires g.n > 0 && g.p > 0 && !(1 <= k < g.n - 1)
    ensures SignWith(g.n, g.p, g.a, d, g.pt(1), e, k) == Ok(None) && !Usable(g, d, e, k)
  {
  }

  lemma SignWithFrom(g: Group, d: int, e: int, k: int, i: int)
    requires g.p > 0 && IsPrime(g.n) && 1 <= k < g.n - 1
    requires PointByBig(k, g.p, g.a, g.pt(1)) == Ok(Some(g.pt(k))) && InverseOf(k, g.n) == Ok(i) && Cong(i * k, 1, g.n)
    ensures var o := SignWith(g.n, g.p, g.a, d, g.pt(1), e, k);
            && o.Ok? && (o.value.Some? <==> Usable(g, d, e, k))
            && (o.value.Some? ==> IsSignature(o.value.value, g.n, d, e, k, g.pt(k)))
  {
    hide PositiveMod, PointByBig, InverseOf, Cong, Divides, IsPrime;
    var x := g.pt(k).x;
    var r := PositiveMod(x, g.n);
    PositiveModIsMod(x, g.n);
    DividesIffRemainder(g.n, x);
    NonceTimesSignature(k, i, e + r * d, g.n);
    InverseNotMultiple(k, i, g.n);
    ScaledResidue(e + r * d, i, g.n);
  }

  lemma NonceTimesSignature(k: int, i: int, t: int, n: int)
    requires n > 0 && Cong(i * k, 1, n)
    ensures var s := PositiveMod(t * i, n); 0 <= s < n && Cong(k * s, t, n)
  {
    hide Cong, PositiveMod;
    var s := PositiveMod(t * i, n);
    PositiveModIsMod(t * i, n);
    CongMod(t * i, n);
    CongRefl(k, n);
    CongMul(k, k, s, t * i, n);
    CongRefl(t, n);
    CongMul(t, t, i * k, 1, n);
    Associate(k, t, i);
    Commute(k, i);
    CongTrans(k * s, t * (i * k), t, n);
  }

  /** From k*s = t and w*s = 1 the verifier recovers the nonce: t*w = k. */
  lemma NonceRecovered(k: int, s: int, t: int, w: int, n: int)
    requires Cong(k * s, t, n) && Cong(w * s, 1, n)
    ensures Cong(t * w, k, n)
  {
    hide Cong;
    CongRefl(w, n);
    CongMul(k * s, t, w, w, n);
    CongRefl(k, n);
    CongMul(k, k, w * s, 1, n);
    Commute(w, s);
    Associate(k, s, w);
    CongSym(k * s * w, t * w, n);
    CongTrans(t * w, k * (w * s), k, n);
  }

  /** ECDSA completeness with its exact condition: whatever is a signature for a nonce in range is
      verified, unless the hash is a multiple of the group order, when verification throws. */
  lemma SignedIsVerified(g: Group, d: int, e: int, k: int, sig: Signature)
    requires g.Law() && g.Live(d) && g.n > 0 && 1 <= k < g.n && IsSignature(sig, g.n, d, e, k, g.pt(k))
    ensures var v := CurveVerify(g.n, g.p, g.a, g.pt(1), g.pt(d), sig.r, sig.s, e);
            if e % g.n == 0 then v.Err? else v == Ok(true)
  {
    hide Group.Law, CurveVerify, Divides, IsPrime, InverseOf, Cong;
    LawBasics(g);
    VerifyExact(g, d, sig.r, sig.s, e);
    DividesIffRemainder(g.n, e);
    SmallNotMultiple(sig.s, g.n);
    PrimeInverse(sig.s, g.n);
    var w := InverseOf(sig.s, g.n).value;
    var t := e + sig.r * d;
    NotMultiple(k, sig.s, g.n);
    SameDivisibility(g.n, k * sig.s, t);
    NonceRecovered(k, sig.s, t, w, g.n);
    Periodic(g, t * w, k);
  }

  /** `sign` answers with the signature for the first usable nonce of its stream. */
  lemma {:induction false} SignsWithFirstUsable(g: Group, d: int, e: int, nonces: seq<int>, i: nat)
    requires g.Law() && g.n > 0 && i < |nonces| && Usable(g, d, e, nonces[i])
    requires forall j :: 0 <= j < i ==> !Usable(g, d, e, nonces[j])
    ensures var o := FirstSigned(g.n, g.p, g.a, d, g.pt(1), e, nonces);
            o.Ok? && o.value.Some? && IsSignature(o.value.value, g.n, d, e, nonces[i], g.pt(nonces[i]))
    decreases |nonces|
  {
    hide Group.Law, SignWith, Usable, IsSignature, IsPrime;
    LawBasics(g);
    SignWithExact(g, d, e, nonces[0]);
    if i > 0 {
      SignsWithFirstUsable(g, d, e, nonces[1..], i - 1);
    }
  }

  /** And when no nonce of the stream is usable it goes on drawing. */
  lemma {:induction false} NoUsableNonce(g: Group, d: int, e: int, nonces: seq<int>)
    requires g.Law() && g.n > 0 && forall j :: 0 <= j < |nonces| ==> !Usable(g, d, e, nonces[j])
    ensures FirstSigned(g.n, g.p, g.a, d, g.pt(1), e, nonces) == Ok(None)
    decreases |nonces|
  {
    hide Group.Law, SignWith, Usable, IsPrime;
    LawBasics(g);
    if nonces != [] {
      SignWithExact(g, d, e, nonces[0]);
      NoUsableNonce(g, d, e, nonces[1..]);
    }
  }

  lemma FirstUsable(g: Group, d: int, e: int, nonces: seq<int>) returns (i: nat)
    requires g.n > 0
    ensures i <= |nonces| && forall j :: 0 <= j < i ==> !Usable(g, d, e, nonces[j])
    ensures i < |nonces| ==> Usable(g, d, e, nonces[i])
  {
    hide Usable;
    i := 0;
    while i < |nonces| && !Usable(g, d, e, nonces[i])
      invariant i <= |nonces| && forall j :: 0 <= j < i ==> !Usable(g, d, e, nonces[j])
    {
      i := i + 1;
    }
  }

  /** The whole exchange: `sign` never throws and answers exactly when some nonce it draws is usable; then
      `curveVerify` accepts with the public key that `getPointByBig` derives from the private key. */
  lemma SignThenVerify(g: Group, d: nat, e: int, nonces: seq<int>)
    requires g.Law() && 0 < d < g.n && e % g.n != 0
    ensures PointByBig(d, g.p, g.a, g.pt(1)) == Ok(Some(g.pt(d)))
    ensures var o := FirstSigned(g.n, g.p, g.a, d, g.pt(1), e, nonces);
            && o.Ok?
            && (o.value.Some? <==> exists i :: 0 <= i < |nonces| && Usable(g, d, e, nonces[i]))
            && (o.value.Some? ==>
                  CurveVerify(g.n, g.p, g.a, g.pt(1), g.pt(d), o.value.value.r, o.value.value.s, e) == Ok(true))
  {
    hide Group.Law, CurveVerify, PointByBig, FirstSigned, IsSignature, Divides, IsPrime;
    LawBasics(g);
    SmallNotMultiple(1, g.n);
    SmallNotMultiple(d, g.n);
    PointByBigExact(g, 1, d);
    UnitTimes(d);
    var i := FirstUsable(g, d, e, nonces);
    if i < |nonces| {
      SignsWithFirstUsable(g, d, e, nonces, i);
      var sig := FirstSigned(g.n, g.p, g.a, d, g.pt(1), e, nonces).value.value;
      SignedIsVerified(g, d, e, nonces[i], sig);
    } else {
      NoUsableNonce(g, d, e, nonces);
    }
  }
}
