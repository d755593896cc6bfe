/** The group hypothesis of `Ecdsa` is met by the same equation y^2 = x^3 + 7 over thirteen elements,
    whose seven points form a group of prime order: the results there are not about nothing. */
module SmallCurve {
  import opened Basics
  import opened Modular
  import opened Inverse
  import opened CurvePoints
  import opened Ecdsa

  /** k times the generator (7, 5), for k = 1, ..., 6. */
  function Table(k: int): Point {
    match k
    case 1 => Point(7, 5)
    case 2 => Point(8, 5)
    case 3 => Point(11, 8)
    case 4 => Point(11, 5)
    case 5 => Point(8, 8)
    case _ => Point(7, 8)
  }

  function Family(k: int): Point {
    Table(k % 7)
  }

  const SMALL: Group := Group(13, 0, 7, Family)

  lemma SmallPrimes()
    ensures IsPrime(7) && IsPrime(13)
  {
    forall d | 1 < d < 7
      ensures !Divides(d, 7)
    {
      DividesIffRemainder(d, 7);
    }
    forall d | 1 < d < 13
      ensures !Divides(d, 13)
    {
      DividesIffRemainder(d, 13);
    }
  }

  /** The slope the code computes is the residue whose product with the denominator is the numerator. */
  lemma SlopeIs(num: int, den: int, u: int)
    requires 0 <= u < 13 && (u * den - num) % 13 == 0 && den % 13 != 0
    ensures InverseOf(den, 13).Ok? && PositiveMod(num * InverseOf(den, 13).value, 13) == u
  {
    hide IsPrime, Divides, InverseOf, PositiveMod;
    SmallPrimes();
    DividesIffRemainder(13, den);
    DividesIffRemainder(13, u * den - num);
    PrimeInverse(den, 13);
    var ru := PositiveMod(num * InverseOf(den, 13).value, 13);
    SlopeTimesDenominator(ru, num, InverseOf(den, 13).value, den, 13);
    CongSym(u * den, num, 13);
    CongTrans(ru * den, num, u * den, 13);
    Commute(ru, den);
    Commute(u, den);
    CancelFactor(den, ru, u, 13);
    PositiveModIsMod(num * InverseOf(den, 13).value, 13);
    CongUnique(ru, u, 13);
  }

  /** r is the reflected third point of a line of slope u through q1 and q2. */
  predicate Third(u: int, q1: Point, q2: Point, r: Point) {
    r.x == (u * u - q1.x - q2.x) % 13 && r.y == (u * (q1.x - r.x) - q1.y) % 13
  }

  lemma ThirdIs(u: int, q1: Point, q2: Point, r: Point)
    requires Third(u, q1, q2, r)
    ensures FromSlope(u, q1, q2, 13) == r
  {
    PositiveModIsMod(u * u - q1.x - q2.x, 13);
    PositiveModIsMod(u * (q1.x - r.x) - q1.y, 13);
  }

  lemma NegatedSlope(u: int, num: int, den: int, num': int, den': int)
    requires num' == -num && den' == -den && (u * den - num) % 13 == 0 && den % 13 != 0
    ensures (u * den' - num') % 13 == 0 && den' % 13 != 0
  {
    var e := u * den - num;
    assert u * den' == -(u * den);
    assert e == 13 * (e / 13) && -e == 13 * -(e / 13);
  }

  lemma ChordIs(q1: Point, q2: Point, u: int, r: Point)
    requires 0 <= u < 13 && (u * (q2.x - q1.x) - (q2.y - q1.y)) % 13 == 0 && (q2.x - q1.x) % 13 != 0
    requires Third(u, q1, q2, r) && Third(u, q2, q1, r)
    ensures AddDiffPoint(q1, q2, 13) == Ok(r) && AddDiffPoint(q2, q1, 13) == Ok(r)
  {
    hide InverseOf, Third, PositiveMod, FromSlope;
    SlopeIs(q2.y - q1.y, q2.x - q1.x, u);
    NegatedSlope(u, q2.y - q1.y, q2.x - q1.x, q1.y - q2.y, q1.x - q2.x);
    SlopeIs(q1.y - q2.y, q1.x - q2.x, u);
    ThirdIs(u, q1, q2, r);
    ThirdIs(u, q2, q1, r);
  }

  lemma TangentIs(q: Point, u: int, r: Point)
    requires 0 <= u < 13 && (u * (2 * q.y) - (3 * (q.x * q.x) + 0)) % 13 == 0 && (2 * q.y) % 13 != 0
    requires Third(u, q, q, r)
    ensures AddSamePoint(q, 13, 0) == Ok(r)
  {
    hide InverseOf, Third, PositiveMod, FromSlope;
    SlopeIs(3 * (q.x * q.x) + 0, 2 * q.y, u);
    ThirdIs(u, q, q, r);
  }

  /** The sums Table(i) + Table(j), in either order. */
  predicate Sums(i: int, j: int) {
    && AddDiffPoint(Table(i), Table(j), 13) == Ok(Table((i + j) % 7))
    && AddDiffPoint(Table(j), Table(i), 13) == Ok(Table((i + j) % 7))
  }

  lemma ChordsOfFirst()
    ensures Sums(1, 2) && Sums(1, 3) && Sums(1, 4) && Sums(1, 5)
  {
    hide AddDiffPoint;
    ChordIs(Point(7, 5), Point(8, 5), 0, Point(11, 8));
    ChordIs(Point(7, 5), Point(11, 8), 4, Point(11, 5));
    ChordIs(Point(7, 5), Point(11, 5), 0, Point(8, 8));
    ChordIs(Point(7, 5), Point(8, 8), 3, Point(7, 8));
  }

  lemma ChordsOfSecond()
    ensures Sums(2, 3) && Sums(2, 4) && Sums(2, 6)
  {
    hide AddDiffPoint;
    ChordIs(Point(8, 5), Point(11, 8), 1, Point(8, 8));
    ChordIs(Point(8, 5), Point(11, 5), 0, Point(7, 8));
    ChordIs(Point(8, 5), Point(7, 8), 10, Point(7, 5));
  }

  lemma ChordsOfOthers()
    ensures Sums(3, 5) && Sums(3, 6) && Sums(4, 5) && Sums(4, 6) && Sums(5, 6)
  {
    hide AddDiffPoint;
    ChordIs(Point(11, 8), Point(8, 8), 0, Point(7, 5));
    ChordIs(Point(11, 8), Point(7, 8), 0, Point(8, 5));
    ChordIs(Point(11, 5), Point(8, 8), 12, Point(8, 5));
    ChordIs(Point(11, 5), Point(7, 8), 9, Point(11, 8));
    ChordIs(Point(8, 8), Point(7, 8), 0, Point(11, 5));
  }

  lemma Chord(i: int, j: int)
    requires 1 <= i < j <= 6 && i + j != 7
    ensures Sums(i, j)
  {
    hide Sums;
    ChordsOfFirst();
    ChordsOfSecond();
    ChordsOfOthers();
  }

  predicate Doubled(i: int) {
    AddSamePoint(Table(i), 13, 0) == Ok(Table((i + i) % 7))
  }

  lemma TangentsLow()
    ensures Doubled(1) && Doubled(2) && Doubled(3)
  {
    hide AddSamePoint;
    TangentIs(Point(7, 5), 3, Point(8, 5));
    TangentIs(Point(8, 5), 1, Point(11, 5));
    TangentIs(Point(11, 8), 4, Point(7, 8));
  }

  lemma TangentsHigh()
    ensures Doubled(4) && Doubled(5) && Doubled(6)
  {
    hide AddSamePoint;
    TangentIs(Point(11, 5), 9, Point(7, 5));
    TangentIs(Point(8, 8), 12, Point(11, 8));
    TangentIs(Point(7, 8), 10, Point(8, 8));
  }

  lemma Tangent(i: int)
    requires 1 <= i <= 6
    ensures Doubled(i)
  {
    hide Doubled;
    TangentsLow();
    TangentsHigh();
  }

  lemma Mod7(q: int, r: int)
    ensures (7 * q + r) % 7 == r % 7
  {
  }

  lemma SumResidue(j: int, k: int)
    ensures (j + k) % 7 == (j % 7 + k % 7) % 7
  {
    Mod7(j / 7 + k / 7, j % 7 + k % 7);
  }

  lemma DifferenceResidue(j: int, k: int)
    ensures (j - k) % 7 == (j % 7 - k % 7) % 7
  {
    Mod7(j / 7 - k / 7, j % 7 - k % 7);
  }

  lemma SmallResidues(a: int, b: int)
    requires 1 <= a <= 6 && 1 <= b <= 6
    ensures (a - b) % 7 == 0 <==> a == b
    ensures (a + b) % 7 == 0 <==> a + b == 7
  {
  }

  lemma Residues(j: int, k: int)
    requires !Divides(7, j) && !Divides(7, k)
    ensures 1 <= j % 7 <= 6 && 1 <= k % 7 <= 6
    ensures Divides(7, j - k) <==> j % 7 == k % 7
    ensures Divides(7, j + k) <==> j % 7 + k % 7 == 7
    ensures (j + k) % 7 == (j % 7 + k % 7) % 7
  {
    hide Divides;
    DividesIffRemainder(7, j);
    DividesIffRemainder(7, k);
    DividesIffRemainder(7, j - k);
    DividesIffRemainder(7, j + k);
    SumResidue(j, k);
    DifferenceResidue(j, k);
    SmallResidues(j % 7, k % 7);
  }

  lemma Doubles(k: int)
    requires SMALL.Live(k)
    ensures AddSamePoint(SMALL.pt(k), SMALL.p, SMALL.a) == Ok(SMALL.pt(k + k))
  {
    hide AddSamePoint, Divides, Table;
    Residues(k, k);
    Tangent(k % 7);
  }

  lemma Adds(j: int, k: int)
    requires SMALL.Live(j) && SMALL.Live(k) && SMALL.Live(j - k) && SMALL.Live(j + k)
    ensures AddDiffPoint(SMALL.pt(j), SMALL.pt(k), SMALL.p) == Ok(SMALL.pt(j + k))
  {
    hide AddDiffPoint, Divides, Table;
    Residues(j, k);
    if j % 7 < k % 7 {
      Chord(j % 7, k % 7);
    } else {
      Chord(k % 7, j % 7);
    }
  }

  lemma TableDistinct(i: int, j: int)
    requires 1 <= i <= 6 && 1 <= j <= 6
    ensures Table(i).x == Table(j).x <==> i == j || i + j == 7
    ensures Table(i) == Table(j) ==> i == j
  {
  }

  lemma Distinct(j: int, k: int)
    requires SMALL.Live(j) && SMALL.Live(k)
    ensures SMALL.pt(j).x == SMALL.pt(k).x <==> Divides(7, j - k) || Divides(7, j + k)
    ensures SMALL.pt(j) == SMALL.pt(k) ==> Divides(7, j - k)
  {
    hide Divides, Table;
    Residues(j, k);
    TableDistinct(j % 7, k % 7);
  }

  lemma Periodic(j: int, k: int)
    requires Cong(j, k, 7)
    ensures SMALL.pt(j) == SMALL.pt(k)
  {
    CongIffMod(j, k, 7);
  }

  lemma DoublesEverywhere()
    ensures forall k {:trigger AddSamePoint(SMALL.pt(k), SMALL.p, SMALL.a)} ::
              SMALL.Live(k) ==> AddSamePoint(SMALL.pt(k), SMALL.p, SMALL.a) == Ok(SMALL.pt(k + k))
  {
    hide AddSamePoint, Divides, Family;
    forall k | SMALL.Live(k)
      ensures AddSamePoint(SMALL.pt(k), SMALL.p, SMALL.a) == Ok(SMALL.pt(k + k))
    {
      Doubles(k);
    }
  }

  lemma AddsEverywhere()
    ensures forall j, k {:trigger AddDiffPoint(SMALL.pt(j), SMALL.pt(k), SMALL.p)} ::
              SMALL.Live(j) && SMALL.Live(k) && SMALL.Live(j - k) && SMALL.Live(j + k) ==>
                AddDiffPoint(SMALL.pt(j), SMALL.pt(k), SMALL.p) == Ok(SMALL.pt(j + k))
  {
    hide AddDiffPoint, Divides, Family;
    forall j, k | SMALL.Live(j) && SMALL.Live(k) && SMALL.Live(j - k) && SMALL.Live(j + k)
      ensures AddDiffPoint(SMALL.pt(j), SMALL.pt(k), SMALL.p) == Ok(SMALL.pt(j + k))
    {
      Adds(j, k);
    }
  }

  lemma SmallLaw()
    ensures SMALL.Law()
  {
    hide IsPrime, Divides, Cong, AddSamePoint, AddDiffPoint, Family;
    SmallPrimes();
    DoublesEverywhere();
    AddsEverywhere();
    forall j, k | Cong(j, k, SMALL.n)
      ensures SMALL.pt(j) == SMALL.pt(k)
    {
      Periodic(j, k);
    }
    forall j, k | SMALL.Live(j) && SMALL.Live(k)
      ensures SMALL.pt(j).x == SMALL.pt(k).x <==> Divides(SMALL.n, j - k) || Divides(SMALL.n, j + k)
      ensures SMALL.pt(j) == SMALL.pt(k) ==> Divides(SMALL.n, j - k)
    {
      Distinct(j, k);
    }
  }

  /** Signatures exist here: with private key 1 the nonce 2 signs the hash 1, and it verifies. */
  lemma SmallSignature()
    ensures SMALL.Law() && SMALL.Live(1)
    ensures var o := SignWith(7, 13, 0, 1, SMALL.pt(1), 1, 2);
            && o.Ok? && o.value.Some? && o.value.value.r == 1
            && CurveVerify(7, 13, 0, SMALL.pt(1), SMALL.pt(1), 1, o.value.value.s, 1) == Ok(true)
  {
    hide IsPrime, Cong, PointByBig, InverseOf, CurveVerify, Group.Law;
    SmallLaw();
    SmallPrimes();
    DividesIffRemainder(7, 1);
    DividesIffRemainder(7, 2);
    PointByBigExact(SMALL, 1, 2);
    assert PointByBig(2, 13, 0, SMALL.pt(1)) == Ok(Some(Point(8, 5)));
    PrimeInverse(2, 7);
    var i := InverseOf(2, 7).value;
    NonceTimesSignature(2, i, 2, 7);
    CongIffMod(2 * PositiveMod(2 * i, 7), 2, 7);
    assert PositiveMod(8, 7) == 1;
    SignWithExact(SMALL, 1, 1, 2);
    SignedIsVerified(SMALL, 1, 1, 2, SignWith(7, 13, 0, 1, SMALL.pt(1), 1, 2).value.value);
  }

  /** And the same key and nonce sign the hash 0, but verifying that signature throws. */
  lemma ZeroHashThrows()
    ensures SMALL.Law() && SMALL.Live(1)
    ensures var o := SignWith(7, 13, 0, 1, SMALL.pt(1), 0, 2);
            && o.Ok? && o.value.Some? && o.value.value.r == 1
            && CurveVerify(7, 13, 0, SMALL.pt(1), SMALL.pt(1), 1, o.value.value.s, 0).Err?
  {
    hide IsPrime, Cong, PointByBig, InverseOf, CurveVerify, Group.Law;
    SmallLaw();
    SmallPrimes();
    DividesIffRemainder(7, 1);
    DividesIffRemainder(7, 2);
    PointByBigExact(SMALL, 1, 2);
    assert PointByBig(2, 13, 0, SMALL.pt(1)) == Ok(Some(Point(8, 5)));
    PrimeInverse(2, 7);
    var i := InverseOf(2, 7).value;
    NonceTimesSignature(2, i, 1, 7);
    CongIffMod(2 * PositiveMod(1 * i, 7), 1, 7);
    assert PositiveMod(8, 7) == 1;
    SignWithExact(SMALL, 1, 0, 2);
    SignedIsVerified(SMALL, 1, 0, 2, SignWith(7, 13, 0, 1, SMALL.pt(1), 0, 2).value.value);
  }
}
