/** The twisted Edwards curve a*x^2 + y^2 = 1 + d*x^2*y^2 of `babyjub.rs`: the rearranged addition,
    the membership test, and why addition on the curve never divides by zero and never leaves it. */
module BabyJubjub {
  import opened PrimeField

  /** `p` is the coordinate field, `a` and `d` the Edwards coefficients. */
  datatype Curve = Curve(p: int, a: int, d: int)

  datatype Point = Point(x: int, y: int)

  const NEUTRAL := Point(0, 1)

  /** What is assumed of the curve: a prime field of odd characteristic, `a` a non-zero square and
      `d` not a square (Bernstein and Lange's condition for a complete addition law). */
  ghost predicate Complete(c: Curve) {
    && IsPrime(c.p) && c.p > 2
    && !Cong(c.p, c.a, 0)
    && (exists s :: IsRoot(c.p, s, c.a))
    && (forall s :: !IsRoot(c.p, s, c.d))
  }

  predicate IsRoot(p: int, s: int, v: int)
    requires p > 0
  {
    Cong(p, s * s, v)
  }

  predicate IsPoint(c: Curve, q: Point) {
    IsFelt(c.p, q.x) && IsFelt(c.p, q.y)
  }

  /** `in_curve`. */
  predicate InCurve(c: Curve, q: Point)
    requires c.p > 0
  {
    var x2 := FMul(c.p, q.x, q.x);
    var y2 := FMul(c.p, q.y, q.y);
    var lhs := FAdd(c.p, FMul(c.p, c.a, x2), y2);
    var rhs := FAdd(c.p, 1, FMul(c.p, FMul(c.p, c.d, x2), y2));
    lhs == rhs
  }

  /** `dtau` of the addition: d * x1 * y2 * y1 * x2. */
  function DTau(c: Curve, q: Point, r: Point): int
    requires c.p > 0
  {
    FMul(c.p, c.d, FMul(c.p, FMul(c.p, q.x, r.y), FMul(c.p, q.y, r.x)))
  }

  /** `add`, step for step.  Where the code panics (see AddPanics) the inverse reads 0. */
  function Add(c: Curve, q: Point, r: Point): Point
    requires c.p > 0
  {
    var beta := FMul(c.p, q.x, r.y);
    var gamma := FMul(c.p, q.y, r.x);
    var delta := FMul(c.p, FSub(c.p, q.y, FMul(c.p, c.a, q.x)), FAdd(c.p, r.x, r.y));
    var dtau := DTau(c, q, r);
    var invPos := FInv(c.p, FAdd(c.p, 1, dtau));
    var invNeg := FInv(c.p, FSub(c.p, 1, dtau));
    Point(FMul(c.p, FAdd(c.p, beta, gamma), invPos),
          FMul(c.p, FSub(c.p, FAdd(c.p, delta, FMul(c.p, c.a, beta)), gamma), invNeg))
  }

  /** The two `expect`s of `add` fire. */
  predicate AddPanics(c: Curve, q: Point, r: Point)
    requires c.p > 0
  {
    FAdd(c.p, 1, DTau(c, q, r)) == 0 || FSub(c.p, 1, DTau(c, q, r)) == 0
  }

  // ----- integer polynomials behind the curve -----

  function CurvePoly(c: Curve, x: int, y: int): int {
    c.a * (x * x) + y * y - 1 - c.d * (x * x) * (y * y)
  }

  function T(q: Point, r: Point): int { q.x * r.y * (q.y * r.x) }

  function XNum(q: Point, r: Point): int { q.x * r.y + q.y * r.x }

  function YNum(c: Curve, q: Point, r: Point): int { q.y * r.y - c.a * (q.x * r.x) }

  lemma InCurvePoly(c: Curve, q: Point)
    requires c.p > 0
    ensures InCurve(c, q) <==> Cong(c.p, CurvePoly(c, q.x, q.y), 0)
  {
    var p := c.p;
    Lift(p, q.x, q.x, q.x, q.x);
    Lift(p, q.y, q.y, q.y, q.y);
    var x2, y2 := FMul(p, q.x, q.x), FMul(p, q.y, q.y);
    Lift(p, c.a, c.a, x2, q.x * q.x);
    Lift(p, c.d, c.d, x2, q.x * q.x);
    Lift(p, FMul(p, c.d, x2), c.d * (q.x * q.x), y2, q.y * q.y);
    var l, r := FMul(p, c.a, x2) + y2, 1 + FMul(p, FMul(p, c.d, x2), y2);
    CongAdd(p, FMul(p, c.a, x2), c.a * (q.x * q.x), y2, q.y * q.y);
    CongAdd(p, 1, 1, r - 1, c.d * (q.x * q.x) * (q.y * q.y));
    CongAdd(p, l, c.a * (q.x * q.x) + q.y * q.y, r, 1 + c.d * (q.x * q.x) * (q.y * q.y));
    var poly := CurvePoly(c, q.x, q.y);
    if l % p == r % p {
      ModToCong(p, l, r);
      CongSym(p, l - r, poly);
      CongTrans(p, poly, l - r, 0);
    }
    if Cong(p, poly, 0) {
      CongTrans(p, l - r, poly, 0);
      CongToMod(p, l, r);
    }
  }

  /** The textbook law: ((x1*y2 + y1*x2) / (1 + d*t), (y1*y2 - a*x1*x2) / (1 - d*t)). */
  function TextbookSum(c: Curve, q: Point, r: Point): Point
    requires c.p > 0
  {
    Point(FMul(c.p, XNum(q, r) % c.p, FInv(c.p, (1 + c.d * T(q, r)) % c.p)),
          FMul(c.p, YNum(c, q, r) % c.p, FInv(c.p, (1 - c.d * T(q, r)) % c.p)))
  }

  lemma DTauCong(c: Curve, q: Point, r: Point)
    requires c.p > 0
    ensures Cong(c.p, DTau(c, q, r), c.d * T(q, r))
    ensures FAdd(c.p, 1, DTau(c, q, r)) == (1 + c.d * T(q, r)) % c.p
    ensures FSub(c.p, 1, DTau(c, q, r)) == (1 - c.d * T(q, r)) % c.p
  {
    var p := c.p;
    Lift(p, q.x, q.x, r.y, r.y);
    Lift(p, q.y, q.y, r.x, r.x);
    Lift(p, FMul(p, q.x, r.y), q.x * r.y, FMul(p, q.y, r.x), q.y * r.x);
    Lift(p, c.d, c.d, FMul(p, FMul(p, q.x, r.y), FMul(p, q.y, r.x)), T(q, r));
    CongAdd(p, 1, 1, DTau(c, q, r), c.d * T(q, r));
    CongToMod(p, 1 + DTau(c, q, r), 1 + c.d * T(q, r));
    CongToMod(p, 1 - DTau(c, q, r), 1 - c.d * T(q, r));
  }

  lemma XNumerator(c: Curve, q: Point, r: Point)
    requires c.p > 0
    ensures FAdd(c.p, FMul(c.p, q.x, r.y), FMul(c.p, q.y, r.x)) == XNum(q, r) % c.p
  {
    var p := c.p;
    Lift(p, q.x, q.x, r.y, r.y);
    Lift(p, q.y, q.y, r.x, r.x);
    CongAdd(p, FMul(p, q.x, r.y), q.x * r.y, FMul(p, q.y, r.x), q.y * r.x);
    CongToMod(p, FMul(p, q.x, r.y) + FMul(p, q.y, r.x), XNum(q, r));
  }

  lemma RearrangedNumerator(a: int, x1: int, y1: int, x2: int, y2: int)
    ensures (y1 - a * x1) * (x2 + y2) + a * (x1 * y2) - y1 * x2 == y1 * y2 - a * (x1 * x2)
  {
    assert (a * x1) * x2 == a * (x1 * x2);
    assert (a * x1) * y2 == a * (x1 * y2);
    assert (y1 - a * x1) * (x2 + y2) == y1 * x2 + y1 * y2 - (a * x1) * x2 - (a * x1) * y2;
  }

  /** The delta/beta/gamma form of the code is y1*y2 - a*x1*x2. */
  lemma YNumerator(c: Curve, q: Point, r: Point)
    requires c.p > 0
    ensures var p := c.p;
      var delta := FMul(p, FSub(p, q.y, FMul(p, c.a, q.x)), FAdd(p, r.x, r.y));
      FSub(p, FAdd(p, delta, FMul(p, c.a, FMul(p, q.x, r.y))), FMul(p, q.y, r.x)) == YNum(c, q, r) % p
  {
    var p := c.p;
    var beta, gamma, ax := FMul(p, q.x, r.y), FMul(p, q.y, r.x), FMul(p, c.a, q.x);
    Lift(p, q.x, q.x, r.y, r.y);
    Lift(p, q.y, q.y, r.x, r.x);
    Lift(p, c.a, c.a, q.x, q.x);
    Lift(p, q.y, q.y, ax, c.a * q.x);
    Lift(p, r.x, r.x, r.y, r.y);
    var e, f := FSub(p, q.y, ax), FAdd(p, r.x, r.y);
    var e', f' := q.y - c.a * q.x, r.x + r.y;
    Lift(p, e, e', f, f');
    Lift(p, c.a, c.a, beta, q.x * r.y);
    var delta, ab := FMul(p, e, f), FMul(p, c.a, beta);
    Lift(p, delta, e' * f', ab, c.a * (q.x * r.y));
    CongAdd(p, FAdd(p, delta, ab), e' * f' + c.a * (q.x * r.y), gamma, q.y * r.x);
    RearrangedNumerator(c.a, q.x, q.y, r.x, r.y);
    CongToMod(p, FAdd(p, delta, ab) - gamma, YNum(c, q, r));
  }

  /** The rearranged intermediate form computes the textbook law, on and off the curve. */
  lemma AddIsTextbook(c: Curve, q: Point, r: Point)
    requires c.p > 0
    ensures Add(c, q, r) == TextbookSum(c, q, r)
  {
    DTauCong(c, q, r);
    XNumerator(c, q, r);
    YNumerator(c, q, r);
  }

  lemma SymmetricTerms(c: Curve, q: Point, r: Point)
    ensures T(q, r) == T(r, q) && XNum(q, r) == XNum(r, q) && YNum(c, q, r) == YNum(c, r, q)
  {
  }

  lemma TextbookCommutes(c: Curve, q: Point, r: Point)
    requires c.p > 0
    ensures TextbookSum(c, q, r) == TextbookSum(c, r, q)
  {
    SymmetricTerms(c, q, r);
  }

  lemma AddCommutes(c: Curve, q: Point, r: Point)
    requires c.p > 0
    ensures Add(c, q, r) == Add(c, r, q)
  {
    var sum, swapped := Add(c, q, r), Add(c, r, q);
    AddIsTextbook(c, q, r);
    AddIsTextbook(c, r, q);
    TextbookCommutes(c, q, r);
  }

  lemma TextbookNeutral(c: Curve, q: Point)
    requires c.p > 1 && IsPoint(c, q)
    ensures TextbookSum(c, q, NEUTRAL) == q
  {
    var t := T(q, NEUTRAL);
    assert t == 0;
    assert c.d * t == 0;
    assert XNum(q, NEUTRAL) == q.x;
    assert YNum(c, q, NEUTRAL) == q.y;
    One(c.p, q.x);
    One(c.p, q.y);
  }

  lemma One(p: int, x: int)
    requires p > 1 && IsFelt(p, x)
    ensures FMul(p, x % p, FInv(p, 1 % p)) == x
  {
    DivMod(p, x, 0, x);
    DivMod(p, 1, 0, 1);
  }

  lemma NeutralIsIdentity(c: Curve, q: Point)
    requires c.p > 1 && IsPoint(c, q)
    ensures Add(c, q, NEUTRAL) == q == Add(c, NEUTRAL, q)
  {
    AddIsTextbook(c, q, NEUTRAL);
    AddCommutes(c, q, NEUTRAL);
    TextbookNeutral(c, q);
  }

  lemma NeutralInCurve(c: Curve)
    requires c.p > 0
    ensures InCurve(c, NEUTRAL)
  {
    InCurvePoly(c, NEUTRAL);
    assert CurvePoly(c, 0, 1) == 0;
  }

  /** The quotients the code forms are quotients: denominator times coordinate is the numerator. */
  lemma AddDivides(c: Curve, q: Point, r: Point)
    requires IsPrime(c.p) && !AddPanics(c, q, r)
    ensures IsPoint(c, Add(c, q, r))
    ensures Cong(c.p, (1 + c.d * T(q, r)) * Add(c, q, r).x, XNum(q, r))
    ensures Cong(c.p, (1 - c.d * T(q, r)) * Add(c, q, r).y, YNum(c, q, r))
  {
    DTauCong(c, q, r);
    AddIsTextbook(c, q, r);
    Divided(c.p, 1 + c.d * T(q, r), XNum(q, r));
    Divided(c.p, 1 - c.d * T(q, r), YNum(c, q, r));
  }

  lemma Divided(p: int, den: int, num: int)
    requires IsPrime(p) && den % p != 0
    ensures Cong(p, den * FMul(p, num % p, FInv(p, den % p)), num)
  {
    var i := FInv(p, den % p);
    InverseDescent(p, den % p);
    CongMod(p, den);
    CongMod(p, num);
    CongMul(p, den, den % p, i, i);
    CongTrans(p, den * i, (den % p) * i, 1);
    Lift(p, num % p, num, i, i);
    CongMul(p, den, den, FMul(p, num % p, i), num * i);
    CongMul(p, num, num, den * i, 1);
    assert den * (num * i) == num * (den * i);
    CongTrans(p, den * FMul(p, num % p, i), den * (num * i), num);
  }

  // ----- closure -----
  //
  // Write A = a*x^2 + y^2, B = y^2 - a*x^2 and m = x*y for each operand, and e = d*m1*m2.  Clearing
  // the denominators 1+e and 1-e, the curve equation of the sum is ClearedPoly = 0, and ClearedPoly
  // lies in the ideal generated by the two operands' curve equations.

  function Norm(a: int, x: int, y: int): int { a * (x * x) + y * y }

  function Conj(a: int, x: int, y: int): int { y * y - a * (x * x) }

  function ClearedPoly(a: int, d: int, pn: int, qn: int, e: int): int {
    a * (pn * pn) * ((1 - e) * (1 - e)) + qn * qn * ((1 + e) * (1 + e))
    - (1 + e) * (1 + e) * ((1 - e) * (1 - e)) - d * (pn * pn) * (qn * qn)
  }

  lemma NormOfSum(a: int, x1: int, y1: int, x2: int, y2: int)
    ensures var pn, qn := x1 * y2 + y1 * x2, y1 * y2 - a * (x1 * x2);
      a * (pn * pn) + qn * qn == Norm(a, x1, y1) * Norm(a, x2, y2)
  {
    SquaredNumerators(a, x1, y1, x2, y2);
    var t := x1 * y1 * (x2 * y2);
    Distribute(-a, y1 * y1, x1 * x1, y2 * y2, x2 * x2);
    DistributeSum(a, (x1 * x1) * (y2 * y2), t, (y1 * y1) * (x2 * x2));
  }

  lemma ConjOfSum(a: int, x1: int, y1: int, x2: int, y2: int)
    ensures var pn, qn := x1 * y2 + y1 * x2, y1 * y2 - a * (x1 * x2);
      qn * qn - a * (pn * pn) == Conj(a, x1, y1) * Conj(a, x2, y2) - 4 * a * (x1 * y1 * (x2 * y2))
  {
    SquaredNumerators(a, x1, y1, x2, y2);
    var t := x1 * y1 * (x2 * y2);
    Distribute(a, y1 * y1, x1 * x1, y2 * y2, x2 * x2);
    DistributeSum(a, (x1 * x1) * (y2 * y2), t, (y1 * y1) * (x2 * x2));
  }

  lemma SquaredNumerators(a: int, x1: int, y1: int, x2: int, y2: int)
    ensures var pn, qn, t := x1 * y2 + y1 * x2, y1 * y2 - a * (x1 * x2), x1 * y1 * (x2 * y2);
      && pn * pn == (x1 * x1) * (y2 * y2) + 2 * t + (y1 * y1) * (x2 * x2)
      && qn * qn == (y1 * y1) * (y2 * y2) - 2 * a * t + a * a * ((x1 * x1) * (x2 * x2))
  {
    Rearrange(x1, y2, y1, x2);
    Rearrange(y1, y2, x1, x2);
    SquareOfSum(x1 * y2, y1 * x2);
    SquareOfDiff(a, y1 * y2, x1 * x2);
  }

  lemma Rearrange(f: int, g: int, h: int, k: int)
    ensures (f * g) * (f * g) == (f * f) * (g * g) && (h * k) * (h * k) == (h * h) * (k * k)
    ensures (f * g) * (h * k) == f * h * (k * g)
  {
  }

  lemma SquareOfSum(f: int, g: int)
    ensures (f + g) * (f + g) == f * f + 2 * (f * g) + g * g
  {
  }

  lemma SquareOfDiff(a: int, f: int, g: int)
    ensures (f - a * g) * (f - a * g) == f * f - 2 * a * (f * g) + a * a * (g * g)
  {
  }

  lemma DistributeSum(a: int, f: int, t: int, g: int)
    ensures a * (f + 2 * t + g) == a * f + 2 * a * t + a * g
  {
  }

  lemma Distribute(a: int, f: int, g: int, h: int, k: int)
    ensures (f - a * g) * (h - a * k) == f * h - a * (f * k) - a * (g * h) + a * a * (g * k)
  {
  }

  lemma ProductOfSum(a: int, x1: int, y1: int, x2: int, y2: int)
    ensures (x1 * y2 + y1 * x2) * (y1 * y2 - a * (x1 * x2))
         == x1 * y1 * Conj(a, x2, y2) + x2 * y2 * Conj(a, x1, y1)
  {
  }

  lemma ConjSquared(a: int, x: int, y: int)
    ensures Conj(a, x, y) * Conj(a, x, y) == Norm(a, x, y) * Norm(a, x, y) - 4 * a * (x * y * (x * y))
  {
  }

  lemma ClearedSplit(a: int, d: int, pn: int, qn: int, e: int)
    ensures ClearedPoly(a, d, pn, qn, e)
         == (a * (pn * pn) + qn * qn) * (1 + e * e) + 2 * e * (qn * qn - a * (pn * pn))
            - (1 - e * e) * (1 - e * e) - d * ((pn * qn) * (pn * qn))
  {
    assert (pn * pn) * (qn * qn) == (pn * qn) * (pn * qn);
    assert (1 + e) * (1 + e) * ((1 - e) * (1 - e)) == (1 - e * e) * (1 - e * e);
  }

  /** ClearedPoly in terms of the two norms alone: the mixed terms cancel. */
  lemma ClearedInNorms(a: int, d: int, x1: int, y1: int, x2: int, y2: int)
    ensures var m1, m2 := x1 * y1, x2 * y2;
      var e, z1, z2 := d * (m1 * m2), d * (m1 * m1), d * (m2 * m2);
      var n1, n2 := Norm(a, x1, y1), Norm(a, x2, y2);
      ClearedPoly(a, d, x1 * y2 + y1 * x2, y1 * y2 - a * (x1 * x2), e)
        == n1 * n2 * (1 + z1 * z2) - (1 - z1 * z2) * (1 - z1 * z2) - z1 * (n2 * n2) - z2 * (n1 * n1)
  {
    var pn, qn := x1 * y2 + y1 * x2, y1 * y2 - a * (x1 * x2);
    var m1, m2 := x1 * y1, x2 * y2;
    var t := m1 * m2;
    var e, z1, z2 := d * t, d * (m1 * m1), d * (m2 * m2);
    var b1, b2 := Conj(a, x1, y1), Conj(a, x2, y2);
    var n1, n2 := Norm(a, x1, y1), Norm(a, x2, y2);
    ClearedSplit(a, d, pn, qn, e);
    NormOfSum(a, x1, y1, x2, y2);
    ConjOfSum(a, x1, y1, x2, y2);
    ProductOfSum(a, x1, y1, x2, y2);
    ConjSquared(a, x1, y1);
    ConjSquared(a, x2, y2);
    NormsCombine(a, d, a * (pn * pn) + qn * qn, qn * qn - a * (pn * pn), pn * qn, m1, m2, b1, b2, n1, n2);
  }

  lemma NormsCombine(a: int, d: int, s: int, c: int, pq: int,
                     m1: int, m2: int, b1: int, b2: int, n1: int, n2: int)
    requires b1 * b1 == n1 * n1 - 4 * a * (m1 * m1)
    requires b2 * b2 == n2 * n2 - 4 * a * (m2 * m2)
    requires s == n1 * n2 && c == b1 * b2 - 4 * a * (m1 * m2) && pq == m1 * b2 + m2 * b1
    ensures var e, z1, z2 := d * (m1 * m2), d * (m1 * m1), d * (m2 * m2);
      s * (1 + e * e) + 2 * e * c - (1 - e * e) * (1 - e * e) - d * (pq * pq)
        == n1 * n2 * (1 + z1 * z2) - (1 - z1 * z2) * (1 - z1 * z2) - z1 * (n2 * n2) - z2 * (n1 * n1)
  {
    MixedTermsCancel(a, d, m1, m2, b1, b2, n1, n2);
    assert (d * (m1 * m2)) * (d * (m1 * m2)) == (d * (m1 * m1)) * (d * (m2 * m2));
  }

  lemma MixedTermsCancel(a: int, d: int, m1: int, m2: int, b1: int, b2: int, n1: int, n2: int)
    requires b1 * b1 == n1 * n1 - 4 * a * (m1 * m1)
    requires b2 * b2 == n2 * n2 - 4 * a * (m2 * m2)
    ensures var t := m1 * m2;
      var pq := m1 * b2 + m2 * b1;
      2 * (d * t) * (b1 * b2 - 4 * a * t) - d * (pq * pq)
        == -(d * (m1 * m1)) * (n2 * n2) - (d * (m2 * m2)) * (n1 * n1)
  {
    MixedSquare(a, m1, m2, b1, b2, n1, n2);
    MixedScaled(d, m1, m2, n1, n2, b1 * b2 - 4 * a * (m1 * m2));
  }

  lemma MixedSquare(a: int, m1: int, m2: int, b1: int, b2: int, n1: int, n2: int)
    requires b1 * b1 == n1 * n1 - 4 * a * (m1 * m1)
    requires b2 * b2 == n2 * n2 - 4 * a * (m2 * m2)
    ensures var t := m1 * m2;
      var pq := m1 * b2 + m2 * b1;
      pq * pq == (m1 * m1) * (n2 * n2) + (m2 * m2) * (n1 * n1) + 2 * t * (b1 * b2 - 4 * a * t)
  {
    SquareOfSum(m1 * b2, m2 * b1);
    Rearrange(m1, b2, m2, b1);
    ReplaceSquare(a, m1 * m1, m2 * m2, b2 * b2, n2 * n2);
    ReplaceSquare(a, m2 * m2, m1 * m1, b1 * b1, n1 * n1);
    Rearrange(m1, m2, m2, m1);
    CollectMixed(a, m1 * m2, (m1 * m1) * (n2 * n2), (m2 * m2) * (n1 * n1), b1 * b2);
  }

  lemma MixedScaled(d: int, m1: int, m2: int, n1: int, n2: int, h: int)
    ensures var t := m1 * m2;
      d * ((m1 * m1) * (n2 * n2) + (m2 * m2) * (n1 * n1) + 2 * t * h)
        == (d * (m1 * m1)) * (n2 * n2) + (d * (m2 * m2)) * (n1 * n1) + 2 * (d * t) * h
  {
    DistributeD(d, (m1 * m1) * (n2 * n2), (m2 * m2) * (n1 * n1), m1 * m2, h);
    Reassociate(d, m1 * m1, n2 * n2);
    Reassociate(d, m2 * m2, n1 * n1);
  }

  lemma Reassociate(d: int, f: int, g: int)
    ensures d * (f * g) == (d * f) * g
  {
  }

  lemma ReplaceSquare(a: int, mm: int, kk: int, bb: int, nn: int)
    requires bb == nn - 4 * a * kk
    ensures mm * bb == mm * nn - 4 * a * (mm * kk)
  {
  }

  lemma CollectMixed(a: int, t: int, f: int, g: int, bb: int)
    ensures f - 4 * a * (t * t) + 2 * (t * bb) + (g - 4 * a * (t * t)) == f + g + 2 * t * (bb - 4 * a * t)
  {
  }

  lemma DistributeD(d: int, f: int, g: int, t: int, h: int)
    ensures d * (f + g + 2 * t * h) == d * f + d * g + 2 * (d * t) * h
  {
  }

  lemma NormsOnCurve(z1: int, z2: int, e1: int, e2: int)
    ensures var n1, n2 := 1 + z1 + e1, 1 + z2 + e2;
      n1 * n2 * (1 + z1 * z2) - (1 - z1 * z2) * (1 - z1 * z2) - z1 * (n2 * n2) - z2 * (n1 * n1)
        == ((1 + z1 * z2) * (1 + z2 + e2) - z2 * (2 * (1 + z1) + e1)) * e1
           + ((1 + z1 * z2) * (1 + z1) - z1 * (2 * (1 + z2) + e2)) * e2
  {
    NormsAtZero(z1, z2);
    Perturb(1 + z1, 1 + z2, 1 + z1 * z2, z1, z2, e1, e2);
  }

  lemma NormsAtZero(z1: int, z2: int)
    ensures (1 + z1) * (1 + z2) * (1 + z1 * z2) - (1 - z1 * z2) * (1 - z1 * z2)
            - z1 * ((1 + z2) * (1 + z2)) - z2 * ((1 + z1) * (1 + z1)) == 0
  {
  }

  lemma Perturb(w1: int, w2: int, k: int, z1: int, z2: int, e1: int, e2: int)
    ensures (w1 + e1) * (w2 + e2) * k - z1 * ((w2 + e2) * (w2 + e2)) - z2 * ((w1 + e1) * (w1 + e1))
         == w1 * w2 * k - z1 * (w2 * w2) - z2 * (w1 * w1)
            + (k * (w2 + e2) - z2 * (2 * w1 + e1)) * e1 + (k * w1 - z1 * (2 * w2 + e2)) * e2
  {
    assert (w1 + e1) * (w2 + e2) == w1 * w2 + (w2 + e2) * e1 + w1 * e2;
    assert (w2 + e2) * (w2 + e2) == w2 * w2 + (2 * w2 + e2) * e2;
    assert (w1 + e1) * (w1 + e1) == w1 * w1 + (2 * w1 + e1) * e1;
  }

  lemma ClearedVanishes(c: Curve, q: Point, r: Point)
    requires c.p > 0 && InCurve(c, q) && InCurve(c, r)
    ensures Cong(c.p, ClearedPoly(c.a, c.d, XNum(q, r), YNum(c, q, r), c.d * T(q, r)), 0)
  {
    InCurvePoly(c, q);
    InCurvePoly(c, r);
    ProductT(q, r);
    ClearedInIdeal(c, q.x, q.y, r.x, r.y);
  }

  lemma ClearedInIdeal(c: Curve, x1: int, y1: int, x2: int, y2: int)
    requires c.p > 0 && Cong(c.p, CurvePoly(c, x1, y1), 0) && Cong(c.p, CurvePoly(c, x2, y2), 0)
    ensures Cong(c.p, ClearedPoly(c.a, c.d, x1 * y2 + y1 * x2, y1 * y2 - c.a * (x1 * x2),
                                  c.d * (x1 * y1 * (x2 * y2))), 0)
  {
    var m1, m2 := x1 * y1, x2 * y2;
    var z1, z2 := c.d * (m1 * m1), c.d * (m2 * m2);
    var e1, e2 := CurvePoly(c, x1, y1), CurvePoly(c, x2, y2);
    NormOnCurve(c, x1, y1);
    NormOnCurve(c, x2, y2);
    ClearedInNorms(c.a, c.d, x1, y1, x2, y2);
    NormsVanish(c.p, z1, z2, e1, e2);
  }

  lemma NormsVanish(p: int, z1: int, z2: int, e1: int, e2: int)
    requires p > 0 && Cong(p, e1, 0) && Cong(p, e2, 0)
    ensures var n1, n2 := 1 + z1 + e1, 1 + z2 + e2;
      Cong(p, n1 * n2 * (1 + z1 * z2) - (1 - z1 * z2) * (1 - z1 * z2) - z1 * (n2 * n2) - z2 * (n1 * n1), 0)
  {
    NormsOnCurve(z1, z2, e1, e2);
    CongZero2(p, e1, (1 + z1 * z2) * (1 + z2 + e2) - z2 * (2 * (1 + z1) + e1),
                 e2, (1 + z1 * z2) * (1 + z1) - z1 * (2 * (1 + z2) + e2));
  }

  lemma NormOnCurve(c: Curve, x: int, y: int)
    ensures Norm(c.a, x, y) == 1 + c.d * ((x * y) * (x * y)) + CurvePoly(c, x, y)
  {
    assert (x * y) * (x * y) == (x * x) * (y * y);
    assert c.d * ((x * x) * (y * y)) == c.d * (x * x) * (y * y);
  }

  lemma ClearedCong(p: int, a: int, d: int, u: int, u': int, v: int, v': int, e: int)
    requires p > 0 && Cong(p, u, u') && Cong(p, v, v')
    ensures Cong(p, ClearedPoly(a, d, u, v, e), ClearedPoly(a, d, u', v', e))
  {
    var f, g := (1 - e) * (1 - e), (1 + e) * (1 + e);
    CongMul(p, u, u', u, u');
    CongMul(p, v, v', v, v');
    CongMul(p, a, a, u * u, u' * u');
    CongMul(p, a * (u * u), a * (u' * u'), f, f);
    CongMul(p, v * v, v' * v', g, g);
    CongMul(p, d, d, u * u, u' * u');
    CongMul(p, d * (u * u), d * (u' * u'), v * v, v' * v');
    CongAdd(p, a * (u * u) * f, a * (u' * u') * f, v * v * g, v' * v' * g);
    CongAdd(p, a * (u * u) * f + v * v * g, a * (u' * u') * f + v' * v' * g, g * f, g * f);
    CongAdd(p, a * (u * u) * f + v * v * g - g * f, a * (u' * u') * f + v' * v' * g - g * f,
            d * (u * u) * (v * v), d * (u' * u') * (v' * v'));
  }

  lemma ClearedFactors(c: Curve, x: int, y: int, e: int)
    ensures ClearedPoly(c.a, c.d, (1 + e) * x, (1 - e) * y, e)
         == (1 + e) * ((1 + e) * ((1 - e) * ((1 - e) * CurvePoly(c, x, y))))
  {
    FactorSquares(c, x, y, 1 + e, 1 - e);
  }

  lemma FactorSquares(c: Curve, x: int, y: int, g: int, f: int)
    ensures var u, v := g * x, f * y;
      c.a * (u * u) * (f * f) + v * v * (g * g) - g * g * (f * f) - c.d * (u * u) * (v * v)
        == g * (g * (f * (f * CurvePoly(c, x, y))))
  {
    var k := CurvePoly(c, x, y);
    assert (g * x) * (g * x) == (g * g) * (x * x);
    assert (f * y) * (f * y) == (f * f) * (y * y);
    Regroup(g, f, k);
    FactorOut(c.a, c.d, x * x, y * y, g * g, f * f);
  }

  lemma Regroup(g: int, f: int, k: int)
    ensures g * (g * (f * (f * k))) == (g * g) * (f * f) * k
  {
  }

  lemma FactorOut(a: int, d: int, xx: int, yy: int, gg: int, ff: int)
    ensures a * (gg * xx) * ff + ff * yy * gg - gg * ff - d * (gg * xx) * (ff * yy)
         == gg * ff * (a * xx + yy - 1 - d * xx * yy)
  {
  }

  lemma NonzeroDenominators(c: Curve, q: Point, r: Point)
    requires c.p > 0 && !AddPanics(c, q, r)
    ensures !Cong(c.p, 1 + c.d * T(q, r), 0) && !Cong(c.p, 1 - c.d * T(q, r), 0)
  {
    DTauCong(c, q, r);
  }

  lemma CancelZero(p: int, c: int, x: int)
    requires IsPrime(p) && !Cong(p, c, 0) && Cong(p, c * x, 0)
    ensures Cong(p, x, 0)
  {
    NoZeroDivisors(p, c, x);
  }

  /** The sum of two points on the curve is on the curve, whenever `add` does not panic. */
  lemma AddStaysOnCurve(c: Curve, q: Point, r: Point)
    requires IsPrime(c.p) && InCurve(c, q) && InCurve(c, r) && !AddPanics(c, q, r)
    ensures IsPoint(c, Add(c, q, r)) && InCurve(c, Add(c, q, r))
  {
    var p, e, s := c.p, c.d * T(q, r), Add(c, q, r);
    var poly := CurvePoly(c, s.x, s.y);
    var g, f := 1 + e, 1 - e;
    AddDivides(c, q, r);
    ClearedVanishes(c, q, r);
    ClearedCong(p, c.a, c.d, g * s.x, XNum(q, r), f * s.y, YNum(c, q, r), e);
    CongTrans(p, ClearedPoly(c.a, c.d, g * s.x, f * s.y, e),
              ClearedPoly(c.a, c.d, XNum(q, r), YNum(c, q, r), e), 0);
    ClearedFactors(c, s.x, s.y, e);
    NonzeroDenominators(c, q, r);
    CancelZero(p, g, g * (f * (f * poly)));
    CancelZero(p, g, f * (f * poly));
    CancelZero(p, f, f * poly);
    CancelZero(p, f, poly);
    InCurvePoly(c, s);
  }

  // ----- completeness (Bernstein and Lange, "Faster addition and doubling on elliptic curves") -----

  lemma SquareIdentity(a: int, d: int, s: int, ep: int, x1: int, y1: int, x2: int, y2: int, e1: int, e2: int)
    requires ep * ep == 1
    requires Norm(a, x1, y1) == 1 + d * ((x1 * y1) * (x1 * y1)) + e1
    requires Norm(a, x2, y2) == 1 + d * ((x2 * y2) * (x2 * y2)) + e2
    ensures var m1, k := x1 * y1, s * x1 + ep * y1;
      var h := m1 * (s * x2 + y2);
      var dl := d * (m1 * (x2 * y2));
      k * k - d * (h * h)
        == (s * s - a) * (x1 * x1 - d * (m1 * m1) * (x2 * x2)) + e1 - d * (m1 * m1) * e2
           + (dl - ep) * (-(dl + ep) - 2 * s * m1)
  {
    var m1, m2 := x1 * y1, x2 * y2;
    var z, dl := d * (m1 * m1), d * (m1 * m2);
    SquareOfSum(s * x1, ep * y1);
    SquareOfSum(s * x2, y2);
    Monomials(s, ep, x1, y1);
    Monomials(s, 1, x2, y2);
    ScaledSquare(d, m1, s * x2 + y2);
    ScaledProducts(d, m1, m2);
    SquareCollect(a, s, ep, x1 * x1, y1 * y1, x2 * x2, y2 * y2, m1, m2, z, dl, d * (m2 * m2), e1, e2);
  }

  lemma Monomials(s: int, ep: int, x: int, y: int)
    requires ep * ep == 1
    ensures (s * x) * (s * x) == s * s * (x * x) && (ep * y) * (ep * y) == y * y
    ensures (s * x) * (ep * y) == ep * s * (x * y)
  {
    assert (ep * y) * (ep * y) == (ep * ep) * (y * y);
  }

  lemma ScaledSquare(d: int, m: int, w: int)
    ensures d * ((m * w) * (m * w)) == d * (m * m) * (w * w)
  {
  }

  lemma ScaledProducts(d: int, m1: int, m2: int)
    ensures d * (m1 * m1) * (d * (m2 * m2)) == (d * (m1 * m2)) * (d * (m1 * m2))
    ensures d * (m1 * m1) * m2 == d * (m1 * m2) * m1
  {
  }

  lemma SquareCollect(a: int, s: int, ep: int, xx1: int, yy1: int, xx2: int, yy2: int,
                      m1: int, m2: int, z: int, dl: int, z2: int, e1: int, e2: int)
    requires ep * ep == 1 && z * z2 == dl * dl && z * m2 == dl * m1
    requires a * xx1 + yy1 == 1 + z + e1 && a * xx2 + yy2 == 1 + z2 + e2
    ensures s * s * xx1 + 2 * ep * s * m1 + yy1 - z * (s * s * xx2 + 2 * s * m2 + yy2)
         == (s * s - a) * (xx1 - z * xx2) + e1 - z * e2 + (dl - ep) * (-(dl + ep) - 2 * s * m1)
  {
    var ss := s * s;
    assert z * (a * xx2 + yy2) == z + dl * dl + z * e2;
    assert z * (ss * xx2 + 2 * s * m2 + yy2) == z * (ss * xx2) + 2 * s * (z * m2) + z * yy2;
    assert (ss - a) * (xx1 - z * xx2) == ss * xx1 - a * xx1 - z * (ss * xx2) + z * (a * xx2);
    assert (dl - ep) * (-(dl + ep) - 2 * s * m1) == 1 - dl * dl - 2 * s * (dl * m1) + 2 * ep * s * m1;
  }

  /** d times a square is a square only if it is zero. */
  lemma NonSquare(c: Curve, k: int, h: int)
    requires Complete(c) && Cong(c.p, k * k, c.d * (h * h))
    ensures Cong(c.p, h, 0)
  {
    CongMod(c.p, h);
    if h % c.p != 0 {
      var s := RootOfRatio(c.p, c.d, k, h);
      assert IsRoot(c.p, s, c.d);
      assert false;
    }
  }

  lemma RootOfRatio(p: int, d: int, k: int, h: int) returns (s: int)
    requires IsPrime(p) && h % p != 0 && Cong(p, k * k, d * (h * h))
    ensures Cong(p, s * s, d)
  {
    var i := FInv(p, h % p);
    s := k * i;
    InverseDescent(p, h % p);
    CongMod(p, h);
    CongMul(p, h, h % p, i, i);
    CongTrans(p, h * i, (h % p) * i, 1);
    CongMul(p, h * i, 1, h * i, 1);
    CongMul(p, d, d, (h * i) * (h * i), 1);
    CongMul(p, k * k, d * (h * h), i * i, i * i);
    assert (k * k) * (i * i) == s * s;
    ScaledSquare(d, h, i);
    CongTrans(p, s * s, d * ((h * i) * (h * i)), d);
  }

  lemma SquareCong(p: int, t0: int, f0: int, t1: int, t2: int, z: int, t3: int, f3: int, v: int)
    requires p > 0 && Cong(p, t0, 0) && Cong(p, t1, 0) && Cong(p, t2, 0) && Cong(p, t3, 0)
    requires v == t0 * f0 + t1 - z * t2 + t3 * f3
    ensures Cong(p, v, 0)
  {
    CongZero2(p, t0, f0, t3, f3);
    CongZero2(p, t1, 1, t2, -z);
    CongAdd(p, f0 * t0 + f3 * t3, 0, 1 * t1 + (-z) * t2, 0);
    assert (-z) * t2 == -(z * t2);
  }

  /** If d*T were +1 or -1, then x1*y1*(s*x2 + y2) would vanish for each square root s of a. */
  lemma RootVanishes(c: Curve, s: int, ep: int, q: Point, r: Point)
    requires Complete(c) && IsRoot(c.p, s, c.a) && ep * ep == 1
    requires InCurve(c, q) && InCurve(c, r) && Cong(c.p, c.d * T(q, r), ep)
    ensures Cong(c.p, q.x * q.y * (s * r.x + r.y), 0)
  {
    var p, m1 := c.p, q.x * q.y;
    var k, h := s * q.x + ep * q.y, m1 * (s * r.x + r.y);
    var e1, e2 := CurvePoly(c, q.x, q.y), CurvePoly(c, r.x, r.y);
    InCurvePoly(c, q);
    InCurvePoly(c, r);
    NormOnCurve(c, q.x, q.y);
    NormOnCurve(c, r.x, r.y);
    SquareIdentity(c.a, c.d, s, ep, q.x, q.y, r.x, r.y, e1, e2);
    ProductT(q, r);
    var dl, z := c.d * T(q, r), c.d * (m1 * m1);
    SquareCong(p, s * s - c.a, q.x * q.x - z * (r.x * r.x), e1, e2, z, dl - ep, -(dl + ep) - 2 * s * m1,
               k * k - c.d * (h * h));
    NonSquare(c, k, h);
  }

  lemma ProductT(q: Point, r: Point)
    ensures T(q, r) == q.x * q.y * (r.x * r.y)
  {
  }

  lemma FactorNonzero(p: int, x: int, y: int, v: int)
    requires p > 1 && Cong(p, x * y, v) && !Cong(p, v, 0)
    ensures !Cong(p, x, 0) && !Cong(p, y, 0)
  {
    CongSym(p, x * y, v);
    if Cong(p, x, 0) {
      CongMul(p, x, 0, y, y);
      CongTrans(p, v, x * y, 0);
    }
    if Cong(p, y, 0) {
      CongMul(p, x, x, y, 0);
      CongTrans(p, v, x * y, 0);
    }
  }

  lemma RootsCancel(p: int, s: int, x: int, y: int)
    requires IsPrime(p) && p > 2 && Cong(p, s * x + y, 0) && Cong(p, (-s) * x + y, 0)
    ensures Cong(p, y, 0)
  {
    CongAdd(p, s * x + y, 0, (-s) * x + y, 0);
    assert s * x + y + ((-s) * x + y) == 2 * y;
    DivMod(p, 2, 0, 2);
    CancelZero(p, 2, y);
  }

  lemma UnitNonzero(p: int, ep: int)
    requires p > 1 && (ep == 1 || ep == -1)
    ensures !Cong(p, ep, 0)
  {
    DivMod(p, 1, 0, 1);
    DivMod(p, -1, -1, p - 1);
  }

  lemma UnitFactors(p: int, d: int, q: Point, r: Point, ep: int)
    requires p > 1 && (ep == 1 || ep == -1) && Cong(p, d * T(q, r), ep)
    ensures !Cong(p, q.x * q.y, 0) && !Cong(p, r.y, 0)
  {
    var m1, m2 := q.x * q.y, r.x * r.y;
    UnitNonzero(p, ep);
    ProductT(q, r);
    assert d * (m1 * m2) == m1 * (d * m2);
    assert d * (m1 * (r.x * r.y)) == r.y * (d * m1 * r.x);
    FactorNonzero(p, m1, d * m2, ep);
    FactorNonzero(p, r.y, d * m1 * r.x, ep);
  }

  lemma NoUnitProduct(c: Curve, ep: int, q: Point, r: Point)
    requires Complete(c) && InCurve(c, q) && InCurve(c, r)
    requires ep == 1 || ep == -1
    ensures !Cong(c.p, c.d * T(q, r), ep)
  {
    if Cong(c.p, c.d * T(q, r), ep) {
      var s :| IsRoot(c.p, s, c.a);
      assert (-s) * (-s) == s * s;
      RootVanishes(c, s, ep, q, r);
      RootVanishes(c, -s, ep, q, r);
      UnitFactors(c.p, c.d, q, r, ep);
      CancelZero(c.p, q.x * q.y, s * r.x + r.y);
      CancelZero(c.p, q.x * q.y, (-s) * r.x + r.y);
      RootsCancel(c.p, s, r.x, r.y);
    }
  }

  /** On a complete curve neither `expect` of `add` can fire for points on the curve. */
  lemma AddNeverPanics(c: Curve, q: Point, r: Point)
    requires Complete(c) && InCurve(c, q) && InCurve(c, r)
    ensures !AddPanics(c, q, r)
  {
    var p, e := c.p, c.d * T(q, r);
    DTauCong(c, q, r);
    NoUnitProduct(c, 1, q, r);
    NoUnitProduct(c, -1, q, r);
    if (1 - e) % p == 0 { CongSym(p, 1, e); }
  }
}
