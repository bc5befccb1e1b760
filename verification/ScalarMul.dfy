/** Scalar multiplication by double-and-add (`babyjub::mul`) over an abelian group, and the proof that
    the points of the curve form one. */
module ScalarMul {
  import opened BabyJubjub

  /** `on` delimits the elements, `add` is the law, `zero` the neutral element. */
  datatype Group<!T> = Group(on: T -> bool, add: (T, T) -> T, zero: T)

  /** The laws are stated through named instances, so that each proof cites the instances it uses. */
  ghost predicate Laws<T(!new)>(g: Group<T>) {
    && g.on(g.zero)
    && (forall q, r :: ClosedAt(g, q, r))
    && (forall q, r :: CommutesAt(g, q, r))
    && (forall q :: ZeroAt(g, q))
    && (forall q, r, s :: AssociatesAt(g, q, r, s))
  }

  predicate ClosedAt<T>(g: Group<T>, q: T, r: T) {
    g.on(q) && g.on(r) ==> g.on(g.add(q, r))
  }

  ghost predicate CommutesAt<T>(g: Group<T>, q: T, r: T) {
    g.on(q) && g.on(r) ==> g.add(q, r) == g.add(r, q)
  }

  ghost predicate ZeroAt<T>(g: Group<T>, q: T) {
    g.on(q) ==> g.add(g.zero, q) == q
  }

  ghost predicate AssociatesAt<T>(g: Group<T>, q: T, r: T, s: T) {
    g.on(q) && g.on(r) && g.on(s) ==> g.add(g.add(q, r), s) == g.add(q, g.add(r, s))
  }

  /** k-fold addition of q. */
  function Times<T>(g: Group<T>, q: T, k: nat): T {
    if k == 0 then g.zero else g.add(q, Times(g, q, k - 1))
  }

  lemma {:induction false} TimesOn<T(!new)>(g: Group<T>, q: T, k: nat)
    requires Laws(g) && g.on(q)
    ensures g.on(Times(g, q, k))
  {
    if k > 0 {
      TimesOn(g, q, k - 1);
      assert ClosedAt(g, q, Times(g, q, k - 1));
    }
  }

  lemma {:induction false} TimesAdd<T(!new)>(g: Group<T>, q: T, i: nat, j: nat)
    requires Laws(g) && g.on(q)
    ensures Times(g, q, i + j) == g.add(Times(g, q, i), Times(g, q, j))
  {
    TimesOn(g, q, j);
    if i == 0 {
      assert ZeroAt(g, Times(g, q, j));
    } else {
      TimesAdd(g, q, i - 1, j);
      TimesOn(g, q, i - 1);
      assert AssociatesAt(g, q, Times(g, q, i - 1), Times(g, q, j));
    }
  }

  lemma {:induction false} TimesTimes<T(!new)>(g: Group<T>, q: T, i: nat, j: nat)
    requires Laws(g) && g.on(q)
    ensures Times(g, Times(g, q, i), j) == Times(g, q, i * j)
  {
    if j > 0 {
      TimesTimes(g, q, i, j - 1);
      assert i * j == i + i * (j - 1);
      TimesAdd(g, q, i, i * (j - 1));
    }
  }

  lemma {:induction false} TimesZero<T(!new)>(g: Group<T>, k: nat)
    requires Laws(g)
    ensures Times(g, g.zero, k) == g.zero
  {
    if k > 0 {
      TimesZero(g, k - 1);
      assert ZeroAt(g, g.zero);
    }
  }

  /** Scalars act modulo any n that annihilates the element. */
  lemma TimesMod<T(!new)>(g: Group<T>, q: T, n: nat, k: nat)
    requires Laws(g) && g.on(q) && n > 0 && Times(g, q, n) == g.zero
    ensures Times(g, q, k % n) == Times(g, q, k)
  {
    var m := k / n;
    assert k == n * m + k % n;
    TimesAdd(g, q, n * m, k % n);
    TimesTimes(g, q, n, m);
    TimesZero(g, m);
    TimesOn(g, q, k % n);
    assert ZeroAt(g, Times(g, q, k % n));
  }

  /** n is the order of q: it annihilates q and no smaller positive scalar does. */
  ghost predicate IsOrder<T>(g: Group<T>, q: T, n: nat) {
    n > 0 && Times(g, q, n) == g.zero && forall i: nat :: 0 < i < n ==> Times(g, q, i) != g.zero
  }

  /** Distinct scalars below the order give distinct multiples. */
  lemma TimesInjective<T(!new)>(g: Group<T>, q: T, n: nat, k: nat, l: nat)
    requires Laws(g) && g.on(q) && IsOrder(g, q, n)
    requires k <= l < n && Times(g, q, k) == Times(g, q, l)
    ensures k == l
  {
    TimesAdd(g, q, n - k, k);
    TimesAdd(g, q, n - k, l);
    TimesAdd(g, q, n, l - k);
    TimesOn(g, q, l - k);
    assert n - k + l == n + (l - k);
    assert ZeroAt(g, Times(g, q, l - k));
  }

  lemma TimesTwo<T(!new)>(g: Group<T>, q: T)
    requires Laws(g) && g.on(q)
    ensures Times(g, q, 2) == g.add(q, q)
  {
    assert CommutesAt(g, q, g.zero);
    assert ZeroAt(g, q);
    assert Times(g, q, 1) == g.add(q, Times(g, q, 0));
    assert Times(g, q, 1) == q;
  }

  /** Doubling the element halves the scalar. */
  lemma TimesDouble<T(!new)>(g: Group<T>, q: T, k: nat)
    requires Laws(g) && g.on(q)
    ensures Times(g, q, k) == if k % 2 == 1 then g.add(q, Times(g, g.add(q, q), k / 2))
                              else Times(g, g.add(q, q), k / 2)
  {
    TimesTwo(g, q);
    TimesTimes(g, q, 2, k / 2);
    assert k == if k % 2 == 1 then 2 * (k / 2) + 1 else 2 * (k / 2);
  }

  /** Reducing r + 8*c*m modulo l on one side and 8*c modulo 8*l on the other gives the same element,
      when l annihilates b. */
  lemma ReductionsCancel<T(!new)>(g: Group<T>, b: T, l: nat, r: nat, c: nat, m: nat)
    requires Laws(g) && g.on(b) && l > 0 && Times(g, b, l) == g.zero
    ensures Times(g, b, (r + c * (8 * m)) % l)
         == g.add(Times(g, b, r), Times(g, Times(g, b, m), (c * 8) % (8 * l)))
  {
    var a, k := Times(g, b, m), c * (8 * m);
    TimesOn(g, b, m);
    TimesMod(g, b, l, r + k);
    TimesAdd(g, b, r, k);
    TimesTimes(g, b, m, 8 * l);
    assert m * (8 * l) == l * (8 * m);
    TimesTimes(g, b, l, 8 * m);
    TimesZero(g, 8 * m);
    TimesMod(g, a, 8 * l, c * 8);
    TimesTimes(g, b, m, c * 8);
    assert m * (c * 8) == k;
  }

  /** Least significant bit first, from the neutral element: the k-fold sum of the base. */
  method Mul<T(!new)>(g: Group<T>, base: T, scalar: nat) returns (res: T)
    requires Laws(g) && g.on(base)
    ensures res == Times(g, base, scalar)
  {
    res := g.zero;
    var exp, k := base, scalar;
    TimesOn(g, base, scalar);
    assert ZeroAt(g, Times(g, base, scalar));
    while k > 0
      invariant g.on(res) && g.on(exp)
      invariant g.add(res, Times(g, exp, k)) == Times(g, base, scalar)
    {
      assert ClosedAt(g, exp, exp);
      TimesDouble(g, exp, k);
      TimesOn(g, g.add(exp, exp), k / 2);
      if k % 2 == 1 {
        assert AssociatesAt(g, res, exp, Times(g, g.add(exp, exp), k / 2));
        assert ClosedAt(g, res, exp);
        res := g.add(res, exp);
      }
      exp := g.add(exp, exp);
      k := k / 2;
    }
    assert CommutesAt(g, res, g.zero);
    assert ZeroAt(g, res);
  }

  // ----- the curve as a group -----

  predicate OnCurve(c: Curve, q: Point) {
    c.p > 0 && IsPoint(c, q) && InCurve(c, q)
  }

  function CurveAdd(c: Curve, q: Point, r: Point): Point {
    if c.p > 0 then Add(c, q, r) else NEUTRAL
  }

  function CurveGroup(c: Curve): Group<Point> {
    Group((q: Point) => OnCurve(c, q), (q: Point, r: Point) => CurveAdd(c, q, r), NEUTRAL)
  }

  /** The one law of the curve that is assumed rather than proved. */
  ghost predicate Associative(c: Curve) {
    forall q, r, s :: CurveAssociatesAt(c, q, r, s)
  }

  predicate CurveAssociatesAt(c: Curve, q: Point, r: Point, s: Point) {
    OnCurve(c, q) && OnCurve(c, r) && OnCurve(c, s) ==>
      CurveAdd(c, CurveAdd(c, q, r), s) == CurveAdd(c, q, CurveAdd(c, r, s))
  }

  lemma CurveSum(c: Curve, q: Point, r: Point)
    requires Complete(c) && OnCurve(c, q) && OnCurve(c, r)
    ensures OnCurve(c, CurveAdd(c, q, r)) && CurveAdd(c, q, r) == CurveAdd(c, r, q)
  {
    AddNeverPanics(c, q, r);
    AddStaysOnCurve(c, q, r);
    AddCommutes(c, q, r);
  }

  lemma CurveZero(c: Curve, q: Point)
    requires Complete(c)
    ensures OnCurve(c, NEUTRAL)
    ensures OnCurve(c, q) ==> CurveAdd(c, NEUTRAL, q) == q
  {
    NeutralInCurve(c);
    if OnCurve(c, q) { NeutralIsIdentity(c, q); }
  }

  /** Closure, commutativity and the neutral element hold on every complete curve; with associativity
      the points on the curve are an abelian group. */
  lemma CurveIsGroup(c: Curve)
    requires Complete(c) && Associative(c)
    ensures Laws(CurveGroup(c))
  {
    var g := CurveGroup(c);
    CurveZero(c, NEUTRAL);
    forall q, r ensures ClosedAt(g, q, r) && CommutesAt(g, q, r) {
      if OnCurve(c, q) && OnCurve(c, r) { CurveSum(c, q, r); }
    }
    forall q ensures ZeroAt(g, q) {
      CurveZero(c, q);
    }
    forall q, r, s ensures AssociatesAt(g, q, r, s) {
      assert CurveAssociatesAt(c, q, r, s);
    }
  }
}
