/** Arithmetic modulo a prime.  Field elements are the canonical representatives 0 <= x < p, as
    `fr_to_biguint` and halo2's `to_repr` expose them.  Every lemma holds for every prime p, so the
    BN254 scalar field of the BabyJubjub code and the Pasta field of the provers are both instances. */
module PrimeField {

  predicate Divides(d: int, n: int)
    requires d > 0
  {
    n % d == 0
  }

  ghost predicate IsPrime(p: int) {
    p > 1 && forall d :: 1 < d < p ==> !Divides(d, p)
  }

  /** Equality of the residue classes of x and y. */
  predicate Cong(p: int, x: int, y: int)
    requires p > 0
  {
    (x - y) % p == 0
  }

  predicate IsFelt(p: int, x: int) {
    0 <= x < p
  }

  function FAdd(p: int, x: int, y: int): int requires p > 0 { (x + y) % p }

  function FSub(p: int, x: int, y: int): int requires p > 0 { (x - y) % p }

  function FMul(p: int, x: int, y: int): int requires p > 0 { (x * y) % p }

  /** The inverse by Euclidean descent, from p = q*x + r and so 1/x = -q * (1/r).  0 for x = 0,
      where the library returns no inverse. */
  function FInv(p: int, x: int): int
    requires p > 0 && 0 <= x
    decreases x
  {
    if x <= 1 then x else FMul(p, -(p / x), FInv(p, p % x))
  }

  // ----- residues -----

  lemma ModOfMultiple(p: int, k: int)
    requires p > 0
    ensures (k * p) % p == 0
  {
    DivMod(p, k * p, k, 0);
  }

  /** Division with remainder is unique. */
  lemma DivMod(p: int, x: int, q: int, r: int)
    requires p > 0 && x == q * p + r && 0 <= r < p
    ensures x / p == q && x % p == r
  {
    var d := q - x / p;
    assert x == (x / p) * p + x % p;
    assert d * p == x % p - r;
    assert d >= 1 ==> d * p >= p;
    assert d <= -1 ==> d * p <= -p;
  }

  lemma Quotient(p: int, x: int) returns (k: int)
    requires p > 0 && x % p == 0
    ensures x == k * p
  {
    k := x / p;
  }

  lemma CongMultiple(p: int, x: int, y: int, k: int)
    requires p > 0 && x - y == k * p
    ensures Cong(p, x, y)
  {
    ModOfMultiple(p, k);
  }

  lemma CongMod(p: int, x: int)
    requires p > 0
    ensures Cong(p, x % p, x) && Cong(p, x, x % p)
  {
    var q := x / p;
    assert x == q * p + x % p;
    CongMultiple(p, x, x % p, q);
    CongMultiple(p, x % p, x, -q);
  }

  lemma CongSym(p: int, x: int, y: int)
    requires p > 0 && Cong(p, x, y)
    ensures Cong(p, y, x)
  {
    var k := Quotient(p, x - y);
    CongMultiple(p, y, x, -k);
  }

  lemma CongTrans(p: int, x: int, y: int, z: int)
    requires p > 0 && Cong(p, x, y) && Cong(p, y, z)
    ensures Cong(p, x, z)
  {
    var k := Quotient(p, x - y);
    var l := Quotient(p, y - z);
    CongMultiple(p, x, z, k + l);
  }

  lemma CongAdd(p: int, x: int, x': int, y: int, y': int)
    requires p > 0 && Cong(p, x, x') && Cong(p, y, y')
    ensures Cong(p, x + y, x' + y') && Cong(p, x - y, x' - y')
  {
    var k := Quotient(p, x - x');
    var l := Quotient(p, y - y');
    CongMultiple(p, x + y, x' + y', k + l);
    CongMultiple(p, x - y, x' - y', k - l);
  }

  lemma CongMul(p: int, x: int, x': int, y: int, y': int)
    requires p > 0 && Cong(p, x, x') && Cong(p, y, y')
    ensures Cong(p, x * y, x' * y')
  {
    var k := Quotient(p, x - x');
    var l := Quotient(p, y - y');
    assert x * y - x' * y' == (x - x') * y + x' * (y - y');
    assert (k * p) * y + x' * (l * p) == (k * y + x' * l) * p;
    CongMultiple(p, x * y, x' * y', k * y + x' * l);
  }

  /** A linear combination of two zeros is a zero: how an ideal-membership identity is used. */
  lemma CongZero2(p: int, x: int, c: int, y: int, e: int)
    requires p > 0 && Cong(p, x, 0) && Cong(p, y, 0)
    ensures Cong(p, c * x + e * y, 0)
  {
    CongMul(p, c, c, x, 0);
    CongMul(p, e, e, y, 0);
    CongAdd(p, c * x, 0, e * y, 0);
  }

  lemma CongEqual(p: int, x: int, y: int)
    requires p > 0 && IsFelt(p, x) && IsFelt(p, y) && Cong(p, x, y)
    ensures x == y
  {
    var k := Quotient(p, x - y);
    assert k >= 1 ==> k * p >= p;
    assert k <= -1 ==> k * p <= -p;
  }

  lemma CongToMod(p: int, x: int, y: int)
    requires p > 0 && Cong(p, x, y)
    ensures x % p == y % p
  {
    CongMod(p, x);
    CongMod(p, y);
    CongTrans(p, x % p, x, y);
    CongTrans(p, x % p, y, y % p);
    CongEqual(p, x % p, y % p);
  }

  lemma ModToCong(p: int, x: int, y: int)
    requires p > 0 && x % p == y % p
    ensures Cong(p, x, y)
  {
    CongMod(p, x);
    CongMod(p, y);
    CongTrans(p, x, x % p, y);
  }

  lemma CongRefl(p: int, x: int)
    requires p > 0
    ensures Cong(p, x, x)
  {
  }

  /** The field operations act on residue classes. */
  lemma Lift(p: int, x: int, x': int, y: int, y': int)
    requires p > 0 && Cong(p, x, x') && Cong(p, y, y')
    ensures Cong(p, FAdd(p, x, y), x' + y')
    ensures Cong(p, FSub(p, x, y), x' - y')
    ensures Cong(p, FMul(p, x, y), x' * y')
  {
    CongAdd(p, x, x', y, y');
    CongMul(p, x, x', y, y');
    CongMod(p, x + y);
    CongMod(p, x - y);
    CongMod(p, x * y);
    CongTrans(p, FAdd(p, x, y), x + y, x' + y');
    CongTrans(p, FSub(p, x, y), x - y, x' - y');
    CongTrans(p, FMul(p, x, y), x * y, x' * y');
  }

  // ----- primality -----

  lemma RemainderNonzero(p: int, a: int)
    requires IsPrime(p) && 1 < a < p
    ensures 0 < p % a < a
  {
    assert !Divides(a, p);
  }

  /** x times the remainder of p by a, from p = q*a + r. */
  lemma RemainderTimes(p: int, a: int, b: int)
    requires a > 0
    ensures (p % a) * b == b * p - (p / a) * (a * b)
  {
    var q, r := p / a, p % a;
    assert p == q * a + r;
    TimesSplit(q, a, r, b);
  }

  lemma TimesSplit(q: int, a: int, r: int, b: int)
    ensures b * (q * a + r) == q * (a * b) + r * b
  {
  }

  /** Euclid's lemma, by descent on a: p = q*a + r and r*b = p*b - q*(a*b). */
  lemma {:induction false} EuclidDescent(p: int, a: int, b: int)
    requires IsPrime(p) && 0 < a < p && Cong(p, a * b, 0)
    ensures Cong(p, b, 0)
    decreases a
  {
    if a > 1 {
      RemainderNonzero(p, a);
      RemainderCong(p, a, b);
      EuclidDescent(p, p % a, b);
    }
  }

  lemma RemainderCong(p: int, a: int, b: int)
    requires p > 0 && a > 0 && Cong(p, a * b, 0)
    ensures Cong(p, (p % a) * b, 0)
  {
    var k := Quotient(p, a * b);
    RemainderTimes(p, a, b);
    assert b * p - (p / a) * (k * p) == (b - (p / a) * k) * p;
    CongMultiple(p, (p % a) * b, 0, b - (p / a) * k);
  }

  /** The field has no zero divisors. */
  lemma NoZeroDivisors(p: int, a: int, b: int)
    requires IsPrime(p) && Cong(p, a * b, 0)
    ensures Cong(p, a, 0) || Cong(p, b, 0)
  {
    CongMod(p, a);
    if a % p != 0 {
      CongMul(p, a % p, a, b, b);
      CongTrans(p, (a % p) * b, a * b, 0);
      EuclidDescent(p, a % p, b);
    }
  }

  lemma {:induction false} InverseDescent(p: int, x: int)
    requires IsPrime(p) && 0 < x < p
    ensures Cong(p, x * FInv(p, x), 1)
    decreases x
  {
    if x > 1 {
      RemainderNonzero(p, x);
      InverseDescent(p, p % x);
      InverseStep(p, x, FInv(p, p % x));
    } else {
      CongRefl(p, 1);
    }
  }

  lemma NegatedProduct(x: int, q: int, s: int)
    ensures x * (-q * s) == -(q * (x * s))
  {
  }

  lemma InverseStep(p: int, x: int, s: int)
    requires p > 0 && x > 0 && Cong(p, (p % x) * s, 1)
    ensures Cong(p, x * FMul(p, -(p / x), s), 1)
  {
    var q, t := p / x, (p % x) * s;
    Lift(p, -q, -q, s, s);
    CongMul(p, x, x, FMul(p, -q, s), -q * s);
    RemainderTimes(p, x, s);
    NegatedProduct(x, q, s);
    CongMultiple(p, x * (-q * s), t, -s);
    CongTrans(p, x * FMul(p, -q, s), x * (-q * s), t);
    CongTrans(p, x * FMul(p, -q, s), t, 1);
  }

  // ----- gate polynomials -----

  lemma DifferenceZero(p: int, x: int, y: int)
    requires p > 0 && IsFelt(p, x)
    ensures FSub(p, x, y) == 0 <==> x == y % p
  {
    DivMod(p, x, 0, x);
    if FSub(p, x, y) == 0 { CongToMod(p, x, y); }
    if x == y % p { CongMod(p, y); }
  }

  lemma BooleanGate(p: int, d: int)
    requires IsPrime(p) && IsFelt(p, d)
    ensures FMul(p, d, FSub(p, 1, d)) == 0 <==> d == 0 || d == 1
  {
    Lift(p, 1, 1, d, d);
    Lift(p, d, d, FSub(p, 1, d), 1 - d);
    if FMul(p, d, FSub(p, 1, d)) == 0 {
      CongSym(p, 0, d * (1 - d));
      NoZeroDivisors(p, d, 1 - d);
      if Cong(p, d, 0) { CongEqual(p, d, 0); } else { CongSym(p, 1, d); CongEqual(p, d, 1); }
    }
    if d == 0 || d == 1 {
      assert d * (1 - d) == 0;
      CongEqual(p, FMul(p, d, FSub(p, 1, d)), 0);
    }
  }
}
