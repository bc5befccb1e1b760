/** The liveness circuit of `poe_prover/src/lib.rs`: the subtraction gate, the bit decomposition, and the
    prover that refuses a score below the threshold. */
module Liveness {
  import opened Wrappers
  import opened PrimeField
  import opened DenseTree

  /** The advice cells: score, diff, the bits of rows 1..n and the accumulator of rows 0..n.  The copied
      public cells are the instance values themselves. */
  datatype Assignment = Assignment(score: int, diff: int, bits: seq<int>, acc: seq<int>)

  /** score - tau - diff = 0. */
  predicate SubGate(p: int, score: int, tau: int, diff: int)
    requires p > 0
  {
    FSub(p, FSub(p, score, tau), diff) == 0
  }

  /** bit*(1 - bit) = 0 and acc_cur - acc_prev - bit*coeff = 0. */
  predicate DecomposeGate(p: int, bit: int, coeff: int, prev: int, cur: int)
    requires p > 0
  {
    && FMul(p, bit, FSub(p, 1, bit)) == 0
    && FSub(p, FSub(p, cur, prev), FMul(p, bit, coeff)) == 0
  }

  /** Gates and the final equality over `n` bit rows, with the accumulator starting at `acc[0]`. */
  predicate Satisfies(p: int, n: nat, tau: int, a: Assignment)
    requires p > 0
  {
    && IsFelt(p, a.score) && IsFelt(p, a.diff)
    && |a.bits| == n && |a.acc| == n + 1
    && (forall i :: 0 <= i < n ==> IsFelt(p, a.bits[i]))
    && (forall i :: 0 <= i <= n ==> IsFelt(p, a.acc[i]))
    && SubGate(p, a.score, tau, a.diff)
    && (forall i: nat :: i < n ==> DecomposeGate(p, a.bits[i], Coeff(p, i), a.acc[i], a.acc[i + 1]))
    && a.acc[n] == a.diff
  }

  /** The fixed column: 2^i as a field element. */
  function Coeff(p: int, i: nat): int
    requires p > 0
  {
    Pow2(i) % p
  }

  predicate IsBits(bits: seq<int>) {
    forall j :: 0 <= j < |bits| ==> bits[j] == 0 || bits[j] == 1
  }

  /** The value of the low i bits. */
  function BitSum(bits: seq<int>, i: nat): int
    requires i <= |bits|
  {
    if i == 0 then 0 else BitSum(bits, i - 1) + bits[i - 1] * Pow2(i - 1)
  }

  lemma {:induction false} BitSumBound(bits: seq<int>, i: nat)
    requires i <= |bits| && IsBits(bits)
    ensures 0 <= BitSum(bits, i) < Pow2(i)
  {
    if i > 0 { BitSumBound(bits, i - 1); }
  }

  lemma DivTwice(v: nat, m: nat)
    requires m > 0
    ensures v / (2 * m) == (v / m) / 2
  {
    var q := v / m;
    assert v == q * m + v % m;
    assert q == 2 * (q / 2) + q % 2;
    assert v == (q / 2) * (2 * m) + ((q % 2) * m + v % m);
    assert 0 <= (q % 2) * m <= m;
    DivMod(2 * m, v, q / 2, (q % 2) * m + v % m);
  }

  lemma HalfSplit(q: nat, m: int)
    ensures q * m == (q / 2) * (2 * m) + (q % 2) * m
  {
    assert q == 2 * (q / 2) + q % 2;
  }

  /** The n bits of v, low first, found from the top. */
  function BitsOf(v: nat, n: nat): (b: seq<int>)
    ensures |b| == n && IsBits(b)
  {
    if n == 0 then []
    else if v >= Pow2(n - 1) then BitsOf(v - Pow2(n - 1), n - 1) + [1]
    else BitsOf(v, n - 1) + [0]
  }

  lemma {:induction false} BitSumPrefix(b: seq<int>, c: int, i: nat)
    requires i <= |b|
    ensures BitSum(b + [c], i) == BitSum(b, i)
  {
    if i > 0 { BitSumPrefix(b, c, i - 1); }
  }

  lemma BitSumSnoc(b: seq<int>, c: int)
    ensures BitSum(b + [c], |b| + 1) == BitSum(b, |b|) + c * Pow2(|b|)
  {
    BitSumPrefix(b, c, |b|);
  }

  lemma {:induction false} BitsOfValue(v: nat, n: nat)
    requires v < Pow2(n)
    ensures BitSum(BitsOf(v, n), n) == v
  {
    if n > 0 {
      var m := Pow2(n - 1);
      var w := if v >= m then v - m else v;
      BitsOfValue(w, n - 1);
      BitSumPrefix(BitsOf(w, n - 1), if v >= m then 1 else 0, n - 1);
    }
  }

  // ----- the gates -----

  lemma SubGateMeaning(p: int, score: int, tau: int, diff: int)
    requires p > 0 && IsFelt(p, diff)
    ensures SubGate(p, score, tau, diff) <==> Cong(p, score - tau, diff)
  {
    Lift(p, score, score, tau, tau);
    var s := FSub(p, score, tau);
    if SubGate(p, score, tau, diff) {
      CongSym(p, s, score - tau);
      CongTrans(p, score - tau, s, diff);
    }
    if Cong(p, score - tau, diff) {
      CongTrans(p, s, score - tau, diff);
    }
  }

  lemma DecomposeGateMeaning(p: int, bit: int, i: nat, prev: int, cur: int)
    requires IsPrime(p) && IsFelt(p, bit) && IsFelt(p, prev) && IsFelt(p, cur)
    ensures DecomposeGate(p, bit, Coeff(p, i), prev, cur)
       <==> (bit == 0 || bit == 1) && Cong(p, cur, prev + bit * Pow2(i))
  {
    BooleanGate(p, bit);
    CongMod(p, Pow2(i));
    Lift(p, cur, cur, prev, prev);
    Lift(p, bit, bit, Coeff(p, i), Pow2(i));
    RunningSum(p, FSub(p, cur, prev), cur - prev, FMul(p, bit, Coeff(p, i)), bit * Pow2(i));
  }

  lemma RunningSum(p: int, x: int, x': int, y: int, y': int)
    requires p > 0 && Cong(p, x, x') && Cong(p, y, y')
    ensures FSub(p, x, y) == 0 <==> Cong(p, x', y')
  {
    CongSym(p, x, x');
    CongSym(p, y, y');
    if Cong(p, x, y) { CongTrans(p, x', x, y); CongTrans(p, x', y, y'); }
    if Cong(p, x', y') { CongTrans(p, x, x', y'); CongTrans(p, x, y', y); }
  }

  lemma BitsBoolean(p: int, n: nat, tau: int, a: Assignment)
    requires IsPrime(p) && Satisfies(p, n, tau, a)
    ensures IsBits(a.bits)
  {
    forall i: nat | i < n ensures a.bits[i] == 0 || a.bits[i] == 1 {
      DecomposeGateMeaning(p, a.bits[i], i, a.acc[i], a.acc[i + 1]);
    }
  }

  /** Row i of the accumulator holds its start plus the low i bits. */
  lemma {:induction false} AccumulatorRow(p: int, n: nat, tau: int, a: Assignment, i: nat)
    requires IsPrime(p) && Satisfies(p, n, tau, a) && i <= n
    ensures Cong(p, a.acc[i], a.acc[0] + BitSum(a.bits, i))
  {
    if i > 0 {
      AccumulatorRow(p, n, tau, a, i - 1);
      DecomposeGateMeaning(p, a.bits[i - 1], i - 1, a.acc[i - 1], a.acc[i]);
      var term := a.bits[i - 1] * Pow2(i - 1);
      CongAdd(p, a.acc[i - 1], a.acc[0] + BitSum(a.bits, i - 1), term, term);
      CongTrans(p, a.acc[i], a.acc[i - 1] + term, a.acc[0] + BitSum(a.bits, i));
    }
  }

  // ----- witnesses -----

  /** The assignment for given bits above a start value. */
  function Witness(p: int, score: int, start: int, tau: int, bits: seq<int>): Assignment
    requires p > 0
  {
    Assignment(score, FSub(p, score, tau), bits, AccRows(p, start, bits))
  }

  function AccRows(p: int, start: int, bits: seq<int>): (acc: seq<int>)
    requires p > 0
    ensures |acc| == |bits| + 1
    ensures forall i :: 0 <= i <= |bits| ==> acc[i] == (start + BitSum(bits, i)) % p
  {
    seq(|bits| + 1, i requires 0 <= i <= |bits| => (start + BitSum(bits, i)) % p)
  }

  lemma AccStep(p: int, s: int, t: int)
    requires p > 0
    ensures Cong(p, (s + t) % p, s % p + t)
  {
    CongMod(p, s);
    CongMod(p, s + t);
    CongAdd(p, s, s % p, t, t);
    CongTrans(p, (s + t) % p, s + t, s % p + t);
  }

  lemma WitnessRow(p: int, start: int, bits: seq<int>, i: nat)
    requires IsPrime(p) && i < |bits| && IsBits(bits)
    ensures DecomposeGate(p, bits[i], Coeff(p, i), (start + BitSum(bits, i)) % p, (start + BitSum(bits, i + 1)) % p)
  {
    AccStep(p, start + BitSum(bits, i), bits[i] * Pow2(i));
    DecomposeGateMeaning(p, bits[i], i, (start + BitSum(bits, i)) % p, (start + BitSum(bits, i + 1)) % p);
  }

  lemma WitnessSub(p: int, score: int, start: int, tau: int, sum: int)
    requires p > 0 && Cong(p, score - tau, start + sum)
    ensures SubGate(p, score, tau, FSub(p, score, tau)) && (start + sum) % p == FSub(p, score, tau)
  {
    CongToMod(p, score - tau, start + sum);
    CongMod(p, score - tau);
    SubGateMeaning(p, score, tau, FSub(p, score, tau));
  }

  lemma WitnessSatisfies(p: int, score: int, start: int, tau: int, bits: seq<int>)
    requires IsPrime(p) && IsFelt(p, score) && IsBits(bits) && Cong(p, score - tau, start + BitSum(bits, |bits|))
    ensures Satisfies(p, |bits|, tau, Witness(p, score, start, tau, bits))
  {
    var a := Witness(p, score, start, tau, bits);
    forall i: nat | i < |bits|
      ensures DecomposeGate(p, a.bits[i], Coeff(p, i), a.acc[i], a.acc[i + 1])
    {
      WitnessRow(p, start, bits, i);
    }
    WitnessSub(p, score, start, tau, BitSum(bits, |bits|));
    assert a.acc[|bits|] == a.diff;
  }

  /** The score exceeds the threshold by `start` and an n-bit value v, modulo p. */
  predicate Exceeds(p: int, n: nat, score: int, start: int, tau: int, v: nat)
    requires p > 0
  {
    v < Pow2(n) && Cong(p, score - tau, start + v)
  }

  predicate SatisfiesFrom(p: int, n: nat, score: int, start: int, tau: int, a: Assignment)
    requires p > 0
  {
    Satisfies(p, n, tau, a) && a.score == score && a.acc[0] == start
  }

  lemma Extract(p: int, n: nat, score: int, start: int, tau: int, a: Assignment)
    requires IsPrime(p) && SatisfiesFrom(p, n, score, start, tau, a)
    ensures BitSum(a.bits, n) >= 0 && Exceeds(p, n, score, start, tau, BitSum(a.bits, n))
  {
    BitsBoolean(p, n, tau, a);
    BitSumBound(a.bits, n);
    AccumulatorRow(p, n, tau, a, n);
    SubGateMeaning(p, score, tau, a.diff);
    CongTrans(p, score - tau, a.diff, start + BitSum(a.bits, n));
  }

  lemma WitnessStart(p: int, score: int, start: int, tau: int, bits: seq<int>)
    requires IsPrime(p) && IsFelt(p, start)
    ensures Witness(p, score, start, tau, bits).acc[0] == start
  {
    DivMod(p, start, 0, start);
  }

  lemma Construct(p: int, n: nat, score: int, start: int, tau: int, v: nat)
    requires IsPrime(p) && IsFelt(p, score) && IsFelt(p, start) && Exceeds(p, n, score, start, tau, v)
    ensures SatisfiesFrom(p, n, score, start, tau, Witness(p, score, start, tau, BitsOf(v, n)))
  {
    var bits := BitsOf(v, n);
    BitsOfValue(v, n);
    WitnessSatisfies(p, score, start, tau, bits);
    WitnessStart(p, score, start, tau, bits);
  }

  /** The gates and the final equality, with the accumulator started at any `start`, are satisfiable for
      a score exactly when score - tau - start is congruent to some v below 2^n. */
  lemma SatisfiableFrom(p: int, n: nat, score: int, start: int, tau: int)
    requires IsPrime(p) && IsFelt(p, score) && IsFelt(p, start)
    ensures (exists a :: SatisfiesFrom(p, n, score, start, tau, a))
       <==> (exists v: nat :: Exceeds(p, n, score, start, tau, v))
  {
    if a :| SatisfiesFrom(p, n, score, start, tau, a) {
      Extract(p, n, score, start, tau, a);
    }
    if v: nat :| Exceeds(p, n, score, start, tau, v) {
      Construct(p, n, score, start, tau, v);
    }
  }

  lemma NoWrap(p: int, bound: int, x: int, v: int)
    requires p > 0 && Cong(p, x, v) && -bound < x < bound && 0 <= v < bound && 2 * bound < p
    ensures x == v
  {
    var k := Quotient(p, x - v);
    assert k >= 1 ==> k * p >= p;
    assert k <= -1 ==> k * p <= -p;
  }

  /** The start value `synthesize` assigns is zero.  In a field that does not wrap, n-bit scores and
      thresholds then satisfy the circuit exactly when the score reaches the threshold. */
  lemma SatisfiableIffReached(p: int, n: nat, score: nat, tau: nat)
    requires IsPrime(p) && score < Pow2(n) && tau < Pow2(n) && 2 * Pow2(n) < p
    ensures (exists a :: SatisfiesFrom(p, n, score, 0, tau, a)) <==> score >= tau
  {
    SatisfiableFrom(p, n, score, 0, tau);
    if v: nat :| Exceeds(p, n, score, 0, tau, v) {
      NoWrap(p, Pow2(n), score - tau, v);
    }
    if score >= tau {
      CongRefl(p, score - tau);
      assert Exceeds(p, n, score, 0, tau, score - tau);
    }
  }

  // ----- what the gates enforce -----

  /** Some assignment with this score and this first accumulator cell satisfies every constraint. */
  ghost predicate Accepts(p: int, n: nat, score: int, start: int, tau: int)
    requires p > 0
  {
    exists a :: SatisfiesFrom(p, n, score, start, tau, a)
  }

  /** The law of the constraints themselves, on every satisfying assignment: score - tau is the first
      accumulator cell plus an n-bit number. */
  lemma AssignmentLaw(p: int, n: nat, tau: int, a: Assignment)
    requires IsPrime(p) && Satisfies(p, n, tau, a)
    ensures exists v: nat :: Exceeds(p, n, a.score, a.acc[0], tau, v)
  {
    Extract(p, n, a.score, a.acc[0], tau, a);
  }

  /** No gate fixes that cell, so the gates alone exclude nothing: every score has a satisfying assignment
      for every threshold. */
  lemma GatesAcceptEveryScore(p: int, n: nat, score: int, tau: int)
    requires IsPrime(p) && IsFelt(p, score)
    ensures exists a :: Satisfies(p, n, tau, a) && a.score == score
  {
    var start := (score - tau) % p;
    CongMod(p, score - tau);
    CongSym(p, start, score - tau);
    assert Exceeds(p, n, score, start, tau, 0);
    Construct(p, n, score, start, tau, 0);
    var a := Witness(p, score, start, tau, BitsOf(0, n));
    assert Satisfies(p, n, tau, a) && a.score == score;
  }

  /** An assignment that the constraints accept with score 0 below threshold 1. */
  lemma BelowThresholdAccepted(p: int, n: nat)
    requires IsPrime(p)
    ensures var a := Witness(p, 0, p - 1, 1, BitsOf(0, n));
      Satisfies(p, n, 1, a) && a.score == 0 && a.acc[0] == p - 1
  {
    assert Cong(p, 0 - 1, p - 1 + 0) by { CongMultiple(p, 0 - 1, p - 1 + 0, -1); }
    assert Exceeds(p, n, 0, p - 1, 1, 0);
    Construct(p, n, 0, p - 1, 1, 0);
  }

  /** The bound a verifier would want of n-bit scores and thresholds. */
  ghost predicate Bounds(p: int, n: nat, start: int)
    requires p > 0
  {
    forall score: nat, tau: nat :: score < Pow2(n) && tau < Pow2(n) && Accepts(p, n, score, start, tau) ==> score >= tau
  }

  /** Acceptance is the bound. */
  ghost predicate Decides(p: int, n: nat, start: int)
    requires p > 0
  {
    forall score: nat, tau: nat :: score < Pow2(n) && tau < Pow2(n) ==> (Accepts(p, n, score, start, tau) <==> score >= tau)
  }

  lemma NoMultipleBetween(p: int, x: int)
    requires p > 0 && 0 < x < p
    ensures x % p != 0
  {
  }

  lemma SmallStartBounds(p: int, n: nat, score: nat, start: int, tau: nat)
    requires IsPrime(p) && IsFelt(p, start) && IsFelt(p, score) && 2 * Pow2(n) < p
    requires score < Pow2(n) && tau < Pow2(n) && Accepts(p, n, score, start, tau)
    requires start <= p - 2 * Pow2(n) + 1
    ensures score >= tau
  {
    SatisfiableFrom(p, n, score, start, tau);
    var v: nat :| Exceeds(p, n, score, start, tau, v);
    CongSym(p, score - tau, start + v);
    if score < tau { NoMultipleBetween(p, start + v - (score - tau)); }
  }

  /** A start value this close to p lets a score below the threshold through. */
  lemma LargeStartFails(p: int, n: nat, start: int) returns (tau: nat)
    requires IsPrime(p) && IsFelt(p, start) && 2 * Pow2(n) < p && start > p - 2 * Pow2(n) + 1
    ensures 0 < tau < Pow2(n) && Accepts(p, n, 0, start, tau)
  {
    var r := p - start;
    tau := if r < Pow2(n) then r else Pow2(n) - 1;
    var v := r - tau;
    CongMultiple(p, 0 - tau, start + v, -1);
    assert Exceeds(p, n, 0, start, tau, v);
    SatisfiableFrom(p, n, 0, start, tau);
  }

  /** Exactly which first cells make the constraints enforce the bound. */
  lemma BoundsIff(p: int, n: nat, start: int)
    requires IsPrime(p) && IsFelt(p, start) && 2 * Pow2(n) < p
    ensures Bounds(p, n, start) <==> start <= p - 2 * Pow2(n) + 1
  {
    if start <= p - 2 * Pow2(n) + 1 {
      forall score: nat, tau: nat | score < Pow2(n) && tau < Pow2(n) && Accepts(p, n, score, start, tau)
        ensures score >= tau
      {
        SmallStartBounds(p, n, score, start, tau);
      }
    } else {
      var tau := LargeStartFails(p, n, start);
    }
  }

  /** Acceptance says exactly that the score reaches the threshold if and only if the first cell is 0, the
      value `synthesize` assigns and no gate enforces. */
  lemma DecidesIffZero(p: int, n: nat, start: int)
    requires IsPrime(p) && IsFelt(p, start) && 2 * Pow2(n) < p
    ensures Decides(p, n, start) <==> start == 0
  {
    if start == 0 {
      forall score: nat, tau: nat | score < Pow2(n) && tau < Pow2(n)
        ensures Accepts(p, n, score, 0, tau) <==> score >= tau
      {
        SatisfiableIffReached(p, n, score, tau);
      }
    } else if Decides(p, n, start) {
      assert Accepts(p, n, 0, start, 0);
      SatisfiableFrom(p, n, 0, start, 0);
      var v: nat :| Exceeds(p, n, 0, start, 0, v);
      CongSym(p, 0 - 0, start + v);
      if start + v < p { NoMultipleBetween(p, start + v); }
      var tau := LargeStartFails(p, n, start);
      assert false;
    }
  }

  /** One row of the loop in `synthesize`: the field accumulator follows the integer prefix sum. */
  lemma RowFollows(p: int, sum: int, bit: int, i: nat)
    requires p > 0
    ensures FAdd(p, sum % p, FMul(p, bit, Coeff(p, i))) == (sum + bit * Pow2(i)) % p
  {
    CongMod(p, sum);
    CongMod(p, Pow2(i));
    Lift(p, bit, bit, Coeff(p, i), Pow2(i));
    CongAdd(p, sum % p, sum, FMul(p, bit, Coeff(p, i)), bit * Pow2(i));
    CongToMod(p, sum % p + FMul(p, bit, Coeff(p, i)), sum + bit * Pow2(i));
  }

  /** The bits read so far and the shifted rest still make up the number. */
  ghost predicate Splits(diff: nat, bits: seq<int>, i: nat) {
    |bits| == i && IsBits(bits) && BitSum(bits, i) + Scaled(diff / Pow2(i), i) == diff
  }

  function Scaled(x: int, i: nat): int { x * Pow2(i) }

  lemma NextBit(diff: nat, bits: seq<int>, i: nat)
    requires Splits(diff, bits, i)
    ensures Splits(diff, bits + [(diff / Pow2(i)) % 2], i + 1)
  {
    var rest := diff / Pow2(i);
    BitSumSnoc(bits, rest % 2);
    ShiftedRest(diff, i);
  }

  lemma ShiftedRest(diff: nat, i: nat)
    ensures var rest := diff / Pow2(i);
      (rest % 2) * Pow2(i) + Scaled(diff / Pow2(i + 1), i + 1) == Scaled(rest, i)
  {
    var m := Pow2(i);
    DivTwice(diff, m);
    HalfSplit(diff / m, m);
    assert Pow2(i + 1) == 2 * m;
  }

  lemma AllBits(diff: nat, bits: seq<int>, i: nat)
    requires Splits(diff, bits, i) && diff < Pow2(i)
    ensures BitSum(bits, i) == diff
  {
    DivMod(Pow2(i), diff, 0, diff);
  }

  lemma AccAppend(p: int, bits: seq<int>, bit: int, acc: seq<int>, v: int)
    requires p > 0 && acc == AccRows(p, 0, bits) && v == BitSum(bits + [bit], |bits| + 1) % p
    ensures acc + [v] == AccRows(p, 0, bits + [bit])
  {
    var next := AccRows(p, 0, bits + [bit]);
    forall i: nat | i <= |bits| ensures acc[i] == next[i] {
      BitSumPrefix(bits, bit, i);
    }
    assert v == next[|bits| + 1];
  }

  /** The bits of a number below 2^n, read by shifting, with the accumulator rows they give. */
  method Decompose(p: int, n: nat, diff: nat) returns (bits: seq<int>, acc: seq<int>)
    requires p > 1 && diff < Pow2(n)
    ensures |bits| == n && IsBits(bits) && BitSum(bits, n) == diff
    ensures acc == AccRows(p, 0, bits)
  {
    bits, acc := [], [0];
    var accVal := 0;
    DivMod(p, 0, 0, 0);
    DivMod(1, diff, diff, 0);
    for i := 0 to n
      invariant Splits(diff, bits, i)
      invariant acc == AccRows(p, 0, bits) && accVal == BitSum(bits, i) % p
    {
      var bit := (diff / Pow2(i)) % 2;
      NextBit(diff, bits, i);
      RowFollows(p, BitSum(bits, i), bit, i);
      BitSumSnoc(bits, bit);
      accVal := FAdd(p, accVal, FMul(p, bit, Coeff(p, i)));
      AccAppend(p, bits, bit, acc, accVal);
      bits, acc := bits + [bit], acc + [accVal];
    }
    AllBits(diff, bits, n);
  }

  /** `LivenessProver::prove` up to the proof itself: refuse, or assign a satisfying circuit. */
  method Prove(p: int, n: nat, score: nat, tau: nat) returns (r: Option<Assignment>)
    requires IsPrime(p) && score < Pow2(n) && tau < Pow2(n) && 2 * Pow2(n) < p
    ensures r.None? <==> score < tau
    ensures r.Some? ==> SatisfiesFrom(p, n, score, 0, tau, r.value)
  {
    if score < tau {
      return None;
    }
    var diff := score - tau;
    var bits, acc := Decompose(p, n, diff);
    CongRefl(p, diff);
    WitnessSatisfies(p, score, 0, tau, bits);
    WitnessStart(p, score, 0, tau, bits);
    DivMod(p, diff, 0, diff);
    r := Some(Assignment(score, diff, bits, acc));
  }
}
