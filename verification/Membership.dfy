/** The membership circuit of `poe_prover/src/membership.rs` as a constraint system: the conditional-swap
    gate, the copy constraints between regions, the instance constraints, and the Poseidon chip taken as
    the relation it enforces between its input and output cells. */
module Membership {
  import opened PrimeField
  import opened DenseTree

  /** The field and the two hashes: two and three inputs. */
  datatype System = System(p: int, hash2: (int, int) -> int, hash3: (int, int, int) -> int)

  /** The cells of one "swap" region. */
  datatype Row = Row(cur: int, sib: int, dir: int, left: int, right: int)

  /** Every advice cell the circuit constrains: key limbs, leaf hash, swap regions, level hashes, the
      challenge cell and the tag cell. */
  datatype Assignment = Assignment(k0: int, k1: int, leaf: int, rows: seq<Row>, outs: seq<int>, chal: int, tag: int)

  /** The public inputs. */
  datatype Instance = Instance(root: int, challenge: int, tag: int)

  predicate Felts(p: int, xs: seq<int>) {
    forall i :: 0 <= i < |xs| ==> IsFelt(p, xs[i])
  }

  predicate RowFelts(p: int, r: Row) {
    IsFelt(p, r.cur) && IsFelt(p, r.sib) && IsFelt(p, r.dir) && IsFelt(p, r.left) && IsFelt(p, r.right)
  }

  /** The three polynomials of the "cond swap" gate vanish. */
  predicate SwapGate(p: int, r: Row)
    requires p > 0
  {
    && FMul(p, r.dir, FSub(p, 1, r.dir)) == 0
    && FSub(p, r.left, FAdd(p, r.cur, FMul(p, r.dir, FSub(p, r.sib, r.cur)))) == 0
    && FSub(p, r.right, FAdd(p, r.sib, FMul(p, r.dir, FSub(p, r.cur, r.sib)))) == 0
  }

  /** All cells are field elements; gates, chips, copies and instance constraints hold. */
  predicate Satisfies(sys: System, depth: nat, a: Assignment, inst: Instance)
    requires sys.p > 0
  {
    && IsFelt(sys.p, a.k0) && IsFelt(sys.p, a.k1)
    && |a.rows| == |a.outs| == depth
    && a.leaf == sys.hash2(a.k0, a.k1)
    && (forall i :: 0 <= i < depth ==> RowFelts(sys.p, a.rows[i]) && SwapGate(sys.p, a.rows[i]))
    && (forall i :: 0 <= i < depth ==> a.rows[i].cur == CellBelow(a, i))
    && (forall i :: 0 <= i < depth ==> a.outs[i] == sys.hash2(a.rows[i].left, a.rows[i].right))
    && CellBelow(a, depth) == inst.root
    && a.chal == inst.challenge
    && a.tag == sys.hash3(a.k0, a.k1, a.chal) && a.tag == inst.tag
  }

  /** The hash cell that feeds level i: the leaf hash, then each level's output. */
  function CellBelow(a: Assignment, i: nat): int
    requires i <= |a.outs|
  {
    if i == 0 then a.leaf else a.outs[i - 1]
  }

  /** What the proof is meant to establish. */
  predicate Knows(sys: System, depth: nat, inst: Instance, k0: int, k1: int, sibs: seq<int>, dirs: seq<bool>) {
    && IsFelt(sys.p, k0) && IsFelt(sys.p, k1)
    && Felts(sys.p, sibs) && |sibs| == |dirs| == depth
    && Fold(sys.hash2, sys.hash2(k0, k1), sibs, dirs) == inst.root
    && sys.hash3(k0, k1, inst.challenge) == inst.tag
  }

  // ----- the gate -----

  /** c + d*(s - c) selects c or s by a boolean d. */
  lemma Select(p: int, c: int, s: int, d: int)
    requires p > 1 && IsFelt(p, c) && IsFelt(p, s) && (d == 0 || d == 1)
    ensures FAdd(p, c, FMul(p, d, FSub(p, s, c))) == if d == 1 then s else c
  {
    Lift(p, s, s, c, c);
    Lift(p, d, d, FSub(p, s, c), s - c);
    Lift(p, c, c, FMul(p, d, FSub(p, s, c)), d * (s - c));
    assert c + d * (s - c) == if d == 1 then s else c;
    CongEqual(p, FAdd(p, c, FMul(p, d, FSub(p, s, c))), if d == 1 then s else c);
  }

  /** In a field, the gate holds exactly of a boolean direction with the operands ordered by it. */
  lemma SwapGateMeaning(p: int, r: Row)
    requires IsPrime(p) && RowFelts(p, r)
    ensures SwapGate(p, r) <==> || (r.dir == 0 && r.left == r.cur && r.right == r.sib)
                                || (r.dir == 1 && r.left == r.sib && r.right == r.cur)
  {
    BooleanGate(p, r.dir);
    if r.dir == 0 || r.dir == 1 {
      Select(p, r.cur, r.sib, r.dir);
      Select(p, r.sib, r.cur, r.dir);
      var l := FAdd(p, r.cur, FMul(p, r.dir, FSub(p, r.sib, r.cur)));
      var m := FAdd(p, r.sib, FMul(p, r.dir, FSub(p, r.cur, r.sib)));
      DifferenceZero(p, r.left, l);
      DifferenceZero(p, r.right, m);
      DivMod(p, l, 0, l);
      DivMod(p, m, 0, m);
    }
  }

  // ----- from an assignment to a path -----

  function PathSibs(a: Assignment): seq<int> {
    seq(|a.rows|, i requires 0 <= i < |a.rows| => a.rows[i].sib)
  }

  function PathDirs(a: Assignment): seq<bool> {
    seq(|a.rows|, i requires 0 <= i < |a.rows| => a.rows[i].dir == 1)
  }

  lemma RowStep(sys: System, depth: nat, a: Assignment, inst: Instance, i: nat)
    requires IsPrime(sys.p) && Satisfies(sys, depth, a, inst) && i < depth
    ensures a.outs[i] == Step(sys.hash2, CellBelow(a, i), a.rows[i].sib, a.rows[i].dir == 1)
  {
    SwapGateMeaning(sys.p, a.rows[i]);
  }

  lemma {:induction false} CellsFold(h: (int, int) -> int, a: Assignment, i: nat)
    requires i <= |a.rows| == |a.outs|
    requires forall j: nat :: j < |a.outs| ==> a.outs[j] == Step(h, CellBelow(a, j), a.rows[j].sib, a.rows[j].dir == 1)
    ensures Fold(h, a.leaf, PathSibs(a)[..i], PathDirs(a)[..i]) == CellBelow(a, i)
  {
    if i > 0 {
      var sibs, dirs, r := PathSibs(a), PathDirs(a), a.rows[i - 1];
      CellsFold(h, a, i - 1);
      assert sibs[..i] == sibs[..i - 1] + [r.sib] && dirs[..i] == dirs[..i - 1] + [r.dir == 1];
      FoldSnoc(h, a.leaf, sibs[..i - 1], dirs[..i - 1], r.sib, r.dir == 1);
    }
  }

  /** Soundness: a satisfying assignment carries a key and a path that meet the statement. */
  lemma AssignmentKnows(sys: System, depth: nat, a: Assignment, inst: Instance)
    requires IsPrime(sys.p) && Satisfies(sys, depth, a, inst)
    ensures Knows(sys, depth, inst, a.k0, a.k1, PathSibs(a), PathDirs(a))
  {
    forall j: nat | j < depth
      ensures a.outs[j] == Step(sys.hash2, CellBelow(a, j), a.rows[j].sib, a.rows[j].dir == 1)
    {
      RowStep(sys, depth, a, inst, j);
    }
    CellsFold(sys.hash2, a, depth);
    assert PathSibs(a)[..depth] == PathSibs(a) && PathDirs(a)[..depth] == PathDirs(a);
  }

  // ----- from a path to an assignment -----

  function RowFor(cur: int, s: int, d: bool): Row {
    if d then Row(cur, s, 1, s, cur) else Row(cur, s, 0, cur, s)
  }

  function CurAt(sys: System, leaf: int, sibs: seq<int>, dirs: seq<bool>, i: nat): int
    requires i <= |sibs| == |dirs|
  {
    Fold(sys.hash2, leaf, sibs[..i], dirs[..i])
  }

  /** The assignment the prover makes. */
  function Honest(sys: System, k0: int, k1: int, sibs: seq<int>, dirs: seq<bool>, challenge: int): Assignment
    requires |sibs| == |dirs|
  {
    var leaf := sys.hash2(k0, k1);
    Assignment(k0, k1, leaf,
      seq(|sibs|, i requires 0 <= i < |sibs| => RowFor(CurAt(sys, leaf, sibs, dirs, i), sibs[i], dirs[i])),
      seq(|sibs|, i requires 0 <= i < |sibs| => CurAt(sys, leaf, sibs, dirs, i + 1)),
      challenge, sys.hash3(k0, k1, challenge))
  }

  lemma CurStep(sys: System, leaf: int, sibs: seq<int>, dirs: seq<bool>, i: nat)
    requires i < |sibs| == |dirs|
    ensures CurAt(sys, leaf, sibs, dirs, i + 1) == Step(sys.hash2, CurAt(sys, leaf, sibs, dirs, i), sibs[i], dirs[i])
  {
    assert sibs[..i + 1] == sibs[..i] + [sibs[i]] && dirs[..i + 1] == dirs[..i] + [dirs[i]];
    FoldSnoc(sys.hash2, leaf, sibs[..i], dirs[..i], sibs[i], dirs[i]);
  }

  /** `synthesize`: assigns the swap regions and hashes level by level. */
  method Synthesize(sys: System, k0: int, k1: int, sibs: seq<int>, dirs: seq<bool>, challenge: int)
    returns (a: Assignment)
    requires IsPrime(sys.p) && FieldHash(sys) && Felts(sys.p, sibs) && |sibs| == |dirs|
    ensures a == Honest(sys, k0, k1, sibs, dirs, challenge)
  {
    var leaf := sys.hash2(k0, k1);
    assert HashFelt(sys, k0, k1);
    var cur, rows, outs := leaf, [], [];
    assert CurAt(sys, leaf, sibs, dirs, 0) == leaf;
    for i := 0 to |sibs|
      invariant |rows| == |outs| == i && IsFelt(sys.p, cur) && cur == CurAt(sys, leaf, sibs, dirs, i)
      invariant forall j :: 0 <= j < i ==> rows[j] == RowFor(CurAt(sys, leaf, sibs, dirs, j), sibs[j], dirs[j])
      invariant forall j :: 0 <= j < i ==> outs[j] == CurAt(sys, leaf, sibs, dirs, j + 1)
    {
      var d := if dirs[i] then 1 else 0;
      Select(sys.p, cur, sibs[i], d);
      Select(sys.p, sibs[i], cur, d);
      var left := FAdd(sys.p, cur, FMul(sys.p, d, FSub(sys.p, sibs[i], cur)));
      var right := FAdd(sys.p, sibs[i], FMul(sys.p, d, FSub(sys.p, cur, sibs[i])));
      CurStep(sys, leaf, sibs, dirs, i);
      rows := rows + [Row(cur, sibs[i], d, left, right)];
      assert HashFelt(sys, left, right);
      cur := sys.hash2(left, right);
      outs := outs + [cur];
    }
    a := Assignment(k0, k1, leaf, rows, outs, challenge, sys.hash3(k0, k1, challenge));
  }

  /** Hash outputs are field elements. */
  ghost predicate FieldHash(sys: System) {
    forall x, y :: HashFelt(sys, x, y)
  }

  predicate HashFelt(sys: System, x: int, y: int) {
    IsFelt(sys.p, sys.hash2(x, y))
  }

  lemma CurFelt(sys: System, k0: int, k1: int, sibs: seq<int>, dirs: seq<bool>, i: nat)
    requires FieldHash(sys) && i <= |sibs| == |dirs|
    ensures IsFelt(sys.p, CurAt(sys, sys.hash2(k0, k1), sibs, dirs, i))
  {
    var leaf := sys.hash2(k0, k1);
    assert HashFelt(sys, k0, k1);
    if i > 0 {
      CurStep(sys, leaf, sibs, dirs, i - 1);
      var cur := CurAt(sys, leaf, sibs, dirs, i - 1);
      assert HashFelt(sys, cur, sibs[i - 1]) && HashFelt(sys, sibs[i - 1], cur);
    }
  }

  lemma HonestRow(sys: System, k0: int, k1: int, sibs: seq<int>, dirs: seq<bool>, challenge: int, i: nat)
    requires IsPrime(sys.p) && FieldHash(sys) && Felts(sys.p, sibs) && i < |sibs| == |dirs|
    ensures var a := Honest(sys, k0, k1, sibs, dirs, challenge);
      && RowFelts(sys.p, a.rows[i]) && SwapGate(sys.p, a.rows[i])
      && a.rows[i].cur == CellBelow(a, i)
      && a.outs[i] == sys.hash2(a.rows[i].left, a.rows[i].right)
  {
    var a := Honest(sys, k0, k1, sibs, dirs, challenge);
    CurFelt(sys, k0, k1, sibs, dirs, i);
    CurStep(sys, a.leaf, sibs, dirs, i);
    SwapGateMeaning(sys.p, a.rows[i]);
    assert CurAt(sys, a.leaf, sibs, dirs, 0) == a.leaf;
  }

  /** Completeness: the prover's assignment satisfies the circuit. */
  lemma HonestSatisfies(sys: System, depth: nat, inst: Instance, k0: int, k1: int, sibs: seq<int>, dirs: seq<bool>)
    requires IsPrime(sys.p) && FieldHash(sys) && Knows(sys, depth, inst, k0, k1, sibs, dirs)
    ensures Satisfies(sys, depth, Honest(sys, k0, k1, sibs, dirs, inst.challenge), inst)
  {
    var a := Honest(sys, k0, k1, sibs, dirs, inst.challenge);
    forall i | 0 <= i < depth
      ensures RowFelts(sys.p, a.rows[i]) && SwapGate(sys.p, a.rows[i])
      ensures a.rows[i].cur == CellBelow(a, i)
      ensures a.outs[i] == sys.hash2(a.rows[i].left, a.rows[i].right)
    {
      HonestRow(sys, k0, k1, sibs, dirs, inst.challenge, i);
    }
    assert sibs[..depth] == sibs && dirs[..depth] == dirs;
    assert CurAt(sys, a.leaf, sibs, dirs, depth) == CellBelow(a, depth);
  }

  /** The circuit is satisfiable for a statement exactly when some key and path meet it, at every depth. */
  lemma SatisfiableIffKnown(sys: System, depth: nat, inst: Instance)
    requires IsPrime(sys.p) && FieldHash(sys)
    ensures (exists a :: Satisfies(sys, depth, a, inst))
       <==> (exists k0, k1, sibs, dirs :: Knows(sys, depth, inst, k0, k1, sibs, dirs))
  {
    if a :| Satisfies(sys, depth, a, inst) {
      AssignmentKnows(sys, depth, a, inst);
    }
    if k0, k1, sibs, dirs :| Knows(sys, depth, inst, k0, k1, sibs, dirs) {
      HonestSatisfies(sys, depth, inst, k0, k1, sibs, dirs);
    }
  }

  // ----- membership in a registry -----

  /** Against a registry root, a satisfying assignment's key is the one registered at the index its
      direction bits spell, and its siblings are the registry's own; or at the returned level of its path it
      hashes a pair other than the registry's to the same value. */
  lemma OnlyRegisteredKeys(sys: System, depth: nat, leaves: seq<int>, a: Assignment, inst: Instance) returns (k: nat)
    requires IsPrime(sys.p) && Satisfies(sys, depth, a, inst)
    requires inst.root == Node(sys.hash2, 0, leaves, depth, 0)
    ensures
      || OnTree(sys.hash2, 0, leaves, 0, 0, sys.hash2(a.k0, a.k1), PathSibs(a), PathDirs(a))
      || PathCollides(sys.hash2, 0, leaves, 0, 0, sys.hash2(a.k0, a.k1), PathSibs(a), PathDirs(a), k)
  {
    AssignmentKnows(sys, depth, a, inst);
    k := FoldBinds(sys.hash2, 0, leaves, 0, 0, sys.hash2(a.k0, a.k1), PathSibs(a), PathDirs(a));
  }

  /** Every registered key can prove membership with the path its registry emits. */
  lemma RegisteredKeysProve(sys: System, depth: nat, leaves: seq<int>, index: nat, k0: int, k1: int, challenge: int)
    requires IsPrime(sys.p) && FieldHash(sys) && Felts(sys.p, leaves) && IsFelt(sys.p, k0) && IsFelt(sys.p, k1)
    requires index < |leaves| && index < Pow2(depth) && leaves[index] == sys.hash2(k0, k1)
    ensures var inst := Instance(Node(sys.hash2, 0, leaves, depth, 0), challenge, sys.hash3(k0, k1, challenge));
      Satisfies(sys, depth,
        Honest(sys, k0, k1, Siblings(sys.hash2, 0, leaves, 0, index, depth), Directions(index, depth), challenge), inst)
  {
    var dom := x => IsFelt(sys.p, x);
    var sibs, dirs := Siblings(sys.hash2, 0, leaves, 0, index, depth), Directions(index, depth);
    var inst := Instance(Node(sys.hash2, 0, leaves, depth, 0), challenge, sys.hash3(k0, k1, challenge));
    forall x, y ensures ClosedAt(dom, sys.hash2, x, y) {
      assert HashFelt(sys, x, y);
    }
    SiblingsIn(dom, sys.hash2, 0, leaves, 0, index, depth);
    FoldToAncestor(sys.hash2, 0, leaves, 0, index, depth);
    AncestorOfSmall(index, depth);
    HonestSatisfies(sys, depth, inst, k0, k1, sibs, dirs);
  }
}
