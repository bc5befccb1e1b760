/** The reference tree: every node of the complete binary tree whose leaves are a list padded with a
    zero leaf, whatever the hash.  Both sparse trees of the repository are measured against it. */
module DenseTree {
  function Pow2(n: nat): (r: nat)
    ensures r > 0
  {
    if n == 0 then 1 else 2 * Pow2(n - 1)
  }

  function LeafAt<F>(zero: F, leaves: seq<F>, i: nat): F {
    if i < |leaves| then leaves[i] else zero
  }

  /** Node `index` of `level`, counted from the leaves. */
  function Node<F>(h: (F, F) -> F, zero: F, leaves: seq<F>, level: nat, index: nat): F
    decreases level
  {
    if level == 0 then LeafAt(zero, leaves, index)
    else h(Node(h, zero, leaves, level - 1, 2 * index), Node(h, zero, leaves, level - 1, 2 * index + 1))
  }

  /** Root of an all-empty subtree of the given height. */
  function Zeros<F>(h: (F, F) -> F, zero: F, level: nat): F {
    if level == 0 then zero else h(Zeros(h, zero, level - 1), Zeros(h, zero, level - 1))
  }

  /** Root of a full list of 2^depth leaves by halving: the textbook Merkle tree. */
  function FullRoot<F>(h: (F, F) -> F, xs: seq<F>, depth: nat): F
    requires |xs| == Pow2(depth)
  {
    if depth == 0 then xs[0]
    else
      var half := Pow2(depth - 1);
      h(FullRoot(h, xs[..half], depth - 1), FullRoot(h, xs[half..], depth - 1))
  }

  /** The leaves below node `index` of `level`, zero-padded. */
  function Padded<F>(zero: F, leaves: seq<F>, level: nat, index: nat): (xs: seq<F>)
    ensures |xs| == Pow2(level)
  {
    var start := index * Pow2(level);
    seq(Pow2(level), i requires i >= 0 => LeafAt(zero, leaves, start + i))
  }

  lemma SplitStart(level: nat, index: nat)
    requires level > 0
    ensures 2 * index * Pow2(level - 1) == index * Pow2(level)
    ensures (2 * index + 1) * Pow2(level - 1) == index * Pow2(level) + Pow2(level - 1)
  {
  }

  /** Node is the textbook root of the padded leaves below it. */
  lemma {:induction false} NodeIsFullRoot<F>(h: (F, F) -> F, zero: F, leaves: seq<F>, level: nat, index: nat)
    ensures Node(h, zero, leaves, level, index) == FullRoot(h, Padded(zero, leaves, level, index), level)
    decreases level
  {
    if level > 0 {
      var half, xs := Pow2(level - 1), Padded(zero, leaves, level, index);
      SplitStart(level, index);
      assert xs[..half] == Padded(zero, leaves, level - 1, 2 * index);
      assert xs[half..] == Padded(zero, leaves, level - 1, 2 * index + 1);
      NodeIsFullRoot(h, zero, leaves, level - 1, 2 * index);
      NodeIsFullRoot(h, zero, leaves, level - 1, 2 * index + 1);
    }
  }

  /** A subtree that starts past the last leaf is empty. */
  lemma {:induction false} EmptySubtree<F>(h: (F, F) -> F, zero: F, leaves: seq<F>, level: nat, index: nat)
    requires index * Pow2(level) >= |leaves|
    ensures Node(h, zero, leaves, level, index) == Zeros(h, zero, level)
    decreases level
  {
    if level > 0 {
      SplitStart(level, index);
      EmptySubtree(h, zero, leaves, level - 1, 2 * index);
      EmptySubtree(h, zero, leaves, level - 1, 2 * index + 1);
    }
  }

  method EmptyLevels<F>(h: (F, F) -> F, zero: F, depth: nat) returns (zeros: seq<F>)
    ensures |zeros| == depth + 1
    ensures forall l :: 0 <= l <= depth ==> zeros[l] == Zeros(h, zero, l)
  {
    zeros := seq(depth + 1, i => zero);
    for d := 1 to depth + 1
      invariant |zeros| == depth + 1
      invariant forall l :: 0 <= l < d ==> zeros[l] == Zeros(h, zero, l)
    {
      zeros := zeros[d := h(zeros[d - 1], zeros[d - 1])];
    }
  }

  // ----- authentication paths -----

  /** One step of a fold: the current node is the right child when `d` holds. */
  function Step<F>(h: (F, F) -> F, cur: F, s: F, d: bool): F {
    if d then h(s, cur) else h(cur, s)
  }

  /** Fold a path from the leaf upward, over the shorter of the two lists. */
  function Fold<F>(h: (F, F) -> F, cur: F, sibs: seq<F>, dirs: seq<bool>): F {
    if sibs == [] || dirs == [] then cur
    else Fold(h, Step(h, cur, sibs[0], dirs[0]), sibs[1..], dirs[1..])
  }

  lemma {:induction false} FoldSnoc<F>(h: (F, F) -> F, cur: F, sibs: seq<F>, dirs: seq<bool>, s: F, d: bool)
    requires |sibs| == |dirs|
    ensures Fold(h, cur, sibs + [s], dirs + [d]) == Step(h, Fold(h, cur, sibs, dirs), s, d)
  {
    if sibs == [] {
      assert Fold(h, Step(h, cur, s, d), [], []) == Step(h, cur, s, d);
    } else {
      FoldSnoc(h, Step(h, cur, sibs[0], dirs[0]), sibs[1..], dirs[1..], s, d);
      assert (sibs + [s])[1..] == sibs[1..] + [s] && (dirs + [d])[1..] == dirs[1..] + [d];
    }
  }

  /** `idx ^ 1`. */
  function Sibling(idx: nat): nat { if idx % 2 == 1 then idx - 1 else idx + 1 }

  /** The siblings on the way up from node `idx` of `level`, n levels. */
  function Siblings<F>(h: (F, F) -> F, zero: F, leaves: seq<F>, level: nat, idx: nat, n: nat): (s: seq<F>)
    ensures |s| == n
    decreases n
  {
    if n == 0 then []
    else [Node(h, zero, leaves, level, Sibling(idx))] + Siblings(h, zero, leaves, level + 1, idx / 2, n - 1)
  }

  function Directions(idx: nat, n: nat): (s: seq<bool>)
    ensures |s| == n
    decreases n
  {
    if n == 0 then [] else [idx % 2 == 1] + Directions(idx / 2, n - 1)
  }

  function Ancestor(idx: nat, n: nat): nat { if n == 0 then idx else Ancestor(idx / 2, n - 1) }

  lemma {:induction false} AncestorOfSmall(idx: nat, n: nat)
    ensures Ancestor(idx, n) == 0 <==> idx < Pow2(n)
  {
    if n > 0 { AncestorOfSmall(idx / 2, n - 1); }
  }

  lemma {:induction false} AncestorStep(idx: nat, n: nat)
    ensures Ancestor(idx, n + 1) == Ancestor(idx, n) / 2
  {
    if n > 0 { AncestorStep(idx / 2, n - 1); }
  }

  lemma {:induction false} SiblingsAt<F>(h: (F, F) -> F, zero: F, leaves: seq<F>, level: nat, idx: nat, n: nat, l: nat)
    requires l < n
    ensures Siblings(h, zero, leaves, level, idx, n)[l] == Node(h, zero, leaves, level + l, Sibling(Ancestor(idx, l)))
    ensures Directions(idx, n)[l] == (Ancestor(idx, l) % 2 == 1)
    decreases n
  {
    if l > 0 {
      SiblingsAt(h, zero, leaves, level + 1, idx / 2, n - 1, l - 1);
      assert Siblings(h, zero, leaves, level, idx, n)[l] == Siblings(h, zero, leaves, level + 1, idx / 2, n - 1)[l - 1];
      assert Directions(idx, n)[l] == Directions(idx / 2, n - 1)[l - 1];
    }
  }

  lemma ParentOf<F>(h: (F, F) -> F, zero: F, leaves: seq<F>, level: nat, idx: nat)
    ensures Step(h, Node(h, zero, leaves, level, idx), Node(h, zero, leaves, level, Sibling(idx)), idx % 2 == 1)
         == Node(h, zero, leaves, level + 1, idx / 2)
  {
  }

  /** Folding the siblings of a node gives its ancestor, from every node and for every height. */
  lemma {:induction false} FoldToAncestor<F>(h: (F, F) -> F, zero: F, leaves: seq<F>, level: nat, idx: nat, n: nat)
    ensures Fold(h, Node(h, zero, leaves, level, idx), Siblings(h, zero, leaves, level, idx, n), Directions(idx, n))
         == Node(h, zero, leaves, level + n, Ancestor(idx, n))
    decreases n
  {
    if n > 0 {
      ParentOf(h, zero, leaves, level, idx);
      FoldToAncestor(h, zero, leaves, level + 1, idx / 2, n - 1);
    }
  }

  // ----- binding -----

  /** Two different pairs with one hash. */
  ghost predicate Collide<F>(h: (F, F) -> F, a: (F, F), b: (F, F)) {
    a != b && h(a.0, a.1) == h(b.0, b.1)
  }

  /** The pair a fold hashes at level k of its path. */
  function PathPair<F>(h: (F, F) -> F, x: F, sibs: seq<F>, dirs: seq<bool>, k: nat): (F, F)
    requires k < |sibs| == |dirs|
  {
    var cur := Fold(h, x, sibs[..k], dirs[..k]);
    if dirs[k] then (sibs[k], cur) else (cur, sibs[k])
  }

  /** The pair hashed into a node one level up. */
  function Children<F>(h: (F, F) -> F, zero: F, leaves: seq<F>, level: nat, idx: nat): (F, F) {
    (Node(h, zero, leaves, level, 2 * idx), Node(h, zero, leaves, level, 2 * idx + 1))
  }

  /** The leaf index a direction list points at, below node `top`. */
  function IndexUnder(top: nat, dirs: seq<bool>): nat {
    if dirs == [] then top else 2 * IndexUnder(top, dirs[1..]) + (if dirs[0] then 1 else 0)
  }

  /** At level k the path under `top` and the tree hash different pairs to one value. */
  ghost predicate PathCollides<F>(h: (F, F) -> F, zero: F, leaves: seq<F>, level: nat, top: nat,
                                  x: F, sibs: seq<F>, dirs: seq<bool>, k: nat)
  {
    && k < |sibs| == |dirs|
    && Collide(h, PathPair(h, x, sibs, dirs, k), Children(h, zero, leaves, level + k, IndexUnder(top, dirs[k + 1..])))
  }

  /** A collision above the first level is one of the path. */
  lemma PathCollidesUp<F>(h: (F, F) -> F, zero: F, leaves: seq<F>, level: nat, top: nat,
                          x: F, sibs: seq<F>, dirs: seq<bool>, k: nat)
    requires |sibs| == |dirs| > 0
    requires PathCollides(h, zero, leaves, level + 1, top, Step(h, x, sibs[0], dirs[0]), sibs[1..], dirs[1..], k)
    ensures PathCollides(h, zero, leaves, level, top, x, sibs, dirs, k + 1)
  {
    assert sibs[..k + 1][1..] == sibs[1..][..k] && dirs[..k + 1][1..] == dirs[1..][..k];
    assert dirs[1..][k + 1..] == dirs[k + 2..];
    assert PathPair(h, x, sibs, dirs, k + 1) == PathPair(h, Step(h, x, sibs[0], dirs[0]), sibs[1..], dirs[1..], k);
  }

  /** A first step on the tree's own pair stays in the tree. */
  lemma StepInTree<F>(h: (F, F) -> F, zero: F, leaves: seq<F>, level: nat, idx: nat, x: F, s: F, d: bool, n: nat)
    requires (if d then (s, x) else (x, s)) == Children(h, zero, leaves, level, idx)
    ensures var i := 2 * idx + (if d then 1 else 0);
      && x == Node(h, zero, leaves, level, i)
      && Siblings(h, zero, leaves, level, i, n + 1) == [s] + Siblings(h, zero, leaves, level + 1, idx, n)
  {
  }

  lemma FirstPair<F>(h: (F, F) -> F, x: F, sibs: seq<F>, dirs: seq<bool>)
    requires |sibs| == |dirs| > 0
    ensures PathPair(h, x, sibs, dirs, 0) == if dirs[0] then (sibs[0], x) else (x, sibs[0])
  {
  }

  /** The path is the tree's own, from the node the directions point at. */
  ghost predicate OnTree<F>(h: (F, F) -> F, zero: F, leaves: seq<F>, level: nat, top: nat,
                            x: F, sibs: seq<F>, dirs: seq<bool>)
  {
    var idx := IndexUnder(top, dirs);
    x == Node(h, zero, leaves, level, idx) && sibs == Siblings(h, zero, leaves, level, idx, |dirs|)
  }

  /** Below a path that is the tree's own, the first step is the tree's or collides with it. */
  lemma FirstStepBinds<F>(h: (F, F) -> F, zero: F, leaves: seq<F>, level: nat, top: nat, x: F, sibs: seq<F>, dirs: seq<bool>)
    requires |sibs| == |dirs| > 0
    requires OnTree(h, zero, leaves, level + 1, top, Step(h, x, sibs[0], dirs[0]), sibs[1..], dirs[1..])
    ensures OnTree(h, zero, leaves, level, top, x, sibs, dirs) || PathCollides(h, zero, leaves, level, top, x, sibs, dirs, 0)
  {
    var idx := IndexUnder(top, dirs[1..]);
    FirstPair(h, x, sibs, dirs);
    if PathPair(h, x, sibs, dirs, 0) == Children(h, zero, leaves, level, idx) {
      StepInTree(h, zero, leaves, level, idx, x, sibs[0], dirs[0], |dirs| - 1);
      assert sibs == [sibs[0]] + sibs[1..];
    }
  }

  /** A path that folds to a node of the tree starts at the very node its directions point at and has the
      tree's own siblings, or the returned level is one where it collides with the tree. */
  lemma {:induction false} FoldBinds<F>(h: (F, F) -> F, zero: F, leaves: seq<F>, level: nat, top: nat,
                                        x: F, sibs: seq<F>, dirs: seq<bool>) returns (k: nat)
    requires |sibs| == |dirs| && Fold(h, x, sibs, dirs) == Node(h, zero, leaves, level + |dirs|, top)
    ensures OnTree(h, zero, leaves, level, top, x, sibs, dirs) || PathCollides(h, zero, leaves, level, top, x, sibs, dirs, k)
    decreases |dirs|
  {
    k := 0;
    if dirs != [] {
      var up := Step(h, x, sibs[0], dirs[0]);
      var l := FoldBinds(h, zero, leaves, level + 1, top, up, sibs[1..], dirs[1..]);
      if PathCollides(h, zero, leaves, level + 1, top, up, sibs[1..], dirs[1..], l) {
        k := l + 1;
        PathCollidesUp(h, zero, leaves, level, top, x, sibs, dirs, l);
      } else {
        FirstStepBinds(h, zero, leaves, level, top, x, sibs, dirs);
      }
    }
  }

  // ----- equal nodes -----

  lemma EqualLeavesEqualNodes<F>(h: (F, F) -> F, zero: F, leaves: seq<F>, level: nat, i: nat, j: nat)
    requires Padded(zero, leaves, level, i) == Padded(zero, leaves, level, j)
    ensures Node(h, zero, leaves, level, i) == Node(h, zero, leaves, level, j)
  {
    NodeIsFullRoot(h, zero, leaves, level, i);
    NodeIsFullRoot(h, zero, leaves, level, j);
  }

  /** Nodes a and b of level l + 1, below nodes i and j of `level`, are hashed from different children to one
      value. */
  ghost predicate SubtreesCollide<F>(h: (F, F) -> F, zero: F, leaves: seq<F>, level: nat, i: nat, j: nat,
                                     l: nat, a: nat, b: nat)
  {
    && l < level && Ancestor(a, level - l - 1) == i && Ancestor(b, level - l - 1) == j
    && Collide(h, Children(h, zero, leaves, l, a), Children(h, zero, leaves, l, b))
  }

  /** A collision below children of i and j is one below i and j. */
  lemma SubtreesCollideUp<F>(h: (F, F) -> F, zero: F, leaves: seq<F>, level: nat, i: nat, j: nat,
                             l: nat, a: nat, b: nat)
    requires SubtreesCollide(h, zero, leaves, level, i, j, l, a, b)
    ensures SubtreesCollide(h, zero, leaves, level + 1, i / 2, j / 2, l, a, b)
  {
    AncestorStep(a, level - l - 1);
    AncestorStep(b, level - l - 1);
  }

  /** Equal nodes have equal leaves below them, or the returned nodes collide. */
  lemma {:induction false} EqualNodesEqualLeaves<F>(h: (F, F) -> F, zero: F, leaves: seq<F>, level: nat, i: nat, j: nat)
    returns (l: nat, a: nat, b: nat)
    requires Node(h, zero, leaves, level, i) == Node(h, zero, leaves, level, j)
    ensures Padded(zero, leaves, level, i) == Padded(zero, leaves, level, j)
         || SubtreesCollide(h, zero, leaves, level, i, j, l, a, b)
    decreases level
  {
    l, a, b := 0, i, j;
    if level == 0 {
      PaddedOne(zero, leaves, i);
      PaddedOne(zero, leaves, j);
    } else if Children(h, zero, leaves, level - 1, i) != Children(h, zero, leaves, level - 1, j) {
      l := level - 1;
    } else {
      var down := level - 1;
      l, a, b := EqualNodesEqualLeaves(h, zero, leaves, down, 2 * i, 2 * j);
      if SubtreesCollide(h, zero, leaves, down, 2 * i, 2 * j, l, a, b) {
        SubtreesCollideUp(h, zero, leaves, down, 2 * i, 2 * j, l, a, b);
      } else {
        l, a, b := EqualNodesEqualLeaves(h, zero, leaves, down, 2 * i + 1, 2 * j + 1);
        if SubtreesCollide(h, zero, leaves, down, 2 * i + 1, 2 * j + 1, l, a, b) {
          SubtreesCollideUp(h, zero, leaves, down, 2 * i + 1, 2 * j + 1, l, a, b);
        } else {
          PaddedSplit(zero, leaves, level, i);
          PaddedSplit(zero, leaves, level, j);
        }
      }
    }
  }

  lemma PaddedOne<F>(zero: F, leaves: seq<F>, i: nat)
    ensures Padded(zero, leaves, 0, i) == [LeafAt(zero, leaves, i)]
  {
  }

  lemma PaddedSplit<F>(zero: F, leaves: seq<F>, level: nat, i: nat)
    requires level > 0
    ensures Padded(zero, leaves, level, i) == Padded(zero, leaves, level - 1, 2 * i) + Padded(zero, leaves, level - 1, 2 * i + 1)
  {
    SplitStart(level, i);
  }

  // ----- nodes of a closed hash -----

  ghost predicate Closed<F(!new)>(dom: F -> bool, h: (F, F) -> F) {
    forall a, b :: ClosedAt(dom, h, a, b)
  }

  predicate ClosedAt<F>(dom: F -> bool, h: (F, F) -> F, a: F, b: F) {
    dom(a) && dom(b) ==> dom(h(a, b))
  }

  ghost predicate AllIn<F>(dom: F -> bool, xs: seq<F>) {
    forall i :: 0 <= i < |xs| ==> dom(xs[i])
  }

  lemma {:induction false} NodeIn<F(!new)>(dom: F -> bool, h: (F, F) -> F, zero: F, leaves: seq<F>, level: nat, idx: nat)
    requires Closed(dom, h) && dom(zero) && AllIn(dom, leaves)
    ensures dom(Node(h, zero, leaves, level, idx))
    decreases level
  {
    if level > 0 {
      NodeIn(dom, h, zero, leaves, level - 1, 2 * idx);
      NodeIn(dom, h, zero, leaves, level - 1, 2 * idx + 1);
      assert ClosedAt(dom, h, Node(h, zero, leaves, level - 1, 2 * idx), Node(h, zero, leaves, level - 1, 2 * idx + 1));
    }
  }

  lemma {:induction false} SiblingsIn<F(!new)>(dom: F -> bool, h: (F, F) -> F, zero: F, leaves: seq<F>,
                                               level: nat, idx: nat, n: nat)
    requires Closed(dom, h) && dom(zero) && AllIn(dom, leaves)
    ensures AllIn(dom, Siblings(h, zero, leaves, level, idx, n))
    decreases n
  {
    if n > 0 {
      NodeIn(dom, h, zero, leaves, level, Sibling(idx));
      SiblingsIn(dom, h, zero, leaves, level + 1, idx / 2, n - 1);
    }
  }
}
