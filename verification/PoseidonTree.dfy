/** The sparse fixed-depth tagged-Poseidon tree of `merkle.rs`. */
module PoseidonTree {
  import opened Wrappers
  import opened DenseTree

  /** Per-level sparse maps; an absent index reads as the level's empty-subtree value. */
  function NodeAt<F>(nodes: seq<map<int, F>>, zeros: seq<F>, level: nat, index: nat): F
    requires level < |nodes| && |zeros| == |nodes|
  {
    if index in nodes[level] then nodes[level][index] else zeros[level]
  }

  /** Every level below `done` describes the tree over `after`, every other level the one over `before`. */
  ghost predicate Describes<F>(h: (F, F) -> F, zero: F, nodes: seq<map<int, F>>, zeros: seq<F>,
                               before: seq<F>, after: seq<F>, done: nat)
    requires |zeros| == |nodes|
  {
    forall l: nat, j: nat :: l < |nodes| ==>
      NodeAt(nodes, zeros, l, j) == Node(h, zero, if l < done then after else before, l, j)
  }

  /** Appending a leaf changes, at each level, only the ancestor of its position. */
  lemma {:induction false} AppendIsLocal<F>(h: (F, F) -> F, zero: F, leaves: seq<F>, x: F, l: nat, j: nat)
    requires j != Ancestor(|leaves|, l)
    ensures Node(h, zero, leaves + [x], l, j) == Node(h, zero, leaves, l, j)
    decreases l
  {
    if l > 0 {
      AncestorStep(|leaves|, l - 1);
      AppendIsLocal(h, zero, leaves, x, l - 1, 2 * j);
      AppendIsLocal(h, zero, leaves, x, l - 1, 2 * j + 1);
    }
  }

  /** Writing the recomputed ancestor brings one more level up to date. */
  lemma LevelUpdated<F>(h: (F, F) -> F, zero: F, nodes: seq<map<int, F>>, zeros: seq<F>,
                        leaves: seq<F>, x: F, level: nat, value: F)
    requires |zeros| == |nodes| && level < |nodes|
    requires Describes(h, zero, nodes, zeros, leaves, leaves + [x], level)
    requires value == Node(h, zero, leaves + [x], level, Ancestor(|leaves|, level))
    ensures var idx: nat := Ancestor(|leaves|, level);
      var nodes' := nodes[level := nodes[level][idx := value]];
      Describes(h, zero, nodes', zeros, leaves, leaves + [x], level + 1)
  {
    var idx: nat := Ancestor(|leaves|, level);
    var nodes' := nodes[level := nodes[level][idx := value]];
    forall l: nat, j: nat | l < |nodes|
      ensures NodeAt(nodes', zeros, l, j) == Node(h, zero, if l < level + 1 then leaves + [x] else leaves, l, j)
    {
      assert l != level ==> NodeAt(nodes', zeros, l, j) == NodeAt(nodes, zeros, l, j);
      if l == level && j != idx {
        assert NodeAt(nodes', zeros, l, j) == NodeAt(nodes, zeros, l, j);
        AppendIsLocal(h, zero, leaves, x, l, j);
      }
    }
  }

  /** The parent computed from the two children the code reads. */
  lemma ParentRead<F>(h: (F, F) -> F, zero: F, nodes: seq<map<int, F>>, zeros: seq<F>,
                      leaves: seq<F>, x: F, level: nat)
    requires |zeros| == |nodes| && level < |nodes|
    requires Describes(h, zero, nodes, zeros, leaves, leaves + [x], level + 1)
    ensures var idx := Ancestor(|leaves|, level);
      var left := NodeAt(nodes, zeros, level, if idx % 2 == 1 then idx - 1 else idx);
      var right := NodeAt(nodes, zeros, level, if idx % 2 == 1 then idx else idx + 1);
      h(left, right) == Node(h, zero, leaves + [x], level + 1, Ancestor(|leaves|, level + 1))
  {
    AncestorStep(|leaves|, level);
  }

  /** The body of the leaf loop: set the leaf, then rehash its ancestors level by level. */
  method InsertLeaf<F>(h: (F, F) -> F, ghost zero: F, zeros: seq<F>, nodes0: seq<map<int, F>>,
                       ghost done: seq<F>, li: nat, leaf: F) returns (nodes: seq<map<int, F>>)
    requires |nodes0| == |zeros| > 0 && li == |done|
    requires Describes(h, zero, nodes0, zeros, done, done, 0)
    ensures |nodes| == |zeros|
    ensures Describes(h, zero, nodes, zeros, done + [leaf], done + [leaf], 0)
  {
    LevelUpdated(h, zero, nodes0, zeros, done, leaf, 0, leaf);
    nodes := nodes0[0 := nodes0[0][li := leaf]];
    var idx, level, depth := li, 0, |zeros| - 1;
    while level < depth
      invariant 0 <= level <= depth && |nodes| == |zeros|
      invariant idx == Ancestor(li, level)
      invariant Describes(h, zero, nodes, zeros, done, done + [leaf], level + 1)
    {
      ParentRead(h, zero, nodes, zeros, done, leaf, level);
      var left, right;
      if idx % 2 == 1 {
        left, right := NodeAt(nodes, zeros, level, idx - 1), NodeAt(nodes, zeros, level, idx);
      } else {
        left, right := NodeAt(nodes, zeros, level, idx), NodeAt(nodes, zeros, level, idx + 1);
      }
      AncestorStep(li, level);
      idx := idx / 2;
      var parent := h(left, right);
      LevelUpdated(h, zero, nodes, zeros, done, leaf, level + 1, parent);
      nodes := nodes[level + 1 := nodes[level + 1][idx := parent]];
      level := level + 1;
    }
  }

  /** `poseidon_root`: errors exactly on depth 0 and on more than 2^depth leaves, otherwise the root of
      the dense zero-padded tree.  A depth past 127 overflows the u128 capacity shift. */
  method PoseidonRoot<F>(h: (F, F) -> F, zero: F, depth: nat, leaves: seq<F>) returns (r: Result<F>)
    requires depth < 128
    ensures r.Err? <==> depth < 1 || |leaves| > Pow2(depth)
    ensures r.Ok? ==> r.value == FullRoot(h, Padded(zero, leaves, depth, 0), depth)
                               == Node(h, zero, leaves, depth, 0)
  {
    if depth < 1 || |leaves| > Pow2(depth) {
      return Err;
    }
    var zeros := EmptyLevels(h, zero, depth);
    var nodes: seq<map<int, F>> := seq(depth + 1, i => map[]);
    forall l: nat, j: nat | l < |nodes|
      ensures NodeAt(nodes, zeros, l, j) == Node(h, zero, [], l, j)
    {
      EmptySubtree(h, zero, [], l, j);
    }
    var n := 0;
    while n < |leaves|
      invariant 0 <= n <= |leaves| && |nodes| == |zeros| == depth + 1
      invariant Describes(h, zero, nodes, zeros, leaves[..n], leaves[..n], 0)
    {
      assert leaves[..n + 1] == leaves[..n] + [leaves[n]];
      nodes := InsertLeaf(h, zero, zeros, nodes, leaves[..n], n, leaves[n]);
      n := n + 1;
    }
    assert leaves[..n] == leaves;
    NodeIsFullRoot(h, zero, leaves, depth, 0);
    r := Ok(NodeAt(nodes, zeros, depth, 0));
  }
}
