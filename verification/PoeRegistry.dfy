/** The append-only commitment registry of `poe_prover/src/registry.rs`, with `merkle_root` of
    `membership.rs`, which folds the paths it emits. */
module PoeRegistry {
  import opened DenseTree

  class Registry {
    const hash2: (int, int) -> int
    const depth: nat
    var leaves: seq<int>
    /** `defaults[l]` is the root of an all-empty subtree of height l. */
    var defaults: seq<int>

    ghost predicate Valid()
      reads this
    {
      |defaults| == depth + 1 && forall l :: 0 <= l <= depth ==> defaults[l] == Zeros(hash2, 0, l)
    }

    constructor (h: (int, int) -> int, d: nat)
      ensures Valid() && leaves == [] && hash2 == h && depth == d
    {
      hash2, depth, leaves := h, d, [];
      var ds := EmptyLevels(h, 0, d);
      defaults := ds;
    }

    /** Appends without checking the capacity 2^depth. */
    method Insert(leaf: int) returns (index: nat)
      requires Valid()
      modifies this`leaves
      ensures Valid()
      ensures leaves == old(leaves) + [leaf] && index == |old(leaves)|
    {
      leaves := leaves + [leaf];
      index := |leaves| - 1;
    }

    /** `node`: the short cut for a subtree past the last leaf returns the dense node. */
    function NodeOf(level: nat, index: nat): (r: int)
      requires Valid() && level <= depth
      reads this
      ensures r == Node(hash2, 0, leaves, level, index)
      decreases level
    {
      if index * Pow2(level) >= |leaves| then
        EmptySubtree(hash2, 0, leaves, level, index);
        defaults[level]
      else if level == 0 then leaves[index]
      else hash2(NodeOf(level - 1, index * 2), NodeOf(level - 1, index * 2 + 1))
    }

    function Root(): (r: int)
      requires Valid()
      reads this
      ensures r == Node(hash2, 0, leaves, depth, 0)
    {
      NodeOf(depth, 0)
    }

    method Path(leafIndex: nat) returns (sibs: seq<int>, dirs: seq<bool>)
      requires Valid()
      ensures sibs == Siblings(hash2, 0, leaves, 0, leafIndex, depth)
      ensures dirs == Directions(leafIndex, depth)
    {
      ghost var wanted := Siblings(hash2, 0, leaves, 0, leafIndex, depth);
      ghost var turns := Directions(leafIndex, depth);
      var sib := new int[depth](i => 0);
      var dir := new bool[depth](i => false);
      var idx := leafIndex;
      for level := 0 to depth
        invariant idx == Ancestor(leafIndex, level)
        invariant forall l :: 0 <= l < level ==> sib[l] == wanted[l] && dir[l] == turns[l]
      {
        SiblingsAt(hash2, 0, leaves, 0, leafIndex, depth, level);
        AncestorStep(leafIndex, level);
        sib[level] := NodeOf(level, Sibling(idx));
        dir[level] := idx % 2 == 1;
        idx := idx / 2;
      }
      sibs, dirs := sib[..], dir[..];
    }

    /** Path, fold and compare with the root, for any occupied index: always true below the capacity, and
        beyond it true exactly when the node above the leaf happens to be the root. */
    method PathReachesRoot(leafIndex: nat) returns (ok: bool)
      requires Valid() && leafIndex < |leaves|
      ensures leafIndex < Pow2(depth) ==> ok
      ensures ok <==> Node(hash2, 0, leaves, depth, Ancestor(leafIndex, depth)) == Root()
    {
      var sibs, dirs := Path(leafIndex);
      var folded := MerkleRoot(hash2, leaves[leafIndex], sibs, dirs);
      PathFolds(hash2, leaves, depth, leafIndex);
      AncestorOfSmall(leafIndex, depth);
      ok := folded == Root();
    }
  }

  /** `merkle_root`: fold over the zipped lists. */
  method MerkleRoot(h: (int, int) -> int, leaf: int, sibs: seq<int>, dirs: seq<bool>) returns (cur: int)
    ensures cur == Fold(h, leaf, sibs, dirs)
  {
    cur := leaf;
    var i := 0;
    while i < |sibs| && i < |dirs|
      invariant 0 <= i <= |sibs| && i <= |dirs|
      invariant Fold(h, cur, sibs[i..], dirs[i..]) == Fold(h, leaf, sibs, dirs)
    {
      assert sibs[i..][1..] == sibs[i + 1..] && dirs[i..][1..] == dirs[i + 1..];
      cur := if dirs[i] then h(sibs[i], cur) else h(cur, sibs[i]);
      i := i + 1;
    }
  }

  /** Folding the registry's path of an index, from the leaf there. */
  function FoldedPath(h: (int, int) -> int, leaves: seq<int>, depth: nat, index: nat): int {
    Fold(h, LeafAt(0, leaves, index), Siblings(h, 0, leaves, 0, index, depth), Directions(index, depth))
  }

  lemma PathFolds(h: (int, int) -> int, leaves: seq<int>, depth: nat, index: nat)
    ensures FoldedPath(h, leaves, depth, index) == Node(h, 0, leaves, depth, Ancestor(index, depth))
  {
    FoldToAncestor(h, 0, leaves, 0, index, depth);
  }

  /** Below the capacity every path folds to the root. */
  lemma PathFoldsToRoot(h: (int, int) -> int, leaves: seq<int>, depth: nat, index: nat)
    requires index < Pow2(depth)
    ensures FoldedPath(h, leaves, depth, index) == Node(h, 0, leaves, depth, 0)
  {
    PathFolds(h, leaves, depth, index);
    AncestorOfSmall(index, depth);
  }

  /** For every index, overfull registry or not: the path folds to the root if the block of 2^depth leaves
      around the index repeats the first block, and only if it does or the returned nodes of the two subtrees
      collide. */
  lemma PathFoldsToRootIff(h: (int, int) -> int, leaves: seq<int>, depth: nat, index: nat)
    returns (l: nat, a: nat, b: nat)
    ensures Padded(0, leaves, depth, Ancestor(index, depth)) == Padded(0, leaves, depth, 0)
        ==> FoldedPath(h, leaves, depth, index) == Node(h, 0, leaves, depth, 0)
    ensures FoldedPath(h, leaves, depth, index) == Node(h, 0, leaves, depth, 0)
        ==> || Padded(0, leaves, depth, Ancestor(index, depth)) == Padded(0, leaves, depth, 0)
            || SubtreesCollide(h, 0, leaves, depth, Ancestor(index, depth), 0, l, a, b)
  {
    var top := Ancestor(index, depth);
    l, a, b := 0, 0, 0;
    PathFolds(h, leaves, depth, index);
    if Padded(0, leaves, depth, top) == Padded(0, leaves, depth, 0) {
      EqualLeavesEqualNodes(h, 0, leaves, depth, top, 0);
    } else if FoldedPath(h, leaves, depth, index) == Node(h, 0, leaves, depth, 0) {
      l, a, b := EqualNodesEqualLeaves(h, 0, leaves, depth, top, 0);
    }
  }

  /** The third leaf of a registry for two reaches the root only by a coincidence of hashes. */
  lemma OverflowMisses(h: (int, int) -> int, a: int, b: int, c: int)
    ensures FoldedPath(h, [a, b, c], 1, 2) == Node(h, 0, [a, b, c], 1, 0) <==> h(c, 0) == h(a, b)
  {
    var leaves := [a, b, c];
    PathFolds(h, leaves, 1, 2);
    assert Ancestor(2, 1) == Ancestor(1, 0) == 1;
    assert Node(h, 0, leaves, 1, 0) == h(Node(h, 0, leaves, 0, 0), Node(h, 0, leaves, 0, 1));
    assert Node(h, 0, leaves, 1, 1) == h(Node(h, 0, leaves, 0, 2), Node(h, 0, leaves, 0, 3));
  }

  /** A registry of capacity two with three leaves, the last of which does not reach the root, under a hash
      that stays within the field. */
  lemma OverflowInstance(p: int)
    requires p > 2
    ensures var h := (x: int, y: int) => (x + 2 * y) % p;
      && (forall x, y :: 0 <= h(x, y) < p)
      && FoldedPath(h, [0, 0, 1], 1, 2) != Node(h, 0, [0, 0, 1], 1, 0)
  {
    var h := (x: int, y: int) => (x + 2 * y) % p;
    assert h(1, 0) == 1 && h(0, 0) == 0;
    OverflowMisses(h, 0, 0, 1);
  }
}
