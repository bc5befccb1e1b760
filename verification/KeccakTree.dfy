/** The OpenZeppelin sorted-pair tree of `merkle.rs`, the form `MerkleProof.verify` accepts on chain.
    The tree is generic in the node type and the pair hash; `PairHash` is the instance the code uses. */
module KeccakTree {
  import opened Bytes
  import opened DenseTree
  import opened NameOrder

  type Keccak = seq<byte> -> Bytes32

  /** `hash_pair`: the smaller operand first. */
  function HashPair(k: Keccak, a: Bytes32, b: Bytes32): Bytes32 {
    if LexLe(a, b) then k(a + b) else k(b + a)
  }

  function PairHash(k: Keccak): (Bytes32, Bytes32) -> Bytes32 {
    (a: Bytes32, b: Bytes32) => HashPair(k, a, b)
  }

  ghost predicate Commutative<T(!new)>(h: (T, T) -> T) {
    forall a, b :: CommutesAt(h, a, b)
  }

  ghost predicate CommutesAt<T>(h: (T, T) -> T, a: T, b: T) {
    h(a, b) == h(b, a)
  }

  lemma HashPairCommutes(k: Keccak)
    ensures Commutative(PairHash(k))
  {
    forall a: Bytes32, b: Bytes32 ensures CommutesAt(PairHash(k), a, b) {
      LexTotal(a, b);
    }
  }

  /** Whatever the order of the operands, the smaller is hashed first. */
  lemma HashPairSorts(k: Keccak, a: Bytes32, b: Bytes32)
    requires LexLe(a, b)
    ensures HashPair(k, a, b) == k(a + b) == HashPair(k, b, a)
  {
    LexTotal(a, b);
  }

  /** Node j of the layer above; an odd last node is promoted unchanged. */
  function ParentAt<T>(h: (T, T) -> T, layer: seq<T>, j: nat): T
    requires 2 * j < |layer|
  {
    if 2 * j + 1 < |layer| then h(layer[2 * j], layer[2 * j + 1]) else layer[2 * j]
  }

  function NextLayer<T>(h: (T, T) -> T, layer: seq<T>): (next: seq<T>)
    ensures |next| == (|layer| + 1) / 2
    ensures forall j :: 0 <= j < |next| ==> next[j] == ParentAt(h, layer, j)
  {
    seq((|layer| + 1) / 2, j requires 0 <= j < (|layer| + 1) / 2 => ParentAt(h, layer, j))
  }

  function OzRoot<T>(h: (T, T) -> T, zero: T, layer: seq<T>): T
    decreases |layer|
  {
    if |layer| == 0 then zero
    else if |layer| == 1 then layer[0]
    else OzRoot(h, zero, NextLayer(h, layer))
  }

  lemma TwoLeaves<T>(h: (T, T) -> T, zero: T, x: T, y: T)
    ensures OzRoot(h, zero, [x, y]) == h(x, y)
  {
    assert NextLayer(h, [x, y]) == [h(x, y)];
  }

  /** The inner loop: hash neighbours two by two. */
  method HashLayer<T>(h: (T, T) -> T, layer: seq<T>) returns (next: seq<T>, ghost hashes: nat)
    ensures next == NextLayer(h, layer)
    ensures hashes == |layer| / 2
  {
    next, hashes := [], 0;
    var i := 0;
    while i < |layer|
      invariant i == 2 * |next| <= |layer| + 1
      invariant forall j :: 0 <= j < |next| ==> next[j] == ParentAt(h, layer, j)
      invariant hashes == if i <= |layer| then |next| else |next| - 1
    {
      if i + 1 < |layer| {
        next := next + [h(layer[i], layer[i + 1])];
        hashes := hashes + 1;
      } else {
        next := next + [layer[i]];
      }
      i := i + 2;
    }
  }

  /** `oz_keccak_root`.  `hashes` counts the calls of the pair hash: n - 1, despite odd promotions. */
  method OzKeccakRoot<T>(h: (T, T) -> T, zero: T, leaves: seq<T>) returns (root: T, ghost hashes: nat)
    ensures root == OzRoot(h, zero, leaves)
    ensures leaves != [] ==> hashes == |leaves| - 1
  {
    hashes := 0;
    if leaves == [] {
      return zero, 0;
    }
    var layer := leaves;
    while |layer| > 1
      invariant layer != [] && OzRoot(h, zero, layer) == OzRoot(h, zero, leaves)
      invariant hashes + |layer| == |leaves|
      decreases |layer|
    {
      ghost var n: nat;
      layer, n := HashLayer(h, layer);
      hashes := hashes + n;
    }
    root := layer[0];
  }

  // ----- inclusion proofs -----

  /** `MerkleProof.processProof`: fold with the pair hash. */
  function Process<T>(h: (T, T) -> T, x: T, proof: seq<T>): T
    decreases |proof|
  {
    if proof == [] then x else Process(h, h(x, proof[0]), proof[1..])
  }

  lemma ProcessCons<T>(h: (T, T) -> T, x: T, s: T, rest: seq<T>)
    ensures Process(h, x, [s] + rest) == Process(h, h(x, s), rest)
  {
  }

  /** The least e with 2^e >= n. */
  function CeilLog2(n: nat): (e: nat)
    ensures n <= Pow2(e)
    ensures n > 1 ==> e > 0 && Pow2(e - 1) < n
  {
    if n <= 1 then 0 else 1 + CeilLog2((n + 1) / 2)
  }

  /** Every leaf of every tree has a proof of at most ceil(log2 n) siblings that processes to the root:
      promotion of odd nodes only shortens proofs. */
  lemma {:induction false} EveryLeafHasProof<T(!new)>(h: (T, T) -> T, zero: T, layer: seq<T>, i: nat)
    returns (proof: seq<T>)
    requires Commutative(h) && i < |layer|
    ensures Process(h, layer[i], proof) == OzRoot(h, zero, layer)
    ensures |proof| <= CeilLog2(|layer|)
    decreases |layer|
  {
    proof := [];
    if |layer| > 1 {
      var rest := EveryLeafHasProof(h, zero, NextLayer(h, layer), i / 2);
      assert Process(h, ParentAt(h, layer, i / 2), rest) == OzRoot(h, zero, layer);
      if i % 2 == 1 {
        assert CommutesAt(h, layer[i - 1], layer[i]);
        ProcessCons(h, layer[i], layer[i - 1], rest);
        proof := [layer[i - 1]] + rest;
      } else if i + 1 < |layer| {
        ProcessCons(h, layer[i], layer[i + 1], rest);
        proof := [layer[i + 1]] + rest;
      } else {
        proof := rest;
      }
    }
  }
}
