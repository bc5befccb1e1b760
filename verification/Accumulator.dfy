/** The code's own leaves, roots and checkpoint texts (`zk.rs`, `leaf.rs`, `merkle.rs`), and the issuer
    object that runs the accumulator machine with them. */
module Accumulator {
  import opened Wrappers
  import opened Bytes
  import opened DenseTree
  import opened RevocationPlan
  import opened CredentialLeaf
  import opened AccumulatorMachine
  import opened NameOrder
  import KeccakTree
  import PoseidonTree
  import Hex

  /** The hashes and the depth of the Poseidon tree (26 in the code). */
  datatype Params = Params(cx: Crypto, depth: nat)

  predicate Usable(sys: Params) {
    sys.cx.p > 0 && 1 <= sys.depth < 128
  }

  // ----- checkpoint text -----

  function FromActive(active: seq<ActiveLeaf>): Checkpoint {
    Checkpoint(seq(|active|, i requires 0 <= i < |active| => Hex.Encode(active[i].keccak)),
               seq(|active|, i requires 0 <= i < |active| => Hex.Encode(active[i].poseidon)))
  }

  /** `to_active`: zip, dropping entries that do not parse. */
  function ToActive(cp: Checkpoint): seq<ActiveLeaf>
    decreases |cp.keccak|
  {
    if cp.keccak == [] || cp.poseidon == [] then []
    else
      var rest := ToActive(Checkpoint(cp.keccak[1..], cp.poseidon[1..]));
      match (Hex.ParseBytes32(cp.keccak[0]), Hex.ParseBytes32(cp.poseidon[0]))
      case (Ok(k), Ok(p)) => [ActiveLeaf(k, p)] + rest
      case _ => rest
  }

  lemma ToActiveCons(k: string, ks: seq<string>, p: string, ps: seq<string>, leaf: ActiveLeaf)
    requires Hex.ParseBytes32(k) == Ok(leaf.keccak) && Hex.ParseBytes32(p) == Ok(leaf.poseidon)
    ensures ToActive(Checkpoint([k] + ks, [p] + ps)) == [leaf] + ToActive(Checkpoint(ks, ps))
  {
    assert ([k] + ks)[1..] == ks && ([p] + ps)[1..] == ps;
  }

  lemma FromActiveCons(active: seq<ActiveLeaf>)
    requires active != []
    ensures var rest := FromActive(active[1..]);
      FromActive(active) == Checkpoint([Hex.Encode(active[0].keccak)] + rest.keccak,
                                       [Hex.Encode(active[0].poseidon)] + rest.poseidon)
  {
  }

  lemma {:induction false} CheckpointRoundTrip(active: seq<ActiveLeaf>)
    ensures ToActive(FromActive(active)) == active
  {
    if active != [] {
      var leaf, rest := active[0], FromActive(active[1..]);
      Hex.ParseEncoded(leaf.keccak);
      Hex.ParseEncoded(leaf.poseidon);
      CheckpointRoundTrip(active[1..]);
      FromActiveCons(active);
      ToActiveCons(Hex.Encode(leaf.keccak), rest.keccak, Hex.Encode(leaf.poseidon), rest.poseidon, leaf);
    }
  }

  // ----- roots -----

  function Keccaks(active: seq<ActiveLeaf>): seq<Bytes32> {
    seq(|active|, i requires 0 <= i < |active| => active[i].keccak)
  }

  function PoseidonFelts(sys: Params, active: seq<ActiveLeaf>): seq<int>
    requires Usable(sys)
  {
    seq(|active|, i requires 0 <= i < |active| => FeltFromBe(sys.cx, active[i].poseidon))
  }

  const NODE_TAG := 2

  /** `hash_node`. */
  function HashNode(sys: Params): (int, int) -> int {
    (l: int, r: int) => sys.cx.poseidon([NODE_TAG, l, r])
  }

  /** `compute_keccak_root`: the empty set is a single zero leaf. */
  function KeccakRoot(sys: Params, active: seq<ActiveLeaf>): Bytes32 {
    KeccakTree.OzRoot(KeccakTree.PairHash(sys.cx.keccak), ZERO32, if active == [] then [ZERO32] else Keccaks(active))
  }

  /** A felt as an on-chain word. */
  function Word(f: int): Bytes32 { if f < 0 then ZERO32 else FeltToBytes32(f) }

  /** `compute_poseidon_root`. */
  function PoseidonRoot(sys: Params, active: seq<ActiveLeaf>): Result<Bytes32>
    requires Usable(sys)
  {
    if |active| > Pow2(sys.depth) then Err
    else Ok(Word(Node(HashNode(sys), 0, PoseidonFelts(sys, active), sys.depth, 0)))
  }

  method ComputeKeccakRoot(sys: Params, active: seq<ActiveLeaf>) returns (r: Bytes32)
    ensures r == KeccakRoot(sys, active)
  {
    ghost var n;
    r, n := KeccakTree.OzKeccakRoot(KeccakTree.PairHash(sys.cx.keccak), ZERO32,
                                    if active == [] then [ZERO32] else Keccaks(active));
  }

  method ComputePoseidonRoot(sys: Params, active: seq<ActiveLeaf>) returns (r: Result<Bytes32>)
    requires Usable(sys)
    ensures r == PoseidonRoot(sys, active)
  {
    var root := PoseidonTree.PoseidonRoot(HashNode(sys), 0, sys.depth, PoseidonFelts(sys, active));
    r := if root.Ok? then Ok(Word(root.value)) else Err;
  }

  /** `derive_leaf_hex`: keccak twice over the parsed id. */
  function DeriveLeaf(sys: Params, credId: string): Result<Bytes32> {
    match Hex.ParseCredId(credId)
    case Ok(b) => Ok(sys.cx.keccak(sys.cx.keccak(b)))
    case Err => Err
  }

  /** The machine with the code's functions. */
  function Kanon(sys: Params): System
    requires Usable(sys)
  {
    System((cd: Bytes32, id: string, attrs: seq<Attribute>) => PoseidonLeaf(sys.cx, cd, id, attrs),
           (id: string) => DeriveLeaf(sys, id),
           (a: seq<ActiveLeaf>) => KeccakRoot(sys, a),
           (a: seq<ActiveLeaf>) => PoseidonRoot(sys, a),
           (a: seq<ActiveLeaf>) => FromActive(a),
           (cp: Checkpoint) => ToActive(cp))
  }

  lemma KanonIsLossless(sys: Params)
    requires Usable(sys)
    ensures Lossless(Kanon(sys))
  {
    forall a: seq<ActiveLeaf> ensures ToActive(FromActive(a)) == a {
      CheckpointRoundTrip(a);
    }
  }

  /** The code's accumulator after every run: never ahead of the chain, and as long as storage writes
      succeed, in agreement with it. */
  lemma KanonRuns(sys: Params, ops: seq<Op>, cd: Bytes32)
    requires Usable(sys)
    ensures NeverAhead(Kanon(sys), Run(Kanon(sys), ops))
    ensures (forall i :: 0 <= i < |ops| ==> !ops[i].f.update && !ops[i].f.save) ==>
              Agrees(Kanon(sys), Run(Kanon(sys), ops), cd)
  {
    KanonIsLossless(sys);
    RunNeverAhead(Kanon(sys), ops);
    if forall i :: 0 <= i < |ops| ==> !ops[i].f.update && !ops[i].f.save {
      RunAgrees(Kanon(sys), ops, cd);
    }
  }

  /** Each active leaf has a short proof against the keccak root. */
  lemma KeccakProof(sys: Params, active: seq<ActiveLeaf>, i: nat) returns (proof: seq<Bytes32>)
    requires i < |active|
    ensures KeccakTree.Process(KeccakTree.PairHash(sys.cx.keccak), active[i].keccak, proof) == KeccakRoot(sys, active)
    ensures |proof| <= KeccakTree.CeilLog2(|active|)
  {
    KeccakTree.HashPairCommutes(sys.cx.keccak);
    proof := KeccakTree.EveryLeafHasProof(KeccakTree.PairHash(sys.cx.keccak), ZERO32, Keccaks(active), i);
  }

  /** Each active leaf's path of siblings folds to the Poseidon root. */
  lemma PoseidonProof(sys: Params, active: seq<ActiveLeaf>, i: nat)
    requires Usable(sys) && i < |active| && PoseidonRoot(sys, active).Ok?
    ensures PoseidonRoot(sys, active) ==
            Ok(Word(Fold(HashNode(sys), FeltFromBe(sys.cx, active[i].poseidon),
                         Siblings(HashNode(sys), 0, PoseidonFelts(sys, active), 0, i, sys.depth),
                         Directions(i, sys.depth))))
  {
    FoldToAncestor(HashNode(sys), 0, PoseidonFelts(sys, active), 0, i, sys.depth);
    AncestorOfSmall(i, sys.depth);
  }

  /** End to end: in every run with working storage, every leaf of a checkpoint whose cred-def is on chain
      can be proved against both roots the chain holds. */
  lemma ActiveLeavesAreProvable(sys: Params, ops: seq<Op>, cd: Bytes32, i: nat) returns (proof: seq<Bytes32>)
    requires Usable(sys)
    requires forall k :: 0 <= k < |ops| ==> !ops[k].f.update && !ops[k].f.save
    requires i < |Active(Kanon(sys), Run(Kanon(sys), ops), cd)|
    ensures var s := Run(Kanon(sys), ops);
      var active := Active(Kanon(sys), s, cd);
      && cd in s.merkle
      && KeccakTree.Process(KeccakTree.PairHash(sys.cx.keccak), active[i].keccak, proof) == s.merkle[cd].rootKeccak
      && |proof| <= KeccakTree.CeilLog2(|active|)
      && Word(Fold(HashNode(sys), FeltFromBe(sys.cx, active[i].poseidon),
                   Siblings(HashNode(sys), 0, PoseidonFelts(sys, active), 0, i, sys.depth),
                   Directions(i, sys.depth))) == s.merkle[cd].rootPoseidon
  {
    KanonRuns(sys, ops, cd);
    var active := Active(Kanon(sys), Run(Kanon(sys), ops), cd);
    proof := KeccakProof(sys, active, i);
    PoseidonProof(sys, active, i);
  }

  /** Every node over checkpoint leaves is a field element. */
  lemma RootIsFelt(sys: Params, active: seq<ActiveLeaf>)
    requires Usable(sys) && Proper(sys.cx)
    ensures 0 <= Node(HashNode(sys), 0, PoseidonFelts(sys, active), sys.depth, 0) < sys.cx.p
  {
    var dom := (x: int) => 0 <= x < sys.cx.p;
    NodeIn(dom, HashNode(sys), 0, PoseidonFelts(sys, active), sys.depth, 0);
  }

  /** A path to the on-chain Poseidon root starts at the checkpoint leaf its directions point at, or at the
      padding, or collides with the tree at the returned level. */
  lemma PoseidonBinds(sys: Params, active: seq<ActiveLeaf>, x: int, sibs: seq<int>, dirs: seq<bool>) returns (k: nat)
    requires Usable(sys) && Proper(sys.cx) && PoseidonRoot(sys, active).Ok?
    requires |sibs| == |dirs| == sys.depth
    requires Fold(HashNode(sys), x, sibs, dirs) == FeltFromBe(sys.cx, PoseidonRoot(sys, active).value)
    ensures
      || x == LeafAt(0, PoseidonFelts(sys, active), IndexUnder(0, dirs))
      || PathCollides(HashNode(sys), 0, PoseidonFelts(sys, active), 0, 0, x, sibs, dirs, k)
  {
    var root := Node(HashNode(sys), 0, PoseidonFelts(sys, active), sys.depth, 0);
    RootIsFelt(sys, active);
    FeltRoundTrip(sys.cx, root);
    k := FoldBinds(HashNode(sys), 0, PoseidonFelts(sys, active), 0, 0, x, sibs, dirs);
  }

  /** The converse, end to end: in every run with working storage, what proves against the Poseidon root on
      chain, other than the padding, is the leaf of an active credential, or the returned level shows a pair
      that collides with the tree's own.  So a leaf that is no longer active proves no longer. */
  lemma OnlyActiveLeavesProve(sys: Params, ops: seq<Op>, cd: Bytes32, x: int, sibs: seq<int>, dirs: seq<bool>)
    returns (k: nat)
    requires Usable(sys) && Proper(sys.cx)
    requires forall i :: 0 <= i < |ops| ==> !ops[i].f.update && !ops[i].f.save
    requires cd in Run(Kanon(sys), ops).merkle && |sibs| == |dirs| == sys.depth && x != 0
    requires Fold(HashNode(sys), x, sibs, dirs) == FeltFromBe(sys.cx, Run(Kanon(sys), ops).merkle[cd].rootPoseidon)
    ensures var active, i := Active(Kanon(sys), Run(Kanon(sys), ops), cd), IndexUnder(0, dirs);
      || (i < |active| && x == FeltFromBe(sys.cx, active[i].poseidon))
      || PathCollides(HashNode(sys), 0, PoseidonFelts(sys, active), 0, 0, x, sibs, dirs, k)
  {
    KanonRuns(sys, ops, cd);
    k := PoseidonBinds(sys, Active(Kanon(sys), Run(Kanon(sys), ops), cd), x, sibs, dirs);
  }

  lemma RunOn(sys: System, ops: seq<Op>, op: Op)
    ensures Run(sys, ops + [op]) == AccumulatorMachine.Step(sys, Run(sys, ops), op).0
  {
    assert (ops + [op])[..|ops|] == ops;
  }

  /** A published revocation takes the leaf of each of its ids out of the checkpoint, and no other. */
  lemma RevokedIsInactive(sys: Params, ops: seq<Op>, cd: Bytes32, ids: seq<string>, f: Faults, l: ActiveLeaf)
    requires Usable(sys) && (forall i :: 0 <= i < |ops| ==> !ops[i].f.update && !ops[i].f.save)
    requires AccumulatorMachine.Step(Kanon(sys), Run(Kanon(sys), ops), RevokeIds(cd, ids, f)).1 == Published
    ensures var before := Active(Kanon(sys), Run(Kanon(sys), ops), cd);
      var after := Active(Kanon(sys), Run(Kanon(sys), ops + [RevokeIds(cd, ids, f)]), cd);
      l in after <==> l in before && forall id :: id in ids ==> DeriveLeaf(sys, id) != Ok(l.keccak)
  {
    var s, before := Run(Kanon(sys), ops), Active(Kanon(sys), Run(Kanon(sys), ops), cd);
    KanonIsLossless(sys);
    KanonRuns(sys, ops, cd);
    RunOn(Kanon(sys), ops, RevokeIds(cd, ids, f));
    PublishedRevoke(Kanon(sys), s, cd, ids, f);
    KeepMeaning(before, LeafSet(Kanon(sys).derive, ids), l);
    LeafSetMeaning(sys, ids, l.keccak);
  }

  lemma LeafSetMeaning(sys: Params, ids: seq<string>, k: Bytes32)
    requires Usable(sys)
    ensures k in LeafSet(Kanon(sys).derive, ids) <==> exists id :: id in ids && DeriveLeaf(sys, id) == Ok(k)
  {
    if id :| id in ids && DeriveLeaf(sys, id) == Ok(k) {
      assert Kanon(sys).derive(id).Ok?;
    }
  }

  /** Once its revocation is published, a credential's leaf proves against the Poseidon root on chain only
      where another active credential has the very same leaf, or by a pair that collides with the tree's own at
      the returned level. */
  lemma RevokedProvesNoMore(sys: Params, ops: seq<Op>, cd: Bytes32, ids: seq<string>, f: Faults, l: ActiveLeaf,
                            sibs: seq<int>, dirs: seq<bool>) returns (k: nat)
    requires Usable(sys) && Proper(sys.cx) && !f.update && !f.save
    requires forall i :: 0 <= i < |ops| ==> !ops[i].f.update && !ops[i].f.save
    requires AccumulatorMachine.Step(Kanon(sys), Run(Kanon(sys), ops), RevokeIds(cd, ids, f)).1 == Published
    requires exists id :: id in ids && DeriveLeaf(sys, id) == Ok(l.keccak)
    requires var after := Run(Kanon(sys), ops + [RevokeIds(cd, ids, f)]);
      && cd in after.merkle && |sibs| == |dirs| == sys.depth && FeltFromBe(sys.cx, l.poseidon) != 0
      && Fold(HashNode(sys), FeltFromBe(sys.cx, l.poseidon), sibs, dirs) == FeltFromBe(sys.cx, after.merkle[cd].rootPoseidon)
    ensures var active := Active(Kanon(sys), Run(Kanon(sys), ops + [RevokeIds(cd, ids, f)]), cd);
      var i := IndexUnder(0, dirs);
      || (i < |active| && active[i].keccak != l.keccak
          && FeltFromBe(sys.cx, active[i].poseidon) == FeltFromBe(sys.cx, l.poseidon))
      || PathCollides(HashNode(sys), 0, PoseidonFelts(sys, active), 0, 0, FeltFromBe(sys.cx, l.poseidon), sibs, dirs, k)
  {
    var all, i := ops + [RevokeIds(cd, ids, f)], IndexUnder(0, dirs);
    var active := Active(Kanon(sys), Run(Kanon(sys), all), cd);
    k := OnlyActiveLeavesProve(sys, all, cd, FeltFromBe(sys.cx, l.poseidon), sibs, dirs);
    if i < |active| {
      RevokedIsInactive(sys, ops, cd, ids, f, active[i]);
      assert active[i] in active;
    }
  }

  /** The credential id as its 64 digits, in any prefix form, is hashed twice. */
  lemma DerivedTwice(sys: Params, b: Bytes32)
    ensures DeriveLeaf(sys, Hex.Encode(b)) == DeriveLeaf(sys, "0x" + Hex.Encode(b)) == DeriveLeaf(sys, "0X" + Hex.Encode(b))
         == Ok(sys.cx.keccak(sys.cx.keccak(b)))
  {
    Hex.ParseCredIdForms(b);
  }

  /** Inner nodes and leaves are hashed from lists that differ in their tag: a node that equals a leaf is a
      collision of Poseidon between the two lists written out here. */
  lemma NodesAreNotLeaves(sys: Params, l: int, r: int, cd: Bytes32, id: string, attrs: seq<Attribute>)
    requires Usable(sys) && LeafOf(sys.cx, cd, id, attrs) == Ok(HashNode(sys)(l, r))
    ensures var padded := PadAttrs(EncodeAttributes(sys.cx, attrs));
      && padded.Ok?
      && sys.cx.poseidon([2, l, r]) == sys.cx.poseidon([1, BeVal(cd) % sys.cx.p,
           BeVal(sys.cx.keccak(sys.cx.utf8(id))) % sys.cx.p, sys.cx.poseidon(padded.value)])
  {
  }

  /** The root over no leaf is the zero word, over one leaf the leaf, over two their sorted hash. */
  lemma SmallKeccakRoots(sys: Params, a: ActiveLeaf, b: ActiveLeaf)
    requires NameOrder.LexLe(a.keccak, b.keccak)
    ensures KeccakRoot(sys, []) == ZERO32 && KeccakRoot(sys, [a]) == a.keccak
    ensures KeccakRoot(sys, [a, b]) == sys.cx.keccak(a.keccak + b.keccak) == KeccakRoot(sys, [b, a])
  {
    var h := KeccakTree.PairHash(sys.cx.keccak);
    KeccakTree.HashPairSorts(sys.cx.keccak, a.keccak, b.keccak);
    KeccakTree.TwoLeaves(h, ZERO32, a.keccak, b.keccak);
    KeccakTree.TwoLeaves(h, ZERO32, b.keccak, a.keccak);
    assert Keccaks([a, b]) == [a.keccak, b.keccak] && Keccaks([b, a]) == [b.keccak, a.keccak];
  }

  /** From preparation to storage: once an issue on any permutation of the prepared attributes, with or
      without the reserved tail, is published, the checkpoint ends in a leaf that the chain accepted and that
      reads as the field element the issuer signed. */
  lemma StoredLeafIsSigned(sys: Params, s: State, cd: Bytes32, credId: string, domain: seq<Attribute>, sig: string,
                           issued: seq<Attribute>, signed: nat, f: Faults)
    requires Usable(sys) && Proper(sys.cx) && Consistent(Kept(sys.cx, domain))
    requires PrepareModeB(sys.cx, cd, credId, domain, sig) == Ok(Prepared(signed, domain + ReservedTail(credId, sig)))
    requires multiset(issued) == multiset(domain) || multiset(issued) == multiset(domain + ReservedTail(credId, sig))
    requires AccumulatorMachine.Step(Kanon(sys), s, Issue(cd, credId, issued, f)).1 == Published
    ensures var s' := AccumulatorMachine.Step(Kanon(sys), s, Issue(cd, credId, issued, f)).0;
      var before, after := Active(Kanon(sys), s, cd), Active(Kanon(sys), s', cd);
      && |after| == |before| + 1 && after[..|before|] == before
      && FeltFromBe(sys.cx, after[|before|].poseidon) == signed
      && DeriveLeaf(sys, credId) == Ok(after[|before|].keccak)
      && (cd, after[|before|]) in s'.accepted
  {
    KanonIsLossless(sys);
    PublishedIssue(Kanon(sys), s, cd, credId, issued, f);
    PublishedLeafIsSigned(sys.cx, cd, credId, domain, sig, issued, signed);
  }

  /** `PoseidonZk` with the chain and the store it drives.  Each call's faults say which of its requests
      fail; a failed request has no effect. */
  class ZkIssuer {
    const sys: Params
    var merkle: map<Bytes32, MerkleState>
    var store: map<Bytes32, Checkpoint>
    ghost var accepted: set<(Bytes32, ActiveLeaf)>

    constructor (sys: Params)
      ensures this.sys == sys && Abs() == EMPTY
    {
      this.sys, merkle, store, accepted := sys, map[], map[], {};
    }

    ghost function Abs(): State
      reads this
    {
      State(merkle, store, accepted)
    }

    function LoadActive(cd: Bytes32): seq<ActiveLeaf>
      reads this
    {
      if cd in store then ToActive(store[cd]) else []
    }

    /** `upsert`: update, and save when the update fails. */
    method SaveActive(cd: Bytes32, active: seq<ActiveLeaf>, f: Faults) returns (o: Outcome)
      requires Usable(sys)
      modifies this`store
      ensures (Abs(), o) == Saved(Kanon(sys), old(Abs()), cd, active, f)
    {
      var cp := FromActive(active);
      o := Published;
      if cd in store && !f.update {
        store := store[cd := cp];
      } else if cd !in store && !f.save {
        store := store[cd := cp];
      } else {
        o := Unsaved;
      }
    }

    method Publish(cd: Bytes32, leaf: ActiveLeaf, f: Faults) returns (o: Outcome)
      requires Usable(sys)
      modifies this
      ensures (Abs(), o) == PublishLeaf(Kanon(sys), old(Abs()), cd, leaf, f)
    {
      var active := LoadActive(cd) + [leaf];
      var rk := ComputeKeccakRoot(sys, active);
      var rp := ComputePoseidonRoot(sys, active);
      if rp.Err? || f.batch {
        return Failed;
      }
      merkle := BatchUpdate(merkle, cd, 1, 0, rk, rp.value);
      accepted := accepted + {(cd, leaf)};
      o := SaveActive(cd, active, f);
    }

    method AddIssuedCredential(cd: Bytes32, credId: string, attrs: seq<Attribute>, f: Faults) returns (o: Outcome)
      requires Usable(sys)
      modifies this
      ensures (Abs(), o) == AddIssued(Kanon(sys), old(Abs()), cd, credId, attrs, f)
    {
      var p, k := PoseidonLeaf(sys.cx, cd, credId, attrs), DeriveLeaf(sys, credId);
      if p.Err? || k.Err? || f.find {
        return Failed;
      }
      var active := LoadActive(cd);
      if Position(active, k.value) < |active| {
        return Skipped;
      }
      if active == [] {
        var gk := ComputeKeccakRoot(sys, active);
        var gp := ComputePoseidonRoot(sys, active);
        if gp.Err? {
          return Failed;
        }
        if !f.init {
          merkle := InitMerkle(merkle, cd, gk, gp.value);
        }
      }
      o := Publish(cd, ActiveLeaf(k.value, p.value), f);
    }

    method RevokeByCredIds(cd: Bytes32, ids: seq<string>, f: Faults) returns (o: Outcome)
      requires Usable(sys)
      modifies this
      ensures (Abs(), o) == Revoke(Kanon(sys), old(Abs()), cd, ids, f)
    {
      if ids == [] || f.find {
        return Failed;
      }
      var plan := PlanRevoke(Kanon(sys).derive, LoadActive(cd), ids);
      if plan.Err? {
        return Failed;
      }
      var rk := ComputeKeccakRoot(sys, plan.value.remaining);
      var rp := ComputePoseidonRoot(sys, plan.value.remaining);
      if rp.Err? || f.batch {
        return Failed;
      }
      merkle := BatchUpdate(merkle, cd, 0, |plan.value.revoked|, rk, rp.value);
      o := SaveActive(cd, plan.value.remaining, f);
    }
  }
}
