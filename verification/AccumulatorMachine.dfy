/** The Tier-2 revocation accumulator (`zk.rs`) against the chain (`chain.rs`): issue and revoke as steps
    over the chain's Merkle state and the stored active-leaf checkpoint, any call of which may fail.  The
    machine is generic in how leaves, roots and checkpoint texts are computed; module Accumulator gives
    the code's own functions. */
module AccumulatorMachine {
  import opened Wrappers
  import opened Bytes
  import opened RevocationPlan
  import opened NameOrder

  /** Parallel hex lists, in the order the leaves were added on chain. */
  datatype Checkpoint = Checkpoint(keccak: seq<string>, poseidon: seq<string>)

  datatype System = System(
    leaf: (Bytes32, string, seq<Entry<string>>) -> Result<Bytes32>,
    derive: Derive,
    keccakRoot: seq<ActiveLeaf> -> Bytes32,
    poseidonRoot: seq<ActiveLeaf> -> Result<Bytes32>,
    write: seq<ActiveLeaf> -> Checkpoint,
    read: Checkpoint -> seq<ActiveLeaf>)

  /** What is written to a checkpoint reads back. */
  ghost predicate Lossless(sys: System) {
    forall a :: sys.read(sys.write(a)) == a
  }

  // ----- states and steps -----

  datatype MerkleState = MerkleState(rootKeccak: Bytes32, rootPoseidon: Bytes32, epoch: nat, issued: nat, revoked: nat)

  /** Per cred-def: the chain's Merkle state and the stored checkpoint.  `accepted` is the history of the
      leaves the chain has taken in. */
  datatype State = State(merkle: map<Bytes32, MerkleState>, store: map<Bytes32, Checkpoint>,
                         accepted: set<(Bytes32, ActiveLeaf)>)

  /** Which of the calls an operation makes fail, without effect. */
  datatype Faults = Faults(find: bool, init: bool, batch: bool, update: bool, save: bool)

  /** Failed: an error before the chain took the batch.  Skipped: duplicate issuance.  Unsaved: the chain
      accepted the batch but the checkpoint write failed, which the caller also sees as an error. */
  datatype Outcome = Failed | Skipped | Published | Unsaved

  function Active(sys: System, s: State, cd: Bytes32): seq<ActiveLeaf> {
    if cd in s.store then sys.read(s.store[cd]) else []
  }

  /** `init_merkle_state`: inserts, and so also overwrites. */
  function InitMerkle(m: map<Bytes32, MerkleState>, cd: Bytes32, rk: Bytes32, rp: Bytes32): map<Bytes32, MerkleState> {
    m[cd := MerkleState(rk, rp, 0, 0, 0)]
  }

  /** `batch_update`: starts an absent entry from zeros. */
  function BatchUpdate(m: map<Bytes32, MerkleState>, cd: Bytes32, added: nat, revoked: nat, rk: Bytes32, rp: Bytes32)
    : map<Bytes32, MerkleState>
  {
    var st := if cd in m then m[cd] else MerkleState(ZERO32, ZERO32, 0, 0, 0);
    m[cd := MerkleState(rk, rp, st.epoch + 1, st.issued + added, st.revoked + revoked)]
  }

  /** `upsert` over a store whose update fails on a missing record and whose save fails on a present one. */
  predicate UpsertWorks(store: map<Bytes32, Checkpoint>, cd: Bytes32, f: Faults) {
    (cd in store && !f.update) || (cd !in store && !f.save)
  }

  function Saved(sys: System, s: State, cd: Bytes32, active: seq<ActiveLeaf>, f: Faults): (State, Outcome) {
    if UpsertWorks(s.store, cd, f) then (s.(store := s.store[cd := sys.write(active)]), Published) else (s, Unsaved)
  }

  /** The state after the genesis call, made only for an empty active set. */
  function Initialised(sys: System, s: State, cd: Bytes32, rp: Bytes32, f: Faults): State {
    if Active(sys, s, cd) == [] && !f.init then s.(merkle := InitMerkle(s.merkle, cd, sys.keccakRoot([]), rp)) else s
  }

  /** The chain takes the new leaf and then the checkpoint is saved. */
  function PublishLeaf(sys: System, s: State, cd: Bytes32, leaf: ActiveLeaf, f: Faults): (State, Outcome) {
    var active := Active(sys, s, cd) + [leaf];
    match sys.poseidonRoot(active)
    case Err => (s, Failed)
    case Ok(rp) =>
      if f.batch then (s, Failed)
      else
        var m := BatchUpdate(s.merkle, cd, 1, 0, sys.keccakRoot(active), rp);
        Saved(sys, State(m, s.store, s.accepted + {(cd, leaf)}), cd, active, f)
  }

  /** `add_issued`. */
  function AddIssued(sys: System, s: State, cd: Bytes32, credId: string, attrs: seq<Entry<string>>, f: Faults)
    : (State, Outcome)
  {
    match (sys.leaf(cd, credId, attrs), sys.derive(credId))
    case (Ok(p), Ok(k)) =>
      if f.find then (s, Failed)
      else if Position(Active(sys, s, cd), k) < |Active(sys, s, cd)| then (s, Skipped)
      else if Active(sys, s, cd) == [] then
        match sys.poseidonRoot([])
        case Err => (s, Failed)
        case Ok(rp) => PublishLeaf(sys, Initialised(sys, s, cd, rp, f), cd, ActiveLeaf(k, p), f)
      else PublishLeaf(sys, s, cd, ActiveLeaf(k, p), f)
    case _ => (s, Failed)
  }

  /** `publish_revoke` and the save after it. */
  function PublishRevoke(sys: System, s: State, cd: Bytes32, plan: Plan, f: Faults): (State, Outcome) {
    match sys.poseidonRoot(plan.remaining)
    case Err => (s, Failed)
    case Ok(rp) =>
      if f.batch then (s, Failed)
      else
        var m := BatchUpdate(s.merkle, cd, 0, |plan.revoked|, sys.keccakRoot(plan.remaining), rp);
        Saved(sys, s.(merkle := m), cd, plan.remaining, f)
  }

  /** `revoke_by_cred_ids`. */
  function Revoke(sys: System, s: State, cd: Bytes32, ids: seq<string>, f: Faults): (State, Outcome) {
    if ids == [] || f.find then (s, Failed)
    else
      match RemoveAll(sys.derive, Active(sys, s, cd), ids)
      case Err => (s, Failed)
      case Ok(plan) => PublishRevoke(sys, s, cd, plan, f)
  }

  datatype Op =
    | Issue(cd: Bytes32, credId: string, attrs: seq<Entry<string>>, f: Faults)
    | RevokeIds(cd: Bytes32, ids: seq<string>, f: Faults)

  function Step(sys: System, s: State, op: Op): (State, Outcome) {
    match op
    case Issue(cd, id, attrs, f) => AddIssued(sys, s, cd, id, attrs, f)
    case RevokeIds(cd, ids, f) => Revoke(sys, s, cd, ids, f)
  }

  const EMPTY := State(map[], map[], {})

  /** A sequential run from the empty chain and store. */
  function Run(sys: System, ops: seq<Op>): State {
    if ops == [] then EMPTY else Step(sys, Run(sys, ops[..|ops| - 1]), ops[|ops| - 1]).0
  }

  // ----- the invariant -----

  /** The chain entry carries the roots over the active leaves, and its counters their number. */
  ghost predicate Matches(sys: System, m: MerkleState, active: seq<ActiveLeaf>) {
    && m.rootKeccak == sys.keccakRoot(active)
    && sys.poseidonRoot(active) == Ok(m.rootPoseidon)
    && m.issued == m.revoked + |active|
  }

  /** Checkpoint and chain agree on a cred-def: distinct leaves, and once initialised, matching roots and
      counters. */
  ghost predicate Agrees(sys: System, s: State, cd: Bytes32) {
    && Distinct(Active(sys, s, cd))
    && (if cd in s.merkle then Matches(sys, s.merkle[cd], Active(sys, s, cd)) else Active(sys, s, cd) == [])
  }

  lemma SavedActive(sys: System, s: State, cd: Bytes32, active: seq<ActiveLeaf>, f: Faults, other: Bytes32)
    requires Lossless(sys)
    ensures var (s', o) := Saved(sys, s, cd, active, f);
      && s'.merkle == s.merkle && s'.accepted == s.accepted && o == (if UpsertWorks(s.store, cd, f) then Published else Unsaved)
      && Active(sys, s', other) == if other == cd && o == Published then active else Active(sys, s, other)
  {
  }

  lemma DistinctSnoc(active: seq<ActiveLeaf>, leaf: ActiveLeaf)
    requires Distinct(active) && Position(active, leaf.keccak) == |active|
    ensures Distinct(active + [leaf])
  {
  }

  /** From an agreeing state, publishing a leaf keeps agreement exactly when it does not end unsaved. */
  lemma PublishLeafAgrees(sys: System, s: State, cd: Bytes32, leaf: ActiveLeaf, f: Faults)
    requires Lossless(sys) && Agrees(sys, s, cd) && Position(Active(sys, s, cd), leaf.keccak) == |Active(sys, s, cd)|
    ensures var (s', o) := PublishLeaf(sys, s, cd, leaf, f);
      (Agrees(sys, s', cd) <==> o != Unsaved)
  {
    var a := Active(sys, s, cd);
    var active := a + [leaf];
    if sys.poseidonRoot(active).Ok? && !f.batch {
      var m := BatchUpdate(s.merkle, cd, 1, 0, sys.keccakRoot(active), sys.poseidonRoot(active).value);
      SavedActive(sys, State(m, s.store, s.accepted + {(cd, leaf)}), cd, active, f, cd);
      DistinctSnoc(a, leaf);
    }
  }

  lemma InitialisedAgrees(sys: System, s: State, cd: Bytes32, rp: Bytes32, f: Faults)
    requires Agrees(sys, s, cd) && Active(sys, s, cd) == [] && sys.poseidonRoot([]) == Ok(rp)
    ensures Agrees(sys, Initialised(sys, s, cd, rp, f), cd)
    ensures Active(sys, Initialised(sys, s, cd, rp, f), cd) == []
  {
  }

  lemma AddIssuedAgrees(sys: System, s: State, cd: Bytes32, credId: string, attrs: seq<Entry<string>>, f: Faults)
    requires Lossless(sys) && Agrees(sys, s, cd)
    ensures var (s', o) := AddIssued(sys, s, cd, credId, attrs, f);
      (Agrees(sys, s', cd) <==> o != Unsaved)
  {
    var p, k := sys.leaf(cd, credId, attrs), sys.derive(credId);
    if p.Ok? && k.Ok? && !f.find && Position(Active(sys, s, cd), k.value) == |Active(sys, s, cd)| {
      var leaf := ActiveLeaf(k.value, p.value);
      if Active(sys, s, cd) != [] {
        PublishLeafAgrees(sys, s, cd, leaf, f);
      } else if sys.poseidonRoot([]).Ok? {
        var rp := sys.poseidonRoot([]).value;
        InitialisedAgrees(sys, s, cd, rp, f);
        PublishLeafAgrees(sys, Initialised(sys, s, cd, rp, f), cd, leaf, f);
      }
    }
  }

  lemma PublishRevokeAgrees(sys: System, s: State, cd: Bytes32, plan: Plan, f: Faults)
    requires Lossless(sys) && Agrees(sys, s, cd)
    requires plan.revoked != [] && |plan.remaining| + |plan.revoked| == |Active(sys, s, cd)| && Distinct(plan.remaining)
    ensures var (s', o) := PublishRevoke(sys, s, cd, plan, f);
      (Agrees(sys, s', cd) <==> o != Unsaved)
  {
    var rem := plan.remaining;
    if sys.poseidonRoot(rem).Ok? && !f.batch {
      var m := BatchUpdate(s.merkle, cd, 0, |plan.revoked|, sys.keccakRoot(rem), sys.poseidonRoot(rem).value);
      SavedActive(sys, s.(merkle := m), cd, rem, f, cd);
    }
  }

  lemma RevokeAgrees(sys: System, s: State, cd: Bytes32, ids: seq<string>, f: Faults)
    requires Lossless(sys) && Agrees(sys, s, cd)
    ensures var (s', o) := Revoke(sys, s, cd, ids, f);
      (Agrees(sys, s', cd) <==> o != Unsaved)
  {
    var a := Active(sys, s, cd);
    var plan := RemoveAll(sys.derive, a, ids);
    if ids != [] && !f.find && plan.Ok? {
      PlanConserves(sys.derive, a, ids);
      PlanExact(sys.derive, a, ids);
      KeepDistinct(a, LeafSet(sys.derive, ids));
      PublishRevokeAgrees(sys, s, cd, plan.value, f);
    }
  }

  /** A step leaves every other cred-def alone. */
  lemma StepIsLocal(sys: System, s: State, op: Op, other: Bytes32)
    requires Lossless(sys) && other != op.cd
    ensures var s' := Step(sys, s, op).0;
      && Active(sys, s', other) == Active(sys, s, other)
      && (other in s'.merkle <==> other in s.merkle)
      && (other in s.merkle ==> s'.merkle[other] == s.merkle[other])
  {
  }

  // ----- exactly when agreement is lost -----

  /** An issue whose batch the chain will accept: the leaf can be computed and is new, the active set loads,
      both trees have room and the chain call works. */
  predicate IssueAccepted(sys: System, s: State, cd: Bytes32, credId: string, attrs: seq<Entry<string>>, f: Faults) {
    var active := Active(sys, s, cd);
    && sys.leaf(cd, credId, attrs).Ok? && sys.derive(credId).Ok?
    && !f.find && !f.batch
    && Position(active, sys.derive(credId).value) == |active|
    && (active == [] ==> sys.poseidonRoot([]).Ok?)
    && sys.poseidonRoot(active + [ActiveLeaf(sys.derive(credId).value, sys.leaf(cd, credId, attrs).value)]).Ok?
  }

  /** A revocation whose batch the chain will accept: the ids derive distinct active leaves. */
  ghost predicate RevokeAccepted(sys: System, s: State, cd: Bytes32, ids: seq<string>, f: Faults) {
    var active := Active(sys, s, cd);
    && ids != [] && !f.find && !f.batch
    && Revocable(sys.derive, active, ids)
    && sys.poseidonRoot(Keep(active, LeafSet(sys.derive, ids))).Ok?
  }

  /** Before the step: its batch will be accepted and its checkpoint cannot be written. */
  ghost predicate Loses(sys: System, s: State, op: Op) {
    && !UpsertWorks(s.store, op.cd, op.f)
    && match op
       case Issue(cd, id, attrs, f) => IssueAccepted(sys, s, cd, id, attrs, f)
       case RevokeIds(cd, ids, f) => RevokeAccepted(sys, s, cd, ids, f)
  }

  /** The four outcomes of an issue, read off its inputs. */
  lemma IssueOutcome(sys: System, s: State, cd: Bytes32, credId: string, attrs: seq<Entry<string>>, f: Faults)
    ensures var (s', o) := AddIssued(sys, s, cd, credId, attrs, f);
      && (o == Published <==> IssueAccepted(sys, s, cd, credId, attrs, f) && UpsertWorks(s.store, cd, f))
      && (o == Unsaved <==> IssueAccepted(sys, s, cd, credId, attrs, f) && !UpsertWorks(s.store, cd, f))
      && (o == Skipped <==> sys.leaf(cd, credId, attrs).Ok? && sys.derive(credId).Ok? && !f.find
                            && exists i :: 0 <= i < |Active(sys, s, cd)| && Active(sys, s, cd)[i].keccak == sys.derive(credId).value)
  {
    if sys.derive(credId).Ok? { PositionMeaning(Active(sys, s, cd), sys.derive(credId).value); }
  }

  lemma {:induction false} PositionMeaning(active: seq<ActiveLeaf>, k: Bytes32)
    ensures Position(active, k) < |active| <==> exists i :: 0 <= i < |active| && active[i].keccak == k
  {
    if active != [] {
      PositionMeaning(active[1..], k);
      assert forall i :: 1 <= i < |active| ==> active[i] == active[1..][i - 1];
      if i :| 0 <= i < |active| - 1 && active[1..][i].keccak == k { assert active[i + 1].keccak == k; }
    }
  }

  /** And of a revocation. */
  lemma RevokeOutcome(sys: System, s: State, cd: Bytes32, ids: seq<string>, f: Faults)
    requires Distinct(Active(sys, s, cd))
    ensures var (s', o) := Revoke(sys, s, cd, ids, f);
      && (o == Published <==> RevokeAccepted(sys, s, cd, ids, f) && UpsertWorks(s.store, cd, f))
      && (o == Unsaved <==> RevokeAccepted(sys, s, cd, ids, f) && !UpsertWorks(s.store, cd, f))
      && o != Skipped
  {
    PlanExact(sys.derive, Active(sys, s, cd), ids);
  }

  /** One step from an agreeing state: agreement is kept everywhere, except on the step's own cred-def in
      the one case where the chain accepts a batch whose checkpoint cannot be written. */
  lemma StepAgrees(sys: System, s: State, op: Op, cd: Bytes32)
    requires Lossless(sys) && Agrees(sys, s, cd)
    ensures Agrees(sys, Step(sys, s, op).0, cd) <==> !(cd == op.cd && Loses(sys, s, op))
  {
    if cd != op.cd {
      StepIsLocal(sys, s, op, cd);
    } else {
      match op
      case Issue(_, id, attrs, f) =>
        AddIssuedAgrees(sys, s, cd, id, attrs, f);
        IssueOutcome(sys, s, cd, id, attrs, f);
      case RevokeIds(_, ids, f) =>
        RevokeAgrees(sys, s, cd, ids, f);
        RevokeOutcome(sys, s, cd, ids, f);
    }
  }

  /** A run reaches it: the first credential of a cred-def is issued while storage takes no write. */
  lemma UnsavedRun(sys: System, cd: Bytes32, credId: string, attrs: seq<Entry<string>>)
    requires Lossless(sys) && sys.leaf(cd, credId, attrs).Ok? && sys.derive(credId).Ok? && sys.poseidonRoot([]).Ok?
    requires sys.poseidonRoot([ActiveLeaf(sys.derive(credId).value, sys.leaf(cd, credId, attrs).value)]).Ok?
    ensures !Agrees(sys, Run(sys, [Issue(cd, credId, attrs, Faults(false, false, false, true, true))]), cd)
  {
    var op := Issue(cd, credId, attrs, Faults(false, false, false, true, true));
    var leaf := ActiveLeaf(sys.derive(credId).value, sys.leaf(cd, credId, attrs).value);
    assert [op][..0] == [] && [] + [leaf] == [leaf];
    assert Loses(sys, EMPTY, op);
    StepAgrees(sys, EMPTY, op, cd);
  }

  // ----- runs with working storage -----

  /** In every sequential run no step of which loses agreement, and so in every run in which storage writes
      succeed, with the chain calls free to fail, the checkpoint's leaves stay distinct and the chain's roots
      and counters stay those of the checkpoint. */
  lemma {:induction false} RunAgrees(sys: System, ops: seq<Op>, cd: Bytes32)
    requires Lossless(sys)
    requires forall i :: 0 <= i < |ops| ==> (!ops[i].f.update && !ops[i].f.save) || !Loses(sys, Run(sys, ops[..i]), ops[i])
    ensures Agrees(sys, Run(sys, ops), cd)
  {
    if ops != [] {
      var n := |ops| - 1;
      forall i | 0 <= i < n
        ensures (!ops[..n][i].f.update && !ops[..n][i].f.save) || !Loses(sys, Run(sys, ops[..n][..i]), ops[..n][i])
      {
        assert ops[..n][..i] == ops[..i];
      }
      RunAgrees(sys, ops[..n], cd);
      StepAgrees(sys, Run(sys, ops[..n]), ops[n], cd);
    }
  }

  // ----- what a step leaves -----

  /** The chain's entry, zero when there is none. */
  function EntryOf(m: map<Bytes32, MerkleState>, cd: Bytes32): MerkleState {
    if cd in m then m[cd] else MerkleState(ZERO32, ZERO32, 0, 0, 0)
  }

  /** A published issue leaves its leaf at the end of the checkpoint, accepted by the chain; the chain has the
      new roots and counts one more issue, from zero when the empty set was initialised again. */
  lemma PublishedIssue(sys: System, s: State, cd: Bytes32, credId: string, attrs: seq<Entry<string>>, f: Faults)
    requires Lossless(sys) && AddIssued(sys, s, cd, credId, attrs, f).1 == Published
    ensures sys.leaf(cd, credId, attrs).Ok? && sys.derive(credId).Ok?
    ensures var s' := AddIssued(sys, s, cd, credId, attrs, f).0;
      var before, after := Active(sys, s, cd), Active(sys, s', cd);
      var leaf := ActiveLeaf(sys.derive(credId).value, sys.leaf(cd, credId, attrs).value);
      var was := if before == [] && !f.init then MerkleState(ZERO32, ZERO32, 0, 0, 0) else EntryOf(s.merkle, cd);
      && after == before + [leaf] && s'.accepted == s.accepted + {(cd, leaf)}
      && sys.poseidonRoot(after).Ok?
      && s'.merkle == s.merkle[cd := MerkleState(sys.keccakRoot(after), sys.poseidonRoot(after).value,
                                                 was.epoch + 1, was.issued + 1, was.revoked)]
  {
  }

  /** A published revocation leaves exactly the leaves that were not named, in their order; the chain has their
      roots and counts as many more revocations as ids. */
  lemma PublishedRevoke(sys: System, s: State, cd: Bytes32, ids: seq<string>, f: Faults)
    requires Lossless(sys) && Distinct(Active(sys, s, cd)) && Revoke(sys, s, cd, ids, f).1 == Published
    ensures var s' := Revoke(sys, s, cd, ids, f).0;
      var after, was := Active(sys, s', cd), EntryOf(s.merkle, cd);
      && after == Keep(Active(sys, s, cd), LeafSet(sys.derive, ids)) && s'.accepted == s.accepted
      && sys.poseidonRoot(after).Ok?
      && s'.merkle == s.merkle[cd := MerkleState(sys.keccakRoot(after), sys.poseidonRoot(after).value,
                                                 was.epoch + 1, was.issued, was.revoked + |ids|)]
  {
    var before := Active(sys, s, cd);
    PlanResult(sys.derive, before, ids);
    PublishedPlan(sys, s, cd, RemoveAll(sys.derive, before, ids).value, f);
  }

  lemma PublishedPlan(sys: System, s: State, cd: Bytes32, plan: Plan, f: Faults)
    requires Lossless(sys) && PublishRevoke(sys, s, cd, plan, f).1 == Published
    ensures var s' := PublishRevoke(sys, s, cd, plan, f).0;
      var after, was := plan.remaining, EntryOf(s.merkle, cd);
      && Active(sys, s', cd) == after && s'.accepted == s.accepted
      && sys.poseidonRoot(after).Ok?
      && s'.merkle == s.merkle[cd := MerkleState(sys.keccakRoot(after), sys.poseidonRoot(after).value,
                                                 was.epoch + 1, was.issued, was.revoked + |plan.revoked|)]
  {
  }

  /** A step that fails or skips writes no checkpoint and no leaf; at most it has initialised an empty set. */
  lemma FailedStep(sys: System, s: State, op: Op)
    requires Step(sys, s, op).1 == Failed || Step(sys, s, op).1 == Skipped
    ensures var s' := Step(sys, s, op).0;
      && s'.store == s.store && s'.accepted == s.accepted
      && (|| s'.merkle == s.merkle
          || (op.Issue? && Active(sys, s, op.cd) == [] && !op.f.init && sys.poseidonRoot([]).Ok?
              && s'.merkle == s.merkle[op.cd := MerkleState(sys.keccakRoot([]), sys.poseidonRoot([]).value, 0, 0, 0)]))
  {
  }

  /** An unsaved step leaves the was checkpoint beside the new roots. */
  lemma UnsavedStep(sys: System, s: State, op: Op)
    requires Step(sys, s, op).1 == Unsaved
    ensures Step(sys, s, op).0.store == s.store
    ensures op.cd in Step(sys, s, op).0.merkle
  {
  }

  // ----- any failure at all -----

  /** Every leaf of every checkpoint was accepted by the chain at some point. */
  ghost predicate NeverAhead(sys: System, s: State) {
    forall cd, l :: l in Active(sys, s, cd) ==> (cd, l) in s.accepted
  }

  lemma SavedNeverAhead(sys: System, s: State, cd: Bytes32, active: seq<ActiveLeaf>, f: Faults)
    requires Lossless(sys) && NeverAhead(sys, s) && forall l :: l in active ==> (cd, l) in s.accepted
    ensures NeverAhead(sys, Saved(sys, s, cd, active, f).0)
  {
    var s' := Saved(sys, s, cd, active, f).0;
    forall c, l | l in Active(sys, s', c) ensures (c, l) in s'.accepted {
      SavedActive(sys, s, cd, active, f, c);
    }
  }

  lemma MerkleIrrelevant(sys: System, s: State, s': State)
    requires NeverAhead(sys, s) && s'.store == s.store && s.accepted <= s'.accepted
    ensures NeverAhead(sys, s')
  {
    forall c, l | l in Active(sys, s', c) ensures (c, l) in s'.accepted {
      assert Active(sys, s', c) == Active(sys, s, c);
    }
  }

  lemma PublishLeafNeverAhead(sys: System, s: State, cd: Bytes32, leaf: ActiveLeaf, f: Faults)
    requires Lossless(sys) && NeverAhead(sys, s)
    ensures NeverAhead(sys, PublishLeaf(sys, s, cd, leaf, f).0)
  {
    var active := Active(sys, s, cd) + [leaf];
    if sys.poseidonRoot(active).Ok? && !f.batch {
      var m := BatchUpdate(s.merkle, cd, 1, 0, sys.keccakRoot(active), sys.poseidonRoot(active).value);
      var s2 := State(m, s.store, s.accepted + {(cd, leaf)});
      MerkleIrrelevant(sys, s, s2);
      SavedNeverAhead(sys, s2, cd, active, f);
    }
  }

  lemma StepNeverAhead(sys: System, s: State, op: Op)
    requires Lossless(sys) && NeverAhead(sys, s)
    ensures NeverAhead(sys, Step(sys, s, op).0)
  {
    match op
    case Issue(cd, id, attrs, f) =>
      var p, k := sys.leaf(cd, id, attrs), sys.derive(id);
      if p.Ok? && k.Ok? {
        PublishLeafNeverAhead(sys, s, cd, ActiveLeaf(k.value, p.value), f);
        if sys.poseidonRoot([]).Ok? {
          var s1 := Initialised(sys, s, cd, sys.poseidonRoot([]).value, f);
          MerkleIrrelevant(sys, s, s1);
          PublishLeafNeverAhead(sys, s1, cd, ActiveLeaf(k.value, p.value), f);
        }
      }
    case RevokeIds(cd, ids, f) =>
      var a := Active(sys, s, cd);
      var plan := RemoveAll(sys.derive, a, ids);
      if plan.Ok? {
        var rem := plan.value.remaining;
        RemainingIn(sys.derive, a, ids);
        if sys.poseidonRoot(rem).Ok? {
          var m := BatchUpdate(s.merkle, cd, 0, |plan.value.revoked|, sys.keccakRoot(rem), sys.poseidonRoot(rem).value);
          MerkleIrrelevant(sys, s, s.(merkle := m));
          SavedNeverAhead(sys, s.(merkle := m), cd, rem, f);
        }
      }
  }

  lemma RemainingIn(derive: Derive, active: seq<ActiveLeaf>, ids: seq<string>)
    requires RemoveAll(derive, active, ids).Ok?
    ensures forall l :: l in RemoveAll(derive, active, ids).value.remaining ==> l in active
  {
    PlanConserves(derive, active, ids);
    var p := RemoveAll(derive, active, ids).value;
    forall l | l in p.remaining ensures l in active {
      assert l in multiset(p.remaining);
      assert l in multiset(active);
    }
  }

  /** Whatever fails, storage writes included, no checkpoint ever holds a leaf the chain did not accept. */
  lemma {:induction false} RunNeverAhead(sys: System, ops: seq<Op>)
    requires Lossless(sys)
    ensures NeverAhead(sys, Run(sys, ops))
  {
    if ops != [] {
      var n := |ops| - 1;
      RunNeverAhead(sys, ops[..n]);
      StepNeverAhead(sys, Run(sys, ops[..n]), ops[n]);
    }
  }
}
