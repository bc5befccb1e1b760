/** `plan_revoke` of `zk.rs`: which leaves remain and which go. */
module RevocationPlan {
  import opened Wrappers
  import opened Bytes
  import opened Sequences

  datatype ActiveLeaf = ActiveLeaf(keccak: Bytes32, poseidon: Bytes32)

  /** How a credential id resolves to its keccak leaf, or fails to. */
  type Derive = string -> Result<Bytes32>

  datatype Plan = Plan(remaining: seq<ActiveLeaf>, revoked: seq<ActiveLeaf>)

  /** First position of a keccak leaf, or the length. */
  function Position(active: seq<ActiveLeaf>, k: Bytes32): (pos: nat)
    ensures pos <= |active|
    ensures pos < |active| ==> active[pos].keccak == k
    ensures forall i :: 0 <= i < pos ==> active[i].keccak != k
  {
    if active == [] || active[0].keccak == k then 0 else 1 + Position(active[1..], k)
  }

  /** Remove the leaves of the ids one by one; any failure fails the whole plan. */
  function RemoveAll(derive: Derive, active: seq<ActiveLeaf>, ids: seq<string>): Result<Plan>
    decreases ids
  {
    if ids == [] then Ok(Plan(active, []))
    else
      match derive(ids[0])
      case Err => Err
      case Ok(k) =>
        var pos := Position(active, k);
        if pos == |active| then Err
        else Prepend([active[pos]], RemoveAll(derive, Without(active, pos), ids[1..]))
  }

  function Prepend(revoked: seq<ActiveLeaf>, r: Result<Plan>): Result<Plan> {
    match r
    case Err => Err
    case Ok(p) => Ok(Plan(p.remaining, revoked + p.revoked))
  }

  lemma PrependTwice(a: seq<ActiveLeaf>, b: seq<ActiveLeaf>, r: Result<Plan>)
    ensures Prepend(a, Prepend(b, r)) == Prepend(a + b, r)
  {
    if r.Ok? { assert a + (b + r.value.revoked) == (a + b) + r.value.revoked; }
  }

  /** The loop of `plan_revoke`, before the roots. */
  method PlanRevoke(derive: Derive, active: seq<ActiveLeaf>, ids: seq<string>) returns (r: Result<Plan>)
    ensures r == RemoveAll(derive, active, ids)
  {
    var remaining, revoked := active, [];
    assert Prepend([], RemoveAll(derive, active, ids)) == RemoveAll(derive, active, ids) by {
      assert forall s: seq<ActiveLeaf> :: [] + s == s;
    }
    var i := 0;
    while i < |ids|
      invariant 0 <= i <= |ids|
      invariant RemoveAll(derive, active, ids) == Prepend(revoked, RemoveAll(derive, remaining, ids[i..]))
    {
      assert ids[i..][1..] == ids[i + 1..];
      var k := derive(ids[i]);
      if k.Err? {
        return Err;
      }
      var pos := Position(remaining, k.value);
      if pos == |remaining| {
        return Err;
      }
      PrependTwice(revoked, [remaining[pos]], RemoveAll(derive, Without(remaining, pos), ids[i + 1..]));
      revoked := revoked + [remaining[pos]];
      remaining := Without(remaining, pos);
      i := i + 1;
    }
    assert revoked + [] == revoked;
    r := Ok(Plan(remaining, revoked));
  }

  // ----- conservation -----

  /** No leaf is lost or invented, one leaf goes per id, and it is the leaf the id resolves to. */
  lemma {:induction false} PlanConserves(derive: Derive, active: seq<ActiveLeaf>, ids: seq<string>)
    requires RemoveAll(derive, active, ids).Ok?
    ensures Conserves(derive, active, ids, RemoveAll(derive, active, ids).value)
    decreases ids
  {
    if ids != [] {
      var pos := Position(active, derive(ids[0]).value);
      PlanConserves(derive, Without(active, pos), ids[1..]);
      ConservesCons(derive, active, pos, ids, RemoveAll(derive, Without(active, pos), ids[1..]).value);
    }
  }

  /** A plan for these ids: nothing is lost, and each id takes its own leaf. */
  ghost predicate Conserves(derive: Derive, active: seq<ActiveLeaf>, ids: seq<string>, p: Plan) {
    && multiset(active) == multiset(p.remaining) + multiset(p.revoked)
    && |p.revoked| == |ids| && |p.remaining| + |ids| == |active|
    && forall i :: 0 <= i < |ids| ==> derive(ids[i]) == Ok(p.revoked[i].keccak)
  }

  lemma ConservesCons(derive: Derive, active: seq<ActiveLeaf>, pos: nat, ids: seq<string>, q: Plan)
    requires pos < |active| && ids != [] && derive(ids[0]) == Ok(active[pos].keccak)
    requires Conserves(derive, Without(active, pos), ids[1..], q)
    ensures Conserves(derive, active, ids, Plan(q.remaining, [active[pos]] + q.revoked))
  {
    WithoutMultiset(active, pos);
    assert multiset([active[pos]] + q.revoked) == multiset{active[pos]} + multiset(q.revoked);
  }

  /** The remaining leaves keep their order. */
  lemma {:induction false} PlanKeepsOrder(derive: Derive, active: seq<ActiveLeaf>, ids: seq<string>)
    requires RemoveAll(derive, active, ids).Ok?
    ensures Subsequence(RemoveAll(derive, active, ids).value.remaining, active)
    decreases ids
  {
    if ids == [] {
      SubsequenceRefl(active);
    } else {
      var pos := Position(active, derive(ids[0]).value);
      PlanKeepsOrder(derive, Without(active, pos), ids[1..]);
      WithoutSubsequence(active, pos);
      SubsequenceTrans(RemoveAll(derive, active, ids).value.remaining, Without(active, pos), active);
    }
  }

  /** One batch is the same as successive batches. */
  lemma {:induction false} BatchesCompose(derive: Derive, active: seq<ActiveLeaf>, ids: seq<string>, more: seq<string>)
    ensures RemoveAll(derive, active, ids + more)
         == match RemoveAll(derive, active, ids)
            case Err => Err
            case Ok(p) => Prepend(p.revoked, RemoveAll(derive, p.remaining, more))
    decreases ids
  {
    if ids == [] {
      assert ids + more == more;
      var r := RemoveAll(derive, active, more);
      if r.Ok? { assert [] + r.value.revoked == r.value.revoked; }
    } else {
      assert (ids + more)[1..] == ids[1..] + more;
      if derive(ids[0]).Ok? {
        var pos := Position(active, derive(ids[0]).value);
        if pos < |active| {
          var rest := Without(active, pos);
          BatchesCompose(derive, rest, ids[1..], more);
          var q := RemoveAll(derive, rest, ids[1..]);
          if q.Ok? {
            PrependTwice([active[pos]], q.value.revoked, RemoveAll(derive, q.value.remaining, more));
          }
        }
      }
    }
  }

  // ----- distinct leaves -----

  ghost predicate Distinct(active: seq<ActiveLeaf>) {
    forall i, j :: 0 <= i < j < |active| ==> active[i].keccak != active[j].keccak
  }

  function KeccakSet(active: seq<ActiveLeaf>): set<Bytes32> {
    set i | 0 <= i < |active| :: active[i].keccak
  }

  /** The leaves the ids resolve to. */
  function LeafSet(derive: Derive, ids: seq<string>): set<Bytes32> {
    set id | id in ids && derive(id).Ok? :: derive(id).value
  }

  /** Every id resolves, to a leaf that is active, and no two to the same leaf. */
  ghost predicate Revocable(derive: Derive, active: seq<ActiveLeaf>, ids: seq<string>) {
    && (forall id :: id in ids ==> derive(id).Ok?)
    && LeafSet(derive, ids) <= KeccakSet(active)
    && |LeafSet(derive, ids)| == |ids|
  }

  /** The active leaves outside a set, in order. */
  function Keep(active: seq<ActiveLeaf>, gone: set<Bytes32>): seq<ActiveLeaf> {
    if active == [] then []
    else (if active[0].keccak in gone then [] else [active[0]]) + Keep(active[1..], gone)
  }

  lemma {:induction false} LeafSetSize(derive: Derive, ids: seq<string>)
    ensures |LeafSet(derive, ids)| <= |ids|
  {
    if ids == [] {
      assert LeafSet(derive, ids) == {};
    } else {
      LeafSetSize(derive, ids[1..]);
      LeafSetCons(derive, ids);
    }
  }

  lemma LeafSetCons(derive: Derive, ids: seq<string>)
    requires ids != []
    ensures LeafSet(derive, ids) == LeafSet(derive, ids[1..])
                                    + (if derive(ids[0]).Ok? then {derive(ids[0]).value} else {})
  {
    assert ids == [ids[0]] + ids[1..];
  }

  lemma WithoutDistinct(active: seq<ActiveLeaf>, pos: nat)
    requires Distinct(active) && pos < |active|
    ensures Distinct(Without(active, pos))
    ensures KeccakSet(Without(active, pos)) == KeccakSet(active) - {active[pos].keccak}
  {
    var w := Without(active, pos);
    forall k | k in KeccakSet(active) - {active[pos].keccak} ensures k in KeccakSet(w) {
      var i :| 0 <= i < |active| && active[i].keccak == k;
      assert w[if i < pos then i else i - 1].keccak == k;
    }
  }

  lemma {:induction false} KeepAll(active: seq<ActiveLeaf>)
    ensures Keep(active, {}) == active
  {
    if active != [] { KeepAll(active[1..]); }
  }

  lemma {:induction false} KeepWithout(active: seq<ActiveLeaf>, pos: nat, gone: set<Bytes32>)
    requires Distinct(active) && pos < |active|
    ensures Keep(Without(active, pos), gone) == Keep(active, gone + {active[pos].keccak})
  {
    var k := active[pos].keccak;
    if pos == 0 {
      assert Without(active, 0) == active[1..];
      KeepIrrelevant(active[1..], gone, k);
    } else {
      var tail := active[1..];
      assert tail[pos - 1] == active[pos] && Distinct(tail) && active == [active[0]] + tail;
      KeepWithout(tail, pos - 1, gone);
      KeepWithoutCons(active[0], tail, pos - 1, gone);
    }
  }

  lemma KeepWithoutCons(x: ActiveLeaf, tail: seq<ActiveLeaf>, pos: nat, gone: set<Bytes32>)
    requires pos < |tail| && x.keccak != tail[pos].keccak
    requires Keep(Without(tail, pos), gone) == Keep(tail, gone + {tail[pos].keccak})
    ensures Keep(Without([x] + tail, pos + 1), gone) == Keep([x] + tail, gone + {tail[pos].keccak})
  {
    assert Without([x] + tail, pos + 1) == [x] + Without(tail, pos);
    KeepCons(x, Without(tail, pos), gone);
    KeepCons(x, tail, gone + {tail[pos].keccak});
  }

  lemma KeepCons(x: ActiveLeaf, r: seq<ActiveLeaf>, gone: set<Bytes32>)
    ensures Keep([x] + r, gone) == (if x.keccak in gone then [] else [x]) + Keep(r, gone)
  {
  }

  lemma {:induction false} KeepIrrelevant(active: seq<ActiveLeaf>, gone: set<Bytes32>, k: Bytes32)
    requires forall i :: 0 <= i < |active| ==> active[i].keccak != k
    ensures Keep(active, gone) == Keep(active, gone + {k})
  {
    if active != [] { KeepIrrelevant(active[1..], gone, k); }
  }

  lemma HeadSets(rest: set<Bytes32>, k: Bytes32, all: set<Bytes32>, n: nat)
    requires k in all && |rest| <= n
    ensures (rest + {k} <= all && |rest + {k}| == n + 1) <==> (rest <= all - {k} && |rest| == n)
  {
    SizeWithOne(rest, k);
  }

  lemma RevocableHead(derive: Derive, active: seq<ActiveLeaf>, ids: seq<string>, k: Bytes32)
    requires Distinct(active) && ids != [] && derive(ids[0]) == Ok(k)
    ensures var pos := Position(active, k);
      (Revocable(derive, active, ids) <==>
        (pos < |active| && Revocable(derive, Without(active, pos), ids[1..])))
  {
    var pos := Position(active, k);
    LeafSetCons(derive, ids);
    LeafSetSize(derive, ids[1..]);
    assert forall id :: id in ids <==> id == ids[0] || id in ids[1..];
    assert k in LeafSet(derive, ids);
    if pos < |active| {
      WithoutDistinct(active, pos);
      assert k in KeccakSet(active);
      HeadSets(LeafSet(derive, ids[1..]), k, KeccakSet(active), |ids| - 1);
    } else {
      assert k !in KeccakSet(active);
    }
  }

  lemma SizeWithOne(s: set<Bytes32>, k: Bytes32)
    ensures |s + {k}| == if k in s then |s| else |s| + 1
  {
    if k in s { assert s + {k} == s; }
  }

  /** On distinct leaves a plan succeeds exactly when every id resolves to an active leaf and no two to
      the same one, and then exactly the leaves of the ids are gone. */
  lemma {:induction false} PlanExact(derive: Derive, active: seq<ActiveLeaf>, ids: seq<string>)
    requires Distinct(active)
    ensures RemoveAll(derive, active, ids).Ok? <==> Revocable(derive, active, ids)
    ensures RemoveAll(derive, active, ids).Ok? ==>
              RemoveAll(derive, active, ids).value.remaining == Keep(active, LeafSet(derive, ids))
    decreases ids
  {
    if ids == [] {
      assert LeafSet(derive, ids) == {};
      KeepAll(active);
    } else if derive(ids[0]).Ok? {
      var pos := Position(active, derive(ids[0]).value);
      RevocableHead(derive, active, ids, derive(ids[0]).value);
      LeafSetCons(derive, ids);
      if pos < |active| {
        WithoutDistinct(active, pos);
        PlanExact(derive, Without(active, pos), ids[1..]);
        KeepWithout(active, pos, LeafSet(derive, ids[1..]));
      }
    } else {
      assert ids[0] in ids;
    }
  }

  /** The order of the ids does not matter. */
  lemma IdOrderIrrelevant(derive: Derive, active: seq<ActiveLeaf>, ids: seq<string>, perm: seq<string>)
    requires Distinct(active) && multiset(ids) == multiset(perm)
    ensures RemoveAll(derive, active, ids).Ok? <==> RemoveAll(derive, active, perm).Ok?
    ensures RemoveAll(derive, active, ids).Ok? ==>
              RemoveAll(derive, active, ids).value.remaining == RemoveAll(derive, active, perm).value.remaining
  {
    PlanExact(derive, active, ids);
    PlanExact(derive, active, perm);
    forall id ensures id in ids <==> id in perm {
      assert id in ids <==> id in multiset(ids);
      assert id in perm <==> id in multiset(perm);
    }
    assert |ids| == |multiset(ids)| == |multiset(perm)| == |perm|;
    assert LeafSet(derive, ids) == LeafSet(derive, perm);
  }

  lemma {:induction false} KeepDistinct(active: seq<ActiveLeaf>, gone: set<Bytes32>)
    requires Distinct(active)
    ensures Distinct(Keep(active, gone))
    ensures forall l :: l in Keep(active, gone) ==> l in active
  {
    if active != [] {
      KeepDistinct(active[1..], gone);
      var rest := Keep(active[1..], gone);
      forall i | 0 <= i < |rest| ensures rest[i].keccak != active[0].keccak {
        assert rest[i] in active[1..];
      }
    }
  }

  /** What is kept is what was active and is not gone. */
  lemma {:induction false} KeepMeaning(active: seq<ActiveLeaf>, gone: set<Bytes32>, l: ActiveLeaf)
    ensures l in Keep(active, gone) <==> l in active && l.keccak !in gone
  {
    if active != [] {
      KeepMeaning(active[1..], gone, l);
      assert active == [active[0]] + active[1..];
    }
  }

  /** A plan in short: the leaves that were not named, and as many revoked as ids. */
  lemma PlanResult(derive: Derive, active: seq<ActiveLeaf>, ids: seq<string>)
    requires Distinct(active) && RemoveAll(derive, active, ids).Ok?
    ensures RemoveAll(derive, active, ids).value.remaining == Keep(active, LeafSet(derive, ids))
    ensures |RemoveAll(derive, active, ids).value.revoked| == |ids|
  {
    PlanExact(derive, active, ids);
    PlanConserves(derive, active, ids);
  }
}
