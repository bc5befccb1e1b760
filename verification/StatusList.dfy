/** The Tier-1 bridge (`registry.rs`, `state.rs`, `chain.rs`): a revocation status list is pushed to the
    chain credential by credential, and the list is saved only when every push succeeded. */
module StatusList {
  import opened Wrappers
  import opened Bytes

  datatype Status = Issued | Revoked

  /** What the rev-reg record holds that matters here: its cred-def and the last saved list. */
  datatype Meta = Meta(credDef: string, list: Option<seq<int>>)

  /** The status registry by (cred-def hash, credential hash), where an absent entry is Unknown; the stored
      binding of (rev-reg, index) to credential ids; and the rev-reg records. */
  datatype State = State(status: map<(Bytes32, Bytes32), Status>, index: map<(string, nat), string>,
                         meta: map<string, Meta>)

  type Hash = string -> Bytes32

  /** The positions of the 1-bits, in order. */
  function RevokedIndices(bits: seq<int>): (r: seq<nat>)
    ensures forall i :: i in r <==> 0 <= i < |bits| && bits[i] == 1
    ensures forall i :: 0 <= i < |r| ==> r[i] < |bits|
    ensures forall i, j :: 0 <= i < j < |r| ==> r[i] < r[j]
  {
    if bits == [] then []
    else
      var n := |bits| - 1;
      RevokedIndices(bits[..n]) + (if bits[n] == 1 then [n] else [])
  }

  /** What the saved list of a rev-reg sets. */
  function SavedIndices(s: State, rr: string): seq<nat> {
    if rr in s.meta && s.meta[rr].list.Some? then RevokedIndices(s.meta[rr].list.value) else []
  }

  // ----- steps -----

  /** Which calls of one list entry fail: the index lookup, the idempotent issue, the revoke. */
  datatype EntryFaults = EntryFaults(find: bool, issue: bool, revoke: bool)

  datatype Faults = Faults(load: bool, entry: nat -> EntryFaults, save: bool)

  /** `on_credential_issued`; `binding` is the rev-reg and index, when both are given. */
  function Issue(h: Hash, s: State, credDef: string, id: string, binding: Option<(string, nat)>,
                 chainFails: bool, saveFails: bool): State
  {
    if chainFails then s
    else
      var s1 := s.(status := s.status[(h(credDef), h(id)) := Issued]);
      if binding.Some? && !saveFails then s1.(index := s1.index[binding.value := id]) else s1
  }

  /** A rev-reg definition is registered: a record with no list. */
  function Define(s: State, rr: string, credDef: string, saveFails: bool): State {
    if saveFails then s else s.(meta := s.meta[rr := Meta(credDef, None)])
  }

  /** One list entry: skipped if saved before, otherwise looked up, issued (failure ignored) and revoked. */
  function PushEntry(h: Hash, s: State, rr: string, credDef: string, prev: seq<nat>, idx: nat, f: EntryFaults): (State, bool) {
    if idx in prev then (s, true)
    else if f.find || (rr, idx) !in s.index then (s, false)
    else
      var key := (h(credDef), h(s.index[(rr, idx)]));
      var s1 := if f.issue then s else s.(status := s.status[key := Issued]);
      if f.revoke then (s1, false) else (s1.(status := s1.status[key := Revoked]), true)
  }

  function PushAll(h: Hash, s: State, rr: string, credDef: string, prev: seq<nat>, todo: seq<nat>, f: Faults): (State, bool)
    decreases |todo|
  {
    if todo == [] then (s, true)
    else
      var (s1, ok) := PushEntry(h, s, rr, credDef, prev, todo[0], f.entry(todo[0]));
      if ok then PushAll(h, s1, rr, credDef, prev, todo[1..], f) else (s1, false)
  }

  /** `register_revocation_status_list`. */
  function Register(h: Hash, s: State, rr: string, list: seq<int>, f: Faults): (State, bool) {
    if f.load || rr !in s.meta then (s, false)
    else
      var m := s.meta[rr];
      var (s1, ok) := PushAll(h, s, rr, m.credDef, SavedIndices(s, rr), RevokedIndices(list), f);
      if !ok || f.save then (s1, false)
      else (s1.(meta := s1.meta[rr := m.(list := Some(list))]), true)
  }

  // ----- the invariant -----

  /** The chain key of a bound index. */
  function KeyOf(h: Hash, s: State, rr: string, idx: nat): (Bytes32, Bytes32)
    requires rr in s.meta && (rr, idx) in s.index
  {
    (h(s.meta[rr].credDef), h(s.index[(rr, idx)]))
  }

  ghost predicate IsRevoked(h: Hash, s: State, rr: string, idx: nat)
    requires rr in s.meta
  {
    && (rr, idx) in s.index
    && KeyOf(h, s, rr, idx) in s.status && s.status[KeyOf(h, s, rr, idx)] == Revoked
  }

  /** Every index set in a saved list has on-chain status Revoked. */
  ghost predicate ListsHold(h: Hash, s: State) {
    forall rr, idx :: rr in s.meta && idx in SavedIndices(s, rr) ==> IsRevoked(h, s, rr, idx)
  }

  /** Distinct indices are bound to credentials with distinct hashes. */
  ghost predicate DistinctIds(h: Hash, s: State) {
    forall k, l :: k in s.index && l in s.index && k != l ==> h(s.index[k]) != h(s.index[l])
  }

  ghost predicate Inv(h: Hash, s: State) {
    ListsHold(h, s) && DistinctIds(h, s)
  }

  /** What the issuer owes: a fresh credential id, and an index not bound before. */
  ghost predicate Fresh(h: Hash, s: State, id: string, binding: Option<(string, nat)>) {
    && (forall k :: k in s.index ==> h(s.index[k]) != h(id))
    && (binding.Some? ==> binding.value !in s.index)
  }

  lemma IssueKeeps(h: Hash, s: State, credDef: string, id: string, binding: Option<(string, nat)>, cf: bool, sf: bool)
    requires Inv(h, s) && Fresh(h, s, id, binding)
    ensures Inv(h, Issue(h, s, credDef, id, binding, cf, sf))
  {
    var s' := Issue(h, s, credDef, id, binding, cf, sf);
    forall rr, idx | rr in s'.meta && idx in SavedIndices(s', rr) ensures IsRevoked(h, s', rr, idx) {
      assert IsRevoked(h, s, rr, idx);
    }
  }

  lemma DefineKeeps(h: Hash, s: State, rr: string, credDef: string, sf: bool)
    requires Inv(h, s)
    ensures Inv(h, Define(s, rr, credDef, sf))
  {
    var s' := Define(s, rr, credDef, sf);
    forall r, idx | r in s'.meta && idx in SavedIndices(s', r) ensures IsRevoked(h, s', r, idx) {
      assert IsRevoked(h, s, r, idx);
    }
  }

  /** Pushing one entry touches the status of that entry's credential only. */
  lemma PushEntryKeeps(h: Hash, s: State, rr: string, prev: seq<nat>, idx: nat, f: EntryFaults, rr': string, idx': nat)
    requires DistinctIds(h, s) && rr in s.meta && rr' in s.meta && IsRevoked(h, s, rr', idx')
    requires (rr', idx') != (rr, idx) || idx in prev
    ensures var s' := PushEntry(h, s, rr, s.meta[rr].credDef, prev, idx, f).0;
      s'.meta == s.meta && s'.index == s.index && IsRevoked(h, s', rr', idx')
  {
  }

  lemma PushEntryRevokes(h: Hash, s: State, rr: string, prev: seq<nat>, idx: nat, f: EntryFaults)
    requires rr in s.meta && (idx in prev ==> IsRevoked(h, s, rr, idx))
    ensures var (s', ok) := PushEntry(h, s, rr, s.meta[rr].credDef, prev, idx, f);
      s'.meta == s.meta && s'.index == s.index && (ok ==> IsRevoked(h, s', rr, idx))
  {
  }

  lemma {:induction false} PushAllKeepsOne(h: Hash, s: State, rr: string, prev: seq<nat>, todo: seq<nat>, f: Faults,
                                           rr': string, idx': nat)
    requires DistinctIds(h, s) && rr in s.meta && rr' in s.meta && IsRevoked(h, s, rr', idx')
    requires rr' == rr && idx' in todo ==> idx' in prev
    ensures var s' := PushAll(h, s, rr, s.meta[rr].credDef, prev, todo, f).0;
      s'.meta == s.meta && s'.index == s.index && IsRevoked(h, s', rr', idx')
    decreases |todo|
  {
    if todo != [] {
      PushEntryKeeps(h, s, rr, prev, todo[0], f.entry(todo[0]), rr', idx');
      var (s1, ok) := PushEntry(h, s, rr, s.meta[rr].credDef, prev, todo[0], f.entry(todo[0]));
      if ok { PushAllKeepsOne(h, s1, rr, prev, todo[1..], f, rr', idx'); }
    }
  }

  lemma {:induction false} PushAllFrame(h: Hash, s: State, rr: string, credDef: string, prev: seq<nat>, todo: seq<nat>, f: Faults)
    ensures var s' := PushAll(h, s, rr, credDef, prev, todo, f).0;
      s'.meta == s.meta && s'.index == s.index
    decreases |todo|
  {
    if todo != [] {
      var (s1, ok) := PushEntry(h, s, rr, credDef, prev, todo[0], f.entry(todo[0]));
      if ok { PushAllFrame(h, s1, rr, credDef, prev, todo[1..], f); }
    }
  }

  /** When the whole list was pushed, each of its entries is revoked on chain. */
  lemma {:induction false} PushAllRevokes(h: Hash, s: State, rr: string, prev: seq<nat>, todo: seq<nat>, f: Faults, k: nat)
    requires DistinctIds(h, s) && rr in s.meta && k < |todo|
    requires forall i :: i in prev ==> IsRevoked(h, s, rr, i)
    requires forall i, j :: 0 <= i < j < |todo| ==> todo[i] < todo[j]
    requires PushAll(h, s, rr, s.meta[rr].credDef, prev, todo, f).1
    ensures IsRevokedAfter(h, s, rr, prev, todo, f, todo[k])
    decreases |todo|
  {
    var credDef, rest := s.meta[rr].credDef, todo[1..];
    var (s1, ok) := PushEntry(h, s, rr, credDef, prev, todo[0], f.entry(todo[0]));
    PushEntryRevokes(h, s, rr, prev, todo[0], f.entry(todo[0]));
    PushAllFrame(h, s1, rr, credDef, prev, rest, f);
    if k == 0 {
      PushAllKeepsOne(h, s1, rr, prev, rest, f, rr, todo[0]);
    } else {
      forall i | i in prev ensures IsRevoked(h, s1, rr, i) {
        PushEntryKeeps(h, s, rr, prev, todo[0], f.entry(todo[0]), rr, i);
      }
      PushAllRevokes(h, s1, rr, prev, rest, f, k - 1);
      assert rest[k - 1] == todo[k];
    }
  }

  ghost predicate IsRevokedAfter(h: Hash, s: State, rr: string, prev: seq<nat>, todo: seq<nat>, f: Faults, idx: nat)
    requires rr in s.meta
  {
    var s' := PushAll(h, s, rr, s.meta[rr].credDef, prev, todo, f).0;
    rr in s'.meta && s'.meta == s.meta && IsRevoked(h, s', rr, idx)
  }

  /** A list push, cut short anywhere or complete, keeps the saved lists true. */
  lemma RegisterKeeps(h: Hash, s: State, rr: string, list: seq<int>, f: Faults)
    requires Inv(h, s)
    ensures Inv(h, Register(h, s, rr, list, f).0)
  {
    if !f.load && rr in s.meta {
      var prev, todo, credDef := SavedIndices(s, rr), RevokedIndices(list), s.meta[rr].credDef;
      var (s1, ok) := PushAll(h, s, rr, credDef, prev, todo, f);
      PushAllFrame(h, s, rr, credDef, prev, todo, f);
      forall r, idx | r in s1.meta && idx in SavedIndices(s1, r) ensures IsRevoked(h, s1, r, idx) {
        assert SavedIndices(s1, r) == SavedIndices(s, r) && IsRevoked(h, s, r, idx);
        PushAllKeepsOne(h, s, rr, prev, todo, f, r, idx);
      }
      if ok && !f.save {
        SaveKeeps(h, s, s1, rr, list, f);
      }
    }
  }

  lemma SaveKeeps(h: Hash, s: State, s1: State, rr: string, list: seq<int>, f: Faults)
    requires Inv(h, s) && Inv(h, s1) && rr in s.meta && s1.meta == s.meta
    requires PushAll(h, s, rr, s.meta[rr].credDef, SavedIndices(s, rr), RevokedIndices(list), f) == (s1, true)
    ensures Inv(h, s1.(meta := s1.meta[rr := s.meta[rr].(list := Some(list))]))
  {
    var s2 := s1.(meta := s1.meta[rr := s.meta[rr].(list := Some(list))]);
    var prev, todo := SavedIndices(s, rr), RevokedIndices(list);
    forall r, idx | r in s2.meta && idx in SavedIndices(s2, r) ensures IsRevoked(h, s2, r, idx) {
      if r == rr {
        var k :| 0 <= k < |todo| && todo[k] == idx;
        PushAllRevokes(h, s, rr, prev, todo, f, k);
        assert IsRevoked(h, s1, rr, idx);
      } else {
        assert SavedIndices(s2, r) == SavedIndices(s1, r) && IsRevoked(h, s1, r, idx);
      }
    }
  }

  // ----- runs -----

  datatype Op =
    | IssueOp(credDef: string, id: string, binding: Option<(string, nat)>, chainFails: bool, saveFails: bool)
    | DefineOp(rr: string, credDef: string, saveFails: bool)
    | RegisterOp(rr: string, list: seq<int>, f: Faults)

  function Step(h: Hash, s: State, op: Op): State {
    match op
    case IssueOp(cd, id, b, cf, sf) => Issue(h, s, cd, id, b, cf, sf)
    case DefineOp(rr, cd, sf) => Define(s, rr, cd, sf)
    case RegisterOp(rr, list, f) => Register(h, s, rr, list, f).0
  }

  const EMPTY := State(map[], map[], map[])

  function Run(h: Hash, ops: seq<Op>): State {
    if ops == [] then EMPTY else Step(h, Run(h, ops[..|ops| - 1]), ops[|ops| - 1])
  }

  /** Each issuance in the run is fresh when it is made. */
  ghost predicate Disciplined(h: Hash, ops: seq<Op>) {
    forall i :: 0 <= i < |ops| && ops[i].IssueOp? ==> Fresh(h, Run(h, ops[..i]), ops[i].id, ops[i].binding)
  }

  lemma {:induction false} RunKeeps(h: Hash, ops: seq<Op>)
    requires Disciplined(h, ops)
    ensures Inv(h, Run(h, ops))
  {
    if ops != [] {
      var n := |ops| - 1;
      var before, s := ops[..n], Run(h, ops[..n]);
      forall i | 0 <= i < n && before[i].IssueOp? ensures Fresh(h, Run(h, before[..i]), before[i].id, before[i].binding) {
        assert before[..i] == ops[..i];
      }
      RunKeeps(h, before);
      match ops[n]
      case IssueOp(cd, id, b, cf, sf) => IssueKeeps(h, s, cd, id, b, cf, sf);
      case DefineOp(rr, cd, sf) => DefineKeeps(h, s, rr, cd, sf);
      case RegisterOp(rr, list, f) => RegisterKeeps(h, s, rr, list, f);
    }
  }

  /** In every disciplined run, with any call failing and lists cut short anywhere, each index set in the
      last saved list of a rev-reg is revoked on chain. */
  lemma SavedIndicesAreRevoked(h: Hash, ops: seq<Op>, rr: string, idx: nat)
    requires Disciplined(h, ops) && rr in Run(h, ops).meta && idx in SavedIndices(Run(h, ops), rr)
    ensures IsRevoked(h, Run(h, ops), rr, idx)
  {
    RunKeeps(h, ops);
  }

  // ----- what each operation leaves alone -----

  predicate SameStatus(s: State, t: State, key: (Bytes32, Bytes32)) {
    (key in s.status <==> key in t.status) && (key in s.status ==> s.status[key] == t.status[key])
  }

  /** The chain key of an index that is listed now and was not before. */
  ghost predicate NewlyListed(h: Hash, s: State, rr: string, credDef: string, prev: seq<nat>, todo: seq<nat>,
                              key: (Bytes32, Bytes32))
  {
    exists i :: i in todo && i !in prev && (rr, i) in s.index && key == (h(credDef), h(s.index[(rr, i)]))
  }

  /** What pushing one new, bound index leaves behind its key: Revoked when the revocation goes through; else
      Issued when at least the issue did, which also undoes an earlier revocation; else what it was. */
  lemma PushedKey(h: Hash, s: State, rr: string, credDef: string, prev: seq<nat>, idx: nat, f: EntryFaults)
    requires idx !in prev && !f.find && (rr, idx) in s.index
    ensures var key, s' := (h(credDef), h(s.index[(rr, idx)])), PushEntry(h, s, rr, credDef, prev, idx, f).0;
      && (!f.revoke ==> key in s'.status && s'.status[key] == Revoked)
      && (f.revoke && !f.issue ==> key in s'.status && s'.status[key] == Issued)
      && (f.revoke && f.issue ==> SameStatus(s, s', key))
  {
  }

  /** No other key of the chain is touched, however far the push gets. */
  lemma {:induction false} PushAllFrameStatus(h: Hash, s: State, rr: string, credDef: string, prev: seq<nat>,
                                              todo: seq<nat>, f: Faults, key: (Bytes32, Bytes32))
    requires !NewlyListed(h, s, rr, credDef, prev, todo, key)
    ensures SameStatus(s, PushAll(h, s, rr, credDef, prev, todo, f).0, key)
    decreases |todo|
  {
    if todo != [] {
      var (s1, ok) := PushEntry(h, s, rr, credDef, prev, todo[0], f.entry(todo[0]));
      assert todo[0] in todo;
      assert s1.index == s.index && SameStatus(s, s1, key);
      if ok {
        assert forall i :: i in todo[1..] ==> i in todo;
        PushAllFrameStatus(h, s1, rr, credDef, prev, todo[1..], f, key);
      }
    }
  }

  /** When the push gets through, it has revoked exactly those keys. */
  lemma {:induction false} PushAllListed(h: Hash, s: State, rr: string, credDef: string, prev: seq<nat>,
                                         todo: seq<nat>, f: Faults, key: (Bytes32, Bytes32))
    requires PushAll(h, s, rr, credDef, prev, todo, f).1 && NewlyListed(h, s, rr, credDef, prev, todo, key)
    ensures var s' := PushAll(h, s, rr, credDef, prev, todo, f).0; key in s'.status && s'.status[key] == Revoked
    decreases |todo|
  {
    var (s1, ok) := PushEntry(h, s, rr, credDef, prev, todo[0], f.entry(todo[0]));
    assert s1.index == s.index;
    if NewlyListed(h, s1, rr, credDef, prev, todo[1..], key) {
      PushAllListed(h, s1, rr, credDef, prev, todo[1..], f, key);
    } else {
      var i :| i in todo && i !in prev && (rr, i) in s.index && key == (h(credDef), h(s.index[(rr, i)]));
      assert i == todo[0];
      assert key in s1.status && s1.status[key] == Revoked;
      PushAllFrameStatus(h, s1, rr, credDef, prev, todo[1..], f, key);
    }
  }

  /** One entry can be pushed: it was listed before, or its index is bound and neither lookup nor revocation
      fails. */
  predicate Pushable(s: State, rr: string, prev: seq<nat>, idx: nat, f: EntryFaults) {
    idx in prev || ((rr, idx) in s.index && !f.find && !f.revoke)
  }

  lemma {:induction false} PushAllIff(h: Hash, s: State, rr: string, credDef: string, prev: seq<nat>, todo: seq<nat>, f: Faults)
    ensures PushAll(h, s, rr, credDef, prev, todo, f).1
       <==> forall i :: 0 <= i < |todo| ==> Pushable(s, rr, prev, todo[i], f.entry(todo[i]))
    decreases |todo|
  {
    if todo != [] {
      var (s1, ok) := PushEntry(h, s, rr, credDef, prev, todo[0], f.entry(todo[0]));
      assert s1.index == s.index;
      PushAllIff(h, s1, rr, credDef, prev, todo[1..], f);
      assert forall i :: 1 <= i < |todo| ==> todo[i] == todo[1..][i - 1];
    }
  }

  /** A list is registered exactly when its record loads and saves and every new index can be pushed. */
  lemma RegisterIff(h: Hash, s: State, rr: string, list: seq<int>, f: Faults)
    ensures Register(h, s, rr, list, f).1 <==>
      && !f.load && rr in s.meta && !f.save
      && forall i: nat :: i < |list| && list[i] == 1 ==> Pushable(s, rr, SavedIndices(s, rr), i, f.entry(i))
  {
    if !f.load && rr in s.meta {
      var todo := RevokedIndices(list);
      PushAllIff(h, s, rr, s.meta[rr].credDef, SavedIndices(s, rr), todo, f);
      forall i: nat | i < |list| && list[i] == 1 ensures exists k :: 0 <= k < |todo| && todo[k] == i {
        assert i in todo;
      }
      forall k | 0 <= k < |todo| ensures todo[k] < |list| && list[todo[k]] == 1 {
        assert todo[k] in todo;
      }
    }
  }

  /** What registering does, complete or cut short: it binds nothing, touches no chain key but those of newly
      listed indices, and changes no record but its own; complete, it has revoked all of those keys and saved
      the list. */
  lemma RegisterEffect(h: Hash, s: State, rr: string, list: seq<int>, f: Faults, key: (Bytes32, Bytes32))
    ensures var (s', ok) := Register(h, s, rr, list, f);
      && s'.index == s.index
      && (if ok then rr in s.meta && s'.meta == s.meta[rr := s.meta[rr].(list := Some(list))] else s'.meta == s.meta)
      && (rr !in s.meta ==> SameStatus(s, s', key))
      && (rr in s.meta ==>
            var listed := NewlyListed(h, s, rr, s.meta[rr].credDef, SavedIndices(s, rr), RevokedIndices(list), key);
            && (!listed ==> SameStatus(s, s', key))
            && (listed && ok ==> key in s'.status && s'.status[key] == Revoked))
  {
    if !f.load && rr in s.meta {
      var prev, todo, credDef := SavedIndices(s, rr), RevokedIndices(list), s.meta[rr].credDef;
      PushAllFrame(h, s, rr, credDef, prev, todo, f);
      if !NewlyListed(h, s, rr, credDef, prev, todo, key) {
        PushAllFrameStatus(h, s, rr, credDef, prev, todo, f, key);
      } else if PushAll(h, s, rr, credDef, prev, todo, f).1 {
        PushAllListed(h, s, rr, credDef, prev, todo, f, key);
      }
    }
  }

  /** Issuing sets one chain key to Issued and then binds at most the one index; defining starts a record
      without a list. */
  lemma IssueEffect(h: Hash, s: State, credDef: string, id: string, binding: Option<(string, nat)>, cf: bool, sf: bool)
    ensures var s' := Issue(h, s, credDef, id, binding, cf, sf);
      && s'.meta == s.meta
      && s'.status == (if cf then s.status else s.status[(h(credDef), h(id)) := Issued])
      && s'.index == (if cf || sf || binding.None? then s.index else s.index[binding.value := id])
  {
  }

  lemma DefineEffect(s: State, rr: string, credDef: string, sf: bool)
    ensures sf ==> Define(s, rr, credDef, sf) == s
    ensures !sf ==> SavedIndices(Define(s, rr, credDef, sf), rr) == [] && Define(s, rr, credDef, sf).meta[rr].credDef == credDef
  {
  }

  /** Operation i of the run registers a list that sets an index bound to the credential behind `key`. */
  ghost predicate Listed(h: Hash, ops: seq<Op>, i: nat, key: (Bytes32, Bytes32)) {
    && i < |ops| && ops[i].RegisterOp?
    && var s := Run(h, ops[..i]);
    && ops[i].rr in s.meta
    && NewlyListed(h, s, ops[i].rr, s.meta[ops[i].rr].credDef, SavedIndices(s, ops[i].rr), RevokedIndices(ops[i].list), key)
  }

  /** In every run at all, a credential that is Revoked on chain was listed: some registered list set an index
      bound to it at the time. */
  lemma {:induction false} RevokedWasListed(h: Hash, ops: seq<Op>, key: (Bytes32, Bytes32)) returns (i: nat)
    requires key in Run(h, ops).status && Run(h, ops).status[key] == Revoked
    ensures Listed(h, ops, i, key)
  {
    var n := |ops| - 1;
    var s := Run(h, ops[..n]);
    i := n;
    if !Listed(h, ops, n, key) {
      if ops[n].RegisterOp? { RegisterEffect(h, s, ops[n].rr, ops[n].list, ops[n].f, key); }
      i := RevokedWasListed(h, ops[..n], key);
      assert ops[..n][..i] == ops[..i];
    }
  }

  // ----- exactly when an issuance keeps the lists true -----

  /** Index `idx` is set in the saved list of `rr`. */
  predicate IsSaved(s: State, rr: string, idx: nat) {
    rr in s.meta && idx in SavedIndices(s, rr)
  }

  /** Before the call: the credential being issued is not that of a saved index, and if the call rebinds a
      saved index, then to a credential revoked under the registry's own cred-def. */
  ghost predicate Harmless(h: Hash, s: State, credDef: string, id: string, binding: Option<(string, nat)>, sf: bool) {
    var rebound := if sf then None else binding;
    && (forall rr, idx: nat :: IsSaved(s, rr, idx) && Some((rr, idx)) != rebound && (rr, idx) in s.index
          ==> KeyOf(h, s, rr, idx) != (h(credDef), h(id)))
    && (rebound.Some? && IsSaved(s, rebound.value.0, rebound.value.1) ==>
          RevokedElsewhere(h, s, credDef, id, rebound.value.0))
  }

  /** The registry's cred-def is another one, and the credential is revoked under it. */
  predicate RevokedElsewhere(h: Hash, s: State, credDef: string, id: string, rr: string)
    requires rr in s.meta
  {
    var key := (h(s.meta[rr].credDef), h(id));
    key.0 != h(credDef) && key in s.status && s.status[key] == Revoked
  }

  /** One saved index after an issuance that the chain accepted. */
  lemma IssuedIndex(h: Hash, s: State, credDef: string, id: string, binding: Option<(string, nat)>, sf: bool,
                    rr: string, idx: nat)
    requires IsSaved(s, rr, idx) && IsRevoked(h, s, rr, idx)
    ensures var s' := Issue(h, s, credDef, id, binding, false, sf);
      && rr in s'.meta && SavedIndices(s', rr) == SavedIndices(s, rr)
      && (IsRevoked(h, s', rr, idx) <==>
          if !sf && binding == Some((rr, idx)) then RevokedElsewhere(h, s, credDef, id, rr)
          else KeyOf(h, s, rr, idx) != (h(credDef), h(id)))
  {
  }

  /** The discipline is needed: from true lists, an issuance, with any binding and any fault, keeps them true
      exactly when the chain call fails or it is harmless. */
  lemma IssueKeepsListsIff(h: Hash, s: State, credDef: string, id: string, binding: Option<(string, nat)>, cf: bool, sf: bool)
    requires ListsHold(h, s)
    ensures ListsHold(h, Issue(h, s, credDef, id, binding, cf, sf)) <==> cf || Harmless(h, s, credDef, id, binding, sf)
  {
    var s' := Issue(h, s, credDef, id, binding, cf, sf);
    if !cf {
      forall rr, idx: nat | IsSaved(s, rr, idx)
        ensures IsRevoked(h, s, rr, idx) && rr in s'.meta && SavedIndices(s', rr) == SavedIndices(s, rr)
        ensures IsRevoked(h, s', rr, idx) <==>
                if !sf && binding == Some((rr, idx)) then RevokedElsewhere(h, s, credDef, id, rr)
                else KeyOf(h, s, rr, idx) != (h(credDef), h(id))
      {
        IssuedIndex(h, s, credDef, id, binding, sf, rr, idx);
      }
      assert forall rr, idx: nat :: rr in s'.meta && idx in SavedIndices(s', rr) ==> IsSaved(s, rr, idx);
      assert ListsHold(h, s') <==> forall rr, idx: nat :: IsSaved(s, rr, idx) ==> IsRevoked(h, s', rr, idx);
    }
  }

  /** Under the registry's own cred-def: the chain call fails, or the credential belongs to no saved index and
      no saved index is rebound. */
  lemma IssueOwnCredDefIff(h: Hash, s: State, rr: string, id: string, idx: nat, cf: bool, sf: bool)
    requires ListsHold(h, s) && rr in s.meta
    ensures ListsHold(h, Issue(h, s, s.meta[rr].credDef, id, Some((rr, idx)), cf, sf)) <==>
      || cf
      || ((!sf ==> !IsSaved(s, rr, idx))
          && forall r, i: nat :: IsSaved(s, r, i) && (r, i) in s.index ==> KeyOf(h, s, r, i) != (h(s.meta[rr].credDef), h(id)))
  {
    IssueKeepsListsIff(h, s, s.meta[rr].credDef, id, Some((rr, idx)), cf, sf);
  }

  function NoFaults(): Faults { Faults(false, (i: nat) => EntryFaults(false, false, false), false) }

  /** A credential is issued with index 0 of a registry, and the list that revokes it is registered. */
  function RevokedOnce(credDef: string, id: string, rr: string): seq<Op> {
    [IssueOp(credDef, id, Some((rr, 0)), false, false), DefineOp(rr, credDef, false), RegisterOp(rr, [1], NoFaults())]
  }

  lemma RunSnoc(h: Hash, ops: seq<Op>, op: Op)
    ensures Run(h, ops + [op]) == Step(h, Run(h, ops), op)
  {
    assert (ops + [op])[..|ops|] == ops;
  }

  lemma PushOne(h: Hash, s: State, rr: string, credDef: string, f: Faults)
    requires (rr, 0) in s.index && f.entry(0) == EntryFaults(false, false, false)
    ensures var key := (h(credDef), h(s.index[(rr, 0)]));
      PushAll(h, s, rr, credDef, [], [0], f) == (s.(status := s.status[key := Issued][key := Revoked]), true)
  {
    assert [0][1..] == [];
  }

  lemma RegisterOne(h: Hash, s: State, rr: string, f: Faults)
    requires rr in s.meta && s.meta[rr].list == None && (rr, 0) in s.index
    requires !f.load && !f.save && f.entry(0) == EntryFaults(false, false, false)
    ensures var key := (h(s.meta[rr].credDef), h(s.index[(rr, 0)]));
      Register(h, s, rr, [1], f).0
        == State(s.status[key := Issued][key := Revoked], s.index, s.meta[rr := s.meta[rr].(list := Some([1]))])
  {
    OneBit();
    PushOne(h, s, rr, s.meta[rr].credDef, f);
    assert SavedIndices(s, rr) == [];
  }

  lemma OneBit()
    ensures RevokedIndices([1]) == [0]
  {
    assert [1][..0] == [];
  }

  lemma RevokedOnceState(h: Hash, credDef: string, id: string, rr: string)
    ensures Run(h, RevokedOnce(credDef, id, rr))
         == State(map[(h(credDef), h(id)) := Revoked], map[(rr, 0) := id], map[rr := Meta(credDef, Some([1]))])
  {
    var ops := RevokedOnce(credDef, id, rr);
    assert Run(h, []) == EMPTY;
    RunSnoc(h, [], ops[0]);
    RunSnoc(h, [ops[0]], ops[1]);
    RunSnoc(h, [ops[0], ops[1]], ops[2]);
    assert [ops[0], ops[1]] + [ops[2]] == ops;
    RegisterOne(h, Run(h, [ops[0], ops[1]]), rr, NoFaults());
  }

  /** The two ways out of the discipline, as runs from the empty state: issuing the revoked credential again,
      and binding its index to another credential.  Both leave a saved list that is not true of the chain. */
  lemma UndisciplinedRuns(h: Hash, credDef: string, id: string, other: string, rr: string)
    ensures !ListsHold(h, Run(h, RevokedOnce(credDef, id, rr) + [IssueOp(credDef, id, None, false, false)]))
    ensures !ListsHold(h, Run(h, RevokedOnce(credDef, id, rr) + [IssueOp(credDef, other, Some((rr, 0)), false, false)]))
  {
    var ops := RevokedOnce(credDef, id, rr);
    var s := Run(h, ops);
    RevokedOnceState(h, credDef, id, rr);
    RunSnoc(h, ops, IssueOp(credDef, id, None, false, false));
    RunSnoc(h, ops, IssueOp(credDef, other, Some((rr, 0)), false, false));
    assert [1][0] == 1 && 0 in RevokedIndices([1]);
    assert IsSaved(s, rr, 0) && IsRevoked(h, s, rr, 0);
    forall r, idx: nat | r in s.meta && idx in SavedIndices(s, r) ensures IsRevoked(h, s, r, idx) {
      assert r == rr && idx == 0;
    }
    IssueKeepsListsIff(h, s, credDef, id, None, false, false);
    IssueOwnCredDefIff(h, s, rr, other, 0, false, false);
  }

  // ----- the registry object -----

  /** `KanonRegistry` with its chain and storage. */
  class Registry {
    const hash: Hash
    var status: map<(Bytes32, Bytes32), Status>
    var index: map<(string, nat), string>
    var meta: map<string, Meta>

    constructor (h: Hash)
      ensures hash == h && Abs() == EMPTY
    {
      hash, status, index, meta := h, map[], map[], map[];
    }

    function Abs(): State
      reads this
    {
      State(status, index, meta)
    }

    method OnCredentialIssued(credDef: string, id: string, binding: Option<(string, nat)>, chainFails: bool, saveFails: bool)
      returns (ok: bool)
      modifies this
      ensures Abs() == Issue(hash, old(Abs()), credDef, id, binding, chainFails, saveFails)
      ensures ok == !(chainFails || (binding.Some? && saveFails))
    {
      if chainFails {
        return false;
      }
      status := status[(hash(credDef), hash(id)) := Issued];
      if binding.Some? {
        if saveFails {
          return false;
        }
        index := index[binding.value := id];
      }
      ok := true;
    }

    /** The loop over the newly set indices, then the save. */
    method RegisterStatusList(rr: string, list: seq<int>, f: Faults) returns (ok: bool)
      modifies this
      ensures (Abs(), ok) == Register(hash, old(Abs()), rr, list, f)
    {
      if f.load || rr !in meta {
        return false;
      }
      var m := meta[rr];
      var todo, prev := RevokedIndices(list), SavedIndices(Abs(), rr);
      var i := 0;
      while i < |todo|
        invariant 0 <= i <= |todo| && meta == old(meta)
        invariant PushAll(hash, old(Abs()), rr, m.credDef, prev, todo, f)
               == PushAll(hash, Abs(), rr, m.credDef, prev, todo[i..], f)
      {
        assert todo[i..][1..] == todo[i + 1..];
        var pushed := Push(rr, m.credDef, prev, todo[i], f.entry(todo[i]));
        if !pushed {
          return false;
        }
        i := i + 1;
      }
      if f.save {
        return false;
      }
      meta := meta[rr := m.(list := Some(list))];
      ok := true;
    }

    method Push(rr: string, credDef: string, prev: seq<nat>, idx: nat, f: EntryFaults) returns (ok: bool)
      modifies this`status
      ensures (Abs(), ok) == PushEntry(hash, old(Abs()), rr, credDef, prev, idx, f)
    {
      if idx in prev {
        return true;
      }
      if f.find || (rr, idx) !in index {
        return false;
      }
      var key := (hash(credDef), hash(index[(rr, idx)]));
      if !f.issue {
        status := status[key := Issued];
      }
      if f.revoke {
        return false;
      }
      status := status[key := Revoked];
      ok := true;
    }
  }
}
