/** Single runs of the mediation bootstrap, answered reply by reply: when a call connects, what an undisturbed
    call leaves in the store, and what calls for two mediators do to each other. */
module MediationPaths {
  import opened Wrappers
  import opened MediationSetup

  // ----- exactly when a call connects -----

  /** What listing the connections can come back with on a store. */
  predicate Listed(st: Store, inv: string, r: Reply) {
    || r.ListFailed?
    || (r.ConnsListed? && if r.pick.Some? then Matches(st, Some(inv), r.pick.value) else !Reusable(st, Some(inv)))
  }

  /** On every store without a grant, an undisturbed call connects if and only if the listing failed or no
      completed connection for its invitation is there. */
  lemma ConnectsExactly(st: Store, key: string, inv: string, r: Reply, id: nat, conn: Connection)
    requires Grants(st) == {} && Listed(st, inv, r)
    ensures Run(Initial(st), [Start(key, Some(inv)), Acquire(0), React(0, GrantsListed([])), React(0, r),
                              React(0, Connected(id, conn))]).connects
            == if r.ListFailed? || !Reusable(st, Some(inv)) then [Connect(0, Some(inv), st, r.ListFailed?)] else []
  {
    FirstSteps(st, key, inv, r);
    RunFive(Initial(st), Start(key, Some(inv)), Acquire(0), React(0, GrantsListed([])), React(0, r),
            React(0, Connected(id, conn)));
  }

  /** The call reuses exactly a completed connection that came from its own invitation. */
  lemma ReuseExactly(st: Store, inv: Option<string>, c: nat)
    ensures Advance(st, inv, Listing, ConnsListed(Some(c))).1 == Shaking(c) <==>
            inv.Some? && c in st.conns && st.conns[c].oob == inv.value && st.conns[c].completed
  {
  }

  /** So without the exception for a failed listing the promise is false: a completed connection for the very
      invitation is there, and the call connects again. */
  lemma BlindConnect(st: Store, key: string, inv: string, id: nat, conn: Connection)
    requires Grants(st) == {} && Reusable(st, Some(inv))
    ensures exists es :: var s := Run(Initial(st), es);
              |s.connects| == 1 && Reusable(s.connects[0].atLock, s.connects[0].inv)
  {
    ConnectsExactly(st, key, inv, ListFailed, id, conn);
    var es := [Start(key, Some(inv)), Acquire(0), React(0, GrantsListed([])), React(0, ListFailed), React(0, Connected(id, conn))];
    var s := Run(Initial(st), es);
    assert s.connects == [Connect(0, Some(inv), st, true)];
  }

  lemma FirstSteps(st: Store, key: string, inv: string, r: Reply)
    requires Grants(st) == {} && Listed(st, inv, r)
    ensures Step(Step(Initial(st), Start(key, Some(inv))), Acquire(0)) == At(st, key, inv, Asking)
    ensures Step(At(st, key, inv, Asking), React(0, GrantsListed([]))) == At(st, key, inv, Listing)
    ensures Step(At(st, key, inv, Listing), React(0, r)) == At(st, key, inv, AfterListing(r))
    ensures r.ListFailed? || (Reusable(st, Some(inv)) <==> r.pick.Some?)
  {
    assert ListsGrants(st, []);
    ListingStep(st, key, inv, r);
  }

  function AfterListing(r: Reply): Phase
    requires r.ListFailed? || r.ConnsListed?
  {
    if r.ListFailed? then Connecting(true) else if r.pick.Some? then Shaking(r.pick.value) else Connecting(false)
  }

  lemma ListingStep(st: Store, key: string, inv: string, r: Reply)
    requires Listed(st, inv, r)
    ensures Step(At(st, key, inv, Listing), React(0, r)) == At(st, key, inv, AfterListing(r))
    ensures r.ListFailed? || (Reusable(st, Some(inv)) <==> r.pick.Some?)
  {
    if r.ConnsListed? && r.pick.Some? {
      assert Matches(st, Some(inv), r.pick.value);
    }
  }

  function At(st: Store, key: string, inv: string, ph: Phase): State {
    State(st, [Call(key, Some(inv), ph, st)], map[key := 0], [])
  }

  lemma RunFive(s: State, a: Event, b: Event, c: Event, d: Event, e: Event)
    ensures Run(s, [a, b, c, d, e]) == Step(Step(Step(Step(Step(s, a), b), c), d), e)
  {
    RunCons(s, a, [b, c, d, e]);
    RunCons(Step(s, a), b, [c, d, e]);
    RunCons(Step(Step(s, a), b), c, [d, e]);
    RunCons(Step(Step(Step(s, a), b), c), d, [e]);
    RunCons(Step(Step(Step(Step(s, a), b), c), d), e, []);
  }

  lemma RunCons(s: State, e: Event, es: seq<Event>)
    ensures Run(s, [e] + es) == Run(Step(s, e), es)
  {
    assert ([e] + es)[1..] == es;
  }

  // ----- several mediators -----

  /** Every call that starts is for one of these mediators. */
  predicate Among(es: seq<Event>, keys: set<string>) {
    forall i :: 0 <= i < |es| && es[i].Start? ==> es[i].key in keys
  }

  const EMPTY_STORE := Store(map[], map[])

  /** Call c holds its lock, over store `st` and in phase `ph`. */
  predicate Inside(s: State, c: nat, st: Store, inv: Option<string>, ph: Phase) {
    && c < |s.calls| && HeldBy(s, s.calls[c].key, c)
    && s.store == st && s.calls[c].phase == ph && s.calls[c].inv == inv
  }

  /** The other calls are as they were. */
  predicate SameBut(s: State, t: State, c: nat) {
    && |t.calls| == |s.calls|
    && forall d :: 0 <= d < |s.calls| && d != c ==> t.calls[d] == s.calls[d]
  }

  /** One call answered undisturbed, reply after reply, until it ends. */
  function AdvanceAll(st: Store, inv: Option<string>, ph: Phase, rs: seq<Reply>): (Store, Phase)
    decreases |rs|
  {
    if |rs| == 0 || ph.Ended? then (st, ph)
    else
      var (t, q) := Advance(st, inv, ph, rs[0]);
      AdvanceAll(t, inv, q, rs[1..])
  }

  function Reacts(c: nat, rs: seq<Reply>): seq<Event> {
    if |rs| == 0 then [] else [React(c, rs[0])] + Reacts(c, rs[1..])
  }

  lemma {:induction false} ReactsUnheld(s: State, c: nat, rs: seq<Reply>)
    requires c < |s.calls| && !HeldBy(s, s.calls[c].key, c)
    ensures Run(s, Reacts(c, rs)) == s
    decreases |rs|
  {
    if |rs| > 0 {
      RunCons(s, React(c, rs[0]), Reacts(c, rs[1..]));
      ReactsUnheld(s, c, rs[1..]);
    }
  }

  /** The machine does with an undisturbed call what AdvanceAll says, and frees its lock when it ends. */
  lemma {:induction false} RunReacts(s: State, c: nat, st: Store, inv: Option<string>, ph: Phase, rs: seq<Reply>)
    requires Inside(s, c, st, inv, ph) && !ph.Ended?
    ensures var (t, q) := AdvanceAll(st, inv, ph, rs);
      var u := Run(s, Reacts(c, rs));
      && SameBut(s, u, c) && u.store == t && u.calls[c] == s.calls[c].(phase := q)
      && u.held == if q.Ended? then s.held - {s.calls[c].key} else s.held
    decreases |rs|
  {
    if |rs| > 0 {
      var (t, q) := Advance(st, inv, ph, rs[0]);
      var u := Step(s, React(c, rs[0]));
      RunCons(s, React(c, rs[0]), Reacts(c, rs[1..]));
      if q.Ended? {
        ReactsUnheld(u, c, rs[1..]);
      } else {
        RunReacts(u, c, t, inv, q, rs[1..]);
      }
    }
  }

  lemma AdvanceFirst(st: Store, inv: Option<string>, ph: Phase, r: Reply, rs: seq<Reply>)
    requires !ph.Ended?
    ensures AdvanceAll(st, inv, ph, [r] + rs)
         == var (t, q) := Advance(st, inv, ph, r); AdvanceAll(t, inv, q, rs)
  {
    assert ([r] + rs)[1..] == rs;
  }

  function WithConn(st: Store, id: nat): Store {
    st.(conns := st.conns[id := Connection("", true)])
  }

  function WithRecord(st: Store, id: nat, rec: Record): Store {
    st.(recs := st.recs[id := rec])
  }

  /** From a completed connection to the request. */
  lemma RequestReplies(st: Store, inv: Option<string>, conn: nat, id: nat, rest: seq<Reply>)
    requires UsableConn(st, conn) && id !in st.recs
    ensures AdvanceAll(st, inv, Shaking(conn), [Ready] + ([Saved(id)] + rest))
         == AdvanceAll(WithRecord(st, id, Record(conn, Requested, false)), inv, Exchanging(conn), rest)
  {
    AdvanceFirst(st, inv, Shaking(conn), Ready, [Saved(id)] + rest);
    AdvanceFirst(st, inv, Requesting(conn), Saved(id), rest);
  }

  /** And on to the written grant. */
  lemma GrantReplies(st: Store, inv: Option<string>, conn: nat, id: nat, rest: seq<Reply>)
    requires id in st.recs && st.recs[id] == Record(conn, Requested, false)
    ensures AdvanceAll(st, inv, Exchanging(conn), [Found(id)] + ([Done(true)] + rest))
         == AdvanceAll(WithRecord(st, id, Record(conn, Granted, false)), inv, Registering(conn), rest)
  {
    var row := Row(id, st.recs[id]);
    AdvanceFirst(st, inv, Exchanging(conn), Found(id), [Done(true)] + rest);
    AdvanceFirst(st, inv, Granting(conn, row), Done(true), rest);
  }

  /** And on to the persisted key, and success. */
  lemma KeyReplies(st: Store, inv: Option<string>, conn: nat, id: nat)
    requires id in st.recs && st.recs[id] == Record(conn, Granted, false)
    ensures AdvanceAll(st, inv, Registering(conn), [Found(id)] + ([Done(true)] + []))
         == (WithRecord(st, id, Record(conn, Granted, true)), Ended(true))
  {
    AdvanceFirst(st, inv, Registering(conn), Found(id), [Done(true)] + []);
    AdvanceFirst(st, inv, Persisting(Row(id, Record(conn, Granted, true))), Done(true), []);
  }

  /** All of it: a granted, keyed record is added. */
  lemma SetupResult(st: Store, inv: Option<string>, conn: nat, id: nat)
    requires UsableConn(st, conn) && id !in st.recs
    ensures AdvanceAll(st, inv, Shaking(conn), SetupReplies(id))
         == (WithRecord(st, id, Record(conn, Granted, true)), Ended(true))
  {
    var st1 := WithRecord(st, id, Record(conn, Requested, false));
    var st2 := WithRecord(st1, id, Record(conn, Granted, false));
    var keyed := [Found(id)] + ([Done(true)] + []);
    RequestReplies(st, inv, conn, id, [Found(id)] + ([Done(true)] + keyed));
    GrantReplies(st1, inv, conn, id, keyed);
    KeyReplies(st2, inv, conn, id);
    assert WithRecord(st2, id, Record(conn, Granted, true)) == WithRecord(st, id, Record(conn, Granted, true));
  }

  /** The replies of a setup from a connection in use, when nothing goes wrong. */
  function SetupReplies(id: nat): seq<Reply> {
    [Ready] + ([Saved(id)] + ([Found(id)] + ([Done(true)] + ([Found(id)] + ([Done(true)] + [])))))
  }

  /** Reuse: with no grant and a completed connection for its invitation, an undisturbed call ends well and has
      added exactly a granted, keyed record on that connection. */
  lemma ReuseResult(st: Store, inv: string, conn: nat, id: nat)
    requires Grants(st) == {} && Matches(st, Some(inv), conn) && id !in st.recs
    ensures AdvanceAll(st, Some(inv), Asking, [GrantsListed([])] + ([ConnsListed(Some(conn))] + SetupReplies(id)))
         == (WithRecord(st, id, Record(conn, Granted, true)), Ended(true))
  {
    assert ListsGrants(st, []);
    AdvanceFirst(st, Some(inv), Asking, GrantsListed([]), [ConnsListed(Some(conn))] + SetupReplies(id));
    AdvanceFirst(st, Some(inv), Listing, ConnsListed(Some(conn)), SetupReplies(id));
    SetupResult(st, Some(inv), conn, id);
  }

  lemma ConnectReplies(st: Store, inv: Option<string>, conn: nat, c: Connection, rest: seq<Reply>)
    requires Grants(st) == {} && !Reusable(st, inv) && conn !in st.conns
    ensures AdvanceAll(st, inv, Asking, [GrantsListed([])] + ([ConnsListed(None)] + ([Connected(conn, c)] + rest)))
         == AdvanceAll(st.(conns := st.conns[conn := c]), inv, Shaking(conn), rest)
  {
    assert ListsGrants(st, []);
    AdvanceFirst(st, inv, Asking, GrantsListed([]), [ConnsListed(None)] + ([Connected(conn, c)] + rest));
    AdvanceFirst(st, inv, Listing, ConnsListed(None), [Connected(conn, c)] + rest);
    AdvanceFirst(st, inv, Connecting(false), Connected(conn, c), rest);
  }

  /** Fresh: with neither, it has added the new connection and a granted, keyed record on it. */
  lemma FreshResult(st: Store, inv: string, conn: nat, id: nat)
    requires Grants(st) == {} && !Reusable(st, Some(inv)) && conn !in st.conns && id !in st.recs
    ensures AdvanceAll(st, Some(inv), Asking,
              [GrantsListed([])] + ([ConnsListed(None)] + ([Connected(conn, Connection(inv, true))] + SetupReplies(id))))
         == (Store(st.conns[conn := Connection(inv, true)], st.recs[id := Record(conn, Granted, true)]), Ended(true))
  {
    ConnectReplies(st, Some(inv), conn, Connection(inv, true), SetupReplies(id));
    SetupResult(st.(conns := st.conns[conn := Connection(inv, true)]), Some(inv), conn, id);
  }

  /** Restore of the one grant there is: a keyed grant leaves the store as it is, and one without a key gets
      its key. */
  lemma RestoreResult(st: Store, inv: Option<string>, g: nat)
    requires Grants(st) == {g} && UsableConn(st, st.recs[g].conn)
    ensures st.recs[g].keyed ==>
      AdvanceAll(st, inv, Asking, [GrantsListed([g])] + ([NothingFound] + [])) == (st, Ended(true))
    ensures !st.recs[g].keyed ==>
      AdvanceAll(st, inv, Asking, [GrantsListed([g])] + ([Found(g)] + ([Done(true)] + [])))
        == (WithRecord(st, g, st.recs[g].(keyed := true)), Ended(true))
  {
    var row := Row(g, st.recs[g]);
    KeepsFirst(st, inv, [g]);
    assert RowsOf(st, [g])[1..] == [];
    AdvanceFirst(st, inv, Asking, GrantsListed([g]), [NothingFound] + []);
    AdvanceFirst(st, inv, Restoring(row, {}, {}), NothingFound, []);
    AdvanceFirst(st, inv, Asking, GrantsListed([g]), [Found(g)] + ([Done(true)] + []));
    AdvanceFirst(st, inv, Restoring(row, {}, {}), Found(g), [Done(true)] + []);
    AdvanceFirst(st, inv, Rekeying(Row(g, st.recs[g].(keyed := true))), Done(true), []);
  }

  /** Without a usable connection the one grant cannot be restored, and nothing changes. */
  lemma RestoreFailure(st: Store, inv: Option<string>, g: nat, r: Reply)
    requires Grants(st) == {g} && !UsableConn(st, st.recs[g].conn)
    ensures AdvanceAll(st, inv, Asking, [GrantsListed([g])] + ([r] + [])) == (st, Ended(false))
  {
    KeepsFirst(st, inv, [g]);
    assert RowsOf(st, [g])[1..] == [];
    AdvanceFirst(st, inv, Asking, GrantsListed([g]), [r] + []);
    AdvanceFirst(st, inv, Restoring(Row(g, st.recs[g]), {}, {}), r, []);
  }

  /** Restore with one orphan: exactly its record and its connection are gone. */
  lemma PruneResult(st: Store, inv: Option<string>, g: nat, o: nat)
    requires Grants(st) == {g, o} && g != o && st.recs[g].keyed
    requires UsableConn(st, st.recs[g].conn) && st.recs[g].conn != st.recs[o].conn
    ensures AdvanceAll(st, inv, Asking, [GrantsListed([g, o])] + ([Done(true)] + ([Done(true)] + ([NothingFound] + []))))
         == (Store(map c | c in st.conns && c != st.recs[o].conn :: st.conns[c],
                   map i | i in st.recs && i != o :: st.recs[i]), Ended(true))
  {
    var keep, row := Row(g, st.recs[g]), Row(o, st.recs[o]);
    var st1 := Remove(st, o);
    var st2 := st1.(conns := map c | c in st1.conns && c != row.rec.conn :: st1.conns[c]);
    KeepsFirst(st, inv, [g, o]);
    assert RowsOf(st, [g, o])[1..] == [row];
    assert [row][1..] == [];
    AdvanceFirst(st, inv, Asking, GrantsListed([g, o]), [Done(true)] + ([Done(true)] + ([NothingFound] + [])));
    AdvanceFirst(st, inv, Pruning(keep, [row], {}, {}), Done(true), [Done(true)] + ([NothingFound] + []));
    AdvanceFirst(st1, inv, Dropping(keep, row.rec.conn, [], {}, {}), Done(true), [NothingFound] + []);
    AdvanceFirst(st2, inv, Restoring(keep, {}, {}), NothingFound, []);
  }

  /** The fresh path from the listing to the written grant, when nothing goes wrong. */
  function FreshReplies(id: nat): seq<Reply> {
    [NothingFound] + ([Connected(id, Connection("", true))] + ([Ready] + ([Saved(id)] + ([Found(id)] + ([Done(true)] + [])))))
  }

  function FreshPath(c: nat, id: nat): seq<Event> { Reacts(c, FreshReplies(id)) }

  lemma FreshGrant(st: Store, id: nat)
    requires UsableConn(st, id) && id !in st.recs
    ensures AdvanceAll(st, None, Shaking(id), [Ready] + ([Saved(id)] + ([Found(id)] + ([Done(true)] + []))))
         == (WithRecord(st, id, Record(id, Granted, false)), Registering(id))
  {
    var st1 := WithRecord(st, id, Record(id, Requested, false));
    RequestReplies(st, None, id, id, [Found(id)] + ([Done(true)] + []));
    GrantReplies(st1, None, id, id, []);
    assert WithRecord(st1, id, Record(id, Granted, false)) == WithRecord(st, id, Record(id, Granted, false));
  }

  lemma FreshPathGrants(s: State, c: nat, st: Store, id: nat)
    requires Inside(s, c, st, None, Listing) && id !in st.conns && id !in st.recs
    ensures var u := Run(s, FreshPath(c, id));
      && u.store == WithRecord(WithConn(st, id), id, Record(id, Granted, false)) && u.held == s.held && SameBut(s, u, c)
  {
    var connected := Connected(id, Connection("", true));
    var rest := [Ready] + ([Saved(id)] + ([Found(id)] + ([Done(true)] + [])));
    RunReacts(s, c, st, None, Listing, FreshReplies(id));
    AdvanceFirst(st, None, Listing, NothingFound, [connected] + rest);
    AdvanceFirst(st, None, Connecting(false), connected, rest);
    FreshGrant(WithConn(st, id), id);
  }

  lemma {:induction false} RunAppend(s: State, a: seq<Event>, b: seq<Event>)
    ensures Run(s, a + b) == Run(Run(s, a), b)
    decreases |a|
  {
    if |a| == 0 {
      assert a + b == b;
    } else {
      RunAppend(Step(s, a[0]), a[1..], b);
      assert (a + b)[1..] == a[1..] + b;
    }
  }

  /** Two calls for two mediators, each of which has seen that there is no grant. */
  function BothAsked(key: string, other: string): seq<Event> {
    [Start(key, None), Start(other, None), Acquire(0), Acquire(1)] +
    [React(0, GrantsListed([])), React(1, GrantsListed([]))]
  }

  lemma BothListing(key: string, other: string)
    requires key != other
    ensures var s := Run(Initial(EMPTY_STORE), BothAsked(key, other));
      Inside(s, 0, EMPTY_STORE, None, Listing) && Inside(s, 1, EMPTY_STORE, None, Listing)
  {
    var s0 := Initial(EMPTY_STORE);
    var a, b := Call(key, None, Waiting, EMPTY_STORE), Call(other, None, Waiting, EMPTY_STORE);
    var s1 := State(EMPTY_STORE, [a], map[], []);
    var s2 := State(EMPTY_STORE, [a, b], map[], []);
    var s3 := State(EMPTY_STORE, [a.(phase := Asking), b], map[key := 0], []);
    var s4 := State(EMPTY_STORE, [a.(phase := Asking), b.(phase := Asking)], map[key := 0, other := 1], []);
    RunCons(s0, Start(key, None), [Start(other, None), Acquire(0), Acquire(1)]);
    assert Step(s0, Start(key, None)) == s1;
    RunCons(s1, Start(other, None), [Acquire(0), Acquire(1)]);
    assert Step(s1, Start(other, None)) == s2;
    RunCons(s2, Acquire(0), [Acquire(1)]);
    assert Step(s2, Acquire(0)) == s3;
    RunCons(s3, Acquire(1), []);
    assert Step(s3, Acquire(1)) == s4;
    RunAppend(s0, [Start(key, None), Start(other, None), Acquire(0), Acquire(1)],
              [React(0, GrantsListed([])), React(1, GrantsListed([]))]);
    BothListed(s4);
  }

  lemma BothListed(s: State)
    requires Inside(s, 0, EMPTY_STORE, None, Asking) && Inside(s, 1, EMPTY_STORE, None, Asking)
    ensures var t := Run(s, [React(0, GrantsListed([])), React(1, GrantsListed([]))]);
      Inside(t, 0, EMPTY_STORE, None, Listing) && Inside(t, 1, EMPTY_STORE, None, Listing)
  {
    var ask := GrantsListed([]);
    assert ListsGrants(EMPTY_STORE, []);
    RunCons(s, React(0, ask), [React(1, ask)]);
    RunCons(Step(s, React(0, ask)), React(1, ask), []);
  }

  lemma BothGranted(s: State)
    requires Inside(s, 0, EMPTY_STORE, None, Listing) && Inside(s, 1, EMPTY_STORE, None, Listing)
    ensures Grants(Run(s, FreshPath(0, 0) + FreshPath(1, 1)).store) == {0, 1}
  {
    var st := WithRecord(WithConn(EMPTY_STORE, 0), 0, Record(0, Granted, false));
    FreshPathGrants(s, 0, EMPTY_STORE, 0);
    var t := Run(s, FreshPath(0, 0));
    assert Inside(t, 1, st, None, Listing);
    FreshPathGrants(t, 1, st, 1);
    RunAppend(s, FreshPath(0, 0), FreshPath(1, 1));
    TwoGrants(st);
  }

  lemma TwoGrants(st: Store)
    requires st == WithRecord(WithConn(EMPTY_STORE, 0), 0, Record(0, Granted, false))
    ensures Grants(WithRecord(WithConn(st, 1), 1, Record(1, Granted, false))) == {0, 1}
  {
  }

  /** The locks of two mediators do not exclude each other, and the grant query does not tell the mediators
      apart: both calls see no grant, and both get one. */
  lemma TwoMediatorsTwoGrants(key: string, other: string)
    requires key != other
    ensures Grants(Run(Initial(EMPTY_STORE), Racing(key, other)).store) == {0, 1}
  {
    BothListing(key, other);
    BothGranted(Run(Initial(EMPTY_STORE), BothAsked(key, other)));
    RunAppend(Initial(EMPTY_STORE), BothAsked(key, other), FreshPath(0, 0) + FreshPath(1, 1));
  }

  lemma {:induction false} ReactsOnly(c: nat, rs: seq<Reply>)
    ensures forall i :: 0 <= i < |Reacts(c, rs)| ==> Reacts(c, rs)[i].React?
  {
    if |rs| > 0 { ReactsOnly(c, rs[1..]); }
  }

  /** The run above, as one list of events. */
  function Racing(key: string, other: string): seq<Event> {
    BothAsked(key, other) + (FreshPath(0, 0) + FreshPath(1, 1))
  }

  lemma RacingAmong(key: string, other: string, keys: set<string>)
    requires key in keys && other in keys
    ensures Among(Racing(key, other), keys)
  {
    ReactsOnly(0, FreshReplies(0));
    ReactsOnly(1, FreshReplies(1));
    var asked, later := BothAsked(key, other), FreshPath(0, 0) + FreshPath(1, 1);
    assert forall i :: 0 <= i < |later| ==> later[i].React?;
    assert forall i :: 0 <= i < |asked| && asked[i].Start? ==> asked[i].key in keys;
  }

  lemma OneMediatorOneGrant(keys: set<string>, es: seq<Event>)
    requires |keys| <= 1 && Among(es, keys)
    ensures |Grants(Run(Initial(EMPTY_STORE), es).store)| <= 1
  {
    var key := if k :| k in keys then k else "";
    assert |keys| == 1 ==> |keys - {key}| == 0;
    assert keys <= {key} && AllFor(es, key);
    assert Grants(EMPTY_STORE) == {};
    NeverTwoGrants(EMPTY_STORE, es, key);
  }

  lemma TwoKeys(keys: set<string>) returns (key: string, other: string)
    requires |keys| > 1
    ensures key in keys && other in keys && key != other
  {
    key :| key in keys;
    assert |keys - {key}| > 0;
    other :| other in keys - {key};
  }

  /** So, over all runs from the empty store, there is never a second grant if and only if the calls are for
      at most one mediator. */
  lemma OneGrantIffOneMediator(keys: set<string>)
    ensures (forall es :: Among(es, keys) ==> |Grants(Run(Initial(EMPTY_STORE), es).store)| <= 1) <==> |keys| <= 1
  {
    if |keys| <= 1 {
      forall es | Among(es, keys) ensures |Grants(Run(Initial(EMPTY_STORE), es).store)| <= 1 {
        OneMediatorOneGrant(keys, es);
      }
    } else {
      var key, other := TwoKeys(keys);
      TwoMediatorsTwoGrants(key, other);
      RacingAmong(key, other, keys);
      assert |Grants(Run(Initial(EMPTY_STORE), Racing(key, other)).store)| == 2;
    }
  }
}
