/** The mediation bootstrap: any number of agents call setup_mediation at the same time, over one shared
    store and with one lock per mediator key, and every call is cut at each of its await points.  The store, the environment and
    the other calls may do anything the interfaces allow at those points: an await may fail, a call may be
    dropped, rows come back in any order, and a handshake may finish on its own. */
module MediationSetup {
  import opened Wrappers

  datatype Status = Requested | Granted | Denied

  /** A connection is completed once the peer's DID is known. */
  datatype Connection = Connection(oob: string, completed: bool)

  /** `keyed` says that the registered recipient key was persisted. */
  datatype Record = Record(conn: nat, status: Status, keyed: bool)

  datatype Store = Store(conns: map<nat, Connection>, recs: map<nat, Record>)

  /** A row as one query returned it. */
  datatype Row = Row(id: nat, rec: Record)

  /** Where a call is.  While it restores a grant, `stuck` are the orphan records and `left` the orphan
      connections that could not be deleted. */
  datatype Phase =
    | Waiting
    | Asking
    | Pruning(keep: Row, orphans: seq<Row>, stuck: set<nat>, left: set<nat>)
    | Dropping(keep: Row, conn: nat, orphans: seq<Row>, stuck: set<nat>, left: set<nat>)
    | Restoring(keep: Row, stuck: set<nat>, left: set<nat>)
    | Rekeying(row: Row)
    | Listing
    | Connecting(blind: bool)
    | Shaking(conn: nat)
    | Requesting(conn: nat)
    | Exchanging(conn: nat)
    | Granting(conn: nat, row: Row)
    | Registering(conn: nat)
    | Persisting(row: Row)
    | Ended(ok: bool)

  /** What the awaited operation of the current phase came back with. */
  datatype Reply =
    | GrantsListed(order: seq<nat>)
    | Done(ok: bool)
    | Found(id: nat)
    | NothingFound
    | ConnsListed(pick: Option<nat>)
    | ListFailed
    | Connected(id: nat, conn: Connection)
    | Ready
    | Saved(id: nat)
    | Stop

  function Grants(st: Store): set<nat> {
    set i | i in st.recs && st.recs[i].status == Granted
  }

  predicate ValidTransition(from: Status, to: Status) {
    from == to || from == Requested
  }

  function RowsOf(st: Store, ids: seq<nat>): (rows: seq<Row>)
    requires forall i :: 0 <= i < |ids| ==> ids[i] in st.recs
    ensures |rows| == |ids|
    ensures forall i :: 0 <= i < |ids| ==> rows[i] == Row(ids[i], st.recs[ids[i]])
  {
    seq(|ids|, i requires 0 <= i < |ids| => Row(ids[i], st.recs[ids[i]]))
  }

  predicate NoRepeat(ids: seq<nat>) {
    forall i, j :: 0 <= i < j < |ids| ==> ids[i] != ids[j]
  }

  /** `order` is one listing of all granted records, whatever the row order. */
  predicate ListsGrants(st: Store, order: seq<nat>) {
    && NoRepeat(order)
    && (forall i :: 0 <= i < |order| ==> order[i] in Grants(st))
    && (forall g :: g in Grants(st) ==> g in order)
  }

  /** A completed connection that came from this invitation. */
  predicate Matches(st: Store, inv: Option<string>, c: nat) {
    inv.Some? && c in st.conns && st.conns[c].oob == inv.value && st.conns[c].completed
  }

  predicate Reusable(st: Store, inv: Option<string>) {
    exists c :: c in st.conns && Matches(st, inv, c)
  }

  predicate UsableConn(st: Store, c: nat) {
    c in st.conns && st.conns[c].completed
  }

  /** An update of a row fails on a row that is gone. */
  function Write(st: Store, row: Row): Store {
    if row.id in st.recs then st.(recs := st.recs[row.id := row.rec]) else st
  }

  function Remove(st: Store, id: nat): Store {
    st.(recs := map i | i in st.recs && i != id :: st.recs[i])
  }

  /** The loop over the orphans: on to the next one, or out of the loop. */
  function NextOrphan(keep: Row, orphans: seq<Row>, stuck: set<nat>, left: set<nat>): Phase {
    if |orphans| == 0 then Restoring(keep, stuck, left) else Pruning(keep, orphans, stuck, left)
  }

  /** What the lock holder does with one reply.  A reply that the awaited operation cannot give leaves
      everything as it was. */
  function Advance(st: Store, inv: Option<string>, ph: Phase, r: Reply): (Store, Phase) {
    if r.Stop? then (st, Ended(false)) else
    match ph
    case Asking =>
      if r.GrantsListed? && ListsGrants(st, r.order) then
        var rows := RowsOf(st, r.order);
        (st, if |rows| == 0 then Listing else NextOrphan(rows[0], rows[1..], {}, {}))
      else (st, ph)
    case Pruning(keep, orphans, stuck, left) =>
      if r.Done? && |orphans| > 0 then
        var o := orphans[0];
        (if r.ok then Remove(st, o.id) else st,
         Dropping(keep, o.rec.conn, orphans[1..], if r.ok then stuck else stuck + {o.id}, left))
      else (st, ph)
    case Dropping(keep, conn, orphans, stuck, left) =>
      if r.Done? then
        (if r.ok then st.(conns := map c | c in st.conns && c != conn :: st.conns[c]) else st,
         NextOrphan(keep, orphans, stuck, if r.ok then left else left + {conn}))
      else (st, ph)
    case Restoring(keep, _, _) =>
      if !UsableConn(st, keep.rec.conn) then (st, Ended(false))
      else if r.NothingFound? then (st, Ended(true))
      else if r.Found? && !keep.rec.keyed && r.id in st.recs && st.recs[r.id].conn == keep.rec.conn then
        (st, Rekeying(Row(r.id, st.recs[r.id].(keyed := true))))
      else (st, ph)
    case Rekeying(row) =>
      if r.Done? then (if r.ok then Write(st, row) else st, Ended(true)) else (st, ph)
    case Listing =>
      if inv.None? then (st, Connecting(false))
      else if r.ListFailed? then (st, Connecting(true))
      else if r.ConnsListed? && r.pick.Some? && Matches(st, inv, r.pick.value) then (st, Shaking(r.pick.value))
      else if r.ConnsListed? && r.pick.None? && !Reusable(st, inv) then (st, Connecting(false))
      else (st, ph)
    case Connecting(_) =>
      if r.Connected? then
        (if r.id in st.conns then st else st.(conns := st.conns[r.id := r.conn]), Shaking(r.id))
      else (st, ph)
    case Shaking(conn) =>
      if r.Ready? && UsableConn(st, conn) then (st, Requesting(conn)) else (st, ph)
    case Requesting(conn) =>
      if r.Saved? && r.id !in st.recs then
        (st.(recs := st.recs[r.id := Record(conn, Requested, false)]), Exchanging(conn))
      else (st, ph)
    case Exchanging(conn) =>
      if r.NothingFound? then (st, Ended(false))
      else if r.Found? && r.id in st.recs && st.recs[r.id].conn == conn then
        if ValidTransition(st.recs[r.id].status, Granted) then (st, Granting(conn, Row(r.id, st.recs[r.id])))
        else (st, Ended(false))
      else (st, ph)
    case Granting(conn, row) =>
      if r.Done? then
        if r.ok then (Write(st, row.(rec := row.rec.(status := Granted))), Registering(conn))
        else (st, Ended(false))
      else (st, ph)
    case Registering(conn) =>
      if r.NothingFound? then (st, Ended(true))
      else if r.Found? && r.id in st.recs && st.recs[r.id].conn == conn then
        (st, Persisting(Row(r.id, st.recs[r.id].(keyed := true))))
      else (st, ph)
    case Persisting(row) =>
      if r.Done? then (if r.ok then Write(st, row) else st, Ended(true)) else (st, ph)
    case _ => (st, ph)
  }

  // ----- the interleaved machine -----

  /** `key` names the mediator; `atLock` is the store as it was when the call took that mediator's lock. */
  datatype Call = Call(key: string, inv: Option<string>, phase: Phase, atLock: Store)

  /** One run of the out-of-band connect. */
  datatype Connect = Connect(call: nat, inv: Option<string>, atLock: Store, blind: bool)

  /** `held` maps the key of each taken lock to the call that holds it. */
  datatype State = State(store: Store, calls: seq<Call>, held: map<string, nat>, connects: seq<Connect>)

  datatype Event =
    | Start(key: string, inv: Option<string>)
    | HandshakeDone(conn: nat)
    | Acquire(c: nat)
    | Abandon(c: nat)
    | React(c: nat, r: Reply)

  function Initial(st: Store): State { State(st, [], map[], []) }

  function Complete(st: Store, conn: nat): Store {
    if conn in st.conns then st.(conns := st.conns[conn := st.conns[conn].(completed := true)]) else st
  }

  function Step(s: State, e: Event): State {
    match e
    case Start(key, inv) => s.(calls := s.calls + [Call(key, inv, Waiting, s.store)])
    case HandshakeDone(conn) => s.(store := Complete(s.store, conn))
    case Acquire(c) =>
      if c < |s.calls| && s.calls[c].key !in s.held && s.calls[c].phase.Waiting? then
        s.(held := s.held[s.calls[c].key := c], calls := s.calls[c := s.calls[c].(phase := Asking, atLock := s.store)])
      else s
    case Abandon(c) =>
      if c < |s.calls| && s.calls[c].phase.Waiting? then
        s.(calls := s.calls[c := s.calls[c].(phase := Ended(false))])
      else s
    case React(c, r) =>
      if c < |s.calls| && HeldBy(s, s.calls[c].key, c) then Reacted(s, c, r) else s
  }

  predicate HeldBy(s: State, key: string, c: nat) { key in s.held && s.held[key] == c }

  function Reacted(s: State, c: nat, r: Reply): State
    requires c < |s.calls|
  {
    var call := s.calls[c];
    var (st, ph) := Advance(s.store, call.inv, call.phase, r);
    State(st, s.calls[c := call.(phase := ph)],
          if ph.Ended? then s.held - {call.key} else s.held,
          if call.phase.Connecting? && r.Connected?
          then s.connects + [Connect(c, call.inv, call.atLock, call.phase.blind)]
          else s.connects)
  }

  function Run(s: State, es: seq<Event>): State
    decreases |es|
  {
    if |es| == 0 then s else Run(Step(s, es[0]), es[1..])
  }

  // ----- what every state keeps -----

  function Ids(rows: seq<Row>): set<nat> { set i | 0 <= i < |rows| :: rows[i].id }

  predicate DistinctIds(rows: seq<Row>) {
    forall i, j :: 0 <= i < j < |rows| ==> rows[i].id != rows[j].id
  }

  predicate Idle(ph: Phase) { ph.Waiting? || ph.Ended? }

  /** A connect is in order when no grant was there at lock time and either no completed connection for the
      invitation was, or it could not be seen. */
  predicate Justified(inv: Option<string>, atLock: Store, blind: bool) {
    && Grants(atLock) == {}
    && (blind ==> inv.Some?)
    && (!blind ==> !Reusable(atLock, inv))
  }

  /** The pending write of a copied row changes nothing but that the row may become keyed. */
  predicate Current(st: Store, row: Row) {
    row.id in st.recs && row.rec in {st.recs[row.id], st.recs[row.id].(keyed := true)}
  }

  /** Connections only gain their peer while a call is looking at the store. */
  predicate Grew(a: Store, b: Store) {
    && a.recs == b.recs
    && (forall c :: c in a.conns ==> c in b.conns)
    && (forall c :: c in a.conns ==> b.conns[c].oob == a.conns[c].oob)
    && (forall c :: c in a.conns && a.conns[c].completed ==> b.conns[c].completed)
  }

  /** The grants are the kept one, the orphans still to do and those that could not be deleted. */
  predicate Holds(st: Store, keep: Row, orphans: seq<Row>, stuck: set<nat>) {
    && Grants(st) == {keep.id} + Ids(orphans) + stuck
    && DistinctIds(orphans) && keep.id !in Ids(orphans) && stuck !! Ids(orphans) && keep.id !in stuck
  }

  predicate Fits(st: Store, call: Call) {
    match call.phase
    case Waiting => true
    case Ended(_) => true
    case Asking => Grew(call.atLock, st)
    case Pruning(keep, orphans, stuck, _) => Holds(st, keep, orphans, stuck)
    case Dropping(keep, _, orphans, stuck, _) => Holds(st, keep, orphans, stuck)
    case Restoring(keep, stuck, _) => Grants(st) == {keep.id} + stuck
    case Rekeying(row) => Grants(st) != {} && Current(st, row)
    case Listing => Grants(st) == {} && Grew(call.atLock, st)
    case Connecting(blind) => Grants(st) == {} && Justified(call.inv, call.atLock, blind)
    case Granting(_, row) => Grants(st) == {} && Current(st, row)
    case Registering(_) => |Grants(st)| == 1
    case Persisting(row) => |Grants(st)| == 1 && Current(st, row)
    case _ => Grants(st) == {}
  }

  /** Only the holder of a mediator's lock is past it. */
  predicate Exclusive(s: State) {
    forall c: nat :: c < |s.calls| && !Idle(s.calls[c].phase) ==> HeldBy(s, s.calls[c].key, c)
  }

  /** All calls are for the mediator `key`. */
  predicate Inv(s: State, key: string) {
    && (forall c :: 0 <= c < |s.calls| ==> s.calls[c].key == key)
    && s.held.Keys <= {key}
    && (key in s.held ==> s.held[key] < |s.calls| && Fits(s.store, s.calls[s.held[key]]))
    && Exclusive(s)
    && (forall i :: 0 <= i < |s.connects| ==>
          Justified(s.connects[i].inv, s.connects[i].atLock, s.connects[i].blind))
  }

  /** How the set of grants may change: it loses some but not all, or goes from none to one. */
  predicate Settles(before: set<nat>, after: set<nat>) {
    if before == {} then |after| <= 1 else after <= before && after != {}
  }

  // ----- one reply -----

  lemma GrantsOfWrite(st: Store, row: Row)
    requires Current(st, row)
    ensures Grants(Write(st, row)) == Grants(st)
  {
  }

  lemma RemoveGrant(st: Store, id: nat)
    ensures Grants(Remove(st, id)) == Grants(st) - {id}
  {
  }

  lemma GrantOne(st: Store, row: Row)
    requires Grants(st) == {} && Current(st, row)
    ensures Grants(Write(st, row.(rec := row.rec.(status := Granted)))) == {row.id}
  {
    var t := Write(st, row.(rec := row.rec.(status := Granted)));
    forall i ensures i in Grants(t) <==> i == row.id {
      if i in st.recs && i != row.id {
        assert i !in Grants(st);
      }
    }
  }

  lemma IdsTail(rows: seq<Row>)
    requires |rows| > 0
    ensures Ids(rows) == {rows[0].id} + Ids(rows[1..])
    ensures DistinctIds(rows) ==> DistinctIds(rows[1..]) && rows[0].id !in Ids(rows[1..])
  {
    forall x ensures x in Ids(rows) <==> x in {rows[0].id} + Ids(rows[1..]) {
      if x in Ids(rows) && x != rows[0].id {
        var i :| 0 <= i < |rows| && rows[i].id == x;
        assert rows[1..][i - 1].id == x;
      }
      if x in Ids(rows[1..]) {
        var i :| 0 <= i < |rows| - 1 && rows[1..][i].id == x;
        assert rows[i + 1].id == x;
      }
    }
  }

  lemma ListedRows(st: Store, order: seq<nat>)
    requires ListsGrants(st, order)
    ensures (forall i :: 0 <= i < |order| ==> order[i] in st.recs)
    ensures Ids(RowsOf(st, order)) == Grants(st) && DistinctIds(RowsOf(st, order))
  {
    assert forall i :: 0 <= i < |order| ==> order[i] in Grants(st);
    var rows := RowsOf(st, order);
    forall g ensures g in Ids(rows) <==> g in Grants(st) {
      if g in Ids(rows) {
        var i :| 0 <= i < |rows| && rows[i].id == g;
        assert g == order[i];
      }
      if g in Grants(st) {
        assert g in order;
        var i :| 0 <= i < |order| && order[i] == g;
        assert rows[i].id == g;
      }
    }
  }

  lemma AskingFits(st: Store, call: Call, r: Reply)
    requires call.phase.Asking? && Fits(st, call)
    ensures var (t, ph) := Advance(st, call.inv, call.phase, r);
            t == st && Fits(t, call.(phase := ph))
  {
    if r.GrantsListed? && ListsGrants(st, r.order) {
      ListedRows(st, r.order);
      var rows := RowsOf(st, r.order);
      if |rows| > 0 {
        IdsTail(rows);
        assert Ids([]) == {};
      }
    }
  }

  lemma PruneOne(st: Store, keep: Row, orphans: seq<Row>, stuck: set<nat>, ok: bool)
    requires |orphans| > 0 && Holds(st, keep, orphans, stuck)
    ensures var t := if ok then Remove(st, orphans[0].id) else st;
            && Holds(t, keep, orphans[1..], if ok then stuck else stuck + {orphans[0].id})
            && keep.id in Grants(t) && Grants(t) <= Grants(st)
  {
    IdsTail(orphans);
    RemoveGrant(st, orphans[0].id);
  }

  lemma SameGrants(st: Store, t: Store)
    requires st.recs == t.recs
    ensures Grants(st) == Grants(t)
  {
  }

  lemma NoOrphans(keep: Row, st: Store, stuck: set<nat>)
    requires Holds(st, keep, [], stuck)
    ensures Grants(st) == {keep.id} + stuck
  {
    assert Ids([]) == {};
  }

  lemma PruningFits(st: Store, call: Call, r: Reply)
    requires call.phase.Pruning? && Fits(st, call)
    ensures var (t, ph) := Advance(st, call.inv, call.phase, r);
            Fits(t, call.(phase := ph)) && Settles(Grants(st), Grants(t))
  {
    assert call.phase.keep.id in Grants(st);
    if r.Done? && |call.phase.orphans| > 0 {
      PruneOne(st, call.phase.keep, call.phase.orphans, call.phase.stuck, r.ok);
    }
  }

  lemma DroppingFits(st: Store, call: Call, r: Reply)
    requires call.phase.Dropping? && Fits(st, call)
    ensures var (t, ph) := Advance(st, call.inv, call.phase, r);
            Fits(t, call.(phase := ph)) && Grants(st) == Grants(t)
  {
    var t := Advance(st, call.inv, call.phase, r).0;
    assert t.recs == st.recs;
    SameGrants(st, t);
    if call.phase.orphans == [] {
      NoOrphans(call.phase.keep, t, call.phase.stuck);
    }
  }

  lemma SavedRequest(st: Store, id: nat, conn: nat)
    requires id !in st.recs
    ensures Grants(st.(recs := st.recs[id := Record(conn, Requested, false)])) == Grants(st)
  {
  }

  lemma ListingFits(st: Store, call: Call, r: Reply)
    requires call.phase.Listing? && Fits(st, call)
    ensures var (t, ph) := Advance(st, call.inv, call.phase, r);
            t == st && Fits(t, call.(phase := ph))
  {
    SameGrants(call.atLock, st);
    if Reusable(call.atLock, call.inv) {
      StillReusable(call.atLock, st, call.inv);
    }
  }

  lemma StillReusable(a: Store, b: Store, inv: Option<string>)
    requires Grew(a, b) && Reusable(a, inv)
    ensures Reusable(b, inv)
  {
    var c :| c in a.conns && Matches(a, inv, c);
    assert Matches(b, inv, c);
  }

  /** The fresh path up to the moment the grant is written. */
  lemma FreshFits(st: Store, call: Call, r: Reply)
    requires Fits(st, call)
    requires call.phase.Connecting? || call.phase.Shaking? || call.phase.Requesting? || call.phase.Exchanging?
    ensures var (t, ph) := Advance(st, call.inv, call.phase, r);
            Fits(t, call.(phase := ph)) && Grants(t) == Grants(st)
  {
    if call.phase.Requesting? && r.Saved? && r.id !in st.recs {
      SavedRequest(st, r.id, call.phase.conn);
    } else {
      SameGrants(st, Advance(st, call.inv, call.phase, r).0);
    }
  }

  lemma WritingFits(st: Store, call: Call, r: Reply)
    requires Fits(st, call)
    requires call.phase.Granting? || call.phase.Registering? || call.phase.Persisting? || call.phase.Rekeying?
    ensures var (t, ph) := Advance(st, call.inv, call.phase, r);
            Fits(t, call.(phase := ph)) && Settles(Grants(st), Grants(t))
  {
    if call.phase.Granting? {
      GrantOne(st, call.phase.row);
    } else if !call.phase.Registering? {
      GrantsOfWrite(st, call.phase.row);
    }
  }

  lemma AdvanceFits(st: Store, call: Call, r: Reply)
    requires Fits(st, call)
    ensures var (t, ph) := Advance(st, call.inv, call.phase, r);
            Fits(t, call.(phase := ph)) && Settles(Grants(st), Grants(t))
  {
    match call.phase
    case Waiting =>
    case Ended(_) =>
    case Asking => AskingFits(st, call, r);
    case Pruning(_, _, _, _) => PruningFits(st, call, r);
    case Dropping(_, _, _, _, _) => DroppingFits(st, call, r);
    case Restoring(_, _, _) =>
    case Listing => ListingFits(st, call, r);
    case Rekeying(_) => WritingFits(st, call, r);
    case Granting(_, _) => WritingFits(st, call, r);
    case Registering(_) => WritingFits(st, call, r);
    case Persisting(_) => WritingFits(st, call, r);
    case _ => FreshFits(st, call, r);
  }

  // ----- one event -----

  lemma CompleteFits(st: Store, call: Call, conn: nat)
    requires Fits(st, call)
    ensures Fits(Complete(st, conn), call) && Grants(Complete(st, conn)) == Grants(st)
  {
    assert Complete(st, conn).recs == st.recs;
  }

  lemma StepExclusive(s: State, e: Event)
    requires Exclusive(s)
    ensures Exclusive(Step(s, e))
  {
  }

  /** The holder's new phase fits the new store. */
  lemma ReactKeeps(s: State, c: nat, r: Reply, key: string)
    requires Inv(s, key) && c < |s.calls| && HeldBy(s, key, c)
    ensures Inv(Reacted(s, c, r), key) && Settles(Grants(s.store), Grants(Reacted(s, c, r).store))
  {
    var call := s.calls[c];
    AdvanceFits(s.store, call, r);
    StepExclusive(s, React(c, r));
    if call.phase.Connecting? && r.Connected? {
      assert Justified(call.inv, call.atLock, call.phase.blind);
    }
  }

  lemma HandshakeKeeps(s: State, conn: nat, key: string)
    requires Inv(s, key)
    ensures var t := s.(store := Complete(s.store, conn));
            Inv(t, key) && Grants(t.store) == Grants(s.store)
  {
    SameGrants(s.store, Complete(s.store, conn));
    if key in s.held {
      CompleteFits(s.store, s.calls[s.held[key]], conn);
    }
  }

  lemma StepKeeps(s: State, e: Event, key: string)
    requires Inv(s, key) && For(e, key)
    ensures Inv(Step(s, e), key) && Settles(Grants(s.store), Grants(Step(s, e).store))
  {
    match e
    case Start(_, _) =>
    case HandshakeDone(conn) => HandshakeKeeps(s, conn, key);
    case Acquire(_) =>
    case Abandon(_) =>
    case React(c, r) =>
      if c < |s.calls| && HeldBy(s, key, c) { ReactKeeps(s, c, r, key); }
  }

  lemma SettlesTrans(a: set<nat>, b: set<nat>, c: set<nat>)
    requires Settles(a, b) && Settles(b, c)
    ensures Settles(a, c)
  {
    if a == {} && b != {} {
      var x :| x in b;
      assert |b - {x}| == 0;
      assert b == {x};
      assert c == {x};
    }
  }

  // ----- every run -----

  /** A call that starts is for the mediator `key`. */
  predicate For(e: Event, key: string) { e.Start? ==> e.key == key }

  predicate AllFor(es: seq<Event>, key: string) { forall i :: 0 <= i < |es| ==> For(es[i], key) }

  /** In every interleaving of calls for one mediator the set of grants goes from none to at most one, or from
      some to a non-empty part of itself. */
  lemma {:induction false} RunKeeps(s: State, es: seq<Event>, key: string)
    requires Inv(s, key) && AllFor(es, key)
    ensures Inv(Run(s, es), key) && Settles(Grants(s.store), Grants(Run(s, es).store))
    decreases |es|
  {
    if |es| > 0 {
      StepKeeps(s, es[0], key);
      RunKeeps(Step(s, es[0]), es[1..], key);
      SettlesTrans(Grants(s.store), Grants(Step(s, es[0]).store), Grants(Run(s, es).store));
    }
  }

  /** Starting from a store with at most one grant there is never a second one. */
  lemma NeverTwoGrants(st: Store, es: seq<Event>, key: string)
    requires |Grants(st)| <= 1 && AllFor(es, key)
    ensures |Grants(Run(Initial(st), es).store)| <= 1
  {
    RunKeeps(Initial(st), es, key);
    var a, b := Grants(st), Grants(Run(Initial(st), es).store);
    if a != {} {
      var x :| x in a;
      assert |a - {x}| == 0;
      assert a == {x};
      assert b == {x};
    }
  }

  lemma {:induction false} RunExclusive(s: State, es: seq<Event>)
    requires Exclusive(s)
    ensures Exclusive(Run(s, es))
    decreases |es|
  {
    if |es| > 0 {
      StepExclusive(s, es[0]);
      RunExclusive(Step(s, es[0]), es[1..]);
    }
  }

  /** In every run, whatever mediators are called, two calls for one mediator are never past its lock
      together. */
  lemma MutualExclusion(st: Store, es: seq<Event>, c: nat, d: nat)
    requires c < |Run(Initial(st), es).calls| && d < |Run(Initial(st), es).calls|
    requires Run(Initial(st), es).calls[c].key == Run(Initial(st), es).calls[d].key
    requires !Idle(Run(Initial(st), es).calls[c].phase) && !Idle(Run(Initial(st), es).calls[d].phase)
    ensures c == d
  {
    RunExclusive(Initial(st), es);
  }

  /** Every out-of-band connect ever made was made by a call that saw no grant on taking the lock, and that
      had no completed connection for its invitation then, unless listing the connections failed. */
  lemma ConnectsJustified(st: Store, es: seq<Event>, key: string, i: nat)
    requires AllFor(es, key) && i < |Run(Initial(st), es).connects|
    ensures var k := Run(Initial(st), es).connects[i];
            Grants(k.atLock) == {} && (k.blind || !Reusable(k.atLock, k.inv))
  {
    RunKeeps(Initial(st), es, key);
  }

  /** Once a grant is stored, no call of any agent connects again, and a grant is there for good. */
  lemma {:induction false} NoConnectAfterGrant(s: State, es: seq<Event>, key: string)
    requires Inv(s, key) && AllFor(es, key) && Grants(s.store) != {}
    ensures Run(s, es).connects == s.connects
    ensures Grants(Run(s, es).store) != {} && Grants(Run(s, es).store) <= Grants(s.store)
    decreases |es|
  {
    if |es| > 0 {
      StepKeeps(s, es[0], key);
      NoConnectAfterGrant(Step(s, es[0]), es[1..], key);
    }
  }

  /** A restore whose deletions all succeeded has left exactly the grant it returns. */
  lemma RestoreHeals(st: Store, es: seq<Event>, key: string, c: nat)
    requires AllFor(es, key) && c < |Run(Initial(st), es).calls|
    requires Run(Initial(st), es).calls[c].phase.Restoring?
    ensures var s := Run(Initial(st), es);
            var ph := s.calls[c].phase;
            ph.keep.id in Grants(s.store) && Grants(s.store) == {ph.keep.id} + ph.stuck
  {
    RunKeeps(Initial(st), es, key);
  }

  // ----- success -----

  /** A reply that ends a call well leaves a grant in the store. */
  lemma SuccessHasGrant(st: Store, call: Call, r: Reply)
    requires Fits(st, call) && !call.phase.Ended?
    ensures var (t, ph) := Advance(st, call.inv, call.phase, r); ph == Ended(true) ==> Grants(t) != {}
  {
    AdvanceFits(st, call, r);
    if call.phase.Restoring? {
      assert call.phase.keep.id in Grants(st);
    } else if call.phase.Registering? || call.phase.Persisting? {
      assert Grants(st) != {};
    }
  }

  predicate SuccessesGranted(s: State) {
    (exists c :: 0 <= c < |s.calls| && s.calls[c].phase == Ended(true)) ==> Grants(s.store) != {}
  }

  lemma StepSuccess(s: State, e: Event, key: string)
    requires Inv(s, key) && For(e, key) && SuccessesGranted(s)
    ensures SuccessesGranted(Step(s, e))
  {
    StepKeeps(s, e, key);
    var t := Step(s, e);
    if c :| 0 <= c < |t.calls| && t.calls[c].phase == Ended(true) && Grants(s.store) == {} {
      assert e.React? && e.c == c && HeldBy(s, key, c);
      SuccessHasGrant(s.store, s.calls[c], e.r);
    }
  }

  /** In every run, once a call has ended well there is a grant in the store. */
  lemma {:induction false} RunSuccess(s: State, es: seq<Event>, key: string)
    requires Inv(s, key) && AllFor(es, key) && SuccessesGranted(s)
    ensures SuccessesGranted(Run(s, es))
    decreases |es|
  {
    if |es| > 0 {
      StepKeeps(s, es[0], key);
      StepSuccess(s, es[0], key);
      RunSuccess(Step(s, es[0]), es[1..], key);
    }
  }

  // ----- restoring -----

  /** The connections of the grants beyond the kept one. */
  function Doomed(lock: Store, keep: nat): set<nat> {
    set g | g in Grants(lock) && g != keep :: lock.recs[g].conn
  }

  predicate ListedRow(lock: Store, row: Row) {
    row.id in Grants(lock) && row.rec == lock.recs[row.id]
  }

  /** The rows are those seen on taking the lock; every usable connection that is not doomed is still usable,
      and every doomed one is gone, could not be deleted, or is still to come. */
  ghost predicate Restores(st: Store, lock: Store, keep: Row, orphans: seq<Row>, now: Option<nat>, left: set<nat>) {
    && ListedRow(lock, keep)
    && (forall i :: 0 <= i < |orphans| ==> ListedRow(lock, orphans[i]) && orphans[i].id != keep.id)
    && (now.Some? ==> now.value in Doomed(lock, keep.id))
    && (forall c :: UsableConn(lock, c) && c !in Doomed(lock, keep.id) ==> UsableConn(st, c))
    && (forall c :: c in Doomed(lock, keep.id) && c in st.conns ==>
          c in left || now == Some(c) || exists i :: 0 <= i < |orphans| && orphans[i].rec.conn == c)
  }

  ghost predicate Tends(st: Store, call: Call) {
    match call.phase
    case Pruning(keep, orphans, _, left) => Restores(st, call.atLock, keep, orphans, None, left)
    case Dropping(keep, conn, orphans, _, left) => Restores(st, call.atLock, keep, orphans, Some(conn), left)
    case Restoring(keep, _, left) => Restores(st, call.atLock, keep, [], None, left)
    case Requesting(conn) => UsableConn(st, conn)
    case Exchanging(conn) => UsableConn(st, conn)
    case Granting(conn, row) => UsableConn(st, conn) && row.rec.conn == conn && row.rec.status != Denied
    case Registering(conn) => UsableConn(st, conn)
    case _ => true
  }

  /** The first grant of the listing is kept, and the others are pruned in its order. */
  lemma KeepsFirst(st: Store, inv: Option<string>, order: seq<nat>)
    requires ListsGrants(st, order) && |order| > 0
    ensures forall i :: 0 <= i < |order| ==> order[i] in st.recs
    ensures var (t, ph) := Advance(st, inv, Asking, GrantsListed(order));
      t == st && ph == NextOrphan(Row(order[0], st.recs[order[0]]), RowsOf(st, order)[1..], {}, {})
  {
  }

  /** Every doomed connection is that of a row after the first. */
  lemma DoomedListed(st: Store, order: seq<nat>, c: nat)
    requires ListsGrants(st, order) && |order| > 0 && c in Doomed(st, order[0])
    ensures exists i :: 0 < i < |order| && order[i] in st.recs && st.recs[order[i]].conn == c
  {
    var g :| g in Grants(st) && g != order[0] && st.recs[g].conn == c;
    assert g in order;
  }

  lemma AskingTends(st: Store, call: Call, r: Reply)
    requires call.phase.Asking? && Fits(st, call)
    ensures var (t, ph) := Advance(st, call.inv, call.phase, r); Tends(t, call.(phase := ph))
  {
    if r.GrantsListed? && ListsGrants(st, r.order) && |r.order| > 0 {
      SameGrants(call.atLock, st);
      KeepsFirst(st, call.inv, r.order);
      var rows := RowsOf(st, r.order);
      AllListed(st, call.atLock, r.order);
      if |rows| == 1 { assert rows[1..] == []; }
    }
  }

  lemma AllListed(st: Store, lock: Store, order: seq<nat>)
    requires ListsGrants(st, order) && |order| > 0 && Grew(lock, st) && Grants(lock) == Grants(st)
    ensures (forall i :: 0 <= i < |order| ==> order[i] in st.recs)
    ensures var rows := RowsOf(st, order); Restores(st, lock, rows[0], rows[1..], None, {})
  {
    assert forall i :: 0 <= i < |order| ==> order[i] in Grants(st);
    var rows := RowsOf(st, order);
    forall c | c in Doomed(lock, rows[0].id) ensures exists i :: 0 <= i < |rows[1..]| && rows[1..][i].rec.conn == c {
      assert c in Doomed(st, order[0]);
      DoomedListed(st, order, c);
      var i :| 0 < i < |order| && order[i] in st.recs && st.recs[order[i]].conn == c;
      assert rows[1..][i - 1] == rows[i];
    }
  }

  lemma PruningTends(st: Store, call: Call, r: Reply)
    requires call.phase.Pruning? && Tends(st, call)
    ensures var (t, ph) := Advance(st, call.inv, call.phase, r); Tends(t, call.(phase := ph))
  {
    if r.Done? && |call.phase.orphans| > 0 {
      var orphans := call.phase.orphans;
      assert ListedRow(call.atLock, orphans[0]);
      assert forall i :: 1 <= i < |orphans| ==> orphans[1..][i - 1] == orphans[i];
    }
  }

  lemma DroppingTends(st: Store, call: Call, r: Reply)
    requires call.phase.Dropping? && Tends(st, call)
    ensures var (t, ph) := Advance(st, call.inv, call.phase, r); Tends(t, call.(phase := ph))
  {
    if r.Done? && |call.phase.orphans| == 0 { assert call.phase.orphans == []; }
  }

  /** No reply to a restoring call makes a connection unusable but that of an orphan seen on taking the lock. */
  lemma AdvanceTends(st: Store, call: Call, r: Reply)
    requires Fits(st, call) && Tends(st, call)
    ensures var (t, ph) := Advance(st, call.inv, call.phase, r); Tends(t, call.(phase := ph))
  {
    if call.phase.Asking? { AskingTends(st, call, r); }
    else if call.phase.Pruning? { PruningTends(st, call, r); }
    else if call.phase.Dropping? { DroppingTends(st, call, r); }
  }

  lemma CompleteTends(st: Store, call: Call, conn: nat)
    requires Tends(st, call)
    ensures Tends(Complete(st, conn), call)
  {
  }

  ghost predicate HolderTends(s: State, key: string) {
    key in s.held && s.held[key] < |s.calls| ==> Tends(s.store, s.calls[s.held[key]])
  }

  lemma StepTends(s: State, e: Event, key: string)
    requires Inv(s, key) && For(e, key) && HolderTends(s, key)
    ensures HolderTends(Step(s, e), key)
  {
    match e
    case Start(_, _) =>
    case HandshakeDone(conn) =>
      if key in s.held { CompleteTends(s.store, s.calls[s.held[key]], conn); }
    case Acquire(_) =>
    case Abandon(_) =>
    case React(c, r) =>
      if c < |s.calls| && HeldBy(s, key, c) { AdvanceTends(s.store, s.calls[c], r); }
  }

  lemma {:induction false} RunTends(s: State, es: seq<Event>, key: string)
    requires Inv(s, key) && AllFor(es, key) && HolderTends(s, key)
    ensures HolderTends(Run(s, es), key)
    decreases |es|
  {
    if |es| > 0 {
      StepKeeps(s, es[0], key);
      StepTends(s, es[0], key);
      RunTends(Step(s, es[0]), es[1..], key);
    }
  }

  /** When the pruning is over, in every run: each connection that was usable on taking the lock and is not an
      orphan's is still usable, so the kept grant's is unless an orphan shared it; and each orphan's connection
      is gone or could not be deleted. */
  lemma RestoreKeepsConnections(st: Store, es: seq<Event>, key: string, c: nat)
    requires AllFor(es, key) && c < |Run(Initial(st), es).calls|
    requires Run(Initial(st), es).calls[c].phase.Restoring?
    ensures var s := Run(Initial(st), es);
      var lock, ph := s.calls[c].atLock, s.calls[c].phase;
      && ListedRow(lock, ph.keep)
      && (forall x :: UsableConn(lock, x) && x !in Doomed(lock, ph.keep.id) ==> UsableConn(s.store, x))
      && (forall x :: x in Doomed(lock, ph.keep.id) && x in s.store.conns ==> x in ph.left)
  {
    RunKeeps(Initial(st), es, key);
    RunTends(Initial(st), es, key);
  }

  // ----- records -----

  /** A record keeps its connection and its key; its status may go from Requested to Granted and no other way. */
  predicate RecordKept(a: Record, b: Record) {
    && a.conn == b.conn && (a.keyed ==> b.keyed)
    && (a.status == b.status || (a.status == Requested && b.status == Granted))
  }

  predicate NewRequest(st: Store, rec: Record) {
    rec.status == Requested && !rec.keyed && UsableConn(st, rec.conn)
  }

  predicate RecordsKept(st: Store, t: Store) {
    && (forall i :: i in st.recs && i in t.recs ==> RecordKept(st.recs[i], t.recs[i]))
    && (forall i :: i in t.recs && i !in st.recs ==> NewRequest(t, t.recs[i]))
    && (forall i :: i in st.recs && i !in t.recs ==> st.recs[i].status == Granted)
  }

  /** What one reply may do to records: keep them, add a request on a completed connection, or remove an orphan
      grant. */
  lemma AdvanceRecords(st: Store, call: Call, r: Reply)
    requires Fits(st, call) && Tends(st, call)
    ensures RecordsKept(st, Advance(st, call.inv, call.phase, r).0)
  {
    var t := Advance(st, call.inv, call.phase, r).0;
    if call.phase.Pruning? && r.Done? && |call.phase.orphans| > 0 {
      PruneRecords(st, call.phase.keep, call.phase.orphans, call.phase.stuck);
    } else if call.phase.Granting? || call.phase.Rekeying? || call.phase.Persisting? {
      WriteRecords(st, call, r);
    } else if call.phase.Requesting? && r.Saved? && r.id !in st.recs {
      assert t.conns == st.conns && NewRequest(t, t.recs[r.id]);
    } else {
      assert t.recs == st.recs;
    }
  }

  lemma PruneRecords(st: Store, keep: Row, orphans: seq<Row>, stuck: set<nat>)
    requires |orphans| > 0 && Holds(st, keep, orphans, stuck)
    ensures RecordsKept(st, Remove(st, orphans[0].id)) && RecordsKept(st, st)
  {
    IdsTail(orphans);
    assert orphans[0].id in Grants(st);
  }

  lemma WriteRecords(st: Store, call: Call, r: Reply)
    requires Fits(st, call) && Tends(st, call) && (call.phase.Granting? || call.phase.Rekeying? || call.phase.Persisting?)
    ensures RecordsKept(st, Advance(st, call.inv, call.phase, r).0)
  {
    assert Current(st, call.phase.row);
  }

  lemma StepRecords(s: State, e: Event, key: string)
    requires Inv(s, key) && For(e, key) && HolderTends(s, key)
    ensures RecordsKept(s.store, Step(s, e).store)
  {
    if e.React? && e.c < |s.calls| && HeldBy(s, key, e.c) {
      AdvanceRecords(s.store, s.calls[e.c], e.r);
    } else {
      assert Step(s, e).store.recs == s.store.recs;
    }
  }

  /** In every run a denied record stays, and stays denied. */
  lemma {:induction false} DeniedStays(s: State, es: seq<Event>, key: string, i: nat)
    requires Inv(s, key) && HolderTends(s, key) && AllFor(es, key)
    requires i in s.store.recs && s.store.recs[i].status == Denied
    ensures i in Run(s, es).store.recs && Run(s, es).store.recs[i].status == Denied
    decreases |es|
  {
    if |es| > 0 {
      StepKeeps(s, es[0], key);
      StepTends(s, es[0], key);
      StepRecords(s, es[0], key);
      DeniedStays(Step(s, es[0]), es[1..], key, i);
    }
  }

  predicate HasKeep(ph: Phase) { ph.Pruning? || ph.Dropping? || ph.Restoring? }

  /** A restore on its way: nothing it deletes is the kept grant's connection. */
  predicate OnItsWay(call: Call) {
    || call.phase.Rekeying?
    || call.phase == Ended(true)
    || (HasKeep(call.phase) && UsableConn(call.atLock, call.phase.keep.rec.conn)
        && call.phase.keep.rec.conn !in Doomed(call.atLock, call.phase.keep.id))
  }

  /** The listing puts a restore on its way when the first grant's connection was usable on taking the lock and
      no other grant shares it. */
  lemma RestoreStarts(st: Store, call: Call, order: seq<nat>)
    requires call.phase.Asking? && Fits(st, call) && ListsGrants(st, order) && |order| > 0
    requires order[0] in Grants(call.atLock) && UsableConn(call.atLock, call.atLock.recs[order[0]].conn)
    requires forall g :: g in Grants(call.atLock) && g != order[0] ==> call.atLock.recs[g].conn != call.atLock.recs[order[0]].conn
    ensures OnItsWay(call.(phase := Advance(st, call.inv, Asking, GrantsListed(order)).1))
  {
    KeepsFirst(st, call.inv, order);
  }

  lemma StaysOnItsWay(st: Store, call: Call, r: Reply)
    requires OnItsWay(call) && Tends(st, call) && !r.Stop?
    ensures OnItsWay(call.(phase := Advance(st, call.inv, call.phase, r).1))
  {
  }

  lemma StepOnItsWay(s: State, e: Event, key: string, c: nat)
    requires Inv(s, key) && HolderTends(s, key) && c < |s.calls| && OnItsWay(s.calls[c]) && e != React(c, Stop)
    ensures c < |Step(s, e).calls| && OnItsWay(Step(s, e).calls[c])
  {
    if e.React? && e.c == c && HeldBy(s, key, c) {
      StaysOnItsWay(s.store, s.calls[c], e.r);
    }
  }

  /** Unless it is stopped, such a restore cannot end in failure, whatever the deletions and the other calls do. */
  lemma {:induction false} RestoreSucceeds(s: State, es: seq<Event>, key: string, c: nat)
    requires Inv(s, key) && HolderTends(s, key) && AllFor(es, key)
    requires c < |s.calls| && OnItsWay(s.calls[c])
    requires forall i :: 0 <= i < |es| ==> es[i] != React(c, Stop)
    ensures c < |Run(s, es).calls| && OnItsWay(Run(s, es).calls[c])
    decreases |es|
  {
    if |es| > 0 {
      StepKeeps(s, es[0], key);
      StepTends(s, es[0], key);
      StepOnItsWay(s, es[0], key, c);
      RestoreSucceeds(Step(s, es[0]), es[1..], key, c);
    }
  }

  // ----- the lock table -----

  class Lock {
    constructor () { }
  }

  /** One lock per mediator key for the life of the process. */
  class LockTable {
    var locks: map<string, Lock>

    ghost predicate Valid() reads this {
      forall a, b :: a in locks && b in locks && locks[a] == locks[b] ==> a == b
    }

    constructor ()
      ensures Valid() && locks == map[]
    {
      locks := map[];
    }

    /** Callers meet at the same lock if and only if they name the same key, and no entry is ever replaced. */
    method LockFor(key: string) returns (lock: Lock)
      requires Valid()
      modifies this
      ensures Valid()
      ensures locks.Keys == old(locks.Keys) + {key} && locks[key] == lock
      ensures forall k :: k in old(locks) ==> locks[k] == old(locks)[k]
      ensures forall k :: k in old(locks) ==> (old(locks)[k] == lock <==> k == key)
    {
      if key !in locks {
        var l := new Lock();
        locks := locks[key := l];
      }
      lock := locks[key];
    }
  }
}
