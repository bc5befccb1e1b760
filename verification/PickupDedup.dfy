/** Pickup deliveries: attachments are dispatched one by one, and a set of processed message ids shared by
    every concurrent delivery keeps a message from being dispatched twice. */
module PickupDedup {
  import opened Wrappers

  /** A member of a JSON object, as far as the code looks at it. */
  datatype Member = Absent | Text(text: string) | NotText

  /** `decoded` is what base64 and UTF-8 decoding make of data.base64 when that member is a string; `json`
      is data.json printed again. */
  datatype Attachment = Attachment(atId: Member, id: Member, base64: Member, decoded: Option<string>, json: Option<string>)

  /** "@id" hides "id" even when it is not a string. */
  function RealId(a: Attachment): Option<string> {
    var m := if a.atId.Absent? then a.id else a.atId;
    if m.Text? then Some(m.text) else None
  }

  const UNKNOWN := "unknown"

  function MessageId(a: Attachment): string {
    if RealId(a).Some? then RealId(a).value else UNKNOWN
  }

  /** What goes to the inbound handler, if anything can. */
  function Payload(a: Attachment): Option<string> {
    if a.base64.Text? then a.decoded else a.json
  }

  /** The ids to acknowledge. */
  function AckIds(atts: seq<Attachment>): seq<string> {
    if |atts| == 0 then []
    else if RealId(atts[0]).Some? && RealId(atts[0]).value != UNKNOWN then [RealId(atts[0]).value] + AckIds(atts[1..])
    else AckIds(atts[1..])
  }

  // ----- concurrent deliveries -----

  datatype Phase = Opening | Ready | Passed | InFlight | Finished | Failed

  /** One delivery being processed: `next` is the attachment at hand, `marked` the ids this delivery has
      marked, `count` its processed counter. */
  datatype Call = Call(atts: seq<Attachment>, next: nat, phase: Phase, marked: seq<string>, count: nat)

  /** `marks` and `log` are the histories of marked and of dispatched ids. */
  datatype State = State(processed: set<string>, marks: seq<string>, log: seq<string>, calls: seq<Call>)

  datatype Op =
    | Open(atts: seq<Attachment>)
    | Lookup(c: nat, ok: bool)      // the mediator connection is found or not
    | Look(c: nat)                  // is_message_processed
    | Mark(c: nat)                  // mark_message_processed, decode, dispatch
    | Finish(c: nat, ok: bool)      // the handler is back

  predicate At(s: State, c: nat, ph: Phase) {
    c < |s.calls| && s.calls[c].phase == ph
  }

  predicate Pending(call: Call) { call.phase == Passed || call.phase == InFlight }

  ghost predicate Sane(call: Call) {
    call.next <= |call.atts| && (Pending(call) ==> call.next < |call.atts|)
  }

  function With(s: State, c: nat, call: Call): State
    requires c < |s.calls|
  {
    s.(calls := s.calls[c := call])
  }

  function Step(s: State, op: Op): State {
    match op
    case Open(atts) =>
      s.(calls := s.calls + [Call(atts, 0, if |atts| == 0 then Finished else Opening, [], 0)])
    case Lookup(c, ok) =>
      if At(s, c, Opening) then With(s, c, s.calls[c].(phase := if ok then Ready else Failed)) else s
    case Look(c) =>
      if !At(s, c, Ready) then s
      else With(s, c, Looked(s.processed, s.calls[c]))
    case Mark(c) =>
      if !At(s, c, Passed) || s.calls[c].next >= |s.calls[c].atts| then s
      else
        var a := s.calls[c].atts[s.calls[c].next];
        With(s, c, Marked(s.calls[c], a)).(
          processed := s.processed + {MessageId(a)},
          marks := s.marks + [MessageId(a)],
          log := if Payload(a).Some? then s.log + [MessageId(a)] else s.log)
    case Finish(c, ok) =>
      if At(s, c, InFlight) then
        var call := s.calls[c];
        With(s, c, call.(phase := Ready, next := call.next + 1, count := if ok then call.count + 1 else call.count))
      else s
  }

  function Looked(processed: set<string>, call: Call): Call {
    if call.next >= |call.atts| then call.(phase := Finished)
    else if MessageId(call.atts[call.next]) in processed then call.(next := call.next + 1)
    else call.(phase := Passed)
  }

  function Marked(call: Call, a: Attachment): Call {
    var m := call.(marked := call.marked + [MessageId(a)]);
    if Payload(a).Some? then m.(phase := InFlight) else m.(phase := Ready, next := call.next + 1)
  }

  function Run(s: State, ops: seq<Op>): State
    decreases |ops|
  {
    if |ops| == 0 then s else Run(Step(s, ops[0]), ops[1..])
  }

  function Initial(processed: set<string>): State { State(processed, [], [], []) }

  // ----- which runs -----

  /** There is no await between looking an id up and marking it: a call that passed the look-up moves next. */
  ghost predicate Cooperative(s: State, ops: seq<Op>)
    decreases |ops|
  {
    |ops| > 0 ==>
      && (forall c: nat :: At(s, c, Passed) ==> ops[0] == Mark(c))
      && Cooperative(Step(s, ops[0]), ops[1..])
  }

  /** Call c has looked id x up and not marked it yet; with `loud`, its attachment also has a payload. */
  predicate PassedOn(s: State, c: nat, x: string, loud: bool) {
    && At(s, c, Passed) && s.calls[c].next < |s.calls[c].atts|
    && var a := s.calls[c].atts[s.calls[c].next];
    MessageId(a) == x && (loud ==> Payload(a).Some?)
  }

  /** No two calls are between look-up and mark on the same id. */
  ghost predicate Apart(s: State, loud: bool) {
    forall c: nat, d: nat, x :: PassedOn(s, c, x, loud) && PassedOn(s, d, x, loud) ==> c == d
  }

  /** The schedule keeps them apart in each of its states. */
  ghost predicate Separate(s: State, ops: seq<Op>, loud: bool)
    decreases |ops|
  {
    Apart(s, loud) && (|ops| > 0 ==> Separate(Step(s, ops[0]), ops[1..], loud))
  }

  /** Every call that passed a look-up has gone on to mark. */
  ghost predicate Quiet(s: State) { forall d: nat :: !At(s, d, Passed) }

  /** The ids dispatched, or all ids marked. */
  function History(s: State, loud: bool): seq<string> { if loud then s.log else s.marks }

  predicate NoRepeat(ids: seq<string>) {
    forall i, j :: 0 <= i < j < |ids| ==> ids[i] != ids[j]
  }

  // ----- what every run keeps -----

  /** Each id a delivery has gone past is in the set, and it counts at most the ids it marked itself. */
  ghost predicate CallKeeps(processed: set<string>, call: Call) {
    && Sane(call)
    && (forall i :: 0 <= i < call.next ==> MessageId(call.atts[i]) in processed)
    && (call.phase == InFlight ==> MessageId(call.atts[call.next]) in processed)
    && (forall i :: 0 <= i < |call.marked| ==> call.marked[i] in processed)
    && (call.phase == Finished ==> call.next == |call.atts|)
    && call.count + Flying(call) <= |call.marked|
  }

  function Flying(call: Call): nat { if call.phase == InFlight then 1 else 0 }

  /** Dispatches finished well, over all deliveries, and those under way. */
  function Total(calls: seq<Call>): nat {
    if |calls| == 0 then 0 else calls[0].count + Flying(calls[0]) + Total(calls[1..])
  }

  ghost predicate Keeps(s: State) {
    && (forall c :: 0 <= c < |s.calls| ==> CallKeeps(s.processed, s.calls[c]))
    && (forall i :: 0 <= i < |s.marks| ==> s.marks[i] in s.processed)
    && Total(s.calls) <= |s.log|
  }

  lemma {:induction false} TotalUpdate(calls: seq<Call>, c: nat, call: Call)
    requires c < |calls|
    ensures Total(calls[c := call]) - call.count - Flying(call) == Total(calls) - calls[c].count - Flying(calls[c])
  {
    if c > 0 {
      TotalUpdate(calls[1..], c - 1, call);
      assert calls[c := call][1..] == calls[1..][c - 1 := call];
    } else {
      assert calls[0 := call][1..] == calls[1..];
    }
  }

  lemma {:induction false} TotalSnoc(calls: seq<Call>, call: Call)
    ensures Total(calls + [call]) == Total(calls) + call.count + Flying(call)
  {
    if |calls| > 0 {
      TotalSnoc(calls[1..], call);
      assert (calls + [call])[1..] == calls[1..] + [call];
    } else {
      assert calls + [call] == [call] && [call][1..] == [];
    }
  }

  /** One call changes and the set grows: the others stay as they are. */
  lemma UpdateKeeps(s: State, c: nat, call: Call, t: State)
    requires Keeps(s) && c < |s.calls| && t.calls == s.calls[c := call]
    requires s.processed <= t.processed && CallKeeps(t.processed, call)
    requires forall i :: 0 <= i < |t.marks| ==> t.marks[i] in t.processed
    requires call.count + Flying(call) + |s.log| <= s.calls[c].count + Flying(s.calls[c]) + |t.log|
    ensures Keeps(t)
  {
    TotalUpdate(s.calls, c, call);
    forall d | 0 <= d < |t.calls| ensures CallKeeps(t.processed, t.calls[d]) {
      if d != c { assert CallKeeps(s.processed, s.calls[d]); }
    }
  }

  lemma LookedKeeps(processed: set<string>, call: Call)
    requires CallKeeps(processed, call) && call.phase == Ready
    ensures CallKeeps(processed, Looked(processed, call))
  {
  }

  lemma MarkedKeeps(processed: set<string>, call: Call)
    requires CallKeeps(processed, call) && call.phase == Passed && call.next < |call.atts|
    ensures var a := call.atts[call.next]; CallKeeps(processed + {MessageId(a)}, Marked(call, a))
  {
  }

  lemma OpenKeeps(s: State, atts: seq<Attachment>)
    requires Keeps(s)
    ensures Keeps(Step(s, Open(atts)))
  {
    TotalSnoc(s.calls, Call(atts, 0, if |atts| == 0 then Finished else Opening, [], 0));
  }

  lemma FinishKeeps(s: State, c: nat, ok: bool)
    requires Keeps(s) && At(s, c, InFlight)
    ensures Keeps(Step(s, Finish(c, ok)))
  {
    var call := s.calls[c];
    UpdateKeeps(s, c, Step(s, Finish(c, ok)).calls[c], Step(s, Finish(c, ok)));
  }

  lemma StepKeeps(s: State, op: Op)
    requires Keeps(s)
    ensures Keeps(Step(s, op)) && s.processed <= Step(s, op).processed
  {
    var t := Step(s, op);
    if op.Open? {
      OpenKeeps(s, op.atts);
    } else if op.Look? {
      if At(s, op.c, Ready) {
        LookedKeeps(s.processed, s.calls[op.c]);
        UpdateKeeps(s, op.c, t.calls[op.c], t);
      }
    } else if op.Mark? {
      if At(s, op.c, Passed) {
        MarkedKeeps(s.processed, s.calls[op.c]);
        UpdateKeeps(s, op.c, t.calls[op.c], t);
      }
    } else if op.Finish? {
      if At(s, op.c, InFlight) { FinishKeeps(s, op.c, op.ok); }
    } else if At(s, op.c, Opening) {
      UpdateKeeps(s, op.c, t.calls[op.c], t);
    }
  }

  lemma {:induction false} RunKeeps(s: State, ops: seq<Op>)
    requires Keeps(s)
    ensures Keeps(Run(s, ops)) && s.processed <= Run(s, ops).processed
    decreases |ops|
  {
    if |ops| > 0 {
      StepKeeps(s, ops[0]);
      RunKeeps(Step(s, ops[0]), ops[1..]);
    }
  }

  // ----- dispatched at most once -----

  /** The id that a step marks. */
  predicate Marks(s: State, op: Op, x: string, loud: bool) {
    op.Mark? && PassedOn(s, op.c, x, loud)
  }

  lemma StepHistory(s: State, op: Op, loud: bool)
    ensures forall x :: Marks(s, op, x, loud) ==> History(Step(s, op), loud) == History(s, loud) + [x]
    ensures (forall x :: !Marks(s, op, x, loud)) ==> History(Step(s, op), loud) == History(s, loud)
    ensures s.processed <= Step(s, op).processed
    ensures forall x :: Marks(s, op, x, loud) ==> x in Step(s, op).processed
  {
    if op.Mark? && At(s, op.c, Passed) && s.calls[op.c].next < |s.calls[op.c].atts| {
      var x := MessageId(s.calls[op.c].atts[s.calls[op.c].next]);
      assert Marks(s, op, x, false);
      if loud && Payload(s.calls[op.c].atts[s.calls[op.c].next]).Some? { assert Marks(s, op, x, true); }
    }
  }

  /** Only the call that steps changes. */
  lemma OthersStay(s: State, op: Op)
    requires !op.Open?
    ensures |Step(s, op).calls| == |s.calls|
    ensures forall d: nat :: d < |s.calls| && d != op.c ==> Step(s, op).calls[d] == s.calls[d]
    ensures forall d: nat :: d != op.c && At(Step(s, op), d, Passed) ==> At(s, d, Passed)
  {
  }

  /** A call is between look-up and mark if it was so before and did not mark, or if it has just looked up a
      new id. */
  lemma StepPassed(s: State, op: Op, c: nat, x: string, loud: bool)
    ensures PassedOn(Step(s, op), c, x, loud) ==> op != Mark(c)
    ensures PassedOn(Step(s, op), c, x, loud) ==> PassedOn(s, c, x, loud) || (op == Look(c) && x !in s.processed)
    ensures PassedOn(s, c, x, loud) && op != Mark(c) ==> PassedOn(Step(s, op), c, x, loud)
  {
    if !op.Open? { OthersStay(s, op); }
  }

  /** What has been recorded is new and recorded once, and nothing pending has been recorded. */
  ghost predicate Once(s: State, initial: set<string>, loud: bool) {
    && NoRepeat(History(s, loud))
    && (forall x :: x in History(s, loud) ==> x in s.processed && x !in initial)
    && initial <= s.processed
    && (forall c: nat, x :: PassedOn(s, c, x, loud) ==> x !in History(s, loud) && x !in initial)
  }

  lemma StepOnce(s: State, op: Op, initial: set<string>, loud: bool)
    requires Once(s, initial, loud) && Apart(s, loud)
    ensures Once(Step(s, op), initial, loud)
  {
    var t := Step(s, op);
    StepHistory(s, op, loud);
    forall c: nat, x | PassedOn(t, c, x, loud) ensures x !in History(t, loud) && x !in initial {
      StepPassed(s, op, c, x, loud);
      if y :| Marks(s, op, y, loud) {
        assert PassedOn(s, c, x, loud) && PassedOn(s, op.c, y, loud);
      }
    }
    if y :| Marks(s, op, y, loud) {
      assert y !in History(s, loud);
    }
  }

  lemma {:induction false} RunOnce(s: State, ops: seq<Op>, initial: set<string>, loud: bool)
    requires Once(s, initial, loud) && Separate(s, ops, loud)
    ensures Once(Run(s, ops), initial, loud)
    decreases |ops|
  {
    if |ops| > 0 {
      StepOnce(s, ops[0], initial, loud);
      RunOnce(Step(s, ops[0]), ops[1..], initial, loud);
    }
  }

  lemma {:induction false} DistinctSize(ids: seq<string>, all: set<string>)
    requires NoRepeat(ids) && forall x :: x in ids ==> x in all
    ensures |ids| <= |all|
  {
    if |ids| > 0 {
      var n := |ids| - 1;
      forall x | x in ids[..n] ensures x in all - {ids[n]} {
        assert x in ids;
      }
      DistinctSize(ids[..n], all - {ids[n]});
      assert ids[n] in all;
      assert |all - {ids[n]}| == |all| - 1;
    }
  }

  /** In every run that keeps deliveries with a payload apart, no id is dispatched twice and none that was
      processed before, and all deliveries together report at most as many messages as the set has grown by. */
  lemma AtMostOnce(processed: set<string>, ops: seq<Op>)
    requires Separate(Initial(processed), ops, true)
    ensures var s := Run(Initial(processed), ops);
            && NoRepeat(s.log)
            && (forall x :: x in s.log ==> x in s.processed && x !in processed)
            && processed <= s.processed
            && Total(s.calls) + |processed| <= |s.processed|
  {
    var s := Run(Initial(processed), ops);
    RunOnce(Initial(processed), ops, processed, true);
    RunKeeps(Initial(processed), ops);
    DistinctSize(s.log, s.processed - processed);
    assert |s.processed - processed| == |s.processed| - |processed|;
  }

  /** Runs interleaved at the awaits alone keep all deliveries apart. */
  lemma {:induction false} CooperativeIsSeparate(s: State, ops: seq<Op>, loud: bool)
    requires Cooperative(s, ops) && forall c: nat, d: nat :: At(s, c, Passed) && At(s, d, Passed) ==> c == d
    ensures Separate(s, ops, loud)
    decreases |ops|
  {
    if |ops| > 0 {
      var t := Step(s, ops[0]);
      if !ops[0].Open? {
        OthersStay(s, ops[0]);
      } else {
        assert forall d: nat :: At(t, d, Passed) ==> At(s, d, Passed);
      }
      CooperativeIsSeparate(t, ops[1..], loud);
    }
  }

  /** Each delivery by itself, in any run at all: when it is over, every id it acknowledges is in the set,
      and it counts at most the ids it marked. */
  lemma AcknowledgedIsProcessed(processed: set<string>, ops: seq<Op>, c: nat)
    requires At(Run(Initial(processed), ops), c, Finished)
    ensures var s := Run(Initial(processed), ops);
            && (forall i :: 0 <= i < |AckIds(s.calls[c].atts)| ==> AckIds(s.calls[c].atts)[i] in s.processed)
            && s.calls[c].count <= |s.calls[c].marked|
  {
    RunKeeps(Initial(processed), ops);
    var s := Run(Initial(processed), ops);
    var atts := s.calls[c].atts;
    forall i | 0 <= i < |AckIds(atts)| ensures AckIds(atts)[i] in s.processed {
      var j := AckOrigin(atts, i);
    }
  }

  /** The attachment an acknowledged id comes from. */
  lemma {:induction false} AckOrigin(atts: seq<Attachment>, i: nat) returns (j: nat)
    requires i < |AckIds(atts)|
    ensures j < |atts| && MessageId(atts[j]) == AckIds(atts)[i] && AckIds(atts)[i] != UNKNOWN
  {
    if RealId(atts[0]).Some? && RealId(atts[0]).value != UNKNOWN {
      if i == 0 {
        j := 0;
      } else {
        j := AckOrigin(atts[1..], i - 1);
        j := j + 1;
      }
    } else {
      j := AckOrigin(atts[1..], i);
      j := j + 1;
    }
  }

  /** Order and repetitions survive: the acknowledgements of a delivery are those of its parts, one after
      the other. */
  lemma {:induction false} AckConcat(a: seq<Attachment>, b: seq<Attachment>)
    ensures AckIds(a + b) == AckIds(a) + AckIds(b)
  {
    if |a| > 0 {
      AckConcat(a[1..], b);
      assert (a + b)[1..] == a[1..] + b;
    } else {
      assert a + b == b;
    }
  }

  /** Each real id is acknowledged as often as it was delivered. */
  lemma {:induction false} AckCounts(atts: seq<Attachment>, id: string)
    ensures multiset(AckIds(atts))[id] ==
            if id == UNKNOWN then 0 else multiset(seq(|atts|, i requires 0 <= i < |atts| => RealId(atts[i])))[Some(id)]
  {
    var ids := seq(|atts|, i requires 0 <= i < |atts| => RealId(atts[i]));
    if |atts| > 0 {
      var rest := atts[1..];
      var tail := seq(|rest|, i requires 0 <= i < |rest| => RealId(rest[i]));
      AckCounts(rest, id);
      assert ids == [RealId(atts[0])] + tail;
      if RealId(atts[0]).Some? && RealId(atts[0]).value != UNKNOWN {
        assert AckIds(atts) == [RealId(atts[0]).value] + AckIds(rest);
      }
    }
  }

  // ----- exactly when ids are dispatched once -----

  lemma {:induction false} HistoryGrows(s: State, ops: seq<Op>, loud: bool)
    ensures |History(s, loud)| <= |History(Run(s, ops), loud)|
    ensures History(Run(s, ops), loud)[..|History(s, loud)|] == History(s, loud)
    decreases |ops|
  {
    if |ops| > 0 {
      var t := Step(s, ops[0]);
      HistoryGrows(t, ops[1..], loud);
      StepHistory(s, ops[0], loud);
      var h := History(Run(s, ops), loud);
      assert h[..|History(s, loud)|] == h[..|History(t, loud)|][..|History(s, loud)|];
    }
  }

  lemma RepeatStays(s: State, ops: seq<Op>, loud: bool)
    requires !NoRepeat(History(s, loud))
    ensures !NoRepeat(History(Run(s, ops), loud))
  {
    HistoryGrows(s, ops, loud);
    var i, j :| 0 <= i < j < |History(s, loud)| && History(s, loud)[i] == History(s, loud)[j];
    var h := History(Run(s, ops), loud);
    assert h[i] == h[..|History(s, loud)|][i] && h[j] == h[..|History(s, loud)|][j];
  }

  /** A call that passed on an id that is recorded by now, and still marks, records it again. */
  lemma {:induction false} SecondMark(s: State, ops: seq<Op>, c: nat, x: string, loud: bool)
    requires PassedOn(s, c, x, loud) && x in History(s, loud) && Quiet(Run(s, ops))
    ensures !NoRepeat(History(Run(s, ops), loud))
    decreases |ops|
  {
    if |ops| > 0 {
      var t := Step(s, ops[0]);
      StepHistory(s, ops[0], loud);
      StepPassed(s, ops[0], c, x, loud);
      if ops[0] == Mark(c) {
        assert Marks(s, ops[0], x, loud);
        var i :| 0 <= i < |History(s, loud)| && History(s, loud)[i] == x;
        assert History(t, loud)[i] == History(t, loud)[|History(s, loud)|];
        RepeatStays(t, ops[1..], loud);
      } else {
        assert History(t, loud)[..|History(s, loud)|] == History(s, loud);
        SecondMark(t, ops[1..], c, x, loud);
      }
    }
  }

  /** Two calls between look-up and mark on one id both record it, sooner or later. */
  lemma {:induction false} OverlapRepeats(s: State, ops: seq<Op>, c: nat, d: nat, x: string, loud: bool)
    requires c != d && PassedOn(s, c, x, loud) && PassedOn(s, d, x, loud) && Quiet(Run(s, ops))
    ensures !NoRepeat(History(Run(s, ops), loud))
    decreases |ops|
  {
    if |ops| > 0 {
      var t := Step(s, ops[0]);
      StepHistory(s, ops[0], loud);
      StepPassed(s, ops[0], c, x, loud);
      StepPassed(s, ops[0], d, x, loud);
      if ops[0] == Mark(c) {
        assert Marks(s, ops[0], x, loud);
        SecondMark(t, ops[1..], d, x, loud);
      } else if ops[0] == Mark(d) {
        assert Marks(s, ops[0], x, loud);
        SecondMark(t, ops[1..], c, x, loud);
      } else {
        OverlapRepeats(t, ops[1..], c, d, x, loud);
      }
    }
  }

  lemma {:induction false} NotSeparateRepeats(s: State, ops: seq<Op>, loud: bool)
    requires !Separate(s, ops, loud) && Quiet(Run(s, ops))
    ensures !NoRepeat(History(Run(s, ops), loud))
    decreases |ops|
  {
    if !Apart(s, loud) {
      var c: nat, d: nat, x :| PassedOn(s, c, x, loud) && PassedOn(s, d, x, loud) && c != d;
      OverlapRepeats(s, ops, c, d, x, loud);
    } else {
      NotSeparateRepeats(Step(s, ops[0]), ops[1..], loud);
    }
  }

  /** On any threads, in every run in which each call that passed a look-up goes on to mark: every id is
      dispatched at most once if and only if no two calls with a payload are ever between look-up and mark
      on the same id; and likewise for marking, payload or not. */
  lemma OnceIffSeparate(processed: set<string>, ops: seq<Op>, loud: bool)
    requires Quiet(Run(Initial(processed), ops))
    ensures NoRepeat(History(Run(Initial(processed), ops), loud)) <==> Separate(Initial(processed), ops, loud)
  {
    if Separate(Initial(processed), ops, loud) {
      RunOnce(Initial(processed), ops, processed, loud);
    } else {
      NotSeparateRepeats(Initial(processed), ops, loud);
    }
  }

  /** On two threads the look-ups of one id may both come first; then it is dispatched twice. */
  lemma RacingDispatch(a: Attachment)
    requires Payload(a).Some?
    ensures Run(Initial({}), [Open([a]), Open([a]), Lookup(0, true), Lookup(1, true),
                              Look(0), Look(1), Mark(0), Mark(1)]).log == [MessageId(a), MessageId(a)]
  {
    RacingSteps(a);
    RunCons(Initial({}), Open([a]), [Open([a]), Lookup(0, true), Lookup(1, true), Look(0), Look(1), Mark(0), Mark(1)]);
    RunCons(Two(a, Opening, Opening).(calls := [First(a, Opening)]), Open([a]),
            [Lookup(0, true), Lookup(1, true), Look(0), Look(1), Mark(0), Mark(1)]);
    RunCons(Two(a, Opening, Opening), Lookup(0, true), [Lookup(1, true), Look(0), Look(1), Mark(0), Mark(1)]);
    RunCons(Two(a, Ready, Opening), Lookup(1, true), [Look(0), Look(1), Mark(0), Mark(1)]);
    RunCons(Two(a, Ready, Ready), Look(0), [Look(1), Mark(0), Mark(1)]);
    RunCons(Two(a, Passed, Ready), Look(1), [Mark(0), Mark(1)]);
    RunCons(Two(a, Passed, Passed), Mark(0), [Mark(1)]);
    RunCons(Step(Two(a, Passed, Passed), Mark(0)), Mark(1), []);
  }

  function First(a: Attachment, ph: Phase): Call { Call([a], 0, ph, [], 0) }

  function Two(a: Attachment, p: Phase, q: Phase): State { State({}, [], [], [First(a, p), First(a, q)]) }

  lemma RacingSteps(a: Attachment)
    requires Payload(a).Some?
    ensures Step(Initial({}), Open([a])) == Two(a, Opening, Opening).(calls := [First(a, Opening)])
    ensures Step(Two(a, Opening, Opening).(calls := [First(a, Opening)]), Open([a])) == Two(a, Opening, Opening)
    ensures Step(Two(a, Opening, Opening), Lookup(0, true)) == Two(a, Ready, Opening)
    ensures Step(Two(a, Ready, Opening), Lookup(1, true)) == Two(a, Ready, Ready)
    ensures Step(Two(a, Ready, Ready), Look(0)) == Two(a, Passed, Ready)
    ensures Step(Two(a, Passed, Ready), Look(1)) == Two(a, Passed, Passed)
    ensures Step(Step(Two(a, Passed, Passed), Mark(0)), Mark(1)).log == [MessageId(a), MessageId(a)]
  {
  }

  lemma RunCons(s: State, op: Op, ops: seq<Op>)
    ensures Run(s, [op] + ops) == Run(Step(s, op), ops)
    ensures ops == [] ==> Run(s, [op] + ops) == Step(s, op)
  {
    assert ([op] + ops)[1..] == ops;
  }

  // ----- one delivery without interruption -----

  datatype Delivery = Delivery(processed: set<string>, dispatched: seq<string>, count: nat)

  /** Each id that is new when it comes up is marked; with a payload it is dispatched, and counted if the
      handler accepts it. */
  function Deliver(processed: set<string>, atts: seq<Attachment>, handle: string -> bool): Delivery
    decreases |atts|
  {
    if |atts| == 0 then Delivery(processed, [], 0)
    else
      var id := MessageId(atts[0]);
      if id in processed then Deliver(processed, atts[1..], handle)
      else
        var rest := Deliver(processed + {id}, atts[1..], handle);
        if Payload(atts[0]).None? then rest
        else Delivery(rest.processed, [id] + rest.dispatched, (if handle(Payload(atts[0]).value) then 1 else 0) + rest.count)
  }

  /** The agent's part of the state: the shared set and the calls to its handler. */
  class Agent {
    var processed: set<string>
    var dispatched: seq<string>

    constructor ()
      ensures processed == {} && dispatched == []
    {
      processed, dispatched := {}, [];
    }

    // Without a mediator connection the delivery fails and nothing changes;
    // an empty delivery does not even look for it.
    method ProcessPickupDelivery(atts: seq<Attachment>, connected: bool, handle: string -> bool)
      returns (ok: bool, count: nat, acks: seq<string>)
      modifies this
      ensures ok <==> connected || |atts| == 0
      ensures ok ==> var d := Deliver(old(processed), atts, handle);
                     && processed == d.processed
                     && dispatched == old(dispatched) + d.dispatched
                     && count == d.count
                     && acks == AckIds(atts)
      ensures !ok ==> processed == old(processed) && dispatched == old(dispatched)
    {
      if |atts| == 0 {
        return true, 0, [];
      }
      acks := AckIds(atts);
      count := 0;
      if !connected {
        return false, 0, [];
      }
      ghost var all := Deliver(processed, atts, handle);
      for i := 0 to |atts|
        invariant var d := Deliver(processed, atts[i..], handle);
                  && all.processed == d.processed
                  && old(dispatched) + all.dispatched == dispatched + d.dispatched
                  && all.count == count + d.count
      {
        assert atts[i..][0] == atts[i] && atts[i..][1..] == atts[i + 1..];
        var id := MessageId(atts[i]);
        if id in processed {
          continue;
        }
        processed := processed + {id};
        if Payload(atts[i]).None? {
          continue;
        }
        dispatched := dispatched + [id];
        if handle(Payload(atts[i]).value) {
          count := count + 1;
        }
      }
      ok := true;
    }
  }

  /** The dispatches of one delivery are the first occurrences of the ids that were not processed before, as
      far as they have a payload. */
  lemma {:induction false} DeliverExact(processed: set<string>, atts: seq<Attachment>, handle: string -> bool, id: string)
    ensures var d := Deliver(processed, atts, handle);
            && (id in d.processed <==> id in processed || exists i :: 0 <= i < |atts| && MessageId(atts[i]) == id)
            && (id in d.dispatched <==> id !in processed && exists i: nat :: FirstWithPayload(atts, id, i))
            && NoRepeat(d.dispatched)
            && d.count <= |d.dispatched|
    decreases |atts|
  {
    if |atts| > 0 {
      var first := MessageId(atts[0]);
      var seen := processed + {first};
      DeliverExact(seen, atts[1..], handle, id);
      DeliverExact(seen, atts[1..], handle, first);
      if first in processed { assert seen == processed; }
      assert (exists i :: 0 <= i < |atts| && MessageId(atts[i]) == id) <==>
             id == first || exists i :: 0 <= i < |atts| - 1 && MessageId(atts[1..][i]) == id by {
        if i :| 0 <= i < |atts| - 1 && MessageId(atts[1..][i]) == id { assert MessageId(atts[i + 1]) == id; }
        if i :| 0 <= i < |atts| && MessageId(atts[i]) == id && i > 0 { assert MessageId(atts[1..][i - 1]) == id; }
        assert MessageId(atts[0]) == first;
      }
      FirstTail(atts, id);
    }
  }

  ghost predicate FirstWithPayload(atts: seq<Attachment>, id: string, i: nat) {
    && i < |atts| && MessageId(atts[i]) == id && Payload(atts[i]).Some?
    && (forall j :: 0 <= j < i ==> MessageId(atts[j]) != id)
  }

  lemma FirstTail(atts: seq<Attachment>, id: string)
    requires |atts| > 0
    ensures (exists i: nat :: FirstWithPayload(atts, id, i)) <==>
            if id == MessageId(atts[0]) then Payload(atts[0]).Some? else exists i: nat :: FirstWithPayload(atts[1..], id, i)
  {
    if id == MessageId(atts[0]) {
      if Payload(atts[0]).Some? { assert FirstWithPayload(atts, id, 0); }
    } else {
      if i: nat :| FirstWithPayload(atts, id, i) {
        assert FirstWithPayload(atts[1..], id, i - 1);
      }
      if i: nat :| FirstWithPayload(atts[1..], id, i) {
        assert forall j :: 0 < j < i + 1 ==> atts[j] == atts[1..][j - 1];
        assert FirstWithPayload(atts, id, i + 1);
      }
    }
  }

  // ----- the uninterrupted delivery is one of the interleaved runs -----

  lemma Prepend(s: State, op: Op, ops: seq<Op>)
    requires Cooperative(Step(s, op), ops) && (forall c: nat :: At(s, c, Passed) ==> op == Mark(c))
    ensures Cooperative(s, [op] + ops) && Run(s, [op] + ops) == Run(Step(s, op), ops)
  {
    assert ([op] + ops)[1..] == ops;
  }

  lemma {:induction false} Append(s: State, a: seq<Op>, b: seq<Op>)
    requires Cooperative(s, a) && Cooperative(Run(s, a), b)
    ensures Cooperative(s, a + b) && Run(s, a + b) == Run(Run(s, a), b)
    decreases |a|
  {
    if |a| == 0 {
      assert a + b == b;
    } else {
      Append(Step(s, a[0]), a[1..], b);
      assert (a + b)[1..] == a[1..] + b;
    }
  }

  /** Call c has gone past k attachments, having marked and dispatched as the delivery d says. */
  ghost predicate Moved(s: State, t: State, c: nat, k: nat, d: Delivery) {
    && Quiet(t)
    && c < |s.calls| && At(t, c, Ready)
    && t.calls[c].atts == s.calls[c].atts
    && t.calls[c].next == s.calls[c].next + k
    && t.processed == d.processed
    && t.log == s.log + d.dispatched
    && t.calls[c].count == s.calls[c].count + d.count
  }

  lemma OneAttachment(s: State, c: nat, handle: string -> bool) returns (ops: seq<Op>)
    requires At(s, c, Ready) && s.calls[c].next < |s.calls[c].atts| && Quiet(s)
    ensures Cooperative(s, ops)
    ensures Moved(s, Run(s, ops), c, 1, Deliver(s.processed, [s.calls[c].atts[s.calls[c].next]], handle))
  {
    var a := s.calls[c].atts[s.calls[c].next];
    var s1 := Step(s, Look(c));
    OnlyPassed(s, Look(c), c);
    assert [a][1..] == [];
    ops := [];
    if MessageId(a) !in s.processed {
      var s2 := Step(s1, Mark(c));
      OnlyPassed(s1, Mark(c), c);
      if Payload(a).Some? {
        var done := Finish(c, handle(Payload(a).value));
        OnlyPassed(s2, done, c);
        Prepend(s2, done, []);
        ops := [done] + [];
      }
      Prepend(s1, Mark(c), ops);
      ops := [Mark(c)] + ops;
    }
    Prepend(s, Look(c), ops);
    ops := [Look(c)] + ops;
  }

  lemma DeliverCons(processed: set<string>, atts: seq<Attachment>, handle: string -> bool)
    requires |atts| > 0
    ensures var one := Deliver(processed, [atts[0]], handle);
            var rest := Deliver(one.processed, atts[1..], handle);
            Deliver(processed, atts, handle) ==
            Delivery(rest.processed, one.dispatched + rest.dispatched, one.count + rest.count)
  {
    assert [atts[0]][1..] == [];
  }

  lemma MovedOn(s: State, t: State, u: State, c: nat, k: nat, one: Delivery, more: Delivery)
    requires Moved(s, t, c, 1, one) && Moved(t, u, c, k, more)
    ensures Moved(s, u, c, 1 + k, Delivery(more.processed, one.dispatched + more.dispatched, one.count + more.count))
  {
  }

  /** Stepping one delivery on its own does what ProcessPickupDelivery does. */
  lemma {:induction false} AloneDelivers(s: State, c: nat, handle: string -> bool) returns (ops: seq<Op>)
    requires At(s, c, Ready) && s.calls[c].next <= |s.calls[c].atts| && Quiet(s)
    ensures Cooperative(s, ops)
    ensures Moved(s, Run(s, ops), c, |s.calls[c].atts| - s.calls[c].next,
                  Deliver(s.processed, s.calls[c].atts[s.calls[c].next..], handle))
    decreases |s.calls[c].atts| - s.calls[c].next
  {
    var rest := s.calls[c].atts[s.calls[c].next..];
    ops := [];
    if |rest| > 0 {
      ops := OneAttachment(s, c, handle);
      var t := Run(s, ops);
      var more := AloneDelivers(t, c, handle);
      Append(s, ops, more);
      assert rest[1..] == t.calls[c].atts[t.calls[c].next..];
      DeliverCons(s.processed, rest, handle);
      MovedOn(s, t, Run(t, more), c, |rest| - 1, Deliver(s.processed, [rest[0]], handle),
              Deliver(t.processed, rest[1..], handle));
      ops := ops + more;
    }
  }

  /** A step of call c lets no other call pass. */
  lemma OnlyPassed(s: State, op: Op, c: nat)
    requires !op.Open? && op.c == c
    requires forall d: nat :: At(s, d, Passed) ==> d == c
    ensures forall d: nat :: At(Step(s, op), d, Passed) ==> d == c
    ensures !At(Step(s, op), c, Passed) ==> Quiet(Step(s, op))
  {
    OthersStay(s, op);
  }

  // ----- what an attachment says -----

  /** "@id" decides when it is there, even when it is no text; otherwise "id" does; and "unknown" stands in. */
  lemma IdPrecedence(a: Attachment, t: string)
    ensures a.atId == Text(t) ==> MessageId(a) == t && AckIds([a]) == if t == "unknown" then [] else [t]
    ensures a.atId.NotText? ==> MessageId(a) == "unknown" && AckIds([a]) == []
    ensures a.atId.Absent? && a.id == Text(t) ==> MessageId(a) == t && AckIds([a]) == if t == "unknown" then [] else [t]
    ensures a.atId.Absent? && !a.id.Text? ==> MessageId(a) == "unknown" && AckIds([a]) == []
  {
    assert [a][1..] == [];
  }

  /** One attachment by itself: nothing happens to an id that is processed; a new id is marked, and dispatched
      with the decoded base64 text when that member is a text, else with the JSON, or not at all. */
  lemma OneDelivery(processed: set<string>, a: Attachment, handle: string -> bool, text: string)
    ensures MessageId(a) in processed ==> Deliver(processed, [a], handle) == Delivery(processed, [], 0)
    ensures MessageId(a) !in processed && ((a.base64.Text? && a.decoded == Some(text)) || (!a.base64.Text? && a.json == Some(text))) ==>
      Deliver(processed, [a], handle) == Delivery(processed + {MessageId(a)}, [MessageId(a)], if handle(text) then 1 else 0)
    ensures MessageId(a) !in processed && (if a.base64.Text? then a.decoded == None else a.json == None) ==>
      Deliver(processed, [a], handle) == Delivery(processed + {MessageId(a)}, [], 0)
  {
    assert [a][1..] == [];
  }

  /** A delivery is its parts one after the other, so its attachments one by one determine it. */
  lemma {:induction false} DeliverConcat(processed: set<string>, a: seq<Attachment>, b: seq<Attachment>, handle: string -> bool)
    ensures var d := Deliver(processed, a, handle);
      var e := Deliver(d.processed, b, handle);
      Deliver(processed, a + b, handle) == Delivery(e.processed, d.dispatched + e.dispatched, d.count + e.count)
    decreases |a|
  {
    if |a| == 0 {
      assert a + b == b;
    } else {
      DeliverCons(processed, a, handle);
      DeliverCons(processed, a + b, handle);
      assert (a + b)[1..] == a[1..] + b;
      DeliverConcat(Deliver(processed, [a[0]], handle).processed, a[1..], b, handle);
    }
  }
}
