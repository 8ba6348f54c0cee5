/** Why a call over a channel comes back, and when it does not (sqlite-shm-srv/shm.cc, db/sqlite_shm_db.cc). */
module Progress {
  import opened MachineInts
  import opened Wrappers
  import opened Codec
  import opened StoreBuffer
  import opened Rpc
  import opened ShmChannel

  /** A call is under way, its request fits the window, and the server has not thrown. */
  predicate CallPending(c: Channel) {
    && (c.client.Writing? || c.client.Waiting? || c.client.Resetting? || c.client.Reading?)
    && Sendable(c.client.req) && c.server != Failed
    && (c.server.Replying? ==> |c.server.bytes| <= WINDOW)
  }

  predicate Spins(step: Step) {
    step == ClientSpin || step == ServerSpin
  }

  /** The database operation gives kOK and its reply fits the window. */
  predicate Succeeds(step: Step) {
    step.Execute? ==> step.outcome.Some? && |EncodeAll(step.outcome.value)| <= WINDOW
  }

  datatype Rank = Rank(phase: nat, work: int)

  predicate Below(a: Rank, b: Rank) {
    a.phase < b.phase || (a.phase == b.phase && 0 <= a.work < b.work)
  }

  /** How far the call has come: the phase by the two program counters, then the bytes and drains left in it. */
  function RankOf(c: Channel): Rank {
    match c.client
    case Writing(r, i) => Rank(9, 2 * (|RequestBytes(r)| - i) + |c.cbuf|)
    case Resetting(r) => Rank(3, 0)
    case Reading(r, got) => Rank(2, 2 * (WINDOW - |got|) + |c.cbuf|)
    case Waiting(r) =>
      (match c.server
       case Polling => if c.answer.None? then Rank(8, |c.cbuf|) else Rank(4, |c.sbuf|)
       case Fetching(op, got) => Rank(7, WINDOW - |got|)
       case Farewell => Rank(7, 0)
       case Replying(bytes, i) => Rank(6, 2 * (|bytes| - i) + |c.sbuf|)
       case Answering => Rank(5, |c.sbuf|)
       case Gone => Rank(4, |c.sbuf|)
       case Failed => Rank(0, 0))
    case _ => Rank(0, 0)
  }

  lemma ClientStepProgresses(c: Channel, c': Channel, e: Event, step: Step)
    requires Inv(c) && ClientStep(c, c', e, step) && CallPending(c) && !Spins(step)
    ensures step == Return || (CallPending(c') && Below(RankOf(c'), RankOf(c)))
  {
    if step == LoadReply {
      ClientLoads(c, c', e);
    }
    hide DecodeAll, View, InHolds, OutHolds, HaveTypes;
  }

  lemma ServeProgresses(c: Channel, c': Channel, e: Event, step: Step)
    requires Inv(c) && ServerStep(c, c', e, step) && CallPending(c) && Serves(step) && !Spins(step) && Succeeds(step)
    ensures CallPending(c') && Below(RankOf(c'), RankOf(c))
  {
    if step == LoadRequest {
      ServerLoads(c, c', e);
    } else if step == SeeRequest {
      ServerSeesRequest(c, c', e);
    }
    hide DecodeAll, View, InHolds, OutHolds, HaveTypes;
  }

  lemma AnswerProgresses(c: Channel, c': Channel, e: Event, step: Step)
    requires Inv(c) && ServerStep(c, c', e, step) && CallPending(c) && !Serves(step)
    ensures CallPending(c') && Below(RankOf(c'), RankOf(c))
  {
    hide DecodeAll, View, InHolds, OutHolds, HaveTypes;
  }

  lemma ServerStepProgresses(c: Channel, c': Channel, e: Event, step: Step)
    requires Inv(c) && ServerStep(c, c', e, step) && CallPending(c) && !Spins(step) && Succeeds(step)
    ensures CallPending(c') && Below(RankOf(c'), RankOf(c))
  {
    hide Inv, ServerStep, CallPending, RankOf, Serves;
    if Serves(step) {
      ServeProgresses(c, c', e, step);
    } else {
      AnswerProgresses(c, c', e, step);
    }
  }

  /** Any step other than spinning brings a call that succeeds at the server strictly closer to its return. */
  lemma StepProgresses(c: Channel, c': Channel, e: Event, step: Step)
    requires Inv(c) && NextStep(c, c', e, step) && CallPending(c) && !Spins(step) && Succeeds(step)
    ensures step == Return || (CallPending(c') && Below(RankOf(c'), RankOf(c)))
  {
    hide Inv, ClientStep, ServerStep, CallPending, RankOf;
    if ByClient(step) {
      ClientStepProgresses(c, c', e, step);
    } else {
      ServerStepProgresses(c, c', e, step);
    }
  }

  /** Replies the database could give: well typed and small enough. */
  ghost predicate GivesReplies(reply: (Operation, seq<Value>) -> seq<Value>) {
    forall op, args :: HaveTypes(reply(op, args), ReplyTypes(op)) && |EncodeAll(reply(op, args))| <= WINDOW
  }

  lemma WritingEnabled(c: Channel) returns (c': Channel, step: Step)
    requires Inv(c) && CallPending(c) && c.client.Writing?
    ensures ClientStep(c, c', Silent, step) && ByClient(step) && !Spins(step)
  {
    var r, i := c.client.req, c.client.i;
    if i < |RequestBytes(r)| {
      step := StoreRequest;
      c' := c.(cbuf := c.cbuf + [Store(In(i), RequestBytes(r)[i])], client := Writing(r, i + 1));
    } else {
      step := Post;
      c' := c.(cbuf := c.cbuf + [Store(InFlag, Opcode(r.op))], client := Waiting(r));
    }
  }

  lemma WaitingEnabled(c: Channel) returns (c': Channel, step: Step)
    requires c.client.Waiting? && (c.cbuf != [] || ClientSees(c, OutFlag) != 0)
    ensures ClientStep(c, c', Silent, step) && ByClient(step) && !Spins(step)
  {
    if c.cbuf != [] {
      step := ClientDrain;
      c' := c.(cbuf := c.cbuf[1..], mem := c.mem[c.cbuf[0].loc := c.cbuf[0].value]);
    } else {
      step := SeeAnswer;
      c' := c.(client := Resetting(c.client.req));
    }
  }

  lemma ReadingEnabled(c: Channel) returns (c': Channel, e: Event, step: Step)
    requires c.client.Reading?
    ensures ClientStep(c, c', e, step) && ByClient(step) && !Spins(step)
  {
    hide DecodeAll, View;
    var r, got := c.client.req, c.client.got;
    if DecodeAll(ReplyTypes(r.op), got).None? {
      step, e := LoadReply, Silent;
      c' := c.(client := Reading(r, got + [ClientSees(c, Out(|got|))]));
    } else {
      step := Return;
      e := Returned(r, DecodeAll(ReplyTypes(r.op), got).value.0);
      c' := c.(client := if r.op == Close then Closed else Idle);
    }
  }

  /** Some step other than spinning is always possible. */
  lemma ClientEnabled(c: Channel) returns (c': Channel, e: Event, step: Step)
    requires Inv(c) && CallPending(c)
    requires !c.client.Waiting? || c.cbuf != [] || ClientSees(c, OutFlag) != 0
    ensures ClientStep(c, c', e, step) && ByClient(step) && !Spins(step)
  {
    hide Inv, View, DecodeAll;
    e := Silent;
    match c.client
    case Writing(_, _) =>
      c', step := WritingEnabled(c);
    case Waiting(_) =>
      c', step := WaitingEnabled(c);
    case Resetting(r) =>
      step := Reset;
      c' := c.(cbuf := c.cbuf + [Store(OutFlag, 0)], client := Reading(r, []));
    case Reading(_, _) =>
      c', e, step := ReadingEnabled(c);
  }

  lemma RequestVisible(c: Channel) returns (c': Channel)
    requires Inv(c) && c.client.Waiting? && c.cbuf == [] && c.sbuf == [] && c.server == Polling
    requires ClientSees(c, OutFlag) == 0
    ensures ServerStep(c, c', Silent, SeeRequest)
  {
    var op := c.client.req.op;
    OpcodesDistinct(op);
    assert Posted(c, c.client.req);
    c' := c.(server := if op == Close then Farewell else Fetching(op, []));
  }

  lemma FetchEnabled(c: Channel, reply: (Operation, seq<Value>) -> seq<Value>)
    returns (c': Channel, e: Event, step: Step)
    requires c.server.Fetching? && GivesReplies(reply)
    ensures ServerStep(c, c', e, step) && !ByClient(step) && !Spins(step) && Succeeds(step)
  {
    var op, got := c.server.op, c.server.got;
    if DecodeAll(RequestTypes(op), got).None? {
      step, e := LoadRequest, Silent;
      c' := c.(server := Fetching(op, got + [ServerSees(c, In(|got|))]));
    } else {
      var args := DecodeAll(RequestTypes(op), got).value.0;
      step := Execute(Some(reply(op, args)));
      e := Executed(op, args, Some(reply(op, args)));
      c' := c.(server := Replying(EncodeAll(reply(op, args)), 0), answer := Some(reply(op, args)));
    }
  }

  lemma ReplyEnabled(c: Channel) returns (c': Channel, step: Step)
    requires Inv(c) && CallPending(c) && c.server.Replying?
    ensures ServerStep(c, c', Silent, step) && !ByClient(step) && !Spins(step) && Succeeds(step)
  {
    var bytes, i := c.server.bytes, c.server.i;
    if i < |bytes| {
      step := StoreReply;
      c' := c.(sbuf := c.sbuf + [Store(Out(i), bytes[i])], server := Replying(bytes, i + 1));
    } else {
      step := Clear;
      c' := c.(sbuf := c.sbuf + [Store(InFlag, 0)], server := Answering);
    }
  }

  lemma ServerEnabled(c: Channel, reply: (Operation, seq<Value>) -> seq<Value>)
    returns (c': Channel, e: Event, step: Step)
    requires Inv(c) && CallPending(c) && GivesReplies(reply)
    requires c.client.Waiting? && c.cbuf == [] && ClientSees(c, OutFlag) == 0
    ensures ServerStep(c, c', e, step) && !ByClient(step) && !Spins(step) && Succeeds(step)
  {
    hide Inv, CallPending, GivesReplies, ClientSees;
    e := Silent;
    if c.sbuf != [] {
      step := ServerDrain;
      c' := c.(sbuf := c.sbuf[1..], mem := c.mem[c.sbuf[0].loc := c.sbuf[0].value]);
      return;
    }
    NotGone(c);
    match c.server
    case Polling =>
      step := SeeRequest;
      c' := RequestVisible(c);
    case Fetching(_, _) =>
      c', e, step := FetchEnabled(c, reply);
    case Replying(_, _) =>
      c', step := ReplyEnabled(c);
    case Answering =>
      step := Answer;
      c' := c.(sbuf := c.sbuf + [Store(OutFlag, 1)], server := Polling);
    case Farewell =>
      step := SayFarewell;
      c' := c.(sbuf := c.sbuf + [Store(OutFlag, 1)], server := Gone);
  }

  /** A server that has left has raised the answer flag, and one that has thrown answers no pending call. */
  lemma NotGone(c: Channel)
    requires Inv(c) && CallPending(c) && c.client.Waiting?
    requires c.cbuf == [] && c.sbuf == [] && ClientSees(c, OutFlag) == 0
    ensures c.server != Gone && c.server != Failed
  {
  }

  lemma StepKeepsRequest(c: Channel, c': Channel, e: Event, step: Step)
    requires NextStep(c, c', e, step) && CallPending(c)
    ensures if step == Return then e.Returned? && e.req == c.client.req
            else CallPending(c') ==> c'.client.req == c.client.req
    ensures Next(c, c', e)
  {
    hide View, DecodeAll, HaveTypes, EncodeAll, WellFormed;
  }

  /** From any reachable point of a call, finitely many further steps complete it. */
  lemma {:induction false} CallCanComplete(c: Channel, reply: (Operation, seq<Value>) -> seq<Value>)
    returns (states: seq<Channel>, events: seq<Event>)
    requires Inv(c) && CallPending(c) && GivesReplies(reply)
    ensures |states| == |events| + 1 && |events| > 0 && states[0] == c
    ensures forall i :: 0 <= i < |events| ==> Next(states[i], states[i + 1], events[i])
    ensures events[|events| - 1].Returned? && events[|events| - 1].req == c.client.req
    decreases RankOf(c).phase, RankOf(c).work
  {
    hide Inv, NextStep, CallPending, RankOf;
    var c', e, step := SomeStep(c, reply);
    StepKeepsRequest(c, c', e, step);
    StepInv(c, c', e, step);
    StepProgresses(c, c', e, step);
    if step == Return {
      states, events := [c, c'], [e];
    } else {
      states, events := CallCanComplete(c', reply);
      states, events := [c] + states, [e] + events;
    }
  }

  lemma SomeStep(c: Channel, reply: (Operation, seq<Value>) -> seq<Value>)
    returns (c': Channel, e: Event, step: Step)
    requires Inv(c) && CallPending(c) && GivesReplies(reply)
    ensures NextStep(c, c', e, step) && !Spins(step) && Succeeds(step)
  {
    if !c.client.Waiting? || c.cbuf != [] || ClientSees(c, OutFlag) != 0 {
      c', e, step := ClientEnabled(c);
    } else {
      c', e, step := ServerEnabled(c, reply);
    }
  }

  /**
   * Once the server has thrown, which it does on every result other than kOK and on a reply too large for the window,
   * the client spins for good: in particular a record miss does not come back as a status.
   */
  lemma FailureIsFinal(c: Channel, c': Channel, e: Event, step: Step)
    requires Inv(c) && NextStep(c, c', e, step) && c.server == Failed
    ensures c'.server == Failed && c'.client == c.client && c.client.Waiting? && e == Silent
  {
  }

  /** In no run does a call come back from a server that has thrown: the client waits for ever and nothing else happens. */
  lemma {:induction false} FailedForever(states: seq<Channel>, events: seq<Event>, i: nat, j: nat)
    requires IsRun(states, events) && i <= j <= |events| && states[i].server == Failed
    ensures states[j].server == Failed && states[j].client == states[i].client && states[i].client.Waiting?
    ensures forall k :: i <= k < j ==> events[k] == Silent
    decreases j
  {
    hide Inv, NextStep;
    if i == j {
      StateInv(states, events, i);
      FailedWaits(states[i]);
    } else {
      FailedForever(states, events, i, j - 1);
      StateInv(states, events, j - 1);
      assert Next(states[j - 1], states[j - 1 + 1], events[j - 1]);
      var step :| NextStep(states[j - 1], states[j], events[j - 1], step);
      FailureIsFinal(states[j - 1], states[j], events[j - 1], step);
    }
  }

  lemma FailedWaits(c: Channel)
    requires Inv(c) && c.server == Failed
    ensures c.client.Waiting?
  {
  }

  // ----- Failures do happen -----

  /** An outcome that makes the server throw: no kOK, or a reply too large for the window. */
  predicate Throws(op: Operation, outcome: Option<seq<Value>>) {
    outcome.Some? ==> HaveTypes(outcome.value, ReplyTypes(op)) && |EncodeAll(outcome.value)| > WINDOW
  }

  predicate Unanswered(c: Channel) {
    CallPending(c) && c.answer.None? && c.client.req.op != Close
  }

  predicate ReadyToExecute(c: Channel) {
    c.server.Fetching? && DecodeAll(RequestTypes(c.server.op), c.server.got).Some?
  }

  lemma UnansweredServer(c: Channel)
    requires Inv(c) && Unanswered(c) && c.client.Waiting? && c.cbuf == [] && ClientSees(c, OutFlag) == 0
    ensures c.sbuf == [] && (c.server == Polling || c.server.Fetching?)
  {
  }

  lemma UnansweredClient(c: Channel)
    requires Inv(c) && Unanswered(c)
    ensures c.client.Writing? || c.client.Waiting?
  {
  }

  lemma StillUnanswered(c: Channel, c': Channel, e: Event, step: Step)
    requires NextStep(c, c', e, step) && Unanswered(c) && CallPending(c') && !step.Execute?
    requires c.client.Writing? || c.client.Waiting?
    ensures Unanswered(c') && c'.client.req == c.client.req && e == Silent
  {
    hide View, DecodeAll;
  }

  /** Some step brings the request closer to its execution. */
  lemma TowardsExecution(c: Channel) returns (c': Channel, e: Event, step: Step)
    requires Inv(c) && Unanswered(c) && !ReadyToExecute(c)
    ensures NextStep(c, c', e, step) && !Spins(step) && !step.Execute? && step != Return
  {
    UnansweredClient(c);
    if !c.client.Waiting? || c.cbuf != [] || ClientSees(c, OutFlag) != 0 {
      c', e, step := ClientEnabled(c);
      NoReturnYet(c, c', e, step);
    } else {
      UnansweredServer(c);
      e := Silent;
      if c.server == Polling {
        step := SeeRequest;
        c' := RequestVisible(c);
      } else {
        hide Inv, View;
        step := LoadRequest;
        c' := c.(server := Fetching(c.server.op, c.server.got + [ServerSees(c, In(|c.server.got|))]));
      }
    }
  }

  lemma NoReturnYet(c: Channel, c': Channel, e: Event, step: Step)
    requires ClientStep(c, c', e, step) && ByClient(step) && (c.client.Writing? || c.client.Waiting?)
    ensures step != Return && !step.Execute?
  {
  }

  /** What the database may say: nothing, as it failed, or values of the types of a reply. */
  predicate Possible(op: Operation, outcome: Option<seq<Value>>) {
    outcome.Some? ==> HaveTypes(outcome.value, ReplyTypes(op))
  }

  lemma ReadyRequest(c: Channel)
    requires Inv(c) && Unanswered(c) && ReadyToExecute(c)
    ensures c.server.op == c.client.req.op && c.client.Waiting?
    ensures DecodeAll(RequestTypes(c.server.op), c.server.got).value.0 == c.client.req.args
  {
    RequestDecodes(c);
    hide View, InHolds, OutHolds, DecodeAll;
  }

  lemma ExecutesNow(c: Channel, args: seq<Value>, outcome: Option<seq<Value>>) returns (c': Channel)
    requires ReadyToExecute(c) && DecodeAll(RequestTypes(c.server.op), c.server.got).value.0 == args
    requires Possible(c.server.op, outcome) && c.client.Waiting?
    ensures NextStep(c, c', Executed(c.server.op, args, outcome), Execute(outcome))
    ensures c'.client == c.client && JustExecuted(c', outcome)
  {
    hide View, DecodeAll, HaveTypes;
    c' := c.(server := if outcome.None? then Failed else Replying(EncodeAll(outcome.value), 0), answer := outcome);
    assert ServerStep(c, c', Executed(c.server.op, args, outcome), Execute(outcome));
  }

  lemma OverflowsNow(c: Channel) returns (c': Channel)
    requires c.server.Replying? && |c.server.bytes| > WINDOW
    ensures NextStep(c, c', Silent, ReplyOverflow) && c'.server == Failed
  {
    hide View, DecodeAll;
    c' := c.(server := Failed);
  }

  ghost predicate IsPath(c: Channel, states: seq<Channel>, events: seq<Event>) {
    && |states| == |events| + 1 && |events| > 0 && states[0] == c
    && forall i :: 0 <= i < |events| ==> Next(states[i], states[i + 1], events[i])
  }

  predicate SilentBut(events: seq<Event>, m: nat, e: Event) {
    m < |events| && events[m] == e && forall k :: 0 <= k < |events| && k != m ==> events[k] == Silent
  }

  lemma StepPath(c: Channel, c': Channel, e: Event, step: Step)
    requires NextStep(c, c', e, step)
    ensures IsPath(c, [c, c'], [e]) && SilentBut([e], 0, e)
  {
    hide NextStep;
    assert Next(c, c', e);
  }

  lemma PathJoin(c: Channel, states: seq<Channel>, events: seq<Event>, states': seq<Channel>, events': seq<Event>)
    requires IsPath(c, states, events) && IsPath(states[|events|], states', events')
    ensures IsPath(c, states + states'[1..], events + events')
    ensures (states + states'[1..])[|events + events'|] == states'[|events'|]
  {
    hide Next;
    var longer, all := states + states'[1..], events + events';
    forall i | 0 <= i < |all|
      ensures Next(longer[i], longer[i + 1], all[i])
    {
      if i >= |events| {
        var k := i - |events|;
        assert Next(states'[k], states'[k + 1], events'[k]);
      } else {
        assert Next(states[i], states[i + 1], events[i]);
      }
    }
  }

  /** The database has just been asked for the call in progress. */
  predicate JustExecuted(c: Channel, outcome: Option<seq<Value>>) {
    && c.server == (if outcome.None? then Failed else Replying(EncodeAll(outcome.value), 0)) && c.answer == outcome
    && c.client.Waiting?
  }

  lemma ExecutionPath(c: Channel, outcome: Option<seq<Value>>) returns (states: seq<Channel>, events: seq<Event>)
    requires Inv(c) && Unanswered(c) && ReadyToExecute(c) && Possible(c.client.req.op, outcome)
    ensures IsPath(c, states, events) && |events| == 1
    ensures events[0] == Executed(c.client.req.op, c.client.req.args, outcome)
    ensures Inv(states[1]) && JustExecuted(states[1], outcome) && states[1].client.req == c.client.req
  {
    hide Inv, NextStep, ReadyToExecute, Possible, IsPath, Unanswered;
    ReadyRequest(c);
    var c' := ExecutesNow(c, c.client.req.args, outcome);
    StepInv(c, c', Executed(c.client.req.op, c.client.req.args, outcome), Execute(outcome));
    StepPath(c, c', Executed(c.client.req.op, c.client.req.args, outcome), Execute(outcome));
    states, events := [c, c'], [Executed(c.client.req.op, c.client.req.args, outcome)];
  }

  /** Every call not yet executed can come to its execution with any outcome the database may give. */
  lemma {:induction false} CanExecute(c: Channel, outcome: Option<seq<Value>>)
    returns (states: seq<Channel>, events: seq<Event>)
    requires Inv(c) && Unanswered(c) && Possible(c.client.req.op, outcome)
    ensures IsPath(c, states, events)
    ensures SilentBut(events, |events| - 1, Executed(c.client.req.op, c.client.req.args, outcome))
    ensures var d := states[|events|]; Inv(d) && JustExecuted(d, outcome) && d.client.req == c.client.req
    decreases RankOf(c).phase, RankOf(c).work
  {
    hide Inv, NextStep, RankOf, ReadyToExecute, Next, Possible;
    if ReadyToExecute(c) {
      states, events := ExecutionPath(c, outcome);
    } else {
      var c', e, step := TowardsExecution(c);
      StepInv(c, c', e, step);
      StepProgresses(c, c', e, step);
      UnansweredClient(c);
      StillUnanswered(c, c', e, step);
      states, events := CanExecute(c', outcome);
      StepPath(c, c', e, step);
      PathJoin(c, [c, c'], [e], states, events);
      states, events := [c, c'] + states[1..], [e] + events;
    }
  }

  /** So it can come to an outcome that makes the server throw: the failed state is reached. */
  lemma CanFail(c: Channel, outcome: Option<seq<Value>>)
    returns (states: seq<Channel>, events: seq<Event>, m: nat)
    requires Inv(c) && Unanswered(c) && Throws(c.client.req.op, outcome)
    ensures IsPath(c, states, events) && states[|events|].server == Failed
    ensures SilentBut(events, m, Executed(c.client.req.op, c.client.req.args, outcome))
  {
    hide Inv, NextStep, Next, Unanswered;
    states, events := CanExecute(c, outcome);
    m := |events| - 1;
    if outcome.Some? {
      var d := states[|events|];
      var d' := OverflowsNow(d);
      StepPath(d, d', Silent, ReplyOverflow);
      PathJoin(c, states, events, [d, d'], [Silent]);
      states, events := states + [d, d'][1..], events + [Silent];
    }
  }

  // ----- And so do returns -----

  function NoRows(op: Operation): seq<Value> {
    if op == Read || op == Scan then [Vector([])] else []
  }

  lemma NoRowsIsReply()
    ensures GivesReplies((op, args) => NoRows(op))
  {
    assert Encode(Vector([])) == LittleEndian(0, 8) + EncodeAll([]);
    assert EncodeAll([Vector([])]) == Encode(Vector([])) + EncodeAll([]);
  }

  lemma AnsweredStep(c: Channel, c': Channel, e: Event, step: Step)
    requires Inv(c) && NextStep(c, c', e, step) && CallPending(c) && c.answer.Some?
    ensures !step.Execute?
    ensures if step == Return then e == Returned(c.client.req, c.answer.value) && c'.client == Idle
            else CallPending(c') ==> e == Silent && c'.answer == c.answer && c'.client.req == c.client.req
  {
    hide Inv, NextStep, EncodeAll, Sendable;
    StepIsDirect(c, c', e, step);
    OpenUntilClosed(c);
    StepEvents(c, c', e, step);
  }

  lemma OpenUntilClosed(c: Channel)
    requires Inv(c) && CallPending(c) && c.answer.Some?
    ensures c.client.req.op != Close
  {
  }

  lemma StepEvents(c: Channel, c': Channel, e: Event, step: Step)
    requires NextStep(c, c', e, step)
    ensures e.Returned? <==> step == Return
    ensures step == Return ==> c.client.Reading? && c'.client == if c.client.req.op == Close then Closed else Idle
    ensures step.Execute? ==> e.Executed?
  {
    hide View, DecodeAll;
  }

  /** Every call that has been executed comes to the return of exactly the answer. */
  lemma {:induction false} CanAnswer(c: Channel) returns (states: seq<Channel>, events: seq<Event>)
    requires Inv(c) && CallPending(c) && c.answer.Some?
    ensures IsPath(c, states, events) && Inv(states[|events|]) && states[|events|].client == Idle
    ensures SilentBut(events, |events| - 1, Returned(c.client.req, c.answer.value))
    decreases RankOf(c).phase, RankOf(c).work
  {
    hide Inv, NextStep, RankOf, Next, CallPending, GivesReplies;
    NoRowsIsReply();
    var c', e, step := SomeStep(c, (op, args) => NoRows(op));
    AnsweredStep(c, c', e, step);
    StepInv(c, c', e, step);
    StepProgresses(c, c', e, step);
    StepPath(c, c', e, step);
    states, events := [c, c'], [e];
    if step != Return {
      var later, rest := CanAnswer(c');
      PathJoin(c, [c, c'], [e], later, rest);
      states, events := [c, c'] + later[1..], [e] + rest;
    }
  }

  /** A call with its execution and its return, and nothing else. */
  ghost predicate CarriesOut(c: Channel, states: seq<Channel>, events: seq<Event>, m: nat, r: Request,
                             reply: seq<Value>) {
    && IsPath(c, states, events) && states[|events|].client == Idle
    && 0 < m < |events| - 1
    && events[0] == Called(r) && events[m] == Executed(r.op, r.args, Some(reply))
    && events[|events| - 1] == Returned(r, reply)
    && forall k :: 0 < k < |events| - 1 && k != m ==> events[k] == Silent
  }

  lemma CallStarts(c: Channel, r: Request) returns (c': Channel)
    requires Inv(c) && c.client == Idle && Sendable(r) && r.op != Close
    ensures NextStep(c, c', Called(r), Call(r)) && Inv(c') && Unanswered(c') && c'.client.req == r
  {
    c' := c.(client := Writing(r, 0), answer := None);
    ClientCalls(c, c', Called(r), r);
    IdleServer(c);
  }

  lemma IdleServer(c: Channel)
    requires Inv(c) && c.client == Idle
    ensures c.server == Polling
  {
  }

  lemma ExecutedPending(c: Channel, reply: seq<Value>)
    requires Inv(c) && JustExecuted(c, Some(reply)) && |EncodeAll(reply)| <= WINDOW
    ensures CallPending(c)
  {
  }

  /** Between calls, every request that fits can be made, and gets any reply that the database may give and that fits. */
  lemma CallRuns(c: Channel, r: Request, reply: seq<Value>) returns (states: seq<Channel>, events: seq<Event>, m: nat)
    requires Inv(c) && c.client == Idle && Sendable(r) && r.op != Close
    requires HaveTypes(reply, ReplyTypes(r.op)) && |EncodeAll(reply)| <= WINDOW
    ensures CarriesOut(c, states, events, m, r, reply)
  {
    hide Inv, NextStep, Next, Unanswered, CallPending, HaveTypes, Sendable;
    var c1 := CallStarts(c, r);
    StepPath(c, c1, Called(r), Call(r));
    var toExecution, before := CanExecute(c1, Some(reply));
    var d := toExecution[|before|];
    ExecutedPending(d, reply);
    var toReturn, after := CanAnswer(d);
    PathJoin(c1, toExecution, before, toReturn, after);
    PathJoin(c, [c, c1], [Called(r)], toExecution + toReturn[1..], before + after);
    states := [c, c1] + (toExecution + toReturn[1..])[1..];
    events, m := [Called(r)] + (before + after), |before|;
  }
}
