/**
 * The server threads share one process, which an exception leaving any of them ends: `new std::thread` runs
 * BenchServer::loop without a handler (sqlite-shm-srv/shm.cc).
 */
module ServerCrash {
  import opened MachineInts
  import opened Wrappers
  import opened Codec
  import opened StoreBuffer
  import opened Rpc
  import L = Linearizability
  import P = Progress
  import Shm = ShmChannel

  ghost predicate Crashed<D>(s: L.System<D>) {
    exists i :: 0 <= i < |s.channels| && s.channels[i].server == Shm.Failed
  }

  /** Without the server process: steps of the client, and stores of either side that still reach memory. */
  ghost predicate ClientOnly(c: Shm.Channel, c': Shm.Channel, e: Shm.Event) {
    exists step :: Shm.NextStep(c, c', e, step) && (Shm.ByClient(step) || step == Shm.ServerDrain)
  }

  ghost predicate WithoutServer<D>(s: L.System<D>, s': L.System<D>, l: L.Label) {
    && l.client < |s.channels| && l.client < |s'.channels|
    && ClientOnly(s.channels[l.client], s'.channels[l.client], l.event)
  }

  /**
   * A run in which the process has ended at position `end`: some server has thrown by then, the others may have gone on
   * until the process was gone, and nothing of it runs from there on.
   */
  ghost predicate IsRun<D>(apply: L.Database<D>, db: D, states: seq<L.System<D>>, labels: seq<L.Label>, end: nat) {
    && L.IsRun(apply, db, states, labels)
    && end <= |labels| && Crashed(states[end])
    && forall i :: end <= i < |labels| ==> WithoutServer(states[i], states[i + 1], labels[i])
  }

  lemma CrashedRunsLinearizable<D>(apply: L.Database<D>, db: D, states: seq<L.System<D>>, labels: seq<L.Label>, end: nat)
    requires IsRun(apply, db, states, labels, end)
    ensures exists order :: L.Linearizes(apply, db, states[|labels|].db, labels, order)
  {
    hide L.IsRun, L.Linearizes;
    L.RunsLinearizable(apply, db, states, labels);
  }

  // ----- The end of the process is final -----

  lemma ClientOnlyStep(c: Shm.Channel, c': Shm.Channel, e: Shm.Event)
    requires ClientOnly(c, c', e)
    ensures c'.server == c.server && !e.Executed?
  {
  }

  /** One step after the end. */
  lemma StepAfterEnd<D>(apply: L.Database<D>, s: L.System<D>, s': L.System<D>, l: L.Label)
    requires L.Next(apply, s, s', l) && WithoutServer(s, s', l)
    ensures s'.db == s.db && |s'.channels| == |s.channels| && !l.event.Executed?
    ensures forall k :: 0 <= k < |s.channels| ==> s'.channels[k].server == s.channels[k].server
  {
    hide ClientOnly, Shm.Next;
    ClientOnlyStep(s.channels[l.client], s'.channels[l.client], l.event);
  }

  /** From the end on no operation of any client is executed, and the database and all servers stay as they are. */
  lemma {:induction false} CrashIsFinal<D>(apply: L.Database<D>, db: D, states: seq<L.System<D>>, labels: seq<L.Label>,
                                           end: nat, j: nat)
    requires IsRun(apply, db, states, labels, end) && end <= j <= |labels|
    ensures states[j].db == states[end].db && |states[j].channels| == |states[end].channels|
    ensures forall k :: 0 <= k < |states[end].channels| ==>
              states[j].channels[k].server == states[end].channels[k].server
    ensures forall q :: end <= q < j ==> !labels[q].event.Executed?
    decreases j
  {
    hide L.Next, WithoutServer, Crashed, L.Init;
    if end < j {
      CrashIsFinal(apply, db, states, labels, end, j - 1);
      assert L.Next(apply, states[j - 1], states[j - 1 + 1], labels[j - 1]);
      assert WithoutServer(states[j - 1], states[j - 1 + 1], labels[j - 1]);
      StepAfterEnd(apply, states[j - 1], states[j], labels[j - 1]);
    }
  }

  // ----- Which calls still return -----

  /** The answer has been given: it is on its way to the client, or has reached it. */
  predicate Answerable(c: Shm.Channel) {
    || c.client.Resetting? || c.client.Reading?
    || (c.client.Waiting? && (c.server == Shm.Gone || (c.server == Shm.Polling && c.answer.Some?)))
  }

  lemma NothingToSee(c: Shm.Channel)
    requires Shm.Inv(c) && c.client.Waiting? && !Answerable(c)
    ensures Shm.ClientSees(c, OutFlag) == 0
  {
  }

  lemma WritingUnanswered(c: Shm.Channel)
    requires Shm.Inv(c) && c.client.Writing?
    ensures c.server == Shm.Polling && c.answer.None?
  {
  }

  /** Without an answer the client can only get as far as waiting. */
  lemma ClientOnlyHangs(c: Shm.Channel, c': Shm.Channel, e: Shm.Event)
    requires Shm.Inv(c) && ClientOnly(c, c', e) && !Answerable(c)
    ensures !Answerable(c') && !e.Returned?
  {
    hide Shm.Inv, View, DecodeAll;
    if c.client.Waiting? {
      NothingToSee(c);
    } else if c.client.Writing? {
      WritingUnanswered(c);
    }
  }

  lemma AnswerableServer(c: Shm.Channel)
    requires Shm.Inv(c) && Answerable(c)
    ensures P.CallPending(c) && (c.server == Shm.Polling || c.server == Shm.Gone)
    ensures c.client.Waiting? && c.cbuf == [] && c.sbuf == [] ==> Shm.ClientSees(c, OutFlag) != 0
  {
  }

  /** With an answer some step without the server is always possible. */
  lemma SomeClientStep(c: Shm.Channel) returns (c': Shm.Channel, e: Shm.Event, step: Shm.Step)
    requires Shm.Inv(c) && Answerable(c)
    ensures Shm.NextStep(c, c', e, step) && (Shm.ByClient(step) || step == Shm.ServerDrain) && !P.Spins(step)
  {
    hide Shm.Inv, Answerable, P.CallPending;
    AnswerableServer(c);
    if !c.client.Waiting? || c.cbuf != [] || Shm.ClientSees(c, OutFlag) != 0 {
      c', e, step := P.ClientEnabled(c);
    } else {
      step, e := Shm.ServerDrain, Shm.Silent;
      c' := c.(sbuf := c.sbuf[1..], mem := c.mem[c.sbuf[0].loc := c.sbuf[0].value]);
    }
  }

  lemma StillAnswerable(c: Shm.Channel, c': Shm.Channel, e: Shm.Event, step: Shm.Step)
    requires Answerable(c) && Shm.NextStep(c, c', e, step) && (Shm.ByClient(step) || step == Shm.ServerDrain)
    ensures if step == Shm.Return then e.Returned? else Answerable(c')
    ensures ClientOnly(c, c', e)
  {
    hide View, DecodeAll;
  }

  /** Steps of one channel without its server, the last of them a return. */
  ghost predicate Returns(c: Shm.Channel, states: seq<Shm.Channel>, events: seq<Shm.Event>) {
    && |states| == |events| + 1 && |events| > 0 && states[0] == c
    && (forall i :: 0 <= i < |events| ==> ClientOnly(states[i], states[i + 1], events[i]))
    && events[|events| - 1].Returned?
  }

  lemma OneMoreStep(c: Shm.Channel, e: Shm.Event, c': Shm.Channel, states: seq<Shm.Channel>, events: seq<Shm.Event>)
    requires ClientOnly(c, c', e) && Returns(c', states, events)
    ensures Returns(c, [c] + states, [e] + events)
  {
    hide ClientOnly;
    var longer, all := [c] + states, [e] + events;
    forall i | 0 <= i < |all|
      ensures ClientOnly(longer[i], longer[i + 1], all[i])
    {
      if i > 0 {
        assert ClientOnly(states[i - 1], states[i - 1 + 1], events[i - 1]);
      }
    }
  }

  /** With an answer finitely many steps of the client and the buffers return it. */
  lemma {:induction false} ClientFinishes(c: Shm.Channel) returns (states: seq<Shm.Channel>, events: seq<Shm.Event>)
    requires Shm.Inv(c) && Answerable(c)
    ensures Returns(c, states, events)
    decreases P.RankOf(c).phase, P.RankOf(c).work
  {
    hide Shm.Inv, Shm.NextStep, Answerable, P.CallPending, P.RankOf;
    var c', e, step := SomeClientStep(c);
    StillAnswerable(c, c', e, step);
    if step == Shm.Return {
      states, events := [c, c'], [e];
    } else {
      AnswerableServer(c);
      Shm.StepInv(c, c', e, step);
      P.StepProgresses(c, c', e, step);
      states, events := ClientFinishes(c');
      OneMoreStep(c, e, c', states, events);
      states, events := [c] + states, [e] + events;
    }
  }

  // ----- The same for runs of the whole system -----

  lemma {:induction false} StateInv<D>(apply: L.Database<D>, db: D, states: seq<L.System<D>>, labels: seq<L.Label>,
                                       j: nat)
    requires L.IsRun(apply, db, states, labels) && j <= |labels|
    ensures forall k :: 0 <= k < |states[j].channels| ==> Shm.Inv(states[j].channels[k])
  {
    hide Shm.Inv, Shm.Next;
    var prefix, before := states[..j + 1], labels[..j];
    assert forall i :: 0 <= i < j ==> L.Next(apply, prefix[i], prefix[i + 1], before[i]);
    var order := L.RunInv(apply, db, prefix, before);
  }

  ghost predicate Hangs<D>(s: L.System<D>, client: nat) {
    client < |s.channels| && !Answerable(s.channels[client])
  }

  lemma HangingStep<D>(apply: L.Database<D>, s: L.System<D>, s': L.System<D>, l: L.Label, client: nat)
    requires L.Next(apply, s, s', l) && WithoutServer(s, s', l)
    requires Hangs(s, client) && Shm.Inv(s.channels[client])
    ensures Hangs(s', client) && (l.client == client ==> !l.event.Returned?)
  {
    hide Shm.Inv, Shm.Next, ClientOnly, Answerable;
    if l.client == client {
      ClientOnlyHangs(s.channels[client], s'.channels[client], l.event);
    }
  }

  /** From the end on, a client whose call has not been answered never gets a return, nor does one that calls later. */
  lemma {:induction false} UnansweredCallsHang<D>(apply: L.Database<D>, db: D, states: seq<L.System<D>>,
                                                  labels: seq<L.Label>, end: nat, client: nat, i: nat, j: nat)
    requires IsRun(apply, db, states, labels, end) && end <= i <= j <= |labels| && Hangs(states[i], client)
    ensures Hangs(states[j], client)
    ensures forall q :: i <= q < j && labels[q].client == client ==> !labels[q].event.Returned?
    decreases j
  {
    hide L.Next, WithoutServer, Crashed, L.Init, Shm.Inv, Answerable;
    if i < j {
      UnansweredCallsHang(apply, db, states, labels, end, client, i, j - 1);
      StateInv(apply, db, states, labels, j - 1);
      assert L.Next(apply, states[j - 1], states[j - 1 + 1], labels[j - 1]);
      assert WithoutServer(states[j - 1], states[j - 1 + 1], labels[j - 1]);
      HangingStep(apply, states[j - 1], states[j], labels[j - 1], client);
    }
  }

  ghost predicate ReturnsLater(labels: seq<L.Label>, more: seq<L.Label>, client: nat) {
    exists q :: |labels| <= q < |more| && more[q].client == client && more[q].event.Returned?
  }

  /** Some continuation of the run returns a call of this client. */
  ghost predicate CanReturn<D(!new)>(apply: L.Database<D>, db: D, states: seq<L.System<D>>, labels: seq<L.Label>,
                                     end: nat, client: nat) {
    exists states', labels' ::
      && IsRun(apply, db, states', labels', end) && states <= states' && labels <= labels'
      && ReturnsLater(labels, labels', client)
  }

  /** Events of one channel as events of the system: what they do to the database, and whether it answers so. */
  ghost predicate Agrees<D>(apply: L.Database<D>, db: D, events: seq<Shm.Event>)
    decreases |events|
  {
    events == [] ||
    match events[0]
    case Executed(op, args, outcome) => outcome == apply(db, op, args).1 && Agrees(apply, apply(db, op, args).0, events[1..])
    case _ => Agrees(apply, db, events[1..])
  }

  ghost predicate Lifted<D>(apply: L.Database<D>, s: L.System<D>, client: nat, states: seq<Shm.Channel>,
                            events: seq<Shm.Event>, systems: seq<L.System<D>>, labels: seq<L.Label>) {
    && client < |s.channels| && |systems| == |labels| + 1 == |states| == |events| + 1 && systems[0] == s
    && (forall i :: 0 <= i < |labels| ==> labels[i] == L.Label(client, events[i]))
    && (forall i :: 0 <= i < |labels| ==> L.Next(apply, systems[i], systems[i + 1], labels[i]))
    && (forall i :: 0 <= i < |systems| ==> systems[i].channels == s.channels[client := states[i]])
  }

  /** Steps of one channel are steps of the system while the others stand still. */
  lemma {:induction false} Lift<D>(apply: L.Database<D>, s: L.System<D>, client: nat, states: seq<Shm.Channel>,
                                   events: seq<Shm.Event>)
    returns (systems: seq<L.System<D>>, labels: seq<L.Label>)
    requires client < |s.channels| && |states| == |events| + 1 && states[0] == s.channels[client]
    requires forall i :: 0 <= i < |events| ==> Shm.Next(states[i], states[i + 1], events[i])
    requires Agrees(apply, s.db, events)
    ensures Lifted(apply, s, client, states, events, systems, labels)
    decreases |events|
  {
    hide Shm.Next;
    if events == [] {
      systems, labels := [s], [];
      assert s.channels[client := states[0]] == s.channels;
    } else {
      var db' := match events[0] case Executed(op, args, _) => apply(s.db, op, args).0 case _ => s.db;
      var s' := L.System(db', s.channels[client := states[1]]);
      assert Shm.Next(states[0], states[0 + 1], events[0]);
      assert L.Next(apply, s, s', L.Label(client, events[0]));
      forall i | 0 <= i < |events| - 1
        ensures Shm.Next(states[1..][i], states[1..][i + 1], events[1..][i])
      {
        assert Shm.Next(states[i + 1], states[i + 1 + 1], events[i + 1]);
      }
      systems, labels := Lift(apply, s', client, states[1..], events[1..]);
      LiftedOneMore(apply, s, s', client, states, events, systems, labels);
      systems, labels := [s] + systems, [L.Label(client, events[0])] + labels;
    }
  }

  lemma LiftedOneMore<D>(apply: L.Database<D>, s: L.System<D>, s': L.System<D>, client: nat, states: seq<Shm.Channel>,
                         events: seq<Shm.Event>, systems: seq<L.System<D>>, labels: seq<L.Label>)
    requires client < |s.channels| && |states| == |events| + 1 && events != [] && states[0] == s.channels[client]
    requires s'.channels == s.channels[client := states[1]] && L.Next(apply, s, s', L.Label(client, events[0]))
    requires Lifted(apply, s', client, states[1..], events[1..], systems, labels)
    ensures Lifted(apply, s, client, states, events, [s] + systems, [L.Label(client, events[0])] + labels)
  {
    hide L.Next;
    var all, marks := [s] + systems, [L.Label(client, events[0])] + labels;
    forall i | 0 <= i < |marks|
      ensures marks[i] == L.Label(client, events[i]) && L.Next(apply, all[i], all[i + 1], marks[i])
    {
      if i > 0 {
        assert labels[i - 1] == L.Label(client, events[1..][i - 1]);
        assert L.Next(apply, systems[i - 1], systems[i - 1 + 1], labels[i - 1]);
      }
    }
    forall i | 0 <= i < |all|
      ensures all[i].channels == s.channels[client := states[i]]
    {
      if i > 0 {
        assert systems[i - 1].channels == s'.channels[client := states[1..][i - 1]];
      }
    }
  }

  lemma {:induction false} SilentAgrees<D>(apply: L.Database<D>, db: D, events: seq<Shm.Event>)
    requires forall k :: 0 <= k < |events| ==> !events[k].Executed?
    ensures Agrees(apply, db, events)
    decreases |events|
  {
    if events != [] {
      SilentAgrees(apply, db, events[1..]);
    }
  }

  /** A run goes on with steps that lead from its last state. */
  lemma Joined<D>(apply: L.Database<D>, db: D, states: seq<L.System<D>>, labels: seq<L.Label>, end: nat,
                  systems: seq<L.System<D>>, more: seq<L.Label>)
    requires IsRun(apply, db, states, labels, end)
    requires |systems| == |more| + 1 && systems[0] == states[|labels|]
    requires forall i :: 0 <= i < |more| ==> L.Next(apply, systems[i], systems[i + 1], more[i])
    requires forall i :: 0 <= i < |more| ==> WithoutServer(systems[i], systems[i + 1], more[i])
    ensures IsRun(apply, db, states + systems[1..], labels + more, end)
  {
    hide L.Next, WithoutServer, Crashed, L.Init;
    var all, marks := states + systems[1..], labels + more;
    assert forall i :: |labels| <= i < |all| ==> all[i] == systems[i - |labels|];
    forall i | 0 <= i < |marks|
      ensures L.Next(apply, all[i], all[i + 1], marks[i])
      ensures i >= end ==> WithoutServer(all[i], all[i + 1], marks[i])
    {
      if i >= |labels| {
        var k := i - |labels|;
        assert L.Next(apply, systems[k], systems[k + 1], more[k]) && WithoutServer(systems[k], systems[k + 1], more[k]);
      } else {
        assert L.Next(apply, states[i], states[i + 1], labels[i]);
        assert i >= end ==> WithoutServer(states[i], states[i + 1], labels[i]);
      }
    }
  }

  lemma ClientOnlyIsNext(c: Shm.Channel, c': Shm.Channel, e: Shm.Event)
    requires ClientOnly(c, c', e)
    ensures Shm.Next(c, c', e)
  {
    hide Shm.NextStep;
  }

  /** A run after the end in which this client has its answer goes on to return it. */
  lemma AnsweredCallReturns<D(!new)>(apply: L.Database<D>, db: D, states: seq<L.System<D>>, labels: seq<L.Label>,
                                     end: nat, client: nat)
    requires IsRun(apply, db, states, labels, end) && client < |states[|labels|].channels|
    requires Answerable(states[|labels|].channels[client])
    ensures CanReturn(apply, db, states, labels, end, client)
  {
    hide L.Next, Crashed, L.Init, Shm.Inv, ClientOnly, Answerable, Shm.Next, Agrees;
    var s := states[|labels|];
    StateInv(apply, db, states, labels, |labels|);
    var path, events := ClientFinishes(s.channels[client]);
    forall i | 0 <= i < |events|
      ensures Shm.Next(path[i], path[i + 1], events[i]) && !events[i].Executed?
    {
      ClientOnlyIsNext(path[i], path[i + 1], events[i]);
      ClientOnlyStep(path[i], path[i + 1], events[i]);
    }
    SilentAgrees(apply, s.db, events);
    var systems, more := Lift(apply, s, client, path, events);
    forall i | 0 <= i < |more|
      ensures WithoutServer(systems[i], systems[i + 1], more[i])
    {
      assert systems[i].channels[client] == path[i] && systems[i + 1].channels[client] == path[i + 1];
    }
    Joined(apply, db, states, labels, end, systems, more);
    var marks := labels + more;
    var q := |marks| - 1;
    assert marks[q] == more[|more| - 1] == L.Label(client, events[|events| - 1]);
    assert ReturnsLater(labels, marks, client);
  }

  /**
   * After the end of the process a client can still get a return exactly if its call has been answered: calls executed
   * but not answered hang as well as those not executed, and so do all that are made later.
   */
  lemma ReturnsExactly<D(!new)>(apply: L.Database<D>, db: D, states: seq<L.System<D>>, labels: seq<L.Label>, end: nat,
                                client: nat)
    requires IsRun(apply, db, states, labels, end) && client < |states[|labels|].channels|
    ensures CanReturn(apply, db, states, labels, end, client) <==> Answerable(states[|labels|].channels[client])
  {
    hide Answerable;
    if Answerable(states[|labels|].channels[client]) {
      AnsweredCallReturns(apply, db, states, labels, end, client);
    } else {
      forall states', labels' | && IsRun(apply, db, states', labels', end) && states <= states' && labels <= labels'
        ensures !ReturnsLater(labels, labels', client)
      {
        NoReturnLater(apply, db, states, labels, end, client, states', labels');
      }
    }
  }

  lemma NoReturnLater<D>(apply: L.Database<D>, db: D, states: seq<L.System<D>>, labels: seq<L.Label>, end: nat,
                         client: nat, states': seq<L.System<D>>, labels': seq<L.Label>)
    requires IsRun(apply, db, states, labels, end) && Hangs(states[|labels|], client)
    requires IsRun(apply, db, states', labels', end) && states <= states' && labels <= labels'
    ensures !ReturnsLater(labels, labels', client)
  {
    hide L.Next, WithoutServer, Crashed, L.Init, Hangs;
    assert states'[|labels|] == states[|labels|];
    UnansweredCallsHang(apply, db, states', labels', end, client, |labels|, |labels'|);
  }

  // ----- The failure that ends it is reached -----

  /** A call whose operation fails on the database as it is, or gives too large a reply, can bring the process down. */
  lemma FailureReachable<D>(apply: L.Database<D>, s: L.System<D>, client: nat)
    returns (systems: seq<L.System<D>>, labels: seq<L.Label>)
    requires client < |s.channels| && Shm.Inv(s.channels[client]) && P.Unanswered(s.channels[client])
    requires var r := s.channels[client].client.req; P.Throws(r.op, apply(s.db, r.op, r.args).1)
    ensures |systems| == |labels| + 1 && systems[0] == s && Crashed(systems[|labels|])
    ensures forall i :: 0 <= i < |labels| ==> L.Next(apply, systems[i], systems[i + 1], labels[i])
  {
    hide L.Next, Shm.Inv, Shm.Next, Agrees;
    var c := s.channels[client];
    var outcome := apply(s.db, c.client.req.op, c.client.req.args).1;
    var path, events, m := P.CanFail(c, outcome);
    OneExecutionAgrees(apply, s.db, events, m);
    systems, labels := Lift(apply, s, client, path, events);
    assert systems[|labels|].channels[client].server == Shm.Failed;
  }

  lemma {:induction false} OneExecutionAgrees<D>(apply: L.Database<D>, db: D, events: seq<Shm.Event>, m: nat)
    requires m < |events| && events[m].Executed?
    requires events[m].outcome == apply(db, events[m].op, events[m].args).1
    requires forall k :: 0 <= k < |events| && k != m ==> events[k] == Shm.Silent
    ensures Agrees(apply, db, events)
    decreases m
  {
    if m == 0 {
      SilentAgrees(apply, apply(db, events[0].op, events[0].args).0, events[1..]);
    } else {
      OneExecutionAgrees(apply, db, events[1..], m - 1);
    }
  }
}
