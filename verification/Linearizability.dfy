/**
 * Any number of client and server pairs over one database: the server threads execute operations on the shared
 * SqliteLibDB, each operation atomically (db/sqlite_shm_db.cc, sqlite-shm-srv/shm.cc).
 */
module Linearizability {
  import opened MachineInts
  import opened Wrappers
  import opened Codec
  import opened Rpc
  import Shm = ShmChannel

  /** The database as a sequential object: the new state, and the reply unless the operation fails. */
  type Database<!D> = (D, Operation, seq<Value>) -> (D, Option<seq<Value>>)

  datatype System<D> = System(db: D, channels: seq<Shm.Channel>)

  /** What happened in a step, and on whose channel. */
  datatype Label = Label(client: nat, event: Shm.Event)

  ghost predicate Init<D>(s: System<D>, db: D) {
    s.db == db && forall i :: 0 <= i < |s.channels| ==> Shm.Init(s.channels[i])
  }

  ghost predicate Next<D>(apply: Database<D>, s: System<D>, s': System<D>, l: Label) {
    && l.client < |s.channels| == |s'.channels|
    && s'.channels == s.channels[l.client := s'.channels[l.client]]
    && Shm.Next(s.channels[l.client], s'.channels[l.client], l.event)
    && match l.event
       case Executed(op, args, outcome) => (s'.db, outcome) == apply(s.db, op, args)
       case _ => s'.db == s.db
  }

  ghost predicate IsRun<D>(apply: Database<D>, db: D, states: seq<System<D>>, labels: seq<Label>) {
    && |states| == |labels| + 1 && Init(states[0], db)
    && forall i :: 0 <= i < |labels| ==> Next(apply, states[i], states[i + 1], labels[i])
  }

  // ----- Linearizability -----

  /** An operation in the sequential order; `at` is the position of its call in the run and identifies it. */
  datatype Op = Op(client: nat, at: nat, req: Request, outcome: Option<seq<Value>>)

  function Replay<D>(apply: Database<D>, db: D, order: seq<Op>): D {
    if order == [] then db
    else
      var last := order[|order| - 1];
      apply(Replay(apply, db, order[..|order| - 1]), last.req.op, last.req.args).0
  }

  /** Every operation's outcome is what the database gives when the operations run one by one. */
  ghost predicate Sequential<D>(apply: Database<D>, db: D, order: seq<Op>) {
    forall k :: 0 <= k < |order| ==>
      order[k].outcome == apply(Replay(apply, db, order[..k]), order[k].req.op, order[k].req.args).1
  }

  /** The position of the latest call by a client, or -1. */
  function LatestCall(labels: seq<Label>, client: nat): int {
    if labels == [] then -1
    else
      var last := labels[|labels| - 1];
      if last.client == client && last.event.Called? then |labels| - 1
      else LatestCall(labels[..|labels| - 1], client)
  }

  /** The step at `q` returns from the call made at `p`. */
  ghost predicate ReturnsFrom(labels: seq<Label>, q: nat, p: int)
    requires q < |labels|
  {
    labels[q].event.Returned? && p == LatestCall(labels[..q], labels[q].client)
  }

  predicate IsCallOf(labels: seq<Label>, op: Op) {
    op.at < |labels| && labels[op.at] == Label(op.client, Shm.Called(op.req))
  }

  /** The order lists calls that were made, each once. */
  ghost predicate OrdersCalls(labels: seq<Label>, order: seq<Op>) {
    && (forall k :: 0 <= k < |order| ==> IsCallOf(labels, order[k]))
    && (forall j, k :: 0 <= j < k < |order| ==> order[j].at != order[k].at)
  }

  ghost predicate Accounts(labels: seq<Label>, order: seq<Op>, q: nat, k: nat)
    requires q < |labels| && labels[q].event.Returned?
  {
    k < |order| && ReturnsFrom(labels, q, order[k].at)
    && order[k] == Op(labels[q].client, order[k].at, labels[q].event.req, Some(labels[q].event.reply))
  }

  /** Every value a client got is the outcome of its own call in the order. */
  ghost predicate ExplainsReturns(labels: seq<Label>, order: seq<Op>) {
    forall q :: 0 <= q < |labels| && labels[q].event.Returned? && labels[q].event.req.op != Close ==>
      exists k :: Accounts(labels, order, q, k)
  }

  /** An operation that returned before another was called comes first. */
  ghost predicate RespectsTime(labels: seq<Label>, order: seq<Op>) {
    forall q, j, k | 0 <= q < |labels| && 0 <= j < |order| && 0 <= k < |order| ::
      ReturnsFrom(labels, q, order[j].at) && q < order[k].at ==> j < k
  }

  ghost predicate Linearizes<D>(apply: Database<D>, db: D, db': D, labels: seq<Label>, order: seq<Op>) {
    && Sequential(apply, db, order) && db' == Replay(apply, db, order)
    && OrdersCalls(labels, order) && ExplainsReturns(labels, order) && RespectsTime(labels, order)
  }

  // ----- The invariant behind it -----

  predicate CallsAt(labels: seq<Label>, p: int, client: nat, req: Request) {
    0 <= p < |labels| && labels[p] == Label(client, Shm.Called(req))
  }

  /** What the labels and the order say about the call a client has in progress. */
  ghost predicate Tracks(labels: seq<Label>, order: seq<Op>, client: nat, call: Shm.CallState) {
    var p := LatestCall(labels, client);
    match call
    case Requested(r) =>
      && CallsAt(labels, p, client, r)
      && forall k :: 0 <= k < |order| ==> order[k].at != p
    case Served(r, reply) =>
      && CallsAt(labels, p, client, r)
      && Op(client, p, r, Some(reply)) in order
    case _ => true
  }

  ghost predicate AllTrack<D>(s: System<D>, labels: seq<Label>, order: seq<Op>) {
    forall i :: 0 <= i < |s.channels| ==>
      Shm.Inv(s.channels[i]) && Tracks(labels, order, i, Shm.StateOfCall(s.channels[i]))
  }

  /** Every return answers the request of the client's latest call. */
  ghost predicate ReturnsMatch(labels: seq<Label>) {
    forall q :: 0 <= q < |labels| && labels[q].event.Returned? ==>
      CallsAt(labels, LatestCall(labels[..q], labels[q].client), labels[q].client, labels[q].event.req)
  }

  ghost predicate Inv<D>(apply: Database<D>, db: D, s: System<D>, labels: seq<Label>, order: seq<Op>) {
    Linearizes(apply, db, s.db, labels, order) && AllTrack(s, labels, order) && ReturnsMatch(labels)
  }

  lemma {:induction false} LatestCallBound(labels: seq<Label>, client: nat)
    ensures -1 <= LatestCall(labels, client) < |labels|
    ensures var p := LatestCall(labels, client); p >= 0 ==> labels[p].client == client && labels[p].event.Called?
  {
    if labels != [] {
      LatestCallBound(labels[..|labels| - 1], client);
    }
  }

  lemma LatestCallPush(labels: seq<Label>, l: Label, client: nat)
    ensures LatestCall(labels + [l], client)
            == if l.client == client && l.event.Called? then |labels| else LatestCall(labels, client)
  {
    assert (labels + [l])[..|labels|] == labels;
  }

  lemma PrefixesStay(labels: seq<Label>, l: Label)
    ensures forall q :: 0 <= q <= |labels| ==> (labels + [l])[..q] == labels[..q]
  {
  }

  /** Operations that keep their place explain the old returns and respect the old times. */
  lemma OldPart(labels: seq<Label>, l: Label, order: seq<Op>)
    requires OrdersCalls(labels, order) && ExplainsReturns(labels, order) && RespectsTime(labels, order)
    requires ReturnsMatch(labels)
    ensures OrdersCalls(labels + [l], order)
    ensures forall q :: 0 <= q < |labels| && labels[q].event.Returned? && labels[q].event.req.op != Close ==>
              exists k :: Accounts(labels + [l], order, q, k)
    ensures RespectsTime(labels + [l], order)
    ensures forall q :: 0 <= q < |labels| && labels[q].event.Returned? ==>
              CallsAt(labels + [l], LatestCall((labels + [l])[..q], labels[q].client), labels[q].client,
                      labels[q].event.req)
  {
    PrefixesStay(labels, l);
    forall q | 0 <= q < |labels| && labels[q].event.Returned? && labels[q].event.req.op != Close
      ensures exists k :: Accounts(labels + [l], order, q, k)
    {
      var k :| Accounts(labels, order, q, k);
      assert Accounts(labels + [l], order, q, k);
    }
    forall q, j, k | 0 <= q < |labels + [l]| && 0 <= j < |order| && 0 <= k < |order|
                     && ReturnsFrom(labels + [l], q, order[j].at) && q < order[k].at
      ensures j < k
    {
      assert IsCallOf(labels, order[k]);
      assert ReturnsFrom(labels, q, order[j].at);
    }
    forall q | 0 <= q < |labels| && labels[q].event.Returned?
      ensures CallsAt(labels + [l], LatestCall((labels + [l])[..q], labels[q].client), labels[q].client,
                      labels[q].event.req)
    {
      LatestCallBound(labels[..q], labels[q].client);
    }
  }

  lemma TracksSilently(labels: seq<Label>, l: Label, order: seq<Op>, client: nat, call: Shm.CallState)
    requires Tracks(labels, order, client, call) && !(l.client == client && l.event.Called?)
    ensures Tracks(labels + [l], order, client, call)
  {
    LatestCallPush(labels, l, client);
    LatestCallBound(labels, client);
  }

  /** A step that executes nothing leaves the order as it is. */
  lemma StepWithoutExecution<D>(apply: Database<D>, db: D, s: System<D>, s': System<D>, labels: seq<Label>, l: Label,
                                order: seq<Op>)
    requires Inv(apply, db, s, labels, order) && Next(apply, s, s', l) && !l.event.Executed?
    ensures Inv(apply, db, s', labels + [l], order)
  {
    hide Shm.Inv, Shm.Next, Shm.StateOfCall;
    var i := l.client;
    var call, call' := Shm.StateOfCall(s.channels[i]), Shm.StateOfCall(s'.channels[i]);
    ChannelStep(s.channels[i], s'.channels[i], l.event);
    OldPart(labels, l, order);
    forall j | 0 <= j < |s'.channels|
      ensures Shm.Inv(s'.channels[j]) && Tracks(labels + [l], order, j, Shm.StateOfCall(s'.channels[j]))
    {
      if j == i {
        TracksAfter(labels, l, order, call, call');
      } else {
        TracksSilently(labels, l, order, j, Shm.StateOfCall(s.channels[j]));
      }
    }
    if l.event.Returned? {
      ReturnExplained(labels, l, order, call, call');
    }
  }

  lemma TracksAfter(labels: seq<Label>, l: Label, order: seq<Op>, call: Shm.CallState, call': Shm.CallState)
    requires OrdersCalls(labels, order) && Tracks(labels, order, l.client, call)
    requires Shm.Direct(call, l.event, call') && !l.event.Executed?
    ensures Tracks(labels + [l], order, l.client, call')
  {
    LatestCallPush(labels, l, l.client);
    LatestCallBound(labels, l.client);
    if l.event.Called? {
      forall k | 0 <= k < |order|
        ensures order[k].at != |labels|
      {
        assert IsCallOf(labels, order[k]);
      }
    }
  }

  lemma ReturnExplained(labels: seq<Label>, l: Label, order: seq<Op>, call: Shm.CallState, call': Shm.CallState)
    requires OrdersCalls(labels, order) && Tracks(labels, order, l.client, call)
    requires Shm.Direct(call, l.event, call') && l.event.Returned?
    ensures l.event.req.op != Close ==> exists k :: Accounts(labels + [l], order, |labels|, k)
    ensures CallsAt(labels + [l], LatestCall((labels + [l])[..|labels|], l.client), l.client, l.event.req)
  {
    var p := LatestCall(labels, l.client);
    LatestCallBound(labels, l.client);
    assert (labels + [l])[..|labels|] == labels;
    if call.Served? {
      var k :| 0 <= k < |order| && order[k] == Op(l.client, p, l.event.req, Some(l.event.reply));
      assert Accounts(labels + [l], order, |labels|, k);
    }
  }

  lemma SequentialPush<D>(apply: Database<D>, db: D, order: seq<Op>, op: Op)
    requires Sequential(apply, db, order)
    requires op.outcome == apply(Replay(apply, db, order), op.req.op, op.req.args).1
    ensures Sequential(apply, db, order + [op])
    ensures Replay(apply, db, order + [op]) == apply(Replay(apply, db, order), op.req.op, op.req.args).0
  {
    var order' := order + [op];
    assert order'[..|order|] == order;
    forall k | 0 <= k < |order'|
      ensures order'[k].outcome == apply(Replay(apply, db, order'[..k]), order'[k].req.op, order'[k].req.args).1
    {
      if k < |order| {
        assert order'[..k] == order[..k];
      }
    }
  }

  /** A call that is not in the order has not returned. */
  lemma NotReturned(labels: seq<Label>, order: seq<Op>, p: int, client: nat, r: Request, q: nat)
    requires ExplainsReturns(labels, order) && ReturnsMatch(labels) && CallsAt(labels, p, client, r) && r.op != Close
    requires forall k :: 0 <= k < |order| ==> order[k].at != p
    requires q < |labels|
    ensures !ReturnsFrom(labels, q, p)
  {
  }

  /** Putting a requested operation at the end of the order keeps everything the order explains. */
  lemma OrderPush(labels: seq<Label>, order: seq<Op>, op: Op)
    requires OrdersCalls(labels, order) && ExplainsReturns(labels, order) && RespectsTime(labels, order)
    requires ReturnsMatch(labels) && IsCallOf(labels, op) && op.req.op != Close
    requires forall k :: 0 <= k < |order| ==> order[k].at != op.at
    ensures OrdersCalls(labels, order + [op]) && ExplainsReturns(labels, order + [op])
    ensures RespectsTime(labels, order + [op])
  {
    var order' := order + [op];
    forall q | 0 <= q < |labels| && labels[q].event.Returned? && labels[q].event.req.op != Close
      ensures exists k :: Accounts(labels, order', q, k)
    {
      var k :| Accounts(labels, order, q, k);
      assert Accounts(labels, order', q, k);
    }
    forall q, j, k | 0 <= q < |labels| && 0 <= j < |order'| && 0 <= k < |order'|
                     && ReturnsFrom(labels, q, order'[j].at) && q < order'[k].at
      ensures j < k
    {
      if j == |order| {
        NotReturned(labels, order, op.at, op.client, op.req, q);
      } else if k < |order| {
        assert ReturnsFrom(labels, q, order[j].at) && q < order[k].at;
      }
    }
  }

  lemma TracksPush(labels: seq<Label>, order: seq<Op>, op: Op, client: nat, call: Shm.CallState)
    requires Tracks(labels, order, client, call) && IsCallOf(labels, op) && op.client != client
    ensures Tracks(labels, order + [op], client, call)
  {
  }

  /** The step on one channel: its invariant, and how the call it carries moves. */
  lemma ChannelStep(c: Shm.Channel, c': Shm.Channel, e: Shm.Event)
    requires Shm.Inv(c) && Shm.Next(c, c', e)
    ensures Shm.Inv(c') && Shm.Direct(Shm.StateOfCall(c), e, Shm.StateOfCall(c'))
  {
    hide Shm.Inv, Shm.NextStep, Shm.Direct, Shm.StateOfCall;
    var step :| Shm.NextStep(c, c', e, step);
    Shm.StepInv(c, c', e, step);
    Shm.StepIsDirect(c, c', e, step);
  }

  lemma TracksExecution(labels: seq<Label>, l: Label, order: seq<Op>, op: Op, call: Shm.CallState,
                        call': Shm.CallState)
    requires Tracks(labels, order, l.client, call) && Shm.Direct(call, l.event, call') && l.event.Executed?
    requires op == Op(l.client, LatestCall(labels, l.client), Request(l.event.op, l.event.args), l.event.outcome)
    ensures Tracks(labels + [l], order + [op], l.client, call')
  {
    LatestCallPush(labels, l, l.client);
  }

  lemma ExecutionTracked<D>(apply: Database<D>, s: System<D>, s': System<D>, labels: seq<Label>, l: Label,
                            order: seq<Op>, op: Op)
    requires AllTrack(s, labels, order) && Next(apply, s, s', l) && l.event.Executed?
    requires op == Op(l.client, LatestCall(labels, l.client), Request(l.event.op, l.event.args), l.event.outcome)
    requires IsCallOf(labels, op)
    ensures AllTrack(s', labels + [l], order + [op])
  {
    hide Shm.Inv, Shm.Next, Shm.StateOfCall;
    var i := l.client;
    ChannelStep(s.channels[i], s'.channels[i], l.event);
    forall j | 0 <= j < |s'.channels|
      ensures && Shm.Inv(s'.channels[j])
              && Tracks(labels + [l], order + [op], j, Shm.StateOfCall(s'.channels[j]))
    {
      if j == i {
        TracksExecution(labels, l, order, op, Shm.StateOfCall(s.channels[i]), Shm.StateOfCall(s'.channels[i]));
      } else {
        TracksPush(labels, order, op, j, Shm.StateOfCall(s.channels[j]));
        TracksSilently(labels, l, order + [op], j, Shm.StateOfCall(s.channels[j]));
      }
    }
  }

  lemma StepWithExecution<D>(apply: Database<D>, db: D, s: System<D>, s': System<D>, labels: seq<Label>, l: Label,
                             order: seq<Op>)
    returns (order': seq<Op>)
    requires Inv(apply, db, s, labels, order) && Next(apply, s, s', l) && l.event.Executed?
    ensures Inv(apply, db, s', labels + [l], order')
  {
    var op := ExecutedOp(apply, s, s', labels, l, order);
    order' := order + [op];
    SequentialPush(apply, db, order, op);
    OrderPush(labels, order, op);
    OldPart(labels, l, order');
    ExecutionTracked(apply, s, s', labels, l, order, op);
    assert ReturnsMatch(labels + [l]);
  }

  /** What is executed is the call in progress on that channel, and it is not in the order yet. */
  lemma ExecutedOp<D>(apply: Database<D>, s: System<D>, s': System<D>, labels: seq<Label>, l: Label, order: seq<Op>)
    returns (op: Op)
    requires AllTrack(s, labels, order) && Next(apply, s, s', l) && l.event.Executed?
    ensures op == Op(l.client, LatestCall(labels, l.client), Request(l.event.op, l.event.args), l.event.outcome)
    ensures IsCallOf(labels, op) && op.req.op != Close
    ensures forall k :: 0 <= k < |order| ==> order[k].at != op.at
  {
    hide Shm.Inv, Shm.Next, Shm.StateOfCall;
    ChannelStep(s.channels[l.client], s'.channels[l.client], l.event);
    op := Op(l.client, LatestCall(labels, l.client), Request(l.event.op, l.event.args), l.event.outcome);
  }

  lemma NothingYet<D>(apply: Database<D>, db: D, s: System<D>)
    requires Init(s, db)
    ensures Inv(apply, db, s, [], [])
  {
    forall i | 0 <= i < |s.channels|
      ensures Shm.Inv(s.channels[i])
    {
      Shm.InitInv(s.channels[i]);
    }
  }

  lemma {:induction false} RunInv<D>(apply: Database<D>, db: D, states: seq<System<D>>, labels: seq<Label>)
    returns (order: seq<Op>)
    requires IsRun(apply, db, states, labels)
    ensures Inv(apply, db, states[|labels|], labels, order)
  {
    hide Shm.Inv, Shm.Next;
    var n := |labels|;
    if n == 0 {
      NothingYet(apply, db, states[0]);
      order := [];
    } else {
      var before := RunInv(apply, db, states[..n], labels[..n - 1]);
      assert labels == labels[..n - 1] + [labels[n - 1]];
      assert Next(apply, states[n - 1], states[n - 1 + 1], labels[n - 1]);
      if labels[n - 1].event.Executed? {
        order := StepWithExecution(apply, db, states[n - 1], states[n], labels[..n - 1], labels[n - 1], before);
      } else {
        StepWithoutExecution(apply, db, states[n - 1], states[n], labels[..n - 1], labels[n - 1], before);
        order := before;
      }
    }
  }

  /**
   * However the steps of the clients, the servers and their store buffers interleave, some order of the operations,
   * taken one by one on the database directly, gives the final database and every value returned to a client, and
   * puts an operation that returned before another was called first.
   */
  lemma RunsLinearizable<D>(apply: Database<D>, db: D, states: seq<System<D>>, labels: seq<Label>)
    requires IsRun(apply, db, states, labels)
    ensures exists order :: Linearizes(apply, db, states[|labels|].db, labels, order)
  {
    var order := RunInv(apply, db, states, labels);
  }
}
