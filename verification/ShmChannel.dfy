/**
 * One client and one server thread talking through two shared dataspaces (IpcCltCtx::call and the operations of
 * db/sqlite_shm_db.cc against BenchServer::loop of sqlite-shm-srv/shm.cc).  Every byte either side loads or stores is
 * one step, and each side's stores reach memory through its own first-in first-out buffer.
 */
module ShmChannel {
  import opened MachineInts
  import opened Wrappers
  import opened Codec
  import opened StoreBuffer
  import opened Rpc

  datatype Client =
    | Idle
    | Writing(req: Request, i: nat)             // serializing; `i` bytes stored
    | Waiting(req: Request)                     // flag raised, spinning on the answer flag
    | Resetting(req: Request)                   // answer seen, about to clear the answer flag
    | Reading(req: Request, got: seq<byte>)     // deserializing the reply
    | Closed
    | Overflowed(req: Request)                  // the serializer threw

  datatype Server =
    | Polling
    | Fetching(op: Operation, got: seq<byte>)   // deserializing the request
    | Replying(bytes: seq<byte>, i: nat)        // serializing the reply; `i` bytes stored
    | Answering                                 // input flag cleared, about to raise the answer flag
    | Farewell                                  // got the close request
    | Gone                                      // loop left, windows detached
    | Failed                                    // threw

  /** `answer` is history: the reply of the operation executed for the call in progress, if it has been. */
  datatype Channel = Channel(mem: Memory, cbuf: seq<Store>, sbuf: seq<Store>, client: Client, server: Server,
                             answer: Option<seq<Value>>)

  /** What a step does apart from touching the channel. */
  datatype Event =
    | Silent
    | Called(req: Request)
    | Executed(op: Operation, args: seq<Value>, outcome: Option<seq<Value>>)
    | Returned(req: Request, reply: seq<Value>)

  datatype Step =
    | Call(r: Request) | StoreRequest | RequestOverflow | Post | SeeAnswer | ClientSpin | Reset | LoadReply | Return
    | ClientDrain
    | SeeRequest | ServerSpin | LoadRequest | Execute(outcome: Option<seq<Value>>) | StoreReply | ReplyOverflow | Clear
    | Answer | SayFarewell | ServerDrain

  predicate Init(c: Channel) {
    c == Channel(map[], [], [], Idle, Polling, None)
  }

  function ClientSees(c: Channel, l: Loc): byte {
    View(c.cbuf, c.mem, l)
  }

  function ServerSees(c: Channel, l: Loc): byte {
    View(c.sbuf, c.mem, l)
  }

  predicate ClientStores(c: Channel, c': Channel, l: Loc, b: byte, pc: Client) {
    c' == c.(cbuf := c.cbuf + [Store(l, b)], client := pc)
  }

  predicate ServerStores(c: Channel, c': Channel, l: Loc, b: byte, pc: Server) {
    c' == c.(sbuf := c.sbuf + [Store(l, b)], server := pc)
  }

  predicate ClientStep(c: Channel, c': Channel, e: Event, step: Step) {
    match (c.client, step)
    case (Idle, Call(r)) =>
      WellFormed(r) && e == Called(r) && c' == c.(client := Writing(r, 0), answer := None)
    case (Writing(r, i), StoreRequest) =>
      && i < |RequestBytes(r)| && i < WINDOW && e == Silent
      && ClientStores(c, c', In(i), RequestBytes(r)[i], Writing(r, i + 1))
    case (Writing(r, i), RequestOverflow) =>
      |RequestBytes(r)| > WINDOW && e == Silent && c' == c.(client := Overflowed(r))
    case (Writing(r, i), Post) =>
      i == |RequestBytes(r)| && e == Silent && ClientStores(c, c', InFlag, Opcode(r.op), Waiting(r))
    case (Waiting(r), ClientSpin) =>
      ClientSees(c, OutFlag) == 0 && e == Silent && c' == c
    case (Waiting(r), SeeAnswer) =>
      ClientSees(c, OutFlag) != 0 && e == Silent && c' == c.(client := Resetting(r))
    case (Resetting(r), Reset) =>
      e == Silent && ClientStores(c, c', OutFlag, 0, Reading(r, []))
    case (Reading(r, got), LoadReply) =>
      && DecodeAll(ReplyTypes(r.op), got).None? && e == Silent
      && c' == c.(client := Reading(r, got + [ClientSees(c, Out(|got|))]))
    case (Reading(r, got), Return) =>
      && DecodeAll(ReplyTypes(r.op), got).Some?
      && e == Returned(r, DecodeAll(ReplyTypes(r.op), got).value.0)
      && c' == c.(client := if r.op == Close then Closed else Idle)
    case (_, ClientDrain) =>
      && c.cbuf != [] && e == Silent
      && c' == c.(cbuf := c.cbuf[1..], mem := c.mem[c.cbuf[0].loc := c.cbuf[0].value])
    case _ => false
  }

  predicate ServerStep(c: Channel, c': Channel, e: Event, step: Step) {
    match (c.server, step)
    case (Polling, ServerSpin) =>
      ServerSees(c, InFlag) == 0 && e == Silent && c' == c
    case (Polling, SeeRequest) =>
      && ServerSees(c, InFlag) != 0 && e == Silent
      && c' == c.(server := match OperationOf(ServerSees(c, InFlag))
                            case None => Failed
                            case Some(op) => if op == Close then Farewell else Fetching(op, []))
    case (Fetching(op, got), LoadRequest) =>
      && DecodeAll(RequestTypes(op), got).None? && e == Silent
      && c' == c.(server := Fetching(op, got + [ServerSees(c, In(|got|))]))
    case (Fetching(op, got), Execute(outcome)) =>
      && DecodeAll(RequestTypes(op), got).Some?
      && e == Executed(op, DecodeAll(RequestTypes(op), got).value.0, outcome)
      && (outcome.Some? ==> HaveTypes(outcome.value, ReplyTypes(op)))
      && c' == c.(server := if outcome.None? then Failed else Replying(EncodeAll(outcome.value), 0), answer := outcome)
    case (Replying(bytes, i), StoreReply) =>
      && i < |bytes| && i < WINDOW && e == Silent && ServerStores(c, c', Out(i), bytes[i], Replying(bytes, i + 1))
    case (Replying(bytes, i), ReplyOverflow) =>
      |bytes| > WINDOW && e == Silent && c' == c.(server := Failed)
    case (Replying(bytes, i), Clear) =>
      i == |bytes| && e == Silent && ServerStores(c, c', InFlag, 0, Answering)
    case (Answering, Answer) =>
      e == Silent && ServerStores(c, c', OutFlag, 1, Polling)
    case (Farewell, SayFarewell) =>
      e == Silent && ServerStores(c, c', OutFlag, 1, Gone)
    case (_, ServerDrain) =>
      && c.sbuf != [] && e == Silent
      && c' == c.(sbuf := c.sbuf[1..], mem := c.mem[c.sbuf[0].loc := c.sbuf[0].value])
    case _ => false
  }

  predicate ByClient(step: Step) {
    match step
    case Call(_) => true
    case StoreRequest => true
    case RequestOverflow => true
    case Post => true
    case SeeAnswer => true
    case ClientSpin => true
    case Reset => true
    case LoadReply => true
    case Return => true
    case ClientDrain => true
    case _ => false
  }

  predicate NextStep(c: Channel, c': Channel, e: Event, step: Step) {
    if ByClient(step) then ClientStep(c, c', e, step) else ServerStep(c, c', e, step)
  }

  // ----- The invariant -----

  /** Request bytes, and the reset of the answer flag before them. */
  predicate ClientData(buf: seq<Store>) {
    forall k :: 0 <= k < |buf| ==> buf[k].loc.In? || buf[k].loc == OutFlag
  }

  predicate ServerData(buf: seq<Store>) {
    forall k :: 0 <= k < |buf| ==> buf[k].loc.Out?
  }

  /** Reply bytes, and the reset of the input flag behind them. */
  predicate ServerReset(buf: seq<Store>) {
    forall k :: 0 <= k < |buf| ==> buf[k].loc.Out? || buf[k].loc == InFlag
  }

  predicate InHolds(buf: seq<Store>, mem: Memory, bytes: seq<byte>) {
    forall k :: 0 <= k < |bytes| ==> View(buf, mem, In(k)) == bytes[k]
  }

  predicate OutHolds(buf: seq<Store>, mem: Memory, bytes: seq<byte>) {
    forall k :: 0 <= k < |bytes| ==> View(buf, mem, Out(k)) == bytes[k]
  }

  /** The server waits for a request that has not been made. */
  predicate Quiet(c: Channel) {
    c.sbuf == [] && Get(c.mem, InFlag) == 0 && ClientData(c.cbuf) && ClientSees(c, OutFlag) == 0
  }

  /** The request is complete as far as the client is concerned; its flag is the last thing to reach memory. */
  predicate Posted(c: Channel, r: Request) {
    var n := |c.cbuf| - 1;
    && c.sbuf == [] && c.answer.None?
    && ClientSees(c, OutFlag) == 0 && ClientSees(c, InFlag) == Opcode(r.op)
    && InHolds(c.cbuf, c.mem, RequestBytes(r))
    && (c.cbuf != [] ==> ClientData(c.cbuf[..n]) && c.cbuf[n].loc == InFlag && Get(c.mem, InFlag) == 0)
  }

  /** The server works on the request; nothing of the client's is pending. */
  predicate Serving(c: Channel, r: Request) {
    && c.cbuf == [] && Get(c.mem, OutFlag) == 0
    && InHolds([], c.mem, RequestBytes(r))
  }

  /** The answer is complete as far as the server is concerned; its flag is the last thing to reach memory. */
  predicate Answered(c: Channel, r: Request) {
    var n := |c.sbuf| - 1;
    && c.cbuf == []
    && ServerSees(c, InFlag) == 0 && ServerSees(c, OutFlag) == 1
    && (c.sbuf != [] ==> Misses(c.sbuf[..n], OutFlag) && c.sbuf[n].loc == OutFlag && Get(c.mem, OutFlag) == 0)
  }

  predicate ReplyIn(c: Channel, r: Request) {
    && c.answer.Some? && HaveTypes(c.answer.value, ReplyTypes(r.op))
    && |EncodeAll(c.answer.value)| <= WINDOW
    && OutHolds(c.sbuf, c.mem, EncodeAll(c.answer.value))
  }

  predicate Sendable(r: Request) {
    WellFormed(r) && |RequestBytes(r)| <= WINDOW
  }

  predicate Inv(c: Channel) {
    match c.server
    case Polling =>
      (match c.client
       case Idle => Quiet(c)
       case Overflowed(r) => Quiet(c) && |RequestBytes(r)| > WINDOW && c.answer.None?
       case Writing(r, i) =>
         && Quiet(c) && WellFormed(r) && i <= |RequestBytes(r)| && i <= WINDOW && c.answer.None?
         && InHolds(c.cbuf, c.mem, RequestBytes(r)[..i])
       case Waiting(r) =>
         && Sendable(r)
         && (Posted(c, r) || (Answered(c, r) && r.op != Close && ReplyIn(c, r)))
       case Resetting(r) =>
         && Sendable(r) && r.op != Close && ReplyIn(c, r)
         && c.cbuf == [] && c.sbuf == [] && Get(c.mem, InFlag) == 0
       case Reading(r, got) =>
         && Sendable(r) && r.op != Close && ReplyIn(c, r) && Quiet(c)
         && got <= EncodeAll(c.answer.value)
       case Closed => false)
    case Fetching(op, got) =>
      && c.client.Waiting? && var r := c.client.req;
      && Sendable(r) && r.op == op && op != Close && Serving(c, r) && c.answer.None?
      && c.sbuf == [] && Get(c.mem, InFlag) == Opcode(op) && got <= RequestBytes(r)
    case Replying(bytes, i) =>
      && c.client.Waiting? && var r := c.client.req;
      && Sendable(r) && r.op != Close && Serving(c, r) && ServerData(c.sbuf)
      && c.answer.Some? && HaveTypes(c.answer.value, ReplyTypes(r.op)) && bytes == EncodeAll(c.answer.value)
      && i <= |bytes| && i <= WINDOW && OutHolds(c.sbuf, c.mem, bytes[..i])
    case Answering =>
      && c.client.Waiting? && var r := c.client.req;
      && Sendable(r) && r.op != Close && Serving(c, r) && ReplyIn(c, r)
      && ServerSees(c, InFlag) == 0 && ServerReset(c.sbuf)
    case Farewell =>
      && c.client.Waiting? && c.client.req.op == Close && Sendable(c.client.req) && Serving(c, c.client.req)
      && c.sbuf == [] && c.answer.None?
    case Gone =>
      (match c.client
       case Waiting(r) =>
         && r.op == Close && Sendable(r) && c.cbuf == [] && c.answer.None?
         && ((c.sbuf == [Store(OutFlag, 1)] && Get(c.mem, OutFlag) == 0)
             || (c.sbuf == [] && Get(c.mem, OutFlag) == 1))
       case Resetting(r) => r.op == Close && Sendable(r) && c.sbuf == [] && c.cbuf == [] && c.answer.None?
       case Reading(r, got) => r.op == Close && Sendable(r) && c.sbuf == [] && got == [] && c.answer.None?
       case Closed => c.sbuf == []
       case _ => false)
    case Failed =>
      c.client.Waiting? && c.cbuf == [] && Get(c.mem, OutFlag) == 0 && ServerData(c.sbuf)
  }

  // ----- Client steps keep the invariant -----

  lemma ClientCalls(c: Channel, c': Channel, e: Event, r: Request)
    requires Inv(c) && ClientStep(c, c', e, Call(r))
    ensures Inv(c')
  {
    assert RequestBytes(r)[..0] == [];
  }

  lemma ClientStoresByte(c: Channel, c': Channel, e: Event)
    requires Inv(c) && ClientStep(c, c', e, StoreRequest)
    ensures Inv(c')
  {
    var r, i := c.client.req, c.client.i;
    ViewPush(c.cbuf, c.mem, Store(In(i), RequestBytes(r)[i]));
  }

  lemma ClientPosts(c: Channel, c': Channel, e: Event)
    requires Inv(c) && ClientStep(c, c', e, Post)
    ensures Inv(c')
  {
    var r := c.client.req;
    ViewPush(c.cbuf, c.mem, Store(InFlag, Opcode(r.op)));
    assert RequestBytes(r)[..|RequestBytes(r)|] == RequestBytes(r);
    assert c'.cbuf[..|c.cbuf|] == c.cbuf;
    assert Posted(c', r);
  }

  lemma ClientSeesAnswer(c: Channel, c': Channel, e: Event)
    requires Inv(c) && ClientStep(c, c', e, SeeAnswer)
    ensures Inv(c')
  {
  }

  lemma ClientResets(c: Channel, c': Channel, e: Event)
    requires Inv(c) && ClientStep(c, c', e, Reset)
    ensures Inv(c')
  {
    ViewPush(c.cbuf, c.mem, Store(OutFlag, 0));
  }

  /** The client stops reading exactly at the end of the reply: what it has is short of it, or is it. */
  lemma ReplyDecodes(c: Channel)
    requires Inv(c) && c.client.Reading?
    ensures var r, got := c.client.req, c.client.got;
            && (r.op != Close ==> c.answer.Some? && |got| <= |EncodeAll(c.answer.value)|)
            && DecodeAll(ReplyTypes(r.op), got)
               == if r.op == Close then Some(([], 0))
                  else if |got| < |EncodeAll(c.answer.value)| then None
                  else Some((c.answer.value, |EncodeAll(c.answer.value)|))
  {
    var r, got := c.client.req, c.client.got;
    if r.op != Close {
      MessageSelfDelimiting(c.answer.value, ReplyTypes(r.op), got, EncodeAll(c.answer.value));
    }
  }

  lemma ClientLoads(c: Channel, c': Channel, e: Event)
    requires Inv(c) && ClientStep(c, c', e, LoadReply)
    ensures Inv(c') && |c.client.got| < WINDOW
  {
    ReplyDecodes(c);
    var i := |c.client.got|;
    ViewMiss(c.cbuf, c.mem, Out(i));
  }

  lemma ClientReturns(c: Channel, c': Channel, e: Event)
    requires Inv(c) && ClientStep(c, c', e, Return)
    ensures Inv(c')
    ensures c.client.req.op != Close ==> c.answer == Some(e.reply)
  {
    ReplyDecodes(c);
  }

  lemma DrainEffect(buf: seq<Store>, mem: Memory, mem': Memory)
    requires buf != [] && mem' == mem[buf[0].loc := buf[0].value]
    ensures forall l :: View(buf[1..], mem', l) == View(buf, mem, l)
    ensures forall l :: l != buf[0].loc ==> Get(mem', l) == Get(mem, l)
  {
    forall l
      ensures View(buf[1..], mem', l) == View(buf, mem, l)
    {
      ViewDrain(buf, mem, l);
    }
  }

  lemma ClientDrainsPosted(c: Channel, c': Channel, e: Event)
    requires Inv(c) && ClientStep(c, c', e, ClientDrain) && c.client.Waiting?
    ensures Inv(c')
  {
    hide DecodeAll, View;
    DrainEffect(c.cbuf, c.mem, c'.mem);
    var n := |c.cbuf| - 1;
    assert Posted(c, c.client.req);
    RestOfFront(c.cbuf);
    assert n > 0 ==> ClientData(c.cbuf[..n][1..]);
    assert Posted(c', c.client.req);
  }

  lemma RestOfFront(buf: seq<Store>)
    requires buf != []
    ensures |buf| > 1 ==> buf[1..][..|buf| - 2] == buf[..|buf| - 1][1..] && buf[0] == buf[..|buf| - 1][0]
  {
  }

  lemma ClientDrainsData(c: Channel, c': Channel, e: Event)
    requires Inv(c) && ClientStep(c, c', e, ClientDrain) && !c.client.Waiting?
    ensures Inv(c')
  {
    hide DecodeAll;
    DrainEffect(c.cbuf, c.mem, c'.mem);
    QuietDrains(c, c');
  }

  lemma QuietDrains(c: Channel, c': Channel)
    requires c.cbuf != [] && c' == c.(cbuf := c.cbuf[1..], mem := c.mem[c.cbuf[0].loc := c.cbuf[0].value])
    ensures Quiet(c) ==> Quiet(c')
  {
    DrainEffect(c.cbuf, c.mem, c'.mem);
  }

  lemma ClientDrains(c: Channel, c': Channel, e: Event)
    requires Inv(c) && ClientStep(c, c', e, ClientDrain)
    ensures Inv(c')
  {
    hide Inv, ClientStep;
    if c.client.Waiting? {
      ClientDrainsPosted(c, c', e);
    } else {
      ClientDrainsData(c, c', e);
    }
  }

  // ----- Server steps keep the invariant -----

  lemma ServerSeesRequest(c: Channel, c': Channel, e: Event)
    requires Inv(c) && ServerStep(c, c', e, SeeRequest)
    ensures Inv(c') && c'.server != Failed
  {
    OpcodesDistinct(c.client.req.op) by {
      assert c.client.Waiting?;
    }
  }

  /** The server stops reading exactly at the end of the request. */
  lemma RequestDecodes(c: Channel)
    requires Inv(c) && c.server.Fetching?
    ensures var r, got := c.client.req, c.server.got;
            && |got| <= |RequestBytes(r)|
            && DecodeAll(RequestTypes(c.server.op), got)
               == if |got| < |RequestBytes(r)| then None else Some((r.args, |RequestBytes(r)|))
  {
    var r := c.client.req;
    MessageSelfDelimiting(r.args, RequestTypes(r.op), c.server.got, RequestBytes(r));
  }

  lemma ServerLoads(c: Channel, c': Channel, e: Event)
    requires Inv(c) && ServerStep(c, c', e, LoadRequest)
    ensures Inv(c') && |c.server.got| < WINDOW
  {
    RequestDecodes(c);
  }

  lemma ServerExecutes(c: Channel, c': Channel, e: Event, outcome: Option<seq<Value>>)
    requires Inv(c) && ServerStep(c, c', e, Execute(outcome))
    ensures Inv(c')
    ensures c.client.Waiting? && c.client.req == Request(e.op, e.args) && e.op != Close && c.answer.None?
  {
    RequestDecodes(c);
    if outcome.Some? {
      assert EncodeAll(outcome.value)[..0] == [];
    }
  }

  lemma ServerStoresByte(c: Channel, c': Channel, e: Event)
    requires Inv(c) && ServerStep(c, c', e, StoreReply)
    ensures Inv(c')
  {
    var bytes, i := c.server.bytes, c.server.i;
    ViewPush(c.sbuf, c.mem, Store(Out(i), bytes[i]));
  }

  lemma ServerClears(c: Channel, c': Channel, e: Event)
    requires Inv(c) && ServerStep(c, c', e, Clear)
    ensures Inv(c')
  {
    ViewPush(c.sbuf, c.mem, Store(InFlag, 0));
    assert c.server.bytes[..c.server.i] == c.server.bytes;
  }

  lemma ServerAnswers(c: Channel, c': Channel, e: Event)
    requires Inv(c) && ServerStep(c, c', e, Answer)
    ensures Inv(c')
  {
    ViewPush(c.sbuf, c.mem, Store(OutFlag, 1));
    assert c'.sbuf[..|c.sbuf|] == c.sbuf;
    assert Answered(c', c.client.req);
  }

  lemma ServerDrainsReply(c: Channel, c': Channel, e: Event)
    requires Inv(c) && ServerStep(c, c', e, ServerDrain) && (c.server.Replying? || c.server == Answering)
    ensures Inv(c')
  {
    DrainEffect(c.sbuf, c.mem, c'.mem);
    assert c.sbuf[0].loc.Out? || c.sbuf[0].loc == InFlag;
    assert InHolds([], c'.mem, RequestBytes(c.client.req));
  }

  lemma ServerDrainsAnswer(c: Channel, c': Channel, e: Event)
    requires Inv(c) && ServerStep(c, c', e, ServerDrain) && c.server == Polling
    ensures Inv(c')
  {
    DrainEffect(c.sbuf, c.mem, c'.mem);
    var n := |c.sbuf| - 1;
    if n > 0 {
      assert c'.sbuf[..n - 1] == c.sbuf[..n][1..];
      assert c.sbuf[0] == c.sbuf[..n][0];
    }
    assert Answered(c', c.client.req);
  }

  lemma ServerDrains(c: Channel, c': Channel, e: Event)
    requires Inv(c) && ServerStep(c, c', e, ServerDrain)
    ensures Inv(c')
  {
    if c.server == Polling {
      ServerDrainsAnswer(c, c', e);
    } else if c.server.Replying? || c.server == Answering {
      ServerDrainsReply(c, c', e);
    } else {
      assert c.server == Gone || c.server == Failed;
    }
  }

  // ----- Whole runs -----

  lemma ClientOverflows(c: Channel, c': Channel, e: Event)
    requires Inv(c) && ClientStep(c, c', e, RequestOverflow)
    ensures Inv(c')
  {
  }

  lemma ServerOverflows(c: Channel, c': Channel, e: Event)
    requires Inv(c) && ServerStep(c, c', e, ReplyOverflow)
    ensures Inv(c')
  {
  }

  lemma ServerSaysFarewell(c: Channel, c': Channel, e: Event)
    requires Inv(c) && ServerStep(c, c', e, SayFarewell)
    ensures Inv(c')
  {
    ViewPush(c.sbuf, c.mem, Store(OutFlag, 1));
  }

  lemma ClientSpins(c: Channel, c': Channel, e: Event)
    requires ClientStep(c, c', e, ClientSpin)
    ensures c' == c && e == Silent
  {
  }

  lemma ServerSpins(c: Channel, c': Channel, e: Event)
    requires ServerStep(c, c', e, ServerSpin)
    ensures c' == c && e == Silent
  {
  }

  predicate Requests(step: Step) {
    step.Call? || step == StoreRequest || step == RequestOverflow || step == Post || step == ClientDrain
  }

  lemma RequestStepInv(c: Channel, c': Channel, e: Event, step: Step)
    requires Inv(c) && ClientStep(c, c', e, step) && Requests(step)
    ensures Inv(c')
  {
    hide Inv, ClientStep;
    match step
    case Call(r) => ClientCalls(c, c', e, r);
    case StoreRequest => ClientStoresByte(c, c', e);
    case RequestOverflow => ClientOverflows(c, c', e);
    case Post => ClientPosts(c, c', e);
    case ClientDrain => ClientDrains(c, c', e);
  }

  lemma ReceiveStepInv(c: Channel, c': Channel, e: Event, step: Step)
    requires Inv(c) && ClientStep(c, c', e, step) && ByClient(step) && !Requests(step)
    ensures Inv(c')
  {
    hide Inv, ClientStep;
    match step
    case SeeAnswer => ClientSeesAnswer(c, c', e);
    case ClientSpin => ClientSpins(c, c', e);
    case Reset => ClientResets(c, c', e);
    case LoadReply => ClientLoads(c, c', e);
    case Return => ClientReturns(c, c', e);
  }

  lemma ClientStepInv(c: Channel, c': Channel, e: Event, step: Step)
    requires Inv(c) && ClientStep(c, c', e, step) && ByClient(step)
    ensures Inv(c')
  {
    hide Inv, ClientStep, Requests;
    if Requests(step) {
      RequestStepInv(c, c', e, step);
    } else {
      ReceiveStepInv(c, c', e, step);
    }
  }

  predicate Serves(step: Step) {
    step == SeeRequest || step == ServerSpin || step == LoadRequest || step.Execute?
  }

  lemma ServeStepInv(c: Channel, c': Channel, e: Event, step: Step)
    requires Inv(c) && ServerStep(c, c', e, step) && Serves(step)
    ensures Inv(c')
  {
    hide Inv, ServerStep;
    match step
    case SeeRequest => ServerSeesRequest(c, c', e);
    case ServerSpin => ServerSpins(c, c', e);
    case LoadRequest => ServerLoads(c, c', e);
    case Execute(outcome) => ServerExecutes(c, c', e, outcome);
  }

  lemma AnswerStepInv(c: Channel, c': Channel, e: Event, step: Step)
    requires Inv(c) && ServerStep(c, c', e, step) && !ByClient(step) && !Serves(step)
    ensures Inv(c')
  {
    hide Inv, ServerStep;
    match step
    case StoreReply => ServerStoresByte(c, c', e);
    case ReplyOverflow => ServerOverflows(c, c', e);
    case Clear => ServerClears(c, c', e);
    case Answer => ServerAnswers(c, c', e);
    case SayFarewell => ServerSaysFarewell(c, c', e);
    case ServerDrain => ServerDrains(c, c', e);
  }

  lemma ServerStepInv(c: Channel, c': Channel, e: Event, step: Step)
    requires Inv(c) && ServerStep(c, c', e, step) && !ByClient(step)
    ensures Inv(c')
  {
    hide Inv, ServerStep, Serves;
    if Serves(step) {
      ServeStepInv(c, c', e, step);
    } else {
      AnswerStepInv(c, c', e, step);
    }
  }

  lemma StepInv(c: Channel, c': Channel, e: Event, step: Step)
    requires Inv(c) && NextStep(c, c', e, step)
    ensures Inv(c')
  {
    hide Inv, ClientStep, ServerStep;
    if ByClient(step) {
      ClientStepInv(c, c', e, step);
    } else {
      ServerStepInv(c, c', e, step);
    }
  }

  ghost predicate Next(c: Channel, c': Channel, e: Event) {
    exists step :: NextStep(c, c', e, step)
  }

  /** A run of the channel and what its steps did: step `i` leads from `states[i]` to the next state. */
  ghost predicate IsRun(states: seq<Channel>, events: seq<Event>) {
    && |states| == |events| + 1 && Init(states[0])
    && forall i :: 0 <= i < |events| ==> Next(states[i], states[i + 1], events[i])
  }

  lemma InitInv(c: Channel)
    requires Init(c)
    ensures Inv(c)
  {
  }

  lemma {:induction false} RunInv(states: seq<Channel>, events: seq<Event>)
    requires IsRun(states, events)
    ensures Inv(states[|events|])
  {
    hide Inv, NextStep;
    var n := |events|;
    if n == 0 {
      InitInv(states[0]);
    } else {
      assert forall i :: 0 <= i < n - 1 ==> Next(states[..n][i], states[..n][i + 1], events[..n - 1][i]);
      RunInv(states[..n], events[..n - 1]);
      var step :| NextStep(states[n - 1], states[n - 1 + 1], events[n - 1], step);
      StepInv(states[n - 1], states[n], events[n - 1], step);
    }
  }

  // ----- Safety -----

  predicate Pending(buf: seq<Store>, window: bool) {
    exists k :: 0 <= k < |buf| && if window then buf[k].loc.In? else buf[k].loc.Out?
  }

  predicate ClientUsesRequestWindow(c: Channel) {
    c.client.Writing? || Pending(c.cbuf, true)
  }

  predicate ServerUsesRequestWindow(c: Channel) {
    c.server.Fetching? || Pending(c.sbuf, true)
  }

  predicate ClientUsesReplyWindow(c: Channel) {
    c.client.Reading? || Pending(c.cbuf, false)
  }

  predicate ServerUsesReplyWindow(c: Channel) {
    c.server.Replying? || Pending(c.sbuf, false)
  }

  /** The two sides are never in the same window at once, counting stores still on their way to memory. */
  lemma WindowsExclusive(states: seq<Channel>, events: seq<Event>)
    requires IsRun(states, events)
    ensures !(ClientUsesRequestWindow(states[|events|]) && ServerUsesRequestWindow(states[|events|]))
    ensures !(ClientUsesReplyWindow(states[|events|]) && ServerUsesReplyWindow(states[|events|]))
  {
    RunInv(states, events);
    InvExcludes(states[|events|]);
  }

  lemma InvExcludes(c: Channel)
    requires Inv(c)
    ensures !(ClientUsesRequestWindow(c) && ServerUsesRequestWindow(c))
    ensures !(ClientUsesReplyWindow(c) && ServerUsesReplyWindow(c))
  {
  }

  /** No loaded or stored byte lies outside the windows. */
  lemma AccessesInWindow(c: Channel, c': Channel, e: Event, step: Step)
    requires Inv(c) && NextStep(c, c', e, step)
    ensures step == StoreRequest ==> c.client.i < WINDOW
    ensures step == LoadRequest ==> |c.server.got| < WINDOW
    ensures step == StoreReply ==> c.server.i < WINDOW
    ensures step == LoadReply ==> |c.client.got| < WINDOW
  {
    if step == LoadRequest {
      ServerLoads(c, c', e);
    } else if step == LoadReply {
      ClientLoads(c, c', e);
    }
  }

  lemma StateInv(states: seq<Channel>, events: seq<Event>, i: nat)
    requires IsRun(states, events) && i <= |events|
    ensures Inv(states[i])
  {
    hide Inv, Next;
    var prefix, before := states[..i + 1], events[..i];
    assert forall k :: 0 <= k < i ==> Next(prefix[k], prefix[k + 1], before[k]);
    RunInv(prefix, before);
  }

  lemma GoneStep(c: Channel, c': Channel, e: Event, step: Step)
    requires Inv(c) && NextStep(c, c', e, step) && c.server == Gone
    ensures c'.server == Gone && c'.sbuf <= c.sbuf
    ensures !ServerUsesRequestWindow(c') && !ServerUsesReplyWindow(c')
    ensures c.client == Closed ==> c.sbuf == []
  {
    hide DecodeAll, View, WellFormed, RequestBytes;
  }

  /** After the close request has been answered the server never touches either window again, in any run. */
  lemma {:induction false} GoneForGood(states: seq<Channel>, events: seq<Event>, i: nat, j: nat)
    requires IsRun(states, events) && i <= j <= |events| && states[i].server == Gone
    ensures states[j].server == Gone && states[j].sbuf <= states[i].sbuf
    ensures !ServerUsesRequestWindow(states[j]) && !ServerUsesReplyWindow(states[j])
    ensures states[j].client == Closed ==> states[j].sbuf == []
    decreases j
  {
    hide Inv, NextStep, ServerUsesRequestWindow, ServerUsesReplyWindow;
    StateInv(states, events, j);
    if i < j {
      GoneForGood(states, events, i, j - 1);
      StateInv(states, events, j - 1);
      assert Next(states[j - 1], states[j - 1 + 1], events[j - 1]);
      var step :| NextStep(states[j - 1], states[j], events[j - 1], step);
      GoneStep(states[j - 1], states[j], events[j - 1], step);
    }
    GoneQuietly(states[j]);
  }

  lemma GoneQuietly(c: Channel)
    requires Inv(c) && c.server == Gone
    ensures !ServerUsesRequestWindow(c) && !ServerUsesReplyWindow(c)
    ensures c.client == Closed ==> c.sbuf == []
  {
  }

  /** A channel seen from outside: a call, its single execution on the database, and its return. */
  datatype CallState = NoCall | Requested(req: Request) | Served(req: Request, reply: seq<Value>) | Stuck | Over

  /** How calling the database directly would go through these states. */
  predicate Direct(s: CallState, e: Event, s': CallState) {
    match (s, e)
    case (_, Silent) => s' == s
    case (NoCall, Called(r)) => s' == Requested(r)
    case (Requested(r), Executed(op, args, outcome)) =>
      r == Request(op, args) && op != Close && s' == if outcome.Some? then Served(r, outcome.value) else Stuck
    case (Served(r, reply), Returned(q, got)) => q == r && got == reply && s' == NoCall
    case (Requested(r), Returned(q, got)) => r.op == Close && q == r && got == [] && s' == Over
    case _ => false
  }

  function StateOfCall(c: Channel): CallState {
    match c.client
    case Idle => NoCall
    case Closed => Over
    case _ =>
      if c.answer.Some? then Served(c.client.req, c.answer.value)
      else if c.server == Failed then Stuck
      else Requested(c.client.req)
  }

  lemma CallIsDirect(c: Channel, c': Channel, e: Event, r: Request)
    requires Inv(c) && ClientStep(c, c', e, Call(r))
    ensures Direct(StateOfCall(c), e, StateOfCall(c'))
  {
  }

  lemma ReturnIsDirect(c: Channel, c': Channel, e: Event)
    requires Inv(c) && ClientStep(c, c', e, Return)
    ensures Direct(StateOfCall(c), e, StateOfCall(c'))
  {
    ClientReturns(c, c', e);
    ReplyDecodes(c);
    hide DecodeAll;
  }

  /** The other steps of the client do not touch the call it has in progress. */
  lemma ClientStepIsSilent(c: Channel, c': Channel, e: Event, step: Step)
    requires ClientStep(c, c', e, step) && !step.Call? && step != Return
    ensures e == Silent && StateOfCall(c') == StateOfCall(c)
  {
    hide DecodeAll, View;
  }

  lemma ClientStepIsDirect(c: Channel, c': Channel, e: Event, step: Step)
    requires Inv(c) && ClientStep(c, c', e, step)
    ensures Direct(StateOfCall(c), e, StateOfCall(c'))
  {
    hide Inv, ClientStep, StateOfCall;
    if step.Call? {
      CallIsDirect(c, c', e, step.r);
    } else if step == Return {
      ReturnIsDirect(c, c', e);
    } else {
      ClientStepIsSilent(c, c', e, step);
    }
  }

  lemma ExecuteIsDirect(c: Channel, c': Channel, e: Event, outcome: Option<seq<Value>>)
    requires Inv(c) && ServerStep(c, c', e, Execute(outcome))
    ensures Direct(StateOfCall(c), e, StateOfCall(c'))
  {
    ServerExecutes(c, c', e, outcome);
    hide Inv, DecodeAll;
  }

  lemma SeeRequestIsSilent(c: Channel, c': Channel, e: Event)
    requires Inv(c) && ServerStep(c, c', e, SeeRequest)
    ensures e == Silent && StateOfCall(c') == StateOfCall(c)
  {
    ServerSeesRequest(c, c', e);
    hide Inv, View;
  }

  lemma ReplyOverflowIsSilent(c: Channel, c': Channel, e: Event)
    requires Inv(c) && ServerStep(c, c', e, ReplyOverflow)
    ensures e == Silent && StateOfCall(c') == StateOfCall(c)
  {
  }

  /** The other steps of the server neither execute anything nor fail. */
  lemma ServerStepIsSilent(c: Channel, c': Channel, e: Event, step: Step)
    requires ServerStep(c, c', e, step) && !step.Execute? && step != SeeRequest && step != ReplyOverflow
    ensures e == Silent && StateOfCall(c') == StateOfCall(c)
  {
    hide DecodeAll, View;
  }

  lemma ServerStepIsDirect(c: Channel, c': Channel, e: Event, step: Step)
    requires Inv(c) && ServerStep(c, c', e, step)
    ensures Direct(StateOfCall(c), e, StateOfCall(c'))
  {
    hide Inv, ServerStep, StateOfCall;
    if step.Execute? {
      ExecuteIsDirect(c, c', e, step.outcome);
    } else if step == SeeRequest {
      SeeRequestIsSilent(c, c', e);
    } else if step == ReplyOverflow {
      ReplyOverflowIsSilent(c, c', e);
    } else {
      ServerStepIsSilent(c, c', e, step);
    }
  }

  /**
   * Every step of the protocol is a step of the direct call: the request executed is the one the client made, it is
   * executed once, and what the client gets is the reply of that execution.
   */
  lemma StepIsDirect(c: Channel, c': Channel, e: Event, step: Step)
    requires Inv(c) && NextStep(c, c', e, step)
    ensures Direct(StateOfCall(c), e, StateOfCall(c'))
  {
    hide Inv, ClientStep, ServerStep, Direct, StateOfCall;
    if ByClient(step) {
      ClientStepIsDirect(c, c', e, step);
    } else {
      ServerStepIsDirect(c, c', e, step);
    }
  }
}
