/**
 * The five operations of a client, written out: the bytes of their requests and replies, and what comes back
 * (db/sqlite_shm_db.cc, sqlite-shm-srv/shm.cc, include/serializer.h).
 */
module Calls {
  import opened MachineInts
  import opened Wrappers
  import opened Codec
  import opened Rpc
  import opened StoreBuffer
  import Shm = ShmChannel
  import P = Progress

  /** A std::string: any octets, NULs included. */
  type Text = seq<byte>
  type KVPair = (Text, Text)

  // ----- Arguments and results as values -----

  function Texts(texts: seq<Text>): Value {
    Vector(seq(|texts|, i requires 0 <= i < |texts| => Str(texts[i])))
  }

  function Pairs(pairs: seq<KVPair>): Value {
    Vector(seq(|pairs|, i requires 0 <= i < |pairs| => Codec.Pair(Str(pairs[i].0), Str(pairs[i].1))))
  }

  function Rows(rows: seq<seq<KVPair>>): Value {
    Vector(seq(|rows|, i requires 0 <= i < |rows| => Pairs(rows[i])))
  }

  // ----- The bytes on the wire -----

  /** A string is its length and its octets, a vector its size and its elements, a pair its two components. */
  function TextBytes(t: Text): seq<byte> {
    LittleEndian(|t|, 8) + t
  }

  function TextsBytes(texts: seq<Text>): seq<byte> {
    LittleEndian(|texts|, 8) + EachText(texts)
  }

  function EachText(texts: seq<Text>): seq<byte> {
    if texts == [] then [] else TextBytes(texts[0]) + EachText(texts[1..])
  }

  function PairsBytes(pairs: seq<KVPair>): seq<byte> {
    LittleEndian(|pairs|, 8) + EachPair(pairs)
  }

  function EachPair(pairs: seq<KVPair>): seq<byte> {
    if pairs == [] then [] else TextBytes(pairs[0].0) + TextBytes(pairs[0].1) + EachPair(pairs[1..])
  }

  function RowsBytes(rows: seq<seq<KVPair>>): seq<byte> {
    LittleEndian(|rows|, 8) + EachRow(rows)
  }

  function EachRow(rows: seq<seq<KVPair>>): seq<byte> {
    if rows == [] then [] else PairsBytes(rows[0]) + EachRow(rows[1..])
  }

  /** An int as four octets of its two's complement. */
  function IntBytes(i: int32): seq<byte> {
    LittleEndian(if i < 0 then i + 0x1_0000_0000 else i, 4)
  }

  lemma {:induction false} TextsEncode(texts: seq<Text>)
    ensures EncodeAll(Texts(texts).elements) == EachText(texts)
    decreases |texts|
  {
    if texts != [] {
      TextsEncode(texts[1..]);
      assert Texts(texts).elements[1..] == Texts(texts[1..]).elements;
    }
  }

  lemma {:induction false} PairsEncode(pairs: seq<KVPair>)
    ensures EncodeAll(Pairs(pairs).elements) == EachPair(pairs)
    decreases |pairs|
  {
    if pairs != [] {
      PairsEncode(pairs[1..]);
      assert Pairs(pairs).elements[1..] == Pairs(pairs[1..]).elements;
      assert Encode(Pairs(pairs).elements[0]) == TextBytes(pairs[0].0) + TextBytes(pairs[0].1);
    }
  }

  lemma {:induction false} RowsEncode(rows: seq<seq<KVPair>>)
    ensures EncodeAll(Rows(rows).elements) == EachRow(rows)
    decreases |rows|
  {
    if rows != [] {
      RowsEncode(rows[1..]);
      assert Rows(rows).elements[1..] == Rows(rows[1..]).elements;
      PairsEncode(rows[0]);
      assert Encode(Rows(rows).elements[0]) == PairsBytes(rows[0]);
    }
  }

  lemma EncodeOne(v: Value)
    ensures EncodeAll([v]) == Encode(v)
  {
    assert EncodeAll([v]) == Encode(v) + EncodeAll([]);
  }

  lemma EncodeMore(v: Value, vs: seq<Value>)
    ensures EncodeAll([v] + vs) == Encode(v) + EncodeAll(vs)
  {
    assert ([v] + vs)[1..] == vs;
  }

  lemma EncodeTwo(v: Value, w: Value)
    ensures EncodeAll([v, w]) == Encode(v) + Encode(w)
  {
    hide Encode;
    EncodeMore(v, [w]);
    EncodeOne(w);
    assert [v] + [w] == [v, w];
  }

  lemma EncodeThree(v: Value, w: Value, x: Value)
    ensures EncodeAll([v, w, x]) == Encode(v) + Encode(w) + Encode(x)
  {
    hide Encode;
    EncodeMore(v, [w, x]);
    EncodeTwo(w, x);
    assert [v] + [w, x] == [v, w, x];
  }

  lemma EncodeFour(v: Value, w: Value, x: Value, y: Value)
    ensures EncodeAll([v, w, x, y]) == Encode(v) + Encode(w) + Encode(x) + Encode(y)
  {
    hide Encode;
    EncodeMore(v, [w, x, y]);
    EncodeThree(w, x, y);
    assert [v] + [w, x, y] == [v, w, x, y];
  }

  /** The bytes of every request, in the order in which they lie in the request window. */
  lemma RequestWire(table: Text, key: Text, len: int32, fields: seq<Text>, values: seq<KVPair>)
    ensures EncodeAll([Str(table), Str(key)]) == TextBytes(table) + TextBytes(key)
    ensures EncodeAll([Str(table), Str(key), Texts(fields)]) == TextBytes(table) + TextBytes(key) + TextsBytes(fields)
    ensures EncodeAll([Str(table), Str(key), Int(len), Texts(fields)])
            == TextBytes(table) + TextBytes(key) + IntBytes(len) + TextsBytes(fields)
    ensures EncodeAll([Str(table), Str(key), Pairs(values)]) == TextBytes(table) + TextBytes(key) + PairsBytes(values)
  {
    TextsEncode(fields);
    PairsEncode(values);
    EncodeTwo(Str(table), Str(key));
    EncodeThree(Str(table), Str(key), Texts(fields));
    EncodeFour(Str(table), Str(key), Int(len), Texts(fields));
    EncodeThree(Str(table), Str(key), Pairs(values));
    hide EncodeAll;
    assert Encode(Int(len)) == IntBytes(len);
  }

  lemma ReplyWire(row: seq<KVPair>, rows: seq<seq<KVPair>>)
    ensures EncodeAll([Pairs(row)]) == PairsBytes(row)
    ensures EncodeAll([Rows(rows)]) == RowsBytes(rows)
    ensures EncodeAll([]) == []
  {
    PairsEncode(row);
    RowsEncode(rows);
    EncodeOne(Pairs(row));
    EncodeOne(Rows(rows));
  }

  /** A table of the schema is its name and its columns. */
  lemma TableWire(name: Text, columns: seq<Text>)
    ensures Encode(Table(Str(name), Texts(columns))) == TextBytes(name) + TextsBytes(columns)
  {
    TextsEncode(columns);
    assert Encode(Texts(columns)) == TextsBytes(columns);
  }

  // ----- What fits is well formed -----

  lemma {:induction false} TextsTyped(texts: seq<Text>)
    requires |EachText(texts)| < TWO_TO_64
    ensures |texts| < TWO_TO_64 && forall i :: 0 <= i < |texts| ==> |texts[i]| < TWO_TO_64
    ensures |texts| <= |EachText(texts)|
    decreases |texts|
  {
    if texts != [] {
      TextsTyped(texts[1..]);
      assert forall i :: 0 < i < |texts| ==> texts[i] == texts[1..][i - 1];
    }
  }

  predicate SmallPair(p: KVPair) {
    |p.0| < TWO_TO_64 && |p.1| < TWO_TO_64
  }

  lemma {:induction false} PairsTyped(pairs: seq<KVPair>)
    requires |EachPair(pairs)| < TWO_TO_64
    ensures |pairs| < TWO_TO_64 && forall i :: 0 <= i < |pairs| ==> SmallPair(pairs[i])
    ensures |pairs| <= |EachPair(pairs)|
    decreases |pairs|
  {
    if pairs != [] {
      PairsTyped(pairs[1..]);
      assert forall i :: 0 < i < |pairs| ==> pairs[i] == pairs[1..][i - 1];
    }
  }

  const PAIR_LIST := VectorType(PairType(StringType, StringType))

  lemma PairsHaveType(pairs: seq<KVPair>)
    requires |EachPair(pairs)| < TWO_TO_64
    ensures HasType(Pairs(pairs), PAIR_LIST)
  {
    PairsTyped(pairs);
    hide EachPair;
    forall v | v in Pairs(pairs).elements
      ensures HasType(v, PairType(StringType, StringType))
    {
      var i :| 0 <= i < |pairs| && v == Pairs(pairs).elements[i];
      assert SmallPair(pairs[i]);
    }
  }

  lemma {:induction false} RowsTyped(rows: seq<seq<KVPair>>)
    requires |EachRow(rows)| < TWO_TO_64
    ensures |rows| <= |EachRow(rows)|
    ensures forall i :: 0 <= i < |rows| ==> HasType(Pairs(rows[i]), PAIR_LIST)
    decreases |rows|
  {
    hide HasType;
    if rows != [] {
      RowsTyped(rows[1..]);
      PairsHaveType(rows[0]);
      assert forall i :: 0 < i < |rows| ==> rows[i] == rows[1..][i - 1];
    }
  }

  lemma RowsHaveType(rows: seq<seq<KVPair>>)
    requires |EachRow(rows)| < TWO_TO_64
    ensures HasType(Rows(rows), VectorType(PAIR_LIST))
  {
    RowsTyped(rows);
    forall v | v in Rows(rows).elements
      ensures HasType(v, PAIR_LIST)
    {
      var i :| 0 <= i < |rows| && v == Rows(rows).elements[i];
      assert v == Pairs(rows[i]);
    }
  }

  lemma TextsHaveType(texts: seq<Text>)
    requires |EachText(texts)| < TWO_TO_64
    ensures HasType(Texts(texts), VectorType(StringType))
  {
    TextsTyped(texts);
  }

  // ----- The five operations -----

  /** Room for a message: a dataspace of 1 MiB less its flag. */
  predicate Fits(message: seq<byte>) {
    |message| <= 1048575
  }

  /** Between two calls, in any reachable state. */
  predicate BetweenCalls(c: Shm.Channel) {
    Shm.Inv(c) && c.client == Shm.Idle
  }

  /**
   * Any strings that fit: the read is called with them, executed with exactly them, and any row the database gives comes
   * back as it is, provided that it fits.  A read of all fields passes an empty list.
   */
  lemma ReadRuns(c: Shm.Channel, table: Text, key: Text, fields: seq<Text>, row: seq<KVPair>)
    returns (states: seq<Shm.Channel>, events: seq<Shm.Event>, m: nat)
    requires BetweenCalls(c)
    requires Fits(TextBytes(table) + TextBytes(key) + TextsBytes(fields)) && Fits(PairsBytes(row))
    ensures P.CarriesOut(c, states, events, m, Request(Read, [Str(table), Str(key), Texts(fields)]), [Pairs(row)])
  {
    hide Shm.Inv, HasType, Encode, EncodeAll, EachText, EachPair, P.CarriesOut;
    RequestWire(table, key, 0, fields, []);
    ReplyWire(row, []);
    TextsHaveType(fields);
    PairsHaveType(row);
    TextHasType(table);
    TextHasType(key);
    states, events, m := P.CallRuns(c, Request(Read, [Str(table), Str(key), Texts(fields)]), [Pairs(row)]);
  }

  lemma ScanRuns(c: Shm.Channel, table: Text, key: Text, len: int32, fields: seq<Text>, rows: seq<seq<KVPair>>)
    returns (states: seq<Shm.Channel>, events: seq<Shm.Event>, m: nat)
    requires BetweenCalls(c)
    requires Fits(TextBytes(table) + TextBytes(key) + IntBytes(len) + TextsBytes(fields)) && Fits(RowsBytes(rows))
    ensures P.CarriesOut(c, states, events, m, Request(Scan, [Str(table), Str(key), Int(len), Texts(fields)]),
                         [Rows(rows)])
  {
    hide Shm.Inv, HasType, Encode, EncodeAll, EachText, EachRow, P.CarriesOut;
    RequestWire(table, key, len, fields, []);
    ReplyWire([], rows);
    TextsHaveType(fields);
    RowsHaveType(rows);
    TextHasType(table);
    TextHasType(key);
    IntHasType(len);
    states, events, m := P.CallRuns(c, Request(Scan, [Str(table), Str(key), Int(len), Texts(fields)]), [Rows(rows)]);
  }

  /** Inserts and updates carry the pairs of the record in the order given, and come back with nothing. */
  lemma StoreRuns(c: Shm.Channel, op: Operation, table: Text, key: Text, values: seq<KVPair>)
    returns (states: seq<Shm.Channel>, events: seq<Shm.Event>, m: nat)
    requires BetweenCalls(c) && (op == Insert || op == Update)
    requires Fits(TextBytes(table) + TextBytes(key) + PairsBytes(values))
    ensures P.CarriesOut(c, states, events, m, Request(op, [Str(table), Str(key), Pairs(values)]), [])
  {
    hide Shm.Inv, HasType, Encode, EncodeAll, EachPair, P.CarriesOut;
    RequestWire(table, key, 0, [], values);
    ReplyWire([], []);
    PairsHaveType(values);
    TextHasType(table);
    TextHasType(key);
    states, events, m := P.CallRuns(c, Request(op, [Str(table), Str(key), Pairs(values)]), []);
  }

  lemma DeleteRuns(c: Shm.Channel, table: Text, key: Text)
    returns (states: seq<Shm.Channel>, events: seq<Shm.Event>, m: nat)
    requires BetweenCalls(c) && Fits(TextBytes(table) + TextBytes(key))
    ensures P.CarriesOut(c, states, events, m, Request(Delete, [Str(table), Str(key)]), [])
  {
    hide Shm.Inv, HasType, Encode, EncodeAll, P.CarriesOut;
    RequestWire(table, key, 0, [], []);
    ReplyWire([], []);
    TextHasType(table);
    TextHasType(key);
    states, events, m := P.CallRuns(c, Request(Delete, [Str(table), Str(key)]), []);
  }

  lemma TextHasType(t: Text)
    requires |t| < TWO_TO_64
    ensures HasType(Str(t), StringType)
  {
  }

  lemma IntHasType(i: int32)
    ensures HasType(Int(i), IntType)
  {
  }

  // ----- And nothing else crosses a channel -----

  predicate IsTexts(v: Value) {
    v.Vector? && forall x :: x in v.elements ==> x.Str?
  }

  predicate IsPairs(v: Value) {
    v.Vector? && forall x :: x in v.elements ==> IsKVPair(x)
  }

  predicate IsKVPair(v: Value) {
    v.Pair? && v.first.Str? && v.second.Str?
  }

  predicate IsRows(v: Value) {
    v.Vector? && forall x :: x in v.elements ==> IsPairs(x)
  }

  /** Table, key, and what the operation adds to them. */
  predicate IsRequest(r: Request) {
    match r.op
    case Read => |r.args| == 3 && r.args[0].Str? && r.args[1].Str? && IsTexts(r.args[2])
    case Scan => |r.args| == 4 && r.args[0].Str? && r.args[1].Str? && r.args[2].Int? && IsTexts(r.args[3])
    case Insert => |r.args| == 3 && r.args[0].Str? && r.args[1].Str? && IsPairs(r.args[2])
    case Update => |r.args| == 3 && r.args[0].Str? && r.args[1].Str? && IsPairs(r.args[2])
    case Delete => |r.args| == 2 && r.args[0].Str? && r.args[1].Str?
    case Close => r.args == []
  }

  predicate IsReply(op: Operation, reply: seq<Value>) {
    match op
    case Read => |reply| == 1 && IsPairs(reply[0])
    case Scan => |reply| == 1 && IsRows(reply[0])
    case _ => reply == []
  }

  lemma TextsShape(v: Value)
    requires HasType(v, VectorType(StringType))
    ensures IsTexts(v)
  {
  }

  lemma PairsShape(v: Value)
    requires HasType(v, PAIR_LIST)
    ensures IsPairs(v)
  {
    forall x | x in v.elements
      ensures IsKVPair(x)
    {
      assert HasType(x, PairType(StringType, StringType));
    }
  }

  lemma RowsShape(v: Value)
    requires HasType(v, VectorType(PAIR_LIST))
    ensures IsRows(v)
  {
    forall x | x in v.elements
      ensures IsPairs(x)
    {
      PairsShape(x);
    }
  }

  lemma RequestShape(op: Operation, args: seq<Value>)
    requires HaveTypes(args, RequestTypes(op))
    ensures IsRequest(Request(op, args))
  {
    hide IsTexts, IsPairs;
    match op
    case Read => TextsShape(args[2]);
    case Scan => TextsShape(args[3]);
    case Insert => PairsShape(args[2]);
    case Update => PairsShape(args[2]);
    case _ =>
  }

  lemma ReplyShape(op: Operation, reply: seq<Value>)
    requires HaveTypes(reply, ReplyTypes(op))
    ensures IsReply(op, reply)
  {
    hide IsPairs, IsRows;
    match op
    case Read => PairsShape(reply[0]);
    case Scan => RowsShape(reply[0]);
    case _ =>
  }

  lemma EventTypes(c: Shm.Channel, c': Shm.Channel, e: Shm.Event, step: Shm.Step)
    requires Shm.NextStep(c, c', e, step)
    ensures e.Called? ==> HaveTypes(e.req.args, RequestTypes(e.req.op))
    ensures e.Executed? ==> c.server.Fetching? && DecodeAll(RequestTypes(e.op), c.server.got).Some?
                            && e.args == DecodeAll(RequestTypes(e.op), c.server.got).value.0
    ensures e.Executed? && e.outcome.Some? ==> HaveTypes(e.outcome.value, ReplyTypes(e.op))
    ensures e.Returned? ==> c.client.Reading? && DecodeAll(ReplyTypes(e.req.op), c.client.got).Some?
                            && e.reply == DecodeAll(ReplyTypes(e.req.op), c.client.got).value.0
  {
    hide DecodeAll, View, HaveTypes, RequestTypes, ReplyTypes;
  }

  /** No step of either side calls, executes or returns anything else. */
  lemma OnlyThese(c: Shm.Channel, c': Shm.Channel, e: Shm.Event, step: Shm.Step)
    requires Shm.NextStep(c, c', e, step)
    ensures e.Called? ==> IsRequest(e.req)
    ensures e.Executed? ==> IsRequest(Request(e.op, e.args)) && (e.outcome.Some? ==> IsReply(e.op, e.outcome.value))
    ensures e.Returned? ==> IsReply(e.req.op, e.reply)
  {
    EventTypes(c, c', e, step);
    hide Shm.NextStep, DecodeAll, HaveTypes, RequestTypes, ReplyTypes, IsRequest, IsReply;
    match e
    case Called(r) => RequestShape(r.op, r.args);
    case Executed(op, args, outcome) =>
      MessageDecodeEncode(RequestTypes(op), c.server.got);
      RequestShape(op, args);
      if outcome.Some? {
        ReplyShape(op, outcome.value);
      }
    case Returned(r, reply) =>
      MessageDecodeEncode(ReplyTypes(r.op), c.client.got);
      ReplyShape(r.op, reply);
    case Silent =>
  }

  /** A request or reply is posted only if it fits, and what throws for want of room does not fit. */
  lemma OnlyWhatFits(c: Shm.Channel, c': Shm.Channel, e: Shm.Event, step: Shm.Step)
    requires Shm.Inv(c) && Shm.NextStep(c, c', e, step)
    ensures step == Shm.Post ==> Fits(EncodeAll(c.client.req.args))
    ensures step == Shm.RequestOverflow ==> !Fits(EncodeAll(c.client.req.args))
    ensures step == Shm.Clear ==> c.answer.Some? && Fits(EncodeAll(c.answer.value))
    ensures step == Shm.ReplyOverflow ==> c.answer.Some? && !Fits(EncodeAll(c.answer.value))
  {
    hide DecodeAll, View, HaveTypes, EncodeAll;
  }

  /** The request's flag is the letter of its operation. */
  lemma Letters(c: Shm.Channel, c': Shm.Channel, e: Shm.Event)
    requires Shm.NextStep(c, c', e, Shm.Post)
    ensures c.client.Writing? && c'.cbuf == c.cbuf + [Store(InFlag, match c.client.req.op
                                                                   case Read => 114
                                                                   case Scan => 115
                                                                   case Insert => 105
                                                                   case Update => 117
                                                                   case Delete => 100
                                                                   case Close => 99)]
  {
  }
}
