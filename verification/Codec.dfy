/** The binary format of messages: what the serializer writes and the deserializer reads (include/serializer.h). */
module Codec {
  import opened MachineInts
  import opened Wrappers

  /** The C++ types the operators are defined for; pairs and vectors nest. */
  datatype Type =
    | IntType
    | SizeType
    | StringType
    | PairType(first: Type, second: Type)
    | VectorType(element: Type)
    | TableType

  datatype Value =
    | Int(i: int32)
    | Size(n: uint64)
    | Str(s: seq<byte>)
    | Pair(first: Value, second: Value)
    | Vector(elements: seq<Value>)
    | Table(name: Value, columns: Value)

  function Rank(t: Type): nat {
    match t
    case PairType(a, b) => 1 + Rank(a) + Rank(b)
    case VectorType(e) => 1 + Rank(e)
    case TableType => 2
    case _ => 0
  }

  predicate HasType(v: Value, t: Type)
    decreases Rank(t)
  {
    match t
    case IntType => v.Int?
    case SizeType => v.Size?
    case StringType => v.Str? && |v.s| < TWO_TO_64
    case PairType(a, b) => v.Pair? && HasType(v.first, a) && HasType(v.second, b)
    case VectorType(e) => v.Vector? && |v.elements| < TWO_TO_64 && forall x :: x in v.elements ==> HasType(x, e)
    case TableType => v.Table? && HasType(v.name, StringType) && HasType(v.columns, VectorType(StringType))
  }

  function Encode(v: Value): seq<byte>
    decreases v
  {
    match v
    case Int(i) => LittleEndian(i % TWO_TO_32, 4)
    case Size(n) => LittleEndian(n, 8)
    case Str(s) => LittleEndian(|s|, 8) + s
    case Pair(a, b) => Encode(a) + Encode(b)
    case Vector(es) => LittleEndian(|es|, 8) + EncodeAll(es)
    case Table(name, columns) => Encode(name) + Encode(columns)
  }

  /** Values one after the other, as a sequence of insertions writes them. */
  function EncodeAll(vs: seq<Value>): seq<byte>
    decreases vs
  {
    if vs == [] then [] else Encode(vs[0]) + EncodeAll(vs[1..])
  }

  function Count(bytes: seq<byte>): uint64
    requires |bytes| >= 8
  {
    FromLittleEndianRoundTrip(bytes[..8]);
    Pow256Values();
    FromLittleEndian(bytes[..8])
  }

  /** The value of type `t` at the front of `bytes` and its length, or none if `bytes` ends too early. */
  function Decode(t: Type, bytes: seq<byte>): (r: Option<(Value, nat)>)
    ensures r.Some? ==> r.value.1 <= |bytes|
    decreases Rank(t), 0
  {
    match t
    case IntType =>
      if |bytes| < 4 then None else Some((Int(Truncate32(FromLittleEndian(bytes[..4]))), 4))
    case SizeType =>
      if |bytes| < 8 then None else Some((Size(Count(bytes)), 8))
    case StringType =>
      if |bytes| < 8 || |bytes| - 8 < Count(bytes) then None
      else Some((Str(bytes[8..8 + Count(bytes)]), 8 + Count(bytes)))
    case PairType(a, b) =>
      (match DecodeTwo(a, b, bytes)
       case None => None
       case Some((x, y, n)) => Some((Pair(x, y), n)))
    case VectorType(e) =>
      if |bytes| < 8 then None else
      (match DecodeRepeated(e, Count(bytes), bytes[8..])
       case None => None
       case Some((vs, n)) => Some((Vector(vs), 8 + n)))
    case TableType =>
      (match DecodeTwo(StringType, VectorType(StringType), bytes)
       case None => None
       case Some((x, y, n)) => Some((Table(x, y), n)))
  }

  function DecodeTwo(a: Type, b: Type, bytes: seq<byte>): (r: Option<(Value, Value, nat)>)
    ensures r.Some? ==> r.value.2 <= |bytes|
    decreases Rank(a) + Rank(b), 1
  {
    match Decode(a, bytes)
    case None => None
    case Some((x, m)) =>
      match Decode(b, bytes[m..])
      case None => None
      case Some((y, n)) => Some((x, y, m + n))
  }

  function DecodeRepeated(t: Type, count: nat, bytes: seq<byte>): (r: Option<(seq<Value>, nat)>)
    ensures r.Some? ==> r.value.1 <= |bytes|
    decreases Rank(t), count + 1
  {
    if count == 0 then Some(([], 0)) else
    match Decode(t, bytes)
    case None => None
    case Some((v, m)) =>
      match DecodeRepeated(t, count - 1, bytes[m..])
      case None => None
      case Some((vs, n)) => Some(([v] + vs, m + n))
  }

  /** A message: values of the given types, one after the other. */
  function DecodeAll(types: seq<Type>, bytes: seq<byte>): (r: Option<(seq<Value>, nat)>)
    ensures r.Some? ==> r.value.1 <= |bytes|
    decreases types
  {
    if types == [] then Some(([], 0)) else
    match Decode(types[0], bytes)
    case None => None
    case Some((v, m)) =>
      match DecodeAll(types[1..], bytes[m..])
      case None => None
      case Some((vs, n)) => Some(([v] + vs, m + n))
  }

  predicate HaveTypes(vs: seq<Value>, types: seq<Type>) {
    |vs| == |types| && forall i :: 0 <= i < |vs| ==> HasType(vs[i], types[i])
  }

  // ----- Decoding undoes encoding -----

  lemma CountOfEncoding(n: uint64, rest: seq<byte>)
    ensures |LittleEndian(n, 8) + rest| >= 8 && Count(LittleEndian(n, 8) + rest) == n
    ensures (LittleEndian(n, 8) + rest)[8..] == rest
  {
    assert (LittleEndian(n, 8) + rest)[..8] == LittleEndian(n, 8);
    Pow256Values();
    LittleEndianRoundTrip(n, 8);
  }

  lemma IntRoundTrip(i: int32, rest: seq<byte>)
    ensures Decode(IntType, LittleEndian(i % TWO_TO_32, 4) + rest) == Some((Int(i), 4))
  {
    assert (LittleEndian(i % TWO_TO_32, 4) + rest)[..4] == LittleEndian(i % TWO_TO_32, 4);
    Pow256Values();
    LittleEndianRoundTrip(i % TWO_TO_32, 4);
  }

  /** The value comes back whatever bytes follow it, and exactly its own bytes are consumed. */
  lemma {:induction false} RoundTrip(v: Value, t: Type, rest: seq<byte>)
    requires HasType(v, t)
    ensures Decode(t, Encode(v) + rest) == Some((v, |Encode(v)|))
    decreases Rank(t), 0
  {
    match t
    case IntType => IntRoundTrip(v.i, rest);
    case SizeType => CountOfEncoding(v.n, rest);
    case StringType => StringRoundTrip(v.s, rest);
    case PairType(a, b) => TwoRoundTrip(v.first, v.second, a, b, rest);
    case VectorType(e) =>
      RepeatedRoundTrip(v.elements, e, rest);
      VectorRoundTrip(v.elements, e, rest);
    case TableType => TwoRoundTrip(v.name, v.columns, StringType, VectorType(StringType), rest);
  }

  lemma StringRoundTrip(s: seq<byte>, rest: seq<byte>)
    requires |s| < TWO_TO_64
    ensures Decode(StringType, Encode(Str(s)) + rest) == Some((Str(s), |Encode(Str(s))|))
  {
    var count := LittleEndian(|s|, 8);
    CountOfEncoding(|s|, s + rest);
    Regroup(count, s, rest);
    assert (count + s + rest)[8..8 + |s|] == s;
  }

  lemma VectorRoundTrip(es: seq<Value>, e: Type, rest: seq<byte>)
    requires |es| < TWO_TO_64
    requires DecodeRepeated(e, |es|, EncodeAll(es) + rest) == Some((es, |EncodeAll(es)|))
    ensures Decode(VectorType(e), Encode(Vector(es)) + rest) == Some((Vector(es), |Encode(Vector(es))|))
  {
    hide DecodeRepeated, EncodeAll;
    CountOfEncoding(|es|, EncodeAll(es) + rest);
    Regroup(LittleEndian(|es|, 8), EncodeAll(es), rest);
  }

  lemma Regroup(p: seq<byte>, q: seq<byte>, rest: seq<byte>)
    ensures p + q + rest == p + (q + rest)
    ensures (p + q + rest)[|p|..] == q + rest
  {
  }

  lemma {:induction false} TwoRoundTrip(x: Value, y: Value, a: Type, b: Type, rest: seq<byte>)
    requires HasType(x, a) && HasType(y, b)
    ensures DecodeTwo(a, b, Encode(x) + Encode(y) + rest) == Some((x, y, |Encode(x) + Encode(y)|))
    decreases Rank(a) + Rank(b), 1
  {
    hide Decode, HasType;
    var p, q := Encode(x), Encode(y);
    RoundTrip(x, a, q + rest);
    RoundTrip(y, b, rest);
    Regroup(p, q, rest);
    DecodesTwo(a, b, x, y, p + q + rest, |p|, |q|);
  }

  lemma DecodesTwo(a: Type, b: Type, x: Value, y: Value, bytes: seq<byte>, m: nat, n: nat)
    requires m <= |bytes| && Decode(a, bytes) == Some((x, m)) && Decode(b, bytes[m..]) == Some((y, n))
    ensures DecodeTwo(a, b, bytes) == Some((x, y, m + n))
  {
    hide Decode;
  }

  lemma {:induction false} RepeatedRoundTrip(vs: seq<Value>, t: Type, rest: seq<byte>)
    requires forall x :: x in vs ==> HasType(x, t)
    ensures DecodeRepeated(t, |vs|, EncodeAll(vs) + rest) == Some((vs, |EncodeAll(vs)|))
    decreases Rank(t), |vs| + 1
  {
    hide Decode, HasType;
    if vs == [] {
      assert EncodeAll(vs) + rest == rest;
    } else {
      var p, q := Encode(vs[0]), EncodeAll(vs[1..]);
      RoundTrip(vs[0], t, q + rest);
      RepeatedRoundTrip(vs[1..], t, rest);
      Regroup(p, q, rest);
      DecodesOneMore(t, vs, p + q + rest, |p|, |q|);
    }
  }

  lemma DecodesOneMore(t: Type, vs: seq<Value>, bytes: seq<byte>, m: nat, n: nat)
    requires vs != [] && m <= |bytes|
    requires Decode(t, bytes) == Some((vs[0], m))
    requires DecodeRepeated(t, |vs| - 1, bytes[m..]) == Some((vs[1..], n))
    ensures DecodeRepeated(t, |vs|, bytes) == Some((vs, m + n))
  {
    hide Decode;
    FirstAndRest(vs);
  }

  lemma FirstAndRest(vs: seq<Value>)
    requires vs != []
    ensures vs == [vs[0]] + vs[1..]
  {
  }

  /** A sequence of values comes back whatever bytes follow the last one. */
  lemma {:induction false} MessageRoundTrip(vs: seq<Value>, types: seq<Type>, rest: seq<byte>)
    requires HaveTypes(vs, types)
    ensures DecodeAll(types, EncodeAll(vs) + rest) == Some((vs, |EncodeAll(vs)|))
    decreases types
  {
    hide Decode, HasType;
    if vs == [] {
      assert types == [] && EncodeAll(vs) + rest == rest;
    } else {
      var p, q := Encode(vs[0]), EncodeAll(vs[1..]);
      RoundTrip(vs[0], types[0], q + rest);
      MessageRoundTrip(vs[1..], types[1..], rest);
      Regroup(p, q, rest);
      DecodesFirst(types, vs, p + q + rest, |p|, |q|);
    }
  }

  lemma DecodesFirst(types: seq<Type>, vs: seq<Value>, bytes: seq<byte>, m: nat, n: nat)
    requires vs != [] && types != [] && m <= |bytes|
    requires Decode(types[0], bytes) == Some((vs[0], m))
    requires DecodeAll(types[1..], bytes[m..]) == Some((vs[1..], n))
    ensures DecodeAll(types, bytes) == Some((vs, m + n))
  {
    hide Decode;
    assert vs == [vs[0]] + vs[1..];
  }

  // ----- Encoding undoes decoding -----

  lemma EncodingOfCount(bytes: seq<byte>)
    requires |bytes| >= 8
    ensures LittleEndian(Count(bytes), 8) == bytes[..8]
  {
    FromLittleEndianRoundTrip(bytes[..8]);
  }

  lemma EncodingOfInt(bytes: seq<byte>)
    requires |bytes| >= 4
    ensures Encode(Int(Truncate32(FromLittleEndian(bytes[..4])))) == bytes[..4]
  {
    FromLittleEndianRoundTrip(bytes[..4]);
    Pow256Values();
    assert Truncate32(FromLittleEndian(bytes[..4])) % TWO_TO_32 == FromLittleEndian(bytes[..4]);
  }

  lemma Adjacent(bytes: seq<byte>, m: nat, n: nat)
    requires m + n <= |bytes|
    ensures bytes[..m] + bytes[m..][..n] == bytes[..m + n]
  {
  }

  /** Whatever decodes is the encoding of what it decodes to. */
  lemma {:induction false} DecodeEncode(t: Type, bytes: seq<byte>)
    requires Decode(t, bytes).Some?
    ensures HasType(Decode(t, bytes).value.0, t)
    ensures Encode(Decode(t, bytes).value.0) == bytes[..Decode(t, bytes).value.1]
    decreases Rank(t), 0
  {
    match t
    case IntType => EncodingOfInt(bytes);
    case SizeType => EncodingOfCount(bytes);
    case StringType => StringDecodeEncode(bytes);
    case PairType(a, b) => TwoDecodeEncode(a, b, bytes);
    case VectorType(e) =>
      RepeatedDecodeEncode(e, Count(bytes), bytes[8..]);
      VectorDecodeEncode(e, bytes);
    case TableType => TwoDecodeEncode(StringType, VectorType(StringType), bytes);
  }

  lemma StringDecodeEncode(bytes: seq<byte>)
    requires Decode(StringType, bytes).Some?
    ensures HasType(Decode(StringType, bytes).value.0, StringType)
    ensures Encode(Decode(StringType, bytes).value.0) == bytes[..Decode(StringType, bytes).value.1]
  {
    EncodingOfCount(bytes);
    Adjacent(bytes, 8, Count(bytes));
    assert bytes[8..8 + Count(bytes)] == bytes[8..][..Count(bytes)];
  }

  lemma VectorDecodeEncode(e: Type, bytes: seq<byte>)
    requires |bytes| >= 8 && DecodeRepeated(e, Count(bytes), bytes[8..]).Some?
    requires var (vs, n) := DecodeRepeated(e, Count(bytes), bytes[8..]).value;
             |vs| == Count(bytes) && EncodeAll(vs) == bytes[8..][..n]
    ensures var (vs, n) := DecodeRepeated(e, Count(bytes), bytes[8..]).value;
            Encode(Vector(vs)) == bytes[..8 + n]
  {
    EncodingOfCount(bytes);
    Adjacent(bytes, 8, DecodeRepeated(e, Count(bytes), bytes[8..]).value.1);
  }

  lemma {:induction false} TwoDecodeEncode(a: Type, b: Type, bytes: seq<byte>)
    requires DecodeTwo(a, b, bytes).Some?
    ensures var (x, y, n) := DecodeTwo(a, b, bytes).value;
            HasType(x, a) && HasType(y, b) && Encode(x) + Encode(y) == bytes[..n]
    decreases Rank(a) + Rank(b), 1
  {
    var m := Decode(a, bytes).value.1;
    DecodeEncode(a, bytes);
    DecodeEncode(b, bytes[m..]);
    Adjacent(bytes, m, Decode(b, bytes[m..]).value.1);
  }

  lemma {:induction false} RepeatedDecodeEncode(t: Type, count: nat, bytes: seq<byte>)
    requires DecodeRepeated(t, count, bytes).Some?
    ensures var (vs, n) := DecodeRepeated(t, count, bytes).value;
            |vs| == count && (forall x :: x in vs ==> HasType(x, t)) && EncodeAll(vs) == bytes[..n]
    decreases Rank(t), count + 1
  {
    hide Decode, Encode, HasType, LittleEndian, FromLittleEndian, Rank;
    if count > 0 {
      var (v, m) := Decode(t, bytes).value;
      DecodeEncode(t, bytes);
      RepeatedDecodeEncode(t, count - 1, bytes[m..]);
      var (vs, n) := DecodeRepeated(t, count - 1, bytes[m..]).value;
      EncodesOneMore(v, vs, bytes, m, n);
    }
  }

  lemma EncodesOneMore(v: Value, vs: seq<Value>, bytes: seq<byte>, m: nat, n: nat)
    requires m + n <= |bytes| && Encode(v) == bytes[..m] && EncodeAll(vs) == bytes[m..][..n]
    ensures EncodeAll([v] + vs) == bytes[..m + n]
  {
    assert ([v] + vs)[1..] == vs;
    Adjacent(bytes, m, n);
  }

  lemma {:induction false} MessageDecodeEncode(types: seq<Type>, bytes: seq<byte>)
    requires DecodeAll(types, bytes).Some?
    ensures var (vs, n) := DecodeAll(types, bytes).value;
            HaveTypes(vs, types) && EncodeAll(vs) == bytes[..n]
    decreases types
  {
    if types != [] {
      var (v, m) := Decode(types[0], bytes).value;
      DecodeEncode(types[0], bytes);
      MessageDecodeEncode(types[1..], bytes[m..]);
      var (vs, n) := DecodeAll(types[1..], bytes[m..]).value;
      EncodesOneMore(v, vs, bytes, m, n);
    }
  }

  // ----- No encoding is cut short by another -----

  /**
   * A reader that has seen only part of a message cannot mistake it for a whole one, and one that has seen at least
   * the message gets exactly it: the message alone decides where reading stops.
   */
  lemma MessageSelfDelimiting(vs: seq<Value>, types: seq<Type>, seen: seq<byte>, whole: seq<byte>)
    requires HaveTypes(vs, types) && EncodeAll(vs) <= whole && seen <= whole
    ensures DecodeAll(types, seen)
            == if |seen| < |EncodeAll(vs)| then None else Some((vs, |EncodeAll(vs)|))
  {
    var message := EncodeAll(vs);
    if |seen| >= |message| {
      MessageRoundTrip(vs, types, seen[|message|..]);
      assert seen == message + seen[|message|..];
    } else {
      if DecodeAll(types, seen).Some? {
        TooShort(vs, types, seen, message);
      }
    }
  }

  lemma TooShort(vs: seq<Value>, types: seq<Type>, seen: seq<byte>, message: seq<byte>)
    requires HaveTypes(vs, types) && message == EncodeAll(vs) && seen <= message
    requires DecodeAll(types, seen).Some?
    ensures |seen| == |message|
  {
    var ws := MessageSeen(types, seen);
    Unique(vs, ws, types, message[|EncodeAll(ws)|..]) by {
      assert EncodeAll(ws) + message[|EncodeAll(ws)|..] == message;
    }
  }

  lemma MessageSeen(types: seq<Type>, seen: seq<byte>) returns (ws: seq<Value>)
    requires DecodeAll(types, seen).Some?
    ensures HaveTypes(ws, types) && EncodeAll(ws) <= seen
  {
    MessageDecodeEncode(types, seen);
    ws := DecodeAll(types, seen).value.0;
  }

  lemma Unique(vs: seq<Value>, ws: seq<Value>, types: seq<Type>, rest: seq<byte>)
    requires HaveTypes(vs, types) && HaveTypes(ws, types) && EncodeAll(vs) == EncodeAll(ws) + rest
    ensures rest == []
  {
    MessageRoundTrip(ws, types, rest);
    MessageRoundTrip(vs, types, []);
    assert EncodeAll(vs) + [] == EncodeAll(vs);
  }
}
