/**
 * The serializer and deserializer over raw memory (lib/serializer/serializer.cc, include/serializer.h).  Memory is the
 * whole 64-bit address space and addresses wrap, so a buffer may run past the top of it.
 */
module Serializer {
  import opened MachineInts
  import opened Wrappers
  import opened Codec

  /** The address `offset` bytes behind `base`: 64-bit addition, which wraps. */
  function Address(base: uint64, offset: nat): uint64
    requires offset <= TWO_TO_64
  {
    if base + offset < TWO_TO_64 then base + offset else base + offset - TWO_TO_64
  }

  /** How far `address` lies behind `base`: 64-bit subtraction, which wraps. */
  function Offset(base: uint64, address: uint64): uint64 {
    if base <= address then address - base else address - base + TWO_TO_64
  }

  /** The `n` bytes from address `base` on. */
  ghost function Window(mem: seq<byte>, base: uint64, n: nat): (w: seq<byte>)
    requires |mem| == TWO_TO_64 && n <= TWO_TO_64
    ensures |w| == n
  {
    seq(n, k requires 0 <= k < n => mem[Address(base, k)])
  }

  ghost predicate Holds(mem: seq<byte>, address: uint64, bytes: seq<byte>)
    requires |mem| == TWO_TO_64
  {
    && |bytes| <= TWO_TO_64
    && forall k {:trigger mem[Address(address, k)]} :: 0 <= k < |bytes| ==> bytes[k] == mem[Address(address, k)]
  }

  /** Only the bytes `lo` up to `hi` of the buffer at `base` may have changed. */
  ghost predicate SameOutside(mem: seq<byte>, mem': seq<byte>, base: uint64, lo: nat, hi: nat)
    requires |mem| == |mem'| == TWO_TO_64
  {
    forall a: uint64 {:trigger mem'[a]} {:trigger Offset(base, a)} :: mem'[a] != mem[a] ==> lo <= Offset(base, a) < hi
  }

  /**
   * The effect of writing `bytes` behind `before` in a buffer of length `len`: it succeeds exactly when they fit, and
   * what is in the buffer afterwards is in any case a beginning of what should be there.
   */
  ghost predicate Emitted(before: seq<byte>, after: seq<byte>, len: nat, bytes: seq<byte>, ok: bool) {
    && ok == (|before| + |bytes| <= len)
    && before <= after <= before + bytes
    && |after| <= len
    && (ok ==> after == before + bytes)
  }

  lemma EmittedThen(w0: seq<byte>, w1: seq<byte>, w2: seq<byte>, len: nat, a: seq<byte>, b: seq<byte>, ok: bool)
    requires Emitted(w0, w1, len, a, true) && Emitted(w1, w2, len, b, ok)
    ensures Emitted(w0, w2, len, a + b, ok)
  {
    assert w0 + a + b == w0 + (a + b);
  }

  lemma EmittedNothing(w: seq<byte>, len: nat)
    requires |w| <= len
    ensures Emitted(w, w, len, [], true)
  {
  }

  lemma EmittedNot(w0: seq<byte>, w1: seq<byte>, len: nat, a: seq<byte>, b: seq<byte>)
    requires Emitted(w0, w1, len, a, false)
    ensures Emitted(w0, w1, len, a + b, false)
  {
    assert w0 + a <= w0 + (a + b);
  }

  /** Addresses go upwards, modulo 2^64. */
  lemma AddressWraps(base: uint64, offset: nat, address: uint64)
    requires offset <= TWO_TO_64
    ensures Address(base, offset) == Wrap64(base + offset) && Offset(base, address) == Wrap64(address - base)
  {
  }

  lemma OffsetOfAddress(base: uint64, k: uint64)
    ensures Offset(base, Address(base, k)) == k
  {
  }

  lemma AddressOfOffset(base: uint64, a: uint64)
    ensures Address(base, Offset(base, a)) == a
  {
  }

  lemma AddressShift(base: uint64, j: nat, k: nat)
    requires j + k <= TWO_TO_64
    ensures Address(Address(base, j), k) == Address(base, j + k)
  {
  }

  lemma HoldsRest(mem: seq<byte>, address: uint64, bytes: seq<byte>, n: nat)
    requires |mem| == TWO_TO_64 && Holds(mem, address, bytes) && n <= |bytes|
    ensures Holds(mem, Address(address, n), bytes[n..])
  {
    forall k | 0 <= k < |bytes| - n
      ensures bytes[n..][k] == mem[Address(Address(address, n), k)]
    {
      AddressShift(address, n, k);
      assert bytes[n + k] == mem[Address(address, n + k)];
    }
  }

  lemma OffsetShift(base: uint64, j: uint64, a: uint64)
    ensures Offset(Address(base, j), a) == if j <= Offset(base, a) then Offset(base, a) - j
                                           else Offset(base, a) - j + TWO_TO_64
  {
  }

  lemma StoreByte(mem: seq<byte>, base: uint64, n: uint64, b: byte)
    requires |mem| == TWO_TO_64
    ensures Window(mem[Address(base, n) := b], base, n + 1) == Window(mem, base, n) + [b]
    ensures SameOutside(mem, mem[Address(base, n) := b], base, n, n + 1)
  {
    OffsetOfAddress(base, n);
    forall k | 0 <= k < n
      ensures Address(base, k) != Address(base, n)
    {
      OffsetOfAddress(base, k);
    }
  }

  lemma SameOutsideThen(m0: seq<byte>, m1: seq<byte>, m2: seq<byte>, base: uint64, lo: nat, mid: nat, hi: nat)
    requires |m0| == |m1| == |m2| == TWO_TO_64 && lo <= mid <= hi
    requires SameOutside(m0, m1, base, lo, mid) && SameOutside(m1, m2, base, mid, hi)
    ensures SameOutside(m0, m2, base, lo, hi)
  {
    forall a: uint64 | m2[a] != m0[a]
      ensures lo <= Offset(base, a) < hi
    {
      assert m1[a] != m0[a] || m2[a] != m1[a];
    }
  }

  /** Copying `bytes` behind the first `used` bytes of a buffer extends what is in the buffer by them. */
  lemma Appended(mem: seq<byte>, mem': seq<byte>, base: uint64, used: uint64, bytes: seq<byte>)
    requires |mem| == |mem'| == TWO_TO_64 && used + |bytes| < TWO_TO_64
    requires Window(mem', Address(base, used), |bytes|) == bytes
    requires SameOutside(mem, mem', Address(base, used), 0, |bytes|)
    ensures Window(mem', base, used + |bytes|) == Window(mem, base, used) + bytes
    ensures SameOutside(mem, mem', base, used, used + |bytes|)
  {
    forall a: uint64 | mem'[a] != mem[a]
      ensures used <= Offset(base, a) < used + |bytes|
    {
      OffsetShift(base, used, a);
    }
    forall k | 0 <= k < used
      ensures mem'[Address(base, k)] == mem[Address(base, k)]
    {
      OffsetOfAddress(base, k);
    }
    var now := Window(mem', base, used + |bytes|);
    forall k | 0 <= k < |bytes|
      ensures now[used + k] == bytes[k]
    {
      AddressShift(base, used, k);
      assert Window(mem', Address(base, used), |bytes|)[k] == bytes[k];
    }
  }

  method MemCpy(memory: array<byte>, to: uint64, bytes: seq<byte>)
    requires memory.Length == TWO_TO_64 && |bytes| < TWO_TO_64
    modifies memory
    ensures Window(memory[..], to, |bytes|) == bytes
    ensures SameOutside(old(memory[..]), memory[..], to, 0, |bytes|)
  {
    for k := 0 to |bytes|
      invariant Window(memory[..], to, k) == bytes[..k]
      invariant SameOutside(old(memory[..]), memory[..], to, 0, k)
    {
      ghost var mem := memory[..];
      memory[Address(to, k)] := bytes[k];
      assert memory[..] == mem[Address(to, k) := bytes[k]];
      StoreByte(mem, to, k, bytes[k]);
      SameOutsideThen(old(memory[..]), mem, memory[..], to, 0, k, k + 1);
    }
  }

  lemma EncodeAllSnoc(vs: seq<Value>, v: Value)
    ensures EncodeAll(vs + [v]) == EncodeAll(vs) + Encode(v)
  {
    if vs == [] {
      assert EncodeAll([v]) == Encode(v) + EncodeAll([]);
    } else {
      assert (vs + [v])[1..] == vs[1..] + [v];
      EncodeAllSnoc(vs[1..], v);
    }
  }

  lemma EncodeAllConcat(vs: seq<Value>, ws: seq<Value>)
    ensures EncodeAll(vs + ws) == EncodeAll(vs) + EncodeAll(ws)
  {
    if vs == [] {
      assert vs + ws == ws;
    } else {
      assert (vs + ws)[1..] == vs[1..] + ws;
      EncodeAllConcat(vs[1..], ws);
    }
  }

  lemma EachNone(es: seq<Value>)
    ensures EncodeAll(es[..0]) == [] && es[..|es|] == es
  {
  }

  lemma EachSplit(es: seq<Value>, i: nat)
    requires i < |es|
    ensures EncodeAll(es[..i + 1]) == EncodeAll(es[..i]) + Encode(es[i])
    ensures EncodeAll(es) == EncodeAll(es[..i + 1]) + EncodeAll(es[i + 1..])
  {
    hide Encode, EncodeAll;
    assert es[..i + 1] == es[..i] + [es[i]] && es == es[..i + 1] + es[i + 1..];
    EncodeAllSnoc(es[..i], es[i]);
    EncodeAllConcat(es[..i + 1], es[i + 1..]);
  }

  class Serializer {
    const memory: array<byte>
    const origBuf: uint64
    const end: uint64
    var buf: uint64
    ghost const len: uint64

    ghost predicate Valid()
      reads this
    {
      && memory.Length == TWO_TO_64
      && end == Address(origBuf, len)
      && Used() <= len
    }

    ghost function Used(): uint64
      reads this
    {
      Offset(origBuf, buf)
    }

    /** What is in the buffer so far. */
    ghost function Written(): seq<byte>
      requires Valid()
      reads this, memory
    {
      Window(memory[..], origBuf, Used())
    }

    constructor (memory: array<byte>, buf: uint64, len: uint64)
      requires memory.Length == TWO_TO_64
      ensures Valid() && Written() == []
      ensures this.memory == memory && this.origBuf == buf && this.len == len
    {
      this.memory := memory;
      this.origBuf := buf;
      this.buf := buf;
      this.end := Address(buf, len);
      this.len := len;
    }

    method Length() returns (n: uint64)
      requires Valid()
      ensures n == |Written()|
    {
      n := Offset(origBuf, buf);
    }

    /** The unsigned difference of the two addresses is the room left, even where the end has wrapped. */
    method AssertRemaining(n: uint64) returns (ok: bool)
      requires Valid()
      ensures Offset(buf, end) == len - Used()
      ensures ok <==> Used() + n <= len
    {
      ok := Offset(buf, end) >= n;
    }

    method Serialize(bytes: seq<byte>) returns (ok: bool)
      requires Valid() && |bytes| < TWO_TO_64
      modifies memory, this`buf
      ensures Valid()
      ensures Emitted(old(Written()), Written(), len, bytes, ok)
      ensures SameOutside(old(memory[..]), memory[..], origBuf, old(Used()), Used())
    {
      ok := AssertRemaining(|bytes|);
      if ok {
        ghost var used, before, mem := Used(), Written(), memory[..];
        AddressOfOffset(origBuf, buf);
        AddressShift(origBuf, used, |bytes|);
        OffsetOfAddress(origBuf, used + |bytes|);
        MemCpy(memory, buf, bytes);
        Appended(mem, memory[..], origBuf, used, bytes);
        buf := Address(buf, |bytes|);
        assert Written() == before + bytes;
      }
    }

    method PutSize(n: uint64) returns (ok: bool)
      requires Valid()
      modifies memory, this`buf
      ensures Valid()
      ensures Emitted(old(Written()), Written(), len, Encode(Size(n)), ok)
      ensures SameOutside(old(memory[..]), memory[..], origBuf, old(Used()), Used())
    {
      ok := Serialize(LittleEndian(n, 8));
    }

    /**
     * Inserts one value.  The result is false where the C++ throws: then the insertion stopped part-way, and what is
     * in the buffer is the beginning of the encoding that did fit.
     */
    method Put(v: Value, ghost t: Type) returns (ok: bool)
      requires Valid() && HasType(v, t)
      modifies memory, this`buf
      ensures Valid()
      ensures Emitted(old(Written()), Written(), len, Encode(v), ok)
      ensures SameOutside(old(memory[..]), memory[..], origBuf, old(Used()), Used())
      decreases Rank(t), 0
    {
      match v
      case Int(i) =>
        ok := Serialize(LittleEndian(i % TWO_TO_32, 4));
      case Size(n) =>
        ok := PutSize(n);
      case Str(s) =>
        ok := PutString(s);
      case Pair(x, y) =>
        ok := PutTwo(x, y, t.first, t.second);
      case Vector(es) =>
        ok := PutVector(es, t.element);
      case Table(x, y) =>
        ok := PutTwo(x, y, StringType, VectorType(StringType));
    }

    method PutString(s: seq<byte>) returns (ok: bool)
      requires Valid() && |s| < TWO_TO_64
      modifies memory, this`buf
      ensures Valid()
      ensures Emitted(old(Written()), Written(), len, Encode(Str(s)), ok)
      ensures SameOutside(old(memory[..]), memory[..], origBuf, old(Used()), Used())
    {
      var count := LittleEndian(|s|, 8);
      ok := PutSize(|s|);
      if !ok {
        EmittedNot(old(Written()), Written(), len, count, s);
        return;
      }
      ghost var w, mem, used := Written(), memory[..], Used();
      ok := Serialize(s);
      EmittedThen(old(Written()), w, Written(), len, count, s, ok);
      SameOutsideThen(old(memory[..]), mem, memory[..], origBuf, old(Used()), used, Used());
    }

    /** The two components of a pair, or the name and the columns of a table. */
    method PutTwo(x: Value, y: Value, ghost a: Type, ghost b: Type) returns (ok: bool)
      requires Valid() && HasType(x, a) && HasType(y, b)
      modifies memory, this`buf
      ensures Valid()
      ensures Emitted(old(Written()), Written(), len, Encode(x) + Encode(y), ok)
      ensures SameOutside(old(memory[..]), memory[..], origBuf, old(Used()), Used())
      decreases Rank(a) + Rank(b), 1
    {
      ok := Put(x, a);
      if !ok {
        EmittedNot(old(Written()), Written(), len, Encode(x), Encode(y));
        return;
      }
      ghost var w, mem, used := Written(), memory[..], Used();
      ok := Put(y, b);
      EmittedThen(old(Written()), w, Written(), len, Encode(x), Encode(y), ok);
      SameOutsideThen(old(memory[..]), mem, memory[..], origBuf, old(Used()), used, Used());
    }

    method PutVector(es: seq<Value>, ghost t: Type) returns (ok: bool)
      requires Valid() && |es| < TWO_TO_64 && forall x :: x in es ==> HasType(x, t)
      modifies memory, this`buf
      ensures Valid()
      ensures Emitted(old(Written()), Written(), len, Encode(Vector(es)), ok)
      ensures SameOutside(old(memory[..]), memory[..], origBuf, old(Used()), Used())
      decreases Rank(t), 2
    {
      ghost var count := LittleEndian(|es|, 8);
      ok := PutSize(|es|);
      if !ok {
        EmittedNot(old(Written()), Written(), len, count, EncodeAll(es));
        return;
      }
      ghost var w, mem, used := Written(), memory[..], Used();
      ok := PutEach(es, t);
      EmittedThen(old(Written()), w, Written(), len, count, EncodeAll(es), ok);
      SameOutsideThen(old(memory[..]), mem, memory[..], origBuf, old(Used()), used, Used());
    }

    method PutEach(es: seq<Value>, ghost t: Type) returns (ok: bool)
      requires Valid() && forall x :: x in es ==> HasType(x, t)
      modifies memory, this`buf
      ensures Valid()
      ensures Emitted(old(Written()), Written(), len, EncodeAll(es), ok)
      ensures SameOutside(old(memory[..]), memory[..], origBuf, old(Used()), Used())
      decreases Rank(t), 1
    {
      ok := true;
      EmittedNothing(Written(), len);
      EachNone(es);
      assert SameOutside(memory[..], memory[..], origBuf, Used(), Used());
      hide Emitted, SameOutside, HasType, Window, Encode, EncodeAll;
      for i := 0 to |es|
        invariant Valid()
        invariant Emitted(old(Written()), Written(), len, EncodeAll(es[..i]), true)
        invariant SameOutside(old(memory[..]), memory[..], origBuf, old(Used()), Used())
      {
        ghost var w, mem, used := Written(), memory[..], Used();
        ok := Put(es[i], t);
        EachSplit(es, i);
        EmittedThen(old(Written()), w, Written(), len, EncodeAll(es[..i]), Encode(es[i]), ok);
        SameOutsideThen(old(memory[..]), mem, memory[..], origBuf, old(Used()), used, Used());
        if !ok {
          EmittedNot(old(Written()), Written(), len, EncodeAll(es[..i + 1]), EncodeAll(es[i + 1..]));
          return;
        }
      }
    }

    /** Values inserted one after the other, as every operation does with its arguments. */
    method PutAll(vs: seq<Value>, ghost types: seq<Type>) returns (ok: bool)
      requires Valid() && HaveTypes(vs, types)
      modifies memory, this`buf
      ensures Valid()
      ensures Emitted(old(Written()), Written(), len, EncodeAll(vs), ok)
      ensures SameOutside(old(memory[..]), memory[..], origBuf, old(Used()), Used())
      decreases |vs|
    {
      ok := true;
      if vs == [] {
        EmittedNothing(Written(), len);
        return;
      }
      hide Emitted, SameOutside, HasType;
      ok := Put(vs[0], types[0]);
      if !ok {
        EmittedNot(old(Written()), Written(), len, Encode(vs[0]), EncodeAll(vs[1..]));
        return;
      }
      ghost var w, mem, used := Written(), memory[..], Used();
      ok := PutAll(vs[1..], types[1..]);
      EmittedThen(old(Written()), w, Written(), len, Encode(vs[0]), EncodeAll(vs[1..]), ok);
      SameOutsideThen(old(memory[..]), mem, memory[..], origBuf, old(Used()), used, Used());
    }
  }

  class Deserializer {
    const memory: array<byte>
    var buf: uint64

    ghost predicate Valid() {
      memory.Length == TWO_TO_64
    }

    /** The bytes at the cursor are `given`; behind them is whatever happens to be there. */
    ghost predicate At(given: seq<byte>)
      requires Valid()
      reads this, memory
    {
      Holds(memory[..], buf, given)
    }

    constructor (memory: array<byte>, buf: uint64)
      requires memory.Length == TWO_TO_64
      ensures Valid() && this.memory == memory && this.buf == buf
    {
      this.memory := memory;
      this.buf := buf;
    }

    method Take(n: uint64, ghost given: seq<byte>) returns (bytes: seq<byte>)
      requires Valid() && At(given) && n <= |given|
      modifies this`buf
      ensures bytes == given[..n]
      ensures At(given[n..]) && buf == Address(old(buf), n)
    {
      bytes := [];
      for k := 0 to n
        invariant bytes == given[..k]
      {
        assert given[k] == memory[..][Address(buf, k)];
        bytes := bytes + [memory[Address(buf, k)]];
      }
      HoldsRest(memory[..], buf, given, n);
      buf := Address(buf, n);
    }

    method GetSize(ghost given: seq<byte>) returns (n: uint64)
      requires Valid() && At(given) && |given| >= 8
      modifies this`buf
      ensures n == Count(given)
      ensures At(given[8..]) && buf == Address(old(buf), 8)
    {
      var bytes := Take(8, given);
      assert bytes[..8] == bytes;
      n := Count(bytes);
    }

    /**
     * Extracts one value.  As in the C++, the caller vouches for `given`, a stretch of bytes at the cursor that holds a
     * whole value; neither the result nor the distance `n` the cursor moves depends on the bytes behind it.
     */
    method Get(t: Type, ghost given: seq<byte>) returns (v: Value, ghost n: nat)
      requires Valid() && At(given) && Decode(t, given).Some?
      modifies this`buf
      ensures Decode(t, given) == Some((v, n))
      ensures At(given[n..]) && buf == Address(old(buf), n)
      decreases Rank(t), 0
    {
      hide DecodeTwo, DecodeRepeated, LittleEndian, FromLittleEndian, Pow256, Encode, Holds, Address;
      match t
      case IntType =>
        var bytes := Take(4, given);
        assert bytes[..4] == bytes;
        v := Int(Truncate32(FromLittleEndian(bytes)));
        n := 4;
      case SizeType =>
        var size := GetSize(given);
        v := Size(size);
        n := 8;
      case StringType =>
        var s := GetString(given);
        v := Str(s);
        n := 8 + Count(given);
      case PairType(a, b) =>
        var x, y;
        x, y, n := GetTwo(a, b, given);
        v := Pair(x, y);
      case VectorType(e) =>
        var es;
        es, n := GetVector(e, given);
        v := Vector(es);
      case TableType =>
        var x, y;
        x, y, n := GetTwo(StringType, VectorType(StringType), given);
        v := Table(x, y);
    }

    method GetString(ghost given: seq<byte>) returns (s: seq<byte>)
      requires Valid() && At(given) && |given| >= 8 && |given| - 8 >= Count(given)
      modifies this`buf
      ensures s == given[8..8 + Count(given)]
      ensures At(given[8 + Count(given)..]) && buf == Address(old(buf), 8 + Count(given))
    {
      var n := GetSize(given);
      s := Take(n, given[8..]);
      AddressShift(old(buf), 8, n);
      DropDrop(given, 8, n);
      assert given[8..][..n] == given[8..8 + n];
    }

    method GetTwo(a: Type, b: Type, ghost given: seq<byte>) returns (x: Value, y: Value, ghost n: nat)
      requires Valid() && At(given) && DecodeTwo(a, b, given).Some?
      modifies this`buf
      ensures DecodeTwo(a, b, given) == Some((x, y, n))
      ensures At(given[n..]) && buf == Address(old(buf), n)
      decreases Rank(a) + Rank(b), 1
    {
      assert |given| <= TWO_TO_64;
      hide Decode, DecodeTwo, Rank, LittleEndian, FromLittleEndian, Pow256, Encode, Holds, Address, At;
      TwoSplit(a, b, given);
      ghost var m;
      x, m := Get(a, given);
      y, n := Get(b, given[m..]);
      DecodesTwo(a, b, x, y, given, m, n);
      DropDrop(given, m, n);
      AddressShift(old(buf), m, n);
      n := m + n;
    }

    method GetVector(t: Type, ghost given: seq<byte>) returns (es: seq<Value>, ghost n: nat)
      requires Valid() && At(given) && |given| >= 8 && DecodeRepeated(t, Count(given), given[8..]).Some?
      modifies this`buf
      ensures n >= 8 && DecodeRepeated(t, Count(given), given[8..]) == Some((es, n - 8))
      ensures At(given[n..]) && buf == Address(old(buf), n)
      decreases Rank(t), 3
    {
      assert |given| <= TWO_TO_64;
      hide Decode, DecodeRepeated, LittleEndian, FromLittleEndian, Pow256, Encode, Holds, Address;
      var size := GetSize(given);
      es, n := GetEach(t, size, given[8..]);
      DropDrop(given, 8, n);
      AddressShift(old(buf), 8, n);
      n := 8 + n;
    }

    method GetEach(t: Type, size: uint64, ghost given: seq<byte>) returns (es: seq<Value>, ghost n: nat)
      requires Valid() && At(given) && DecodeRepeated(t, size, given).Some?
      modifies this`buf
      ensures DecodeRepeated(t, size, given) == Some((es, n))
      ensures At(given[n..]) && buf == Address(old(buf), n)
      decreases Rank(t), 2
    {
      assert |given| <= TWO_TO_64 && buf == Address(buf, 0);
      DropNothing(given);
      ResumesStart(t, size, given);
      hide Rank, Decode, DecodeRepeated, Resumes, LittleEndian, FromLittleEndian, Pow256, Encode, Holds, Address;
      es, n := [], 0;
      for i := 0 to size
        invariant n <= |given| && At(given[n..]) && buf == Address(old(buf), n)
        invariant Resumes(t, size, given, es, n, size - i)
      {
        var e;
        e, n := GetElement(t, size, given, es, n, size - i, old(buf));
        es := es + [e];
      }
      ResumesDone(t, size, given, es, n);
    }

    /** One turn of the loop: the element at `at`, of which `left` are still to come. */
    method GetElement(t: Type, ghost size: nat, ghost given: seq<byte>, ghost es: seq<Value>, ghost at: nat,
                      ghost left: nat, ghost start: uint64)
      returns (e: Value, ghost next: nat)
      requires Valid() && at <= |given| <= TWO_TO_64 && At(given[at..]) && buf == Address(start, at)
      requires DecodeRepeated(t, size, given).Some? && Resumes(t, size, given, es, at, left) && left > 0
      modifies this`buf
      ensures next <= |given| && At(given[next..]) && buf == Address(start, next)
      ensures Resumes(t, size, given, es + [e], next, left - 1)
      decreases Rank(t), 1
    {
      hide Rank, Decode, DecodeRepeated, Resumes, LittleEndian, FromLittleEndian, Pow256, Encode, Holds, Address;
      ResumesStep(t, size, given, es, at, left);
      ghost var n;
      e, n := Get(t, given[at..]);
      next := at + n;
      DropDrop(given, at, n);
      AddressShift(start, at, n);
    }

    /** Values extracted one after the other. */
    method GetAll(types: seq<Type>, ghost given: seq<byte>) returns (vs: seq<Value>, ghost n: nat)
      requires Valid() && At(given) && DecodeAll(types, given).Some?
      modifies this`buf
      ensures DecodeAll(types, given) == Some((vs, n))
      ensures At(given[n..]) && buf == Address(old(buf), n)
      decreases |types|
    {
      if types == [] {
        DropNothing(given);
        return [], 0;
      }
      assert |given| <= TWO_TO_64;
      hide Decode, LittleEndian, FromLittleEndian, Pow256, Encode, Holds, Address;
      ghost var m;
      var v, rest;
      v, m := Get(types[0], given);
      rest, n := GetAll(types[1..], given[m..]);
      DropDrop(given, m, n);
      AddressShift(old(buf), m, n);
      vs, n := [v] + rest, m + n;
    }
  }

  lemma TwoSplit(a: Type, b: Type, bytes: seq<byte>)
    requires DecodeTwo(a, b, bytes).Some?
    ensures Decode(a, bytes).Some? && Decode(b, bytes[Decode(a, bytes).value.1..]).Some?
  {
    hide Decode;
  }

  lemma DropNothing(bytes: seq<byte>)
    ensures bytes[0..] == bytes
  {
  }

  lemma DropDrop(bytes: seq<byte>, m: nat, n: nat)
    requires m + n <= |bytes|
    ensures bytes[m..][n..] == bytes[m + n..]
  {
  }

  /** Decoding `left` more values at `at` and putting `es` in front gives what decoding all of them gives. */
  ghost predicate Resumes(t: Type, size: nat, given: seq<byte>, es: seq<Value>, at: nat, left: nat)
    requires DecodeRepeated(t, size, given).Some?
  {
    && at <= |given|
    && DecodeRepeated(t, left, given[at..]).Some?
    && DecodeRepeated(t, size, given).value.0 == es + DecodeRepeated(t, left, given[at..]).value.0
    && DecodeRepeated(t, size, given).value.1 == at + DecodeRepeated(t, left, given[at..]).value.1
  }

  lemma ResumesStep(t: Type, size: nat, given: seq<byte>, es: seq<Value>, at: nat, left: nat)
    requires DecodeRepeated(t, size, given).Some? && Resumes(t, size, given, es, at, left) && left > 0
    ensures Decode(t, given[at..]).Some?
    ensures Resumes(t, size, given, es + [Decode(t, given[at..]).value.0], at + Decode(t, given[at..]).value.1, left - 1)
  {
    hide Decode;
    var n := Decode(t, given[at..]).value.1;
    DropDrop(given, at, n);
    OneThenRest(es, Decode(t, given[at..]).value.0, DecodeRepeated(t, left - 1, given[at + n..]).value.0);
  }

  lemma OneThenRest(es: seq<Value>, v: Value, vs: seq<Value>)
    ensures es + ([v] + vs) == es + [v] + vs
  {
  }

  lemma ResumesStart(t: Type, size: nat, given: seq<byte>)
    requires DecodeRepeated(t, size, given).Some?
    ensures Resumes(t, size, given, [], 0, size)
  {
    hide Decode;
    assert given[0..] == given;
    assert [] + DecodeRepeated(t, size, given).value.0 == DecodeRepeated(t, size, given).value.0;
  }

  lemma ResumesDone(t: Type, size: nat, given: seq<byte>, es: seq<Value>, at: nat)
    requires DecodeRepeated(t, size, given).Some? && Resumes(t, size, given, es, at, 0)
    ensures DecodeRepeated(t, size, given).value == (es, at)
  {
    assert es + [] == es;
  }

  /**
   * What a serializer has written, a deserializer at the start of the buffer may be given: with any stale bytes
   * behind it, it decodes to the values put in and ends where they end.
   */
  lemma BufferDecodes(mem: seq<byte>, base: uint64, vs: seq<Value>, types: seq<Type>, stale: seq<byte>)
    requires |mem| == TWO_TO_64 && HaveTypes(vs, types) && |EncodeAll(vs)| < TWO_TO_64
    requires Window(mem, base, |EncodeAll(vs)|) == EncodeAll(vs)
    ensures Holds(mem, base, EncodeAll(vs))
    ensures DecodeAll(types, EncodeAll(vs) + stale) == Some((vs, |EncodeAll(vs)|))
  {
    forall k | 0 <= k < |EncodeAll(vs)|
      ensures EncodeAll(vs)[k] == mem[Address(base, k)]
    {
      assert Window(mem, base, |EncodeAll(vs)|)[k] == EncodeAll(vs)[k];
    }
    MessageRoundTrip(vs, types, stale);
  }

  /**
   * A message from one side to the other: it goes through exactly if it fits, nothing outside the buffer changes, and
   * what comes out is what was put in, with whatever the memory held before behind it.
   */
  method Transfer(memory: array<byte>, base: uint64, len: uint64, vs: seq<Value>, types: seq<Type>)
    returns (ok: bool, received: seq<Value>)
    requires memory.Length == TWO_TO_64 && HaveTypes(vs, types)
    modifies memory
    ensures ok <==> |EncodeAll(vs)| <= len
    ensures ok ==> received == vs
    ensures SameOutside(old(memory[..]), memory[..], base, 0, len)
  {
    received := [];
    var s := new Serializer(memory, base, len);
    ok := s.PutAll(vs, types);
    Widened(old(memory[..]), memory[..], base, s.Used(), len);
    if ok {
      ghost var bytes := EncodeAll(vs);
      assert s.Written() == bytes;
      BufferDecodes(memory[..], base, vs, types, []);
      assert bytes + [] == bytes;
      var d := new Deserializer(memory, base);
      ghost var n;
      received, n := d.GetAll(types, bytes);
    }
  }

  lemma Widened(mem: seq<byte>, mem': seq<byte>, base: uint64, used: nat, len: nat)
    requires |mem| == |mem'| == TWO_TO_64 && SameOutside(mem, mem', base, 0, used) && used <= len
    ensures SameOutside(mem, mem', base, 0, len)
  {
  }
}
