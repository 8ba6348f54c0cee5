/** C strings, and the hashed strings that key the hash tables (lib/string.h). */
module CStrings {
  import opened MachineInts

  /** What is left of a string handed over as a C string. */
  function CString(s: string): (c: string)
    ensures '\0' !in c
    ensures '\0' !in s ==> c == s
  {
    if s == "" || s[0] == '\0' then "" else [s[0]] + CString(s[1..])
  }

  lemma {:induction false} CStringOfConcat(a: string, b: string)
    ensures CString(a + b) == if '\0' in a then CString(a) else a + CString(b)
  {
    if a == "" {
      assert a + b == b;
    } else if a[0] == '\0' {
      assert (a + b)[0] == '\0';
    } else {
      CStringOfConcat(a[1..], b);
      Consed(a, b);
      Consed(a, CString(b));
    }
  }

  lemma Consed(a: string, b: string)
    requires a != ""
    ensures (a + b)[0] == a[0] && (a + b)[1..] == a[1..] + b && [a[0]] + (a[1..] + b) == a + b
  {
  }

  /** A signed 8-bit char widened to 64 bits. */
  function Widened(c: byte): uint64 {
    if c < 128 then c else Wrap64(c - 256)
  }

  /** The octets, most significant first, as digits of a number to base 65599. */
  function Polynomial(octets: seq<byte>): nat {
    if octets == [] then 0 else 65599 * Polynomial(octets[..|octets| - 1]) + Widened(octets[|octets| - 1])
  }

  function Weight(n: nat): nat {
    if n == 0 then 1 else 65599 * Weight(n - 1)
  }

  /** The first octet weighs most. */
  lemma {:induction false} PolynomialFront(c: byte, rest: seq<byte>)
    ensures Polynomial([c] + rest) == Widened(c) * Weight(|rest|) + Polynomial(rest)
    decreases |rest|
  {
    if rest == [] {
      assert [c] + rest == [c] && [c][..0] == [];
    } else {
      var n := |rest| - 1;
      PolynomialFront(c, rest[..n]);
      assert ([c] + rest)[..|rest|] == [c] + rest[..n];
      Regrouped(Widened(c), Weight(n));
    }
  }

  lemma Regrouped(c: nat, w: nat)
    ensures c * (65599 * w) == 65599 * (c * w)
  {
  }

  /** Such as the hash of "ab", and that of one octet with its sign. */
  lemma HashesInFigures()
    ensures Wrap64(Polynomial([97, 98])) == 97 * 65599 + 98
    ensures Wrap64(Polynomial([195])) == 0x1_0000_0000_0000_0000 - 61
  {
    PolynomialFront(97, [98]);
    assert [97] + [98] == [97, 98] && [98][..0] == [] && [195][..0] == [];
  }

  lemma WrapStep(a: nat, c: nat)
    ensures Wrap64(Wrap64(c + Wrap64(Wrap64(a) * 64)) + Wrap64(Wrap64(a) * 0x1_0000) - Wrap64(a))
            == Wrap64(65599 * a + c)
  {
    var h, q := a % TWO_TO_64, a / TWO_TO_64;
    var x, y := h * 64, h * 0x1_0000;
    assert x == TWO_TO_64 * (x / TWO_TO_64) + Wrap64(x);
    assert y == TWO_TO_64 * (y / TWO_TO_64) + Wrap64(y);
    var z := c + Wrap64(x);
    assert z == TWO_TO_64 * (z / TWO_TO_64) + Wrap64(z);
    SameWrap(Wrap64(z) + Wrap64(y) - h, 65599 * a + c, 65599 * q + x / TWO_TO_64 + y / TWO_TO_64 + z / TWO_TO_64);
  }

  lemma SameWrap(a: int, b: int, k: int)
    requires b == a + TWO_TO_64 * k
    ensures Wrap64(a) == Wrap64(b)
  {
  }

  /** A string with its hash; the terminating NUL is not among the octets. */
  class HashedString {
    var value: seq<byte>
    var hash: uint64

    ghost predicate Valid()
      reads this
    {
      0 !in value && hash == Wrap64(Polynomial(value))
    }

    constructor (v: seq<byte>)
      requires 0 !in v
      ensures Valid() && value == v
    {
      value := v;
      hash := 0;
      new;
      SetValue(v);
    }

    method SetValue(v: seq<byte>)
      requires 0 !in v
      modifies this
      ensures Valid() && value == v
    {
      value := v;
      hash := SdbmHash(v);
    }

    static method SdbmHash(v: seq<byte>) returns (hash: uint64)
      ensures hash == Wrap64(Polynomial(v))
    {
      hash := 0;
      for i := 0 to |v|
        invariant hash == Wrap64(Polynomial(v[..i]))
      {
        var c := Widened(v[i]);
        WrapStep(Polynomial(v[..i]), c);
        hash := Wrap64(Wrap64(c + Wrap64(hash * 64)) + Wrap64(hash * 0x1_0000) - hash);
        assert v[..i + 1][..i] == v[..i];
      }
      assert v[..|v|] == v;
    }

    /** Comparing the hashes first never changes the outcome. */
    method Equals(other: HashedString) returns (same: bool)
      requires Valid() && other.Valid()
      ensures same <==> value == other.value
    {
      if hash != other.hash {
        return false;
      }
      same := value == other.value;
    }
  }
}
