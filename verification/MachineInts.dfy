/** Fixed-width integers of the modelled program and their little-endian octets. */
module MachineInts {

  const TWO_TO_32: int := 0x1_0000_0000
  const TWO_TO_64: int := 0x1_0000_0000_0000_0000

  type byte = x: int | 0 <= x < 256
  type int32 = x: int | -0x8000_0000 <= x < 0x8000_0000
  type uint64 = x: int | 0 <= x < 0x1_0000_0000_0000_0000

  function Wrap64(x: int): uint64 {
    x % TWO_TO_64
  }

  /** The low 32 bits of `x`, read as a two's complement number. */
  function Truncate32(x: int): int32 {
    var low := x % TWO_TO_32;
    if low < 0x8000_0000 then low else low - TWO_TO_32
  }

  function Pow256(n: nat): nat
  {
    if n == 0 then 1 else 256 * Pow256(n - 1)
  }

  /** The `n` low-order octets of `x`, least significant first. */
  function LittleEndian(x: nat, n: nat): (octets: seq<byte>)
    ensures |octets| == n
  {
    if n == 0 then [] else [x % 256] + LittleEndian(x / 256, n - 1)
  }

  function FromLittleEndian(octets: seq<byte>): nat {
    if octets == [] then 0 else octets[0] + 256 * FromLittleEndian(octets[1..])
  }

  lemma {:induction false} LittleEndianRoundTrip(x: nat, n: nat)
    requires x < Pow256(n)
    ensures FromLittleEndian(LittleEndian(x, n)) == x
  {
    if n > 0 {
      LittleEndianRoundTrip(x / 256, n - 1);
      assert LittleEndian(x, n)[1..] == LittleEndian(x / 256, n - 1);
    }
  }

  lemma {:induction false} FromLittleEndianRoundTrip(octets: seq<byte>)
    ensures FromLittleEndian(octets) < Pow256(|octets|)
    ensures LittleEndian(FromLittleEndian(octets), |octets|) == octets
  {
    if octets != [] {
      FromLittleEndianRoundTrip(octets[1..]);
      var x := FromLittleEndian(octets);
      assert x % 256 == octets[0] && x / 256 == FromLittleEndian(octets[1..]);
      assert octets == [octets[0]] + octets[1..];
    }
  }

  lemma Pow256Values()
    ensures Pow256(4) == TWO_TO_32
    ensures Pow256(8) == TWO_TO_64
  {
    assert Pow256(2) == 0x1_0000;
    assert Pow256(4) == 0x1_0000_0000;
    assert Pow256(6) == 0x1_0000_0000_0000;
  }

  lemma DivideTwice(x: nat, n: nat)
    requires n > 0
    ensures x / 256 / n == x / (256 * n)
  {
    var q := x / 256 / n;
    var t := n * q;
    assert t <= x / 256 < t + n;
    assert 256 * n * q == 256 * t;
    QuotientIs(x, 256 * n, q);
  }

  lemma Scaled(a: nat, x: nat, y: nat)
    requires x <= y
    ensures a * x <= a * y
  {
  }

  lemma QuotientIs(x: nat, n: nat, q: nat)
    requires n > 0 && n * q <= x < n * q + n
    ensures x / n == q
  {
    var p := x / n;
    assert n * p <= x < n * p + n;
    if p < q {
      Scaled(n, p + 1, q);
    } else if q < p {
      Scaled(n, q + 1, p);
    }
  }

  /** Octet number `i` is the digit of that weight: the least significant one comes first. */
  lemma {:induction false} OctetAt(x: nat, n: nat, i: nat)
    requires i < n
    ensures Pow256(i) > 0 && LittleEndian(x, n)[i] == x / Pow256(i) % 256
  {
    if i > 0 {
      OctetAt(x / 256, n - 1, i - 1);
      DivideTwice(x, Pow256(i - 1));
    }
  }
}
