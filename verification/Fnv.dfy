/** FNV-1a over the eight little-endian octets of a record number (core/utils.h). */
module Fnv {
  import opened MachineInts

  const OFFSET_BASIS: uint64 := 0xCBF29CE484222325
  const PRIME: uint64 := 1099511628211

  /** Bitwise exclusive or of two unsigned numbers. */
  function Xor(a: nat, b: nat): nat
    decreases a + b
  {
    if a == 0 && b == 0 then 0 else (a + b) % 2 + 2 * Xor(a / 2, b / 2)
  }

  /** One FNV-1a round: exclusive-or the octet in, then multiply by the prime. */
  function Round(hash: nat, octet: byte): uint64 {
    Wrap64(Xor(hash, octet) * PRIME)
  }

  function Fnv1a(hash: uint64, octets: seq<byte>): uint64
    decreases octets
  {
    if octets == [] then hash else Fnv1a(Round(hash, octets[0]), octets[1..])
  }

  function Hash(val: uint64): uint64 {
    Fnv1a(OFFSET_BASIS, LittleEndian(val, 8))
  }

  method FNVHash64(val: uint64) returns (hash: uint64)
    ensures hash == Hash(val)
  {
    hash := OFFSET_BASIS;
    var rest := val;
    for i := 0 to 8
      invariant Fnv1a(hash, LittleEndian(rest, 8 - i)) == Hash(val)
    {
      var octet: byte := rest % 256;
      rest := rest / 256;
      hash := Round(hash, octet);
    }
  }

  // ----- Exclusive or -----

  lemma {:induction false} XorInjective(a: nat, b: nat, c: nat)
    requires Xor(a, b) == Xor(a, c)
    ensures b == c
    decreases a + b + c
  {
    if a + b + c > 0 {
      XorHalf(a, b);
      XorHalf(a, c);
      hide Xor;
      XorInjective(a / 2, b / 2, c / 2);
      SameParity(a, b, c);
    }
  }

  lemma SameParity(a: nat, b: nat, c: nat)
    requires (a + b) % 2 == (a + c) % 2 && b / 2 == c / 2
    ensures b == c
  {
  }

  lemma {:induction false} XorCommutes(a: nat, b: nat)
    ensures Xor(a, b) == Xor(b, a)
    decreases a + b
  {
    if a + b > 0 {
      XorCommutes(a / 2, b / 2);
    }
  }

  lemma {:induction false} XorZero(a: nat)
    ensures Xor(a, 0) == a
  {
    if a > 0 {
      XorZero(a / 2);
    }
  }

  lemma XorHalf(a: nat, b: nat)
    ensures Xor(a, b) / 2 == Xor(a / 2, b / 2) && Xor(a, b) % 2 == (a + b) % 2
  {
  }

  predicate Bit(x: nat, i: nat) {
    if i == 0 then x % 2 == 1 else Bit(x / 2, i - 1)
  }

  /** Each bit of the result is set exactly if it is set in one of the two numbers only. */
  lemma {:induction false} XorBits(a: nat, b: nat, i: nat)
    ensures Bit(Xor(a, b), i) <==> Bit(a, i) != Bit(b, i)
    decreases i
  {
    XorHalf(a, b);
    hide Xor;
    if i > 0 {
      XorBits(a / 2, b / 2, i - 1);
    }
  }

  lemma XorQuarter(a: nat, b: nat)
    ensures Xor(a, b) / 4 == Xor(a / 4, b / 4)
  {
    XorHalf(a, b);
    XorHalf(a / 2, b / 2);
    assert a / 2 / 2 == a / 4 && b / 2 / 2 == b / 4;
  }

  lemma XorSixteenth(a: nat, b: nat)
    ensures Xor(a, b) / 16 == Xor(a / 16, b / 16)
  {
    XorQuarter(a, b);
    XorQuarter(a / 4, b / 4);
    assert a / 4 / 4 == a / 16 && b / 4 / 4 == b / 16;
  }

  /** An octet only touches the low eight bits. */
  lemma XorKeepsHigh(a: nat, octet: byte)
    ensures Xor(a, octet) / 256 == a / 256
    ensures a < TWO_TO_64 ==> Xor(a, octet) < TWO_TO_64
  {
    hide Xor;
    XorSixteenth(a, octet);
    XorSixteenth(a / 16, octet / 16);
    XorZero(a / 256);
    Sixteenths(a);
    Sixteenths(octet);
    Sixteenths(Xor(a, octet));
    SameRange(a, Xor(a, octet));
  }

  lemma Sixteenths(x: nat)
    ensures x / 16 / 16 == x / 256
  {
  }

  lemma SameRange(x: nat, y: nat)
    requires x / 256 == y / 256
    ensures x < TWO_TO_64 ==> y < TWO_TO_64
  {
  }

  // ----- Every round is a bijection of the hash -----

  const INVERSE: int := 0xCE965057AFF6957B

  lemma Unmultiply(x: uint64)
    ensures Wrap64(x * PRIME) * INVERSE % TWO_TO_64 == x
  {
    var quotient := x * 1099511628211 / 0x1_0000_0000_0000_0000;
    var turns := x * 887285111055 - quotient * 0xCE965057AFF6957B;
    assert 1099511628211 * 0xCE965057AFF6957B == 887285111055 * 0x1_0000_0000_0000_0000 + 1;
    assert Wrap64(x * PRIME) == x * 1099511628211 - quotient * 0x1_0000_0000_0000_0000;
    Remainder(Wrap64(x * PRIME) * INVERSE, turns, x);
  }

  lemma Remainder(n: int, turns: int, x: uint64)
    requires n == turns * 0x1_0000_0000_0000_0000 + x
    ensures n % TWO_TO_64 == x
  {
  }

  lemma PrimeInvertible(x: uint64, y: uint64)
    requires Wrap64(x * PRIME) == Wrap64(y * PRIME)
    ensures x == y
  {
    Unmultiply(x);
    Unmultiply(y);
  }

  lemma RoundInjective(g: uint64, h: uint64, octet: byte)
    requires Round(g, octet) == Round(h, octet)
    ensures g == h
  {
    hide Xor, Wrap64;
    XorKeepsHigh(g, octet);
    XorKeepsHigh(h, octet);
    PrimeInvertible(Xor(g, octet), Xor(h, octet));
    XorCommutes(g, octet);
    XorCommutes(h, octet);
    XorInjective(octet, g, h);
  }

  lemma RoundSeparates(h: uint64, a: byte, b: byte)
    requires Round(h, a) == Round(h, b)
    ensures a == b
  {
    hide Xor, Wrap64;
    XorKeepsHigh(h, a);
    XorKeepsHigh(h, b);
    PrimeInvertible(Xor(h, a), Xor(h, b));
    XorInjective(h, a, b);
  }

  /** Equal octets fed to two hash states never make them meet. */
  lemma {:induction false} SameSuffixInjective(g: uint64, h: uint64, octets: seq<byte>)
    requires Fnv1a(g, octets) == Fnv1a(h, octets)
    ensures g == h
    decreases octets
  {
    if octets != [] {
      SameSuffixInjective(Round(g, octets[0]), Round(h, octets[0]), octets[1..]);
      RoundInjective(g, h, octets[0]);
    }
  }

  // ----- Four consecutive octets -----

  /**
   * With PRIME == 2^40 + 435, a collision of two four-octet inputs is a small linear combination of the prime's
   * powers that vanishes modulo 2^64.  Reading it modulo 2^40 and then modulo 2^24 leaves only the trivial one.
   */
  lemma OnlyTrivialCollision(d: int, f1: int, f2: int, g: int, turns: int)
    requires -510 <= d <= 510 && -510 <= f1 <= 510 && -510 <= f2 <= 510 && -255 <= g <= 255
    requires d * (567675 * 0x100_0000_0000 + 82312875) + f1 * (870 * 0x100_0000_0000 + 189225)
             + f2 * (0x100_0000_0000 + 435) - g == turns * 0x1_0000_0000_0000_0000
    ensures d == 0 && f1 == 0 && f2 == 0 && g == 0
  {
    var low := 189225 * d + 435 * f1 + f2;
    var high := 567675 * d + 870 * f1 + f2;
    assert 435 * low - g == 0x100_0000_0000 * (turns * 0x100_0000 - high);
    assert -0x100_0000_0000 < 435 * low - g < 0x100_0000_0000;
    assert turns * 0x100_0000 == high;
    assert low == 0 && g == 0;
    assert high == 435 * (870 * d + f1);
    assert 435 * (870 * d + f1) == turns * 0x100_0000;
    CoprimeTo435(870 * d + f1, turns);
  }

  lemma CoprimeTo435(x: int, turns: int)
    requires 435 * x == turns * 0x100_0000
    requires -0x100_0000 < x < 0x100_0000
    ensures x == 0
  {
    assert 435 * 16160123 == 419 * 0x100_0000 + 1;
    assert x == 0x100_0000 * (16160123 * turns - 419 * x);
  }

  lemma Unfold4(h: uint64, a: seq<byte>)
    requires |a| == 4
    ensures Fnv1a(h, a) == Round(Round(Round(Round(h, a[0]), a[1]), a[2]), a[3])
  {
    Unfold2(h, a[..2]);
    Unfold2(Round(Round(h, a[0]), a[1]), a[2..]);
    Fnv1aConcat(h, a[..2], a[2..]);
    assert a == a[..2] + a[2..];
  }

  lemma Unfold2(h: uint64, a: seq<byte>)
    requires |a| == 2
    ensures Fnv1a(h, a) == Round(Round(h, a[0]), a[1])
  {
    assert Fnv1a(Round(h, a[0]), a[1..]) == Fnv1a(Round(Round(h, a[0]), a[1]), []);
  }

  /** What an octet adds to the hash it is exclusive-ored into. */
  function Nudge(h: uint64, octet: byte): (n: int)
    ensures -255 <= n <= 255
  {
    XorKeepsHigh(h, octet);
    Xor(h, octet) - h
  }

  lemma RoundDifference(g: uint64, h: uint64, a: byte, b: byte) returns (turns: int)
    ensures Round(g, a) - Round(h, b)
            == (g - h + Nudge(g, a) - Nudge(h, b)) * 1099511628211 - turns * 0x1_0000_0000_0000_0000
  {
    turns := Xor(g, a) * 1099511628211 / 0x1_0000_0000_0000_0000
    - Xor(h, b) * 1099511628211 / 0x1_0000_0000_0000_0000;
  }

  lemma NudgeInjective(h: uint64, a: byte, b: byte)
    requires Nudge(h, a) == Nudge(h, b)
    ensures a == b
  {
    XorInjective(h, a, b);
  }

  /** Two states that one round on `a` and `b` brings together lie within an octet of each other. */
  lemma MeetingDistance(g: uint64, h: uint64, a: byte, b: byte)
    requires Round(g, a) == Round(h, b)
    ensures -255 <= g - h <= 255
  {
    hide Xor, Wrap64;
    XorKeepsHigh(g, a);
    XorKeepsHigh(h, b);
    PrimeInvertible(Xor(g, a), Xor(h, b));
    SameHigh(g, h, Xor(g, a));
  }

  lemma SameHigh(g: nat, h: nat, x: nat)
    requires x / 256 == g / 256 == h / 256
    ensures -255 <= g - h <= 255
  {
  }

  /** From any hash state, distinct four-octet inputs give distinct hashes. */
  lemma FourOctetsInjective(h: uint64, a: seq<byte>, b: seq<byte>)
    requires |a| == 4 && |b| == 4
    requires Fnv1a(h, a) == Fnv1a(h, b)
    ensures a == b
  {
    Unfold4(h, a);
    Unfold4(h, b);
    var g1, h1 := Round(h, a[0]), Round(h, b[0]);
    var g2, h2 := Round(g1, a[1]), Round(h1, b[1]);
    var g3, h3 := Round(g2, a[2]), Round(h2, b[2]);
    MeetingDistance(g3, h3, a[3], b[3]);
    ThreeRounds(h, a, b, g1, h1, g2, h2, g3, h3);
    NudgeInjective(h, a[0], b[0]);
    NudgeInjective(g1, a[1], b[1]);
    NudgeInjective(g2, a[2], b[2]);
    RoundSeparates(g3, a[3], b[3]);
  }

  lemma ThreeRounds(h: uint64, a: seq<byte>, b: seq<byte>,
                    g1: uint64, h1: uint64, g2: uint64, h2: uint64, g3: uint64, h3: uint64)
    requires |a| == 4 && |b| == 4
    requires g1 == Round(h, a[0]) && h1 == Round(h, b[0])
    requires g2 == Round(g1, a[1]) && h2 == Round(h1, b[1])
    requires g3 == Round(g2, a[2]) && h3 == Round(h2, b[2])
    requires -255 <= g3 - h3 <= 255
    ensures Nudge(h, a[0]) == Nudge(h, b[0]) && g1 == h1
    ensures Nudge(g1, a[1]) == Nudge(h1, b[1]) && g2 == h2
    ensures Nudge(g2, a[2]) == Nudge(h2, b[2]) && g3 == h3
  {
    var t0 := RoundDifference(h, h, a[0], b[0]);
    var t1 := RoundDifference(g1, h1, a[1], b[1]);
    var t2 := RoundDifference(g2, h2, a[2], b[2]);
    var d := Nudge(h, a[0]) - Nudge(h, b[0]);
    var f1 := Nudge(g1, a[1]) - Nudge(h1, b[1]);
    var f2 := Nudge(g2, a[2]) - Nudge(h2, b[2]);
    Reduce(d, f1, f2, g3 - h3, t0, t1, t2);
  }

  /** The three round differences combined into the powers of the prime, reduced modulo 2^64. */
  lemma Reduce(d: int, f1: int, f2: int, g: int, t0: int, t1: int, t2: int)
    requires -510 <= d <= 510 && -510 <= f1 <= 510 && -510 <= f2 <= 510 && -255 <= g <= 255
    requires g == (((d * 1099511628211 - t0 * 0x1_0000_0000_0000_0000 + f1) * 1099511628211
                    - t1 * 0x1_0000_0000_0000_0000) + f2) * 1099511628211 - t2 * 0x1_0000_0000_0000_0000
    ensures d == 0 && f1 == 0 && f2 == 0 && g == 0
  {
    var turns := t0 * 1208925820571204291060521 + t1 * 1099511628211 + t2 - d * 72057594123452416 - f1 * 65536;
    OnlyTrivialCollision(d, f1, f2, g, turns);
  }

  // ----- The hash of record numbers -----

  lemma Fnv1aConcat(h: uint64, a: seq<byte>, b: seq<byte>)
    ensures Fnv1a(h, a + b) == Fnv1a(Fnv1a(h, a), b)
    decreases a
  {
    if a == [] {
      assert a + b == b;
    } else {
      assert (a + b)[1..] == a[1..] + b;
      Fnv1aConcat(Round(h, a[0]), a[1..], b);
    }
  }

  /** Inputs that differ, but only within some four consecutive octets, never collide. */
  lemma FourOctetWindow(h: uint64, prefix: seq<byte>, a: seq<byte>, b: seq<byte>, suffix: seq<byte>)
    requires |a| == 4 && |b| == 4 && a != b
    ensures Fnv1a(h, prefix + a + suffix) != Fnv1a(h, prefix + b + suffix)
  {
    var state := Fnv1a(h, prefix);
    Fnv1aConcat(h, prefix + a, suffix);
    Fnv1aConcat(h, prefix + b, suffix);
    Fnv1aConcat(h, prefix, a);
    Fnv1aConcat(h, prefix, b);
    if Fnv1a(Fnv1a(state, a), suffix) == Fnv1a(Fnv1a(state, b), suffix) {
      SameSuffixInjective(Fnv1a(state, a), Fnv1a(state, b), suffix);
      FourOctetsInjective(state, a, b);
    }
  }

  lemma Split2(x: nat, n: nat)
    ensures LittleEndian(x, 2 + n) == [x % 256, x / 256 % 256] + LittleEndian(x / 0x1_0000, n)
  {
    assert LittleEndian(x, 2 + n) == [x % 256] + LittleEndian(x / 256, 1 + n);
    assert x / 256 / 256 == x / 0x1_0000;
  }

  lemma Split4(x: nat, n: nat)
    ensures LittleEndian(x, 4 + n) == LittleEndian(x, 4) + LittleEndian(x / TWO_TO_32, n)
  {
    assert x / 0x1_0000 / 0x1_0000 == x / TWO_TO_32;
    Split2(x, 2 + n);
    Split2(x / 0x1_0000, n);
    Split2(x, 2);
    Split2(x / 0x1_0000, 0);
  }

  lemma Octets8Injective(v: uint64, w: uint64)
    requires LittleEndian(v, 8) == LittleEndian(w, 8)
    ensures v == w
  {
    Pow256Values();
    LittleEndianRoundTrip(v, 8);
    LittleEndianRoundTrip(w, 8);
  }

  /** Numbers that agree on their upper 32 bits, and so all record numbers below 2^32, hash to distinct values. */
  lemma HashInjective(v: uint64, w: uint64)
    requires v / TWO_TO_32 == w / TWO_TO_32
    ensures Hash(v) == Hash(w) <==> v == w
  {
    if Hash(v) == Hash(w) {
      var a, b, suffix := LittleEndian(v, 4), LittleEndian(w, 4), LittleEndian(v / TWO_TO_32, 4);
      assert LittleEndian(v, 8) == [] + a + suffix by { Split4(v, 4); }
      assert LittleEndian(w, 8) == [] + b + suffix by { Split4(w, 4); }
      if a != b {
        FourOctetWindow(OFFSET_BASIS, [], a, b, suffix);
      }
      assert LittleEndian(v, 8) == LittleEndian(w, 8);
      Octets8Injective(v, w);
    }
  }

  lemma LowPart(q: nat, l: nat)
    ensures var v := 0x1_0000_0000 * q + l;
            v % 256 == l % 256 && v / 256 % 256 == l / 256 % 256
            && v / 0x1_0000 % 256 == l / 0x1_0000 % 256 && v / 0x1_0000 / 256 % 256 == l / 0x1_0000 / 256 % 256
  {
    LowOctet(0x100_0000 * q, l);
    LowOctet(0x1_0000 * q, l / 256);
    LowOctet(256 * q, l / 256 / 256);
    LowOctet(q, l / 256 / 256 / 256);
    var v := 0x1_0000_0000 * q + l;
    assert v / 256 / 256 == v / 0x1_0000 && l / 256 / 256 == l / 0x1_0000;
  }

  lemma LowOctet(q: nat, l: nat)
    ensures (256 * q + l) % 256 == l % 256 && (256 * q + l) / 256 == q + l / 256
  {
  }

  lemma SameLow(v: nat, w: nat)
    requires v % TWO_TO_32 == w % TWO_TO_32
    ensures v % 256 == w % 256 && v / 256 % 256 == w / 256 % 256
    ensures v / 0x1_0000 % 256 == w / 0x1_0000 % 256 && v / 0x1_0000 / 256 % 256 == w / 0x1_0000 / 256 % 256
  {
    LowPart(v / TWO_TO_32, v % TWO_TO_32);
    LowPart(w / TWO_TO_32, w % TWO_TO_32);
  }

  lemma LowOctets(v: nat, w: nat)
    requires v % TWO_TO_32 == w % TWO_TO_32
    ensures LittleEndian(v, 4) == LittleEndian(w, 4)
  {
    Split2(v, 2);
    Split2(w, 2);
    Split2(v / 0x1_0000, 0);
    Split2(w / 0x1_0000, 0);
    hide LittleEndian;
    SameLow(v, w);
  }

  /** So do numbers that agree on their lower 32 bits: all eight octets count. */
  lemma HighHalvesInjective(v: uint64, w: uint64)
    requires v % TWO_TO_32 == w % TWO_TO_32
    ensures Hash(v) == Hash(w) <==> v == w
  {
    if Hash(v) == Hash(w) {
      var low, a, b := LittleEndian(v, 4), LittleEndian(v / TWO_TO_32, 4), LittleEndian(w / TWO_TO_32, 4);
      LowOctets(v, w);
      assert LittleEndian(v, 8) == low + a + [] by { Split4(v, 4); }
      assert LittleEndian(w, 8) == low + b + [] by { Split4(w, 4); }
      if a != b {
        FourOctetWindow(OFFSET_BASIS, low, a, b, []);
      }
      assert LittleEndian(v, 8) == LittleEndian(w, 8);
      Octets8Injective(v, w);
    }
  }

  // ----- Two hashes in figures -----

  lemma RoundIs(h: uint64, octet: byte, x: nat, turns: nat, h': uint64)
    requires Xor(h, octet) == x && x * 1099511628211 == turns * 0x1_0000_0000_0000_0000 + h'
    ensures Round(h, octet) == h'
  {
    hide Xor;
    Remainder(x * PRIME, turns, h');
  }

  /** The lowest octet is the first to be mixed in. */
  lemma LowestFirst(h: uint64, v: nat, n: nat, h': uint64)
    requires Round(h, v % 256) == h'
    ensures Fnv1a(h, LittleEndian(v, n + 1)) == Fnv1a(h', LittleEndian(v / 256, n))
  {
    hide Round;
    assert LittleEndian(v, n + 1)[1..] == LittleEndian(v / 256, n);
  }

  lemma ZeroRound(h: uint64, turns: nat, h': uint64, n: nat)
    requires h * 1099511628211 == turns * 0x1_0000_0000_0000_0000 + h'
    ensures Fnv1a(h, LittleEndian(0, n + 1)) == Fnv1a(h', LittleEndian(0, n))
  {
    XorZero(h);
    RoundIs(h, 0, h, turns, h');
    LowestFirst(h, 0, n, h');
  }

  lemma NoOctets(h: uint64)
    ensures Fnv1a(h, LittleEndian(0, 0)) == h
  {
  }

  /** The first record of a default load, eight rounds from the offset basis. */
  lemma HashOfZero()
    ensures Hash(0) == 12161962213042174405
  {
    hide Fnv1a, LittleEndian;
    ZeroRound(14695981039346656037, 875948729822, 12638153115695167455, 7);
    ZeroRound(12638153115695167455, 753292627376, 590684067820433389, 6);
    ZeroRound(590684067820433389, 35207514050, 15658191375538532279, 5);
    ZeroRound(15658191375538532279, 933300935133, 5558979605539197941, 4);
    ZeroRound(5558979605539197941, 331341004832, 16482136530319305039, 3);
    ZeroRound(16482136530319305039, 982411893417, 15556837164214743357, 2);
    ZeroRound(15556837164214743357, 927259753368, 8614007388540201639, 1);
    ZeroRound(8614007388540201639, 513434850689, 12161962213042174405, 0);
    NoOctets(12161962213042174405);
  }

  lemma XorOne(h: nat)
    requires h % 2 == 1
    ensures Xor(h, 1) == h - 1
  {
    XorHalf(h, 1);
    XorZero(h / 2);
  }

  lemma FirstRound(h: uint64, turns: nat, h': uint64)
    requires h % 2 == 1 && (h - 1) * 1099511628211 == turns * 0x1_0000_0000_0000_0000 + h'
    ensures Round(h, 1) == h'
  {
    XorOne(h);
    hide Xor, Round;
    RoundIs(h, 1, h - 1, turns, h');
  }

  /** And the second one: its only octet that is not zero goes in first. */
  lemma HashOfOne()
    ensures Hash(1) == 9929646806074584996
  {
    hide Xor, Round, Fnv1a, LittleEndian;
    FirstRound(14695981039346656037, 875948729822, 12638152016183539244);
    LowestFirst(14695981039346656037, 1, 7, 12638152016183539244);
    ZeroRound(12638152016183539244, 753292561840, 589727492704079044, 6);
    ZeroRound(589727492704079044, 35150497730, 15034026112158478604, 5);
    ZeroRound(15034026112158478604, 896097786313, 12478008331234465636, 4);
    ZeroRound(12478008331234465636, 743747254381, 15568218984286027500, 3);
    ZeroRound(15568218984286027500, 927938162710, 18108579133170363140, 2);
    ZeroRound(18108579133170363140, 1079355427046, 12842188654679136204, 1);
    ZeroRound(12842188654679136204, 765454093203, 9929646806074584996, 0);
    NoOctets(9929646806074584996);
  }
}
