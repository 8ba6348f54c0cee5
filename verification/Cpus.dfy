/** Which CPUs the threads of a run are put on (include/utils.h, ycsbc-l4/ycsbc-l4.cc). */
module Cpus {
  import opened MachineInts

  const CPUS_PER_MAP: nat := 64

  function PowerOfTwo(n: nat): nat
    ensures PowerOfTwo(n) > 0
  {
    if n == 0 then 1 else 2 * PowerOfTwo(n - 1)
  }

  predicate Bit(bits: uint64, i: nat) {
    bits / PowerOfTwo(i) % 2 == 1
  }

  lemma HalfThen(x: nat, n: nat)
    requires n > 0
    ensures x / 2 / n == x / (2 * n)
  {
    var q := x / 2 / n;
    var t := n * q;
    assert t <= x / 2 < t + n;
    assert 2 * n * q == 2 * t;
    QuotientIs(x, 2 * n, q);
  }

  /** Bit 0 is the lowest one, and every other bit one of half the number. */
  lemma BitIs(bits: uint64, i: nat)
    ensures Bit(bits, i) <==> if i == 0 then bits % 2 == 1 else Bit(bits / 2, i - 1)
  {
    if i > 0 {
      HalfThen(bits, PowerOfTwo(i - 1));
    }
  }

  /** What the scheduler says of a CPU: its bit in the map that starts at the multiple of 64 below it. */
  predicate Online(info: nat -> uint64, cpu: nat) {
    Bit(info(cpu - cpu % CPUS_PER_MAP), cpu % CPUS_PER_MAP)
  }

  predicate Ascending(cpus: seq<nat>) {
    forall i, j :: 0 <= i < j < |cpus| ==> cpus[i] < cpus[j]
  }

  /** The CPUs of every map that starts below the maximum, the last one in full. */
  method OnlineCpus(cpuMax: nat, info: nat -> uint64) returns (cpus: seq<nat>)
    ensures Ascending(cpus)
    ensures forall cpu: nat :: cpu in cpus <==> cpu - cpu % 64 < cpuMax && Bit(info(cpu - cpu % 64), cpu % 64)
  {
    var offset := 0;
    cpus := [];
    while offset < cpuMax
      invariant offset % CPUS_PER_MAP == 0
      invariant offset < cpuMax + CPUS_PER_MAP
      invariant Ascending(cpus)
      invariant forall cpu: nat :: cpu in cpus <==> cpu < offset && Online(info, cpu)
    {
      cpus := AddPage(cpus, offset, info(offset), info);
      offset := offset + CPUS_PER_MAP;
    }
    forall cpu: nat
      ensures cpu < offset <==> cpu - cpu % CPUS_PER_MAP < cpuMax
    {
      PageBelow(cpu, offset, cpuMax);
    }
  }

  lemma PageBelow(cpu: nat, offset: nat, cpuMax: nat)
    requires offset % CPUS_PER_MAP == 0 && cpuMax <= offset < cpuMax + CPUS_PER_MAP
    ensures cpu < offset <==> cpu - cpu % CPUS_PER_MAP < cpuMax
  {
  }

  method AddPage(before: seq<nat>, offset: nat, bits: uint64, ghost info: nat -> uint64) returns (cpus: seq<nat>)
    requires offset % CPUS_PER_MAP == 0 && bits == info(offset)
    requires Ascending(before) && forall cpu: nat :: cpu in before <==> cpu < offset && Online(info, cpu)
    ensures Ascending(cpus)
    ensures forall cpu: nat :: cpu in cpus <==> cpu < offset + CPUS_PER_MAP && Online(info, cpu)
  {
    cpus := before;
    for i := 0 to CPUS_PER_MAP
      invariant Ascending(cpus)
      invariant forall cpu: nat :: cpu in cpus <==> cpu < offset + i && Online(info, cpu)
    {
      InPage(offset, i);
      if Bit(bits, i) {
        forall j | 0 <= j < |cpus|
          ensures cpus[j] < offset + i
        {
          assert cpus[j] in cpus;
        }
        cpus := cpus + [offset + i];
      }
    }
  }

  lemma InPage(offset: nat, i: nat)
    requires offset % CPUS_PER_MAP == 0 && i < CPUS_PER_MAP
    ensures (offset + i) % CPUS_PER_MAP == i
  {
  }

  /** The CPUs of a client thread and of its server. */
  function SelectCpus(disperse: bool, cpus: seq<nat>, i: nat): (nat, nat)
    requires cpus != []
  {
    if disperse then (cpus[2 * i % |cpus|], cpus[(2 * i + 1) % |cpus|])
    else (cpus[i % |cpus|], cpus[i % |cpus|])
  }

  function Around(c: nat, n: nat): nat {
    if c + 1 < n then c + 1 else 0
  }

  /**
   * The first client is on the first CPU.  Dispersed, its server is on the next one and the next client behind that, and
   * so on around; otherwise every server is where its client is, and the next client on the next CPU.
   */
  lemma ClientThenServer(cpus: seq<nat>, i: nat, c: nat)
    requires Ascending(cpus) && c < |cpus|
    ensures SelectCpus(true, cpus, 0).0 == SelectCpus(false, cpus, 0).0 == cpus[0]
    ensures SelectCpus(true, cpus, i).0 == cpus[c] ==> SelectCpus(true, cpus, i).1 == cpus[Around(c, |cpus|)]
    ensures SelectCpus(true, cpus, i).1 == cpus[c] ==> SelectCpus(true, cpus, i + 1).0 == cpus[Around(c, |cpus|)]
    ensures SelectCpus(false, cpus, i).1 == SelectCpus(false, cpus, i).0
    ensures SelectCpus(false, cpus, i).0 == cpus[c] ==> SelectCpus(false, cpus, i + 1).0 == cpus[Around(c, |cpus|)]
  {
    var n := |cpus|;
    NextStop(2 * i, n);
    NextStop(2 * i + 1, n);
    NextStop(i, n);
    Divides(0, n, 0, 0);
    assert 2 * (i + 1) == 2 * i + 1 + 1;
    SameCpu(cpus, 2 * i % n, c);
    SameCpu(cpus, (2 * i + 1) % n, c);
    SameCpu(cpus, i % n, c);
  }

  lemma SameCpu(cpus: seq<nat>, c: nat, d: nat)
    requires Ascending(cpus) && c < |cpus| && d < |cpus|
    ensures cpus[c] == cpus[d] <==> c == d
  {
  }

  /** The CPUs for placement: the boot CPU may be left out if there are others, and without migration only one is used. */
  function PlacementCpus(online: seq<nat>, avoidBoot: bool, migrate: bool): seq<nat>
    requires online != []
  {
    var cpus := if avoidBoot && |online| > 1 then online[1..] else online;
    if migrate then cpus else cpus[..1]
  }

  /** So without migration all threads share one CPU, dispersed or not, and it is the boot CPU unless that is avoided. */
  lemma OneCpuWithoutMigration(online: seq<nat>, avoidBoot: bool, migrate: bool, disperse: bool, i: nat)
    requires online != [] && Ascending(online)
    ensures PlacementCpus(online, avoidBoot, migrate) != [] && Ascending(PlacementCpus(online, avoidBoot, migrate))
    ensures online[0] in PlacementCpus(online, avoidBoot, migrate) <==> !avoidBoot || |online| == 1
    ensures !migrate ==> var cpu := if avoidBoot && |online| > 1 then online[1] else online[0];
                         SelectCpus(disperse, PlacementCpus(online, avoidBoot, migrate), i) == (cpu, cpu)
  {
    var cpus := PlacementCpus(online, avoidBoot, migrate);
    if avoidBoot && |online| > 1 {
      assert forall j :: 0 <= j < |cpus| ==> cpus[j] == online[j + 1];
    } else {
      assert cpus[0] == online[0];
    }
  }

  /** A client shares a CPU with its server unless they are dispersed over two CPUs or more. */
  lemma ServerApart(disperse: bool, cpus: seq<nat>, i: nat)
    requires cpus != [] && Ascending(cpus)
    ensures SelectCpus(disperse, cpus, i).0 != SelectCpus(disperse, cpus, i).1 <==> disperse && |cpus| >= 2
  {
    if disperse && |cpus| >= 2 {
      NextApart(2 * i, |cpus|);
    } else if disperse {
      assert |cpus| == 1;
    }
  }

  lemma NextApart(k: nat, n: nat)
    requires n >= 2
    ensures k % n != (k + 1) % n
  {
    NextStop(k, n);
  }

  /** One step around a ring of `n` places. */
  lemma NextStop(k: nat, n: nat)
    requires n > 0
    ensures (k + 1) % n == if k % n + 1 < n then k % n + 1 else 0
    ensures (k + 1) / n == k / n + if k % n + 1 < n then 0 else 1
  {
    var q, r := k / n, k % n;
    if r + 1 < n {
      Divides(k + 1, n, q, r + 1);
    } else {
      Distributes(n, q + 1, q);
      Divides(k + 1, n, q + 1, 0);
    }
  }

  lemma Distributes(n: nat, a: nat, b: nat)
    ensures n * a - n * b == n * (a - b)
    ensures a > b ==> n * (a - b) >= n
  {
    if a > b {
      AtLeast(n, a - b);
    }
  }

  lemma {:induction false} AtLeast(n: nat, d: nat)
    requires d > 0
    ensures n * d >= n
  {
    if d > 1 {
      AtLeast(n, d - 1);
      assert n * d == n * (d - 1) + n;
    }
  }

  lemma Divides(m: nat, n: nat, q: nat, r: nat)
    requires r < n && m == n * q + r
    ensures m / n == q && m % n == r
  {
    Distributes(n, q, m / n);
    Distributes(n, m / n, q);
  }

  /** How often a CPU is picked for a client or a server among the first `threads` threads. */
  function Uses(disperse: bool, cpus: seq<nat>, threads: nat, cpu: nat): nat
    requires cpus != []
  {
    if threads == 0 then 0
    else
      var pair := SelectCpus(disperse, cpus, threads - 1);
      Uses(disperse, cpus, threads - 1, cpu) + (if pair.0 == cpu then 1 else 0) + (if pair.1 == cpu then 1 else 0)
  }

  /** How many of the first `m` stops on a ring of `n` places are at place `c`. */
  function StopsAt(m: nat, n: nat, c: nat): nat
    requires n > 0
  {
    m / n + if c < m % n then 1 else 0
  }

  lemma StopsStep(m: nat, n: nat, c: nat)
    requires c < n
    ensures StopsAt(m + 1, n, c) == StopsAt(m, n, c) + if m % n == c then 1 else 0
  {
    NextStop(m, n);
  }

  lemma StopStep(cpus: seq<nat>, m: nat, c: nat)
    requires Ascending(cpus) && c < |cpus|
    ensures StopsAt(m + 1, |cpus|, c) == StopsAt(m, |cpus|, c) + if cpus[m % |cpus|] == cpus[c] then 1 else 0
  {
    StopsStep(m, |cpus|, c);
  }

  /** Dispersed threads go around the CPUs one client or server at a time, other threads one pair at a time. */
  lemma {:induction false} UsesAre(disperse: bool, cpus: seq<nat>, threads: nat, c: nat)
    requires Ascending(cpus) && c < |cpus|
    ensures Uses(disperse, cpus, threads, cpus[c])
            == if disperse then StopsAt(2 * threads, |cpus|, c) else 2 * StopsAt(threads, |cpus|, c)
  {
    if threads == 0 {
      Divides(0, |cpus|, 0, 0);
    } else {
      var i := threads - 1;
      UsesAre(disperse, cpus, i, c);
      hide StopsAt, Ascending;
      if disperse {
        StopStep(cpus, 2 * i, c);
        StopStep(cpus, 2 * i + 1, c);
      } else {
        StopStep(cpus, i, c);
      }
    }
  }

  /** No CPU is used more than once more than another when dispersed, or more than one pair more when not. */
  lemma LoadIsEven(disperse: bool, cpus: seq<nat>, threads: nat, c: nat, d: nat)
    requires Ascending(cpus) && c < |cpus| && d < |cpus|
    ensures Uses(disperse, cpus, threads, cpus[c])
            <= Uses(disperse, cpus, threads, cpus[d]) + if disperse then 1 else 2
  {
    UsesAre(disperse, cpus, threads, c);
    UsesAre(disperse, cpus, threads, d);
  }
}
