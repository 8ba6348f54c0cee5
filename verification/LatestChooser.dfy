/** What the chooser skewed towards the latest records can answer (core/skewed_latest_generator.h). */
module LatestChooser {
  import opened MachineInts
  import opened BenchmarkRun
  import opened Picks
  import opened Zipfian
  import Workload

  /** The answer to a random number while the counter stands just behind `last`. */
  function Answer(weight: nat -> real, power: real -> real, root: real, last: uint64, u: real): uint64 {
    Wrap64(last - Zipfian.Drawn(weight, power, root, 0, last, last, u))
  }

  ghost predicate CanAnswer(weight: nat -> real, power: real -> real, root: real, last: uint64, k: uint64) {
    exists u :: 0.0 <= u < 1.0 && Answer(weight, power, root, last, u) == k
  }

  ghost function Answers(weight: nat -> real, power: real -> real, root: real, last: uint64): iset<uint64> {
    iset k: uint64 | CanAnswer(weight, power, root, last, k)
  }

  lemma NothingDrawn(weight: nat -> real, power: real -> real, root: real, last: uint64)
    ensures CanAnswer(weight, power, root, last, last)
  {
    assert Times(0.0, ZetaSum(weight, last)) == 0.0;
    assert Answer(weight, power, root, last, 0.0) == last;
  }

  lemma OneOfTwo(weight: nat -> real, power: real -> real, root: real)
    requires IsWeight(weight)
    ensures CanAnswer(weight, power, root, 2, 1)
  {
    hide ZetaSum;
    FirstTwo(weight);
    var z := ZetaSum(weight, 2);
    Quotient(1.0, z);
    assert Times(1.0 / z, z) == 1.0;
    assert Answer(weight, power, root, 2, 1.0 / z) == 1;
  }

  /** A random number close enough to 1 draws the largest offset. */
  lemma DrawsLargest(weight: nat -> real, power: real -> real, root: real, n: uint64) returns (u: real)
    requires IsWeight(weight) && IsPower(power) && ReachesOne(power) && IsRoot(power, root, n) && n >= 3
    ensures 0.0 <= u < 1.0 && Zipfian.Drawn(weight, power, root, 0, n, n, u) == n - 1
  {
    var bound := (n - 1) as real / n as real;
    Quotient((n - 1) as real, n as real);
    assert CloseToOne(power, bound);
    var x :| 0.0 <= x < 1.0 && power(x) >= bound;
    RootBelowOne(power, root, n);
    var y := if x < root then root else x;
    assert power(y) >= power(x);
    u := DrawsFrom(weight, root, n, y);
    FirstTwo(weight);
    ZetaGrows(weight, 2, n);
    var eta := EtaOf(root, ZetaSum(weight, 2), ZetaSum(weight, n)).value;
    ThirdBranch(weight, power, n, n, root, n, u);
    AtLeastLargest(n, power(y));
    DrawnIs(weight, power, root, 0, n, n, u);
    assert Offset(power, n, Curve(eta, u)) == n - 1;
  }

  lemma AtLeastLargest(n: uint64, p: real)
    requires n >= 1 && p >= (n - 1) as real / n as real
    ensures Times(n as real, p).Floor >= n - 1
  {
    Product(0.0, p - (n - 1) as real / n as real, 0.0, n as real);
    Quotient((n - 1) as real, n as real);
    assert (p - (n - 1) as real / n as real) * n as real == p * n as real - (n - 1) as real;
  }

  /** The random number at which the third branch raises `y` to the power. */
  lemma DrawsFrom(weight: nat -> real, root: real, n: uint64, y: real) returns (u: real)
    requires IsWeight(weight) && 0.0 <= root <= y < 1.0 && n >= 3
    ensures 0.0 <= u < 1.0 && Times(u, ZetaSum(weight, n)) >= ZetaSum(weight, 2)
    ensures ZetaSum(weight, 2) < ZetaSum(weight, n)
    ensures Curve(EtaOf(root, ZetaSum(weight, 2), ZetaSum(weight, n)).value, u) == y
  {
    hide ZetaSum;
    ZetaGrows(weight, 0, 2);
    ZetaGrows(weight, 2, n);
    u := Solve(root, ZetaSum(weight, 2), ZetaSum(weight, n), y);
  }

  lemma Solve(root: real, zeta2: real, zetaN: real, y: real) returns (u: real)
    requires 0.0 <= root <= y < 1.0 && 0.0 <= zeta2 < zetaN
    ensures 0.0 <= u < 1.0 && Times(u, zetaN) >= zeta2
    ensures EtaOf(root, zeta2, zetaN).Some? && Curve(EtaOf(root, zeta2, zetaN).value, u) == y
  {
    Quotient(zeta2, zetaN);
    var ratio := zeta2 / zetaN;
    var room := 1.0 - ratio;
    var eta := (1.0 - root) / room;
    assert eta * room == 1.0 - root;
    PositiveFactor(eta, room);
    var rest := (1.0 - y) / eta;
    assert rest * eta == 1.0 - y;
    PositiveFactor(rest, eta);
    NonNegativeFactor(room - rest, eta) by {
      assert (room - rest) * eta == y - root;
    }
    u := 1.0 - rest;
    Product(ratio, u, zetaN, zetaN);
    assert Curve(eta, u) == 1.0 - eta * rest;
  }

  /** It answers nothing below 1 and can answer both 1 and the last inserted number. */
  lemma LatestSpans(c: Config, weight: nat -> real, power: real -> real, root: real)
    requires IsWeight(weight) && IsPower(power) && ReachesOne(power) && IsRoot(power, root, LastInserted(c))
    requires 2 <= LastInserted(c)
    ensures Spans(c, Answers(weight, power, root, LastInserted(c)), 1)
  {
    var last := LastInserted(c);
    hide LastInserted, Zipfian.Drawn, ZetaSum, IsPower, IsRoot, ReachesOne;
    forall k | k in Answers(weight, power, root, last)
      ensures 1 <= k
    {
      var u :| 0.0 <= u < 1.0 && Answer(weight, power, root, last, u) == k;
      InRangeExactly(weight, power, last, last, root, 0, last);
      assert InRange(weight, power, root, 0, last, last, u);
    }
    NothingDrawn(weight, power, root, last);
    if last == 2 {
      OneOfTwo(weight, power, root);
    } else {
      var u := DrawsLargest(weight, power, root, last);
      assert Answer(weight, power, root, last, u) == 1;
    }
  }

  /**
   * With this chooser every pick that gets through was loaded exactly if records start at 0 and are shared out evenly, or
   * start at 1 and at most one is left out.
   */
  lemma LatestPicksAreLoaded(c: Config, run: seq<State>, weight: nat -> real, power: real -> real, root: real)
    requires IsRun(c, run) && !run[|run| - 1].loading
    requires IsWeight(weight) && IsPower(power) && ReachesOne(power) && IsRoot(power, root, LastInserted(c))
    requires c.recordCount >= 3 && c.threads >= 1 && c.insertStart >= 0
    ensures run[|run| - 1].loaded <= |run[|run| - 1].issued|
    ensures PicksLoaded(c, run[|run| - 1], Answers(weight, power, root, LastInserted(c)))
            <==> (c.insertStart == 0 && c.recordCount % c.threads == 0)
                 || (c.insertStart == 1 && c.recordCount % c.threads <= 1)
  {
    LastValue(c);
    LatestSpans(c, weight, power, root);
    PicksAreLoaded(c, run, Answers(weight, power, root, LastInserted(c)), 1);
    LatestCovers(c);
  }

  /** A generator made when the counter stood just behind `last`, where it still stands. */
  ghost predicate Settled(g: SkewedLatestGenerator, last: uint64)
    reads g, g.zipfian, g.basis
  {
    g.Valid() && g.zipfian.nForZeta == last && last == Wrap64(g.basis.counter - 1) && 2 <= last < MAX_NUM_ITEMS
  }

  /** The generator itself answers exactly so. */
  method AskOnce(g: SkewedLatestGenerator, ghost last: uint64, u: real) returns (pick: uint64)
    requires Settled(g, last) && 0.0 <= u < 1.0
    modifies g, g.zipfian
    ensures Settled(g, last)
    ensures pick == Answer(g.zipfian.weight, g.zipfian.power, g.zipfian.root, last, u)
  {
    hide Zipfian.Drawn, ZetaSum, IsWeight, IsPower, IsRoot, Curve, Offset, Times, EtaOf;
    ghost var z := g.zipfian;
    hide z.Valid;
    pick := g.Next(u);
  }

  method NewLatest(counter: Workload.CounterGenerator, weight: nat -> real, power: real -> real, root: real, u: real,
                   v: real)
    returns (g: SkewedLatestGenerator)
    requires 2 <= Wrap64(counter.counter - 1) < MAX_NUM_ITEMS && 0.0 <= u < 1.0 && 0.0 <= v < 1.0
    requires IsWeight(weight) && IsPower(power) && IsRoot(power, root, Wrap64(counter.counter - 1))
    ensures fresh(g) && fresh(g.zipfian) && g.basis == counter && Settled(g, Wrap64(counter.counter - 1))
    ensures g.zipfian.weight == weight && g.zipfian.power == power && g.zipfian.root == root
  {
    hide IsWeight, IsPower, IsRoot;
    g := new SkewedLatestGenerator(counter, weight, power, root, u, v);
  }

  /** However often it is asked, while the counter stays where it is. */
  method AskLatest(c: Config, weight: nat -> real, power: real -> real, root: real, u: real, v: real, us: seq<real>)
    returns (picks: seq<uint64>)
    requires c.recordCount >= 3 && IsWeight(weight) && IsPower(power) && IsRoot(power, root, LastInserted(c))
    requires 0.0 <= u < 1.0 && 0.0 <= v < 1.0 && forall i :: 0 <= i < |us| ==> 0.0 <= us[i] < 1.0
    ensures |picks| == |us|
    ensures forall i :: 0 <= i < |us| ==>
              && picks[i] == Answer(weight, power, root, LastInserted(c), us[i])
              && picks[i] in Answers(weight, power, root, LastInserted(c))
  {
    LastValue(c);
    hide IsWeight, IsPower, IsRoot, Answer, Settled;
    var counter := new Workload.CounterGenerator(Wrap64(c.recordCount));
    var g := NewLatest(counter, weight, power, root, u, v);
    picks := [];
    for i := 0 to |us|
      invariant Settled(g, LastInserted(c)) && fresh(g) && fresh(g.zipfian)
      invariant |picks| == i
      invariant forall j :: 0 <= j < i ==> picks[j] == Answer(weight, power, root, LastInserted(c), us[j])
    {
      var pick := AskOnce(g, LastInserted(c), us[i]);
      picks := picks + [pick];
    }
    forall i | 0 <= i < |us|
      ensures picks[i] in Answers(weight, power, root, LastInserted(c))
    {
      assert Answer(weight, power, root, LastInserted(c), us[i]) == picks[i];
    }
  }
}
