/**
 * The Zipfian generator and the generator skewed towards the latest records (core/zipfian_generator.h,
 * core/skewed_latest_generator.h), with doubles as reals.  The constant may be any below 1; with the default 0.99
 * the exponent alpha is exactly 100.
 */
module Zipfian {
  import opened MachineInts
  import opened Wrappers
  import Workload

  const MAX_NUM_ITEMS: uint64 := 0xFF_FFFF_FFFF

  function Pow(x: real, n: nat): real {
    if n == 0 then 1.0 else x * Pow(x, n - 1)
  }

  /** Multiplication under a name, so that a product is known by its factors. */
  function Times(x: real, y: real): real {
    x * y
  }

  lemma {:induction false} PowMonotone(x: real, y: real, n: nat)
    requires 0.0 <= x <= y
    ensures 0.0 <= Pow(x, n) <= Pow(y, n)
  {
    if n > 0 {
      PowMonotone(x, y, n - 1);
      Product(x, y, Pow(x, n - 1), Pow(y, n - 1));
    }
  }

  lemma Product(a: real, b: real, c: real, d: real)
    requires 0.0 <= a <= b && 0.0 <= c <= d
    ensures 0.0 <= a * c <= b * d
  {
    assert a * c <= b * c <= b * d;
  }

  lemma {:induction false} PowBelowOne(x: real, n: nat)
    requires 0.0 <= x < 1.0 && n > 0
    ensures 0.0 <= Pow(x, n) < 1.0
  {
    if n > 1 {
      PowBelowOne(x, n - 1);
      assert x * Pow(x, n - 1) <= x;
    }
  }

  lemma {:induction false} PowAboveOne(x: real, n: nat)
    requires 1.0 < x && n > 0
    ensures Pow(x, n) > 1.0
  {
    if n > 1 {
      PowAboveOne(x, n - 1);
      assert x * Pow(x, n - 1) > x;
    }
  }

  /** `power` stands for raising to alpha; all the generator needs is that it grows and is 1 at 1. */
  ghost predicate IsPower(power: real -> real) {
    && (forall x, y :: 0.0 <= x <= y ==> 0.0 <= power(x) <= power(y))
    && power(1.0) == 1.0
    && (forall x :: 0.0 <= x < 1.0 ==> power(x) < 1.0)
    && (forall x :: 1.0 < x ==> power(x) > 1.0)
  }

  const DEFAULT_ALPHA: nat := 100

  /** The exponent alpha, 1 / (1 - theta), for the default constant. */
  lemma DefaultAlpha()
    ensures 1.0 / (1.0 - 0.99) == DEFAULT_ALPHA as real
  {
  }

  /** Raising to the default alpha is such a function. */
  lemma DefaultPower()
    ensures IsPower(x => Pow(x, DEFAULT_ALPHA))
  {
    var power := x => Pow(x, DEFAULT_ALPHA);
    hide Pow;
    forall x, y | 0.0 <= x <= y
      ensures 0.0 <= power(x) <= power(y)
    {
      PowMonotone(x, y, DEFAULT_ALPHA);
    }
    PowOne(DEFAULT_ALPHA);
    forall x | 0.0 <= x < 1.0
      ensures power(x) < 1.0
    {
      PowBelowOne(x, DEFAULT_ALPHA);
    }
    forall x | 1.0 < x
      ensures power(x) > 1.0
    {
      PowAboveOne(x, DEFAULT_ALPHA);
    }
  }

  lemma {:induction false} PowOne(n: nat)
    ensures Pow(1.0, n) == 1.0
  {
    if n > 0 {
      PowOne(n - 1);
    }
  }

  ghost predicate CloseToOne(power: real -> real, bound: real) {
    exists x :: 0.0 <= x < 1.0 && power(x) >= bound
  }

  /** And where it is asked for, that it comes arbitrarily close to 1 below 1. */
  ghost predicate ReachesOne(power: real -> real) {
    forall bound :: bound < 1.0 ==> CloseToOne(power, bound)
  }

  lemma {:induction false} Bernoulli(d: real, n: nat)
    requires 0.0 <= d <= 1.0
    ensures Pow(1.0 - d, n) >= 1.0 - n as real * d
  {
    if n > 0 {
      Bernoulli(d, n - 1);
      PowMonotone(0.0, 1.0 - d, n - 1);
      BernoulliStep(d, n, Pow(1.0 - d, n - 1));
    }
  }

  lemma BernoulliStep(d: real, n: nat, p: real)
    requires 0.0 <= d <= 1.0 && n > 0 && p >= 1.0 - (n - 1) as real * d
    ensures (1.0 - d) * p >= 1.0 - n as real * d
  {
    var m := (n - 1) as real;
    Product(0.0, 1.0 - d, 0.0, p - (1.0 - m * d));
    assert (1.0 - d) * (p - (1.0 - m * d)) == (1.0 - d) * p - (1.0 - d) * (1.0 - m * d);
    assert (1.0 - d) * (1.0 - m * d) == 1.0 - (m + 1.0) * d + m * (d * d);
    Product(0.0, m, 0.0, d * d);
  }

  lemma DefaultReachesOne()
    ensures ReachesOne(x => Pow(x, DEFAULT_ALPHA))
  {
    var power := x => Pow(x, DEFAULT_ALPHA);
    hide Pow;
    forall bound | bound < 1.0
      ensures CloseToOne(power, bound)
    {
      var d := if bound < 0.0 then 0.01 else (1.0 - bound) / 100.0;
      Bernoulli(d, DEFAULT_ALPHA);
      assert power(1.0 - d) >= bound;
    }
  }

  /** `weight(i)` stands for 1 / i^theta; all the generator needs is that it is positive and 1 for the first item. */
  ghost predicate IsWeight(weight: nat -> real) {
    weight(1) == 1.0 && forall i: nat :: i >= 1 ==> weight(i) > 0.0
  }

  /** `root` stands for (2 / n)^(1 - theta), whose power alpha, 1 / (1 - theta), is 2 / n. */
  ghost predicate IsRoot(power: real -> real, root: real, n: uint64) {
    root >= 0.0 && n > 0 && power(root) == 2.0 / n as real
  }

  function ZetaSum(weight: nat -> real, n: nat): real {
    if n == 0 then 0.0 else ZetaSum(weight, n - 1) + weight(n)
  }

  lemma {:induction false} ZetaGrows(weight: nat -> real, m: nat, n: nat)
    requires IsWeight(weight) && m <= n
    ensures 0.0 <= ZetaSum(weight, m) <= ZetaSum(weight, n)
    ensures m < n ==> ZetaSum(weight, m) < ZetaSum(weight, n)
    ensures ZetaSum(weight, n + 1) - ZetaSum(weight, n) == weight(n + 1)
    decreases n
  {
    if m < n {
      ZetaGrows(weight, m, n - 1);
    } else if n > 0 {
      ZetaGrows(weight, m - 1, n - 1);
    }
  }

  /** Eta(); none is the not-a-number that 0 / 0 gives while only two items have been summed. */
  function EtaOf(root: real, zeta2: real, zetaN: real): Option<real>
    requires zetaN != 0.0
  {
    if zetaN == zeta2 then None else Some((1.0 - root) / (1.0 - zeta2 / zetaN))
  }

  /** The base of the power in the third branch. */
  function Curve(eta: real, u: real): real {
    eta * u - eta + 1.0
  }

  lemma RootBelowOne(power: real -> real, root: real, n: uint64)
    requires IsPower(power) && IsRoot(power, root, n) && n >= 2
    ensures n > 2 ==> root < 1.0
    ensures n == 2 ==> root == 1.0
  {
    assert n > 2 ==> 2.0 / n as real < 1.0;
  }

  /** Past the first two branches the curve lies between the root and 1. */
  lemma CurveBounds(root: real, zeta2: real, zetaN: real, u: real)
    requires 0.0 <= root <= 1.0 && 0.0 < zeta2 < zetaN && 0.0 <= u < 1.0
    requires Times(u, zetaN) >= zeta2
    ensures EtaOf(root, zeta2, zetaN).Some?
    ensures var y := Curve(EtaOf(root, zeta2, zetaN).value, u);
            root <= y <= 1.0 && (root < 1.0 ==> y < 1.0) && (root == 1.0 ==> y == 1.0)
  {
    var ratio := zeta2 / zetaN;
    var room := 1.0 - ratio;
    assert ratio * zetaN == zeta2;
    RatioBounds(ratio, zeta2, zetaN, u);
    var eta := (1.0 - root) / room;
    assert eta * room == 1.0 - root;
    Scaled(eta, root, room, 1.0 - u);
    assert Curve(eta, u) == 1.0 - eta * (1.0 - u);
  }

  lemma PositiveFactor(a: real, b: real)
    requires a * b > 0.0 && b > 0.0
    ensures a > 0.0
  {
  }

  lemma NonNegativeFactor(a: real, b: real)
    requires a * b >= 0.0 && b > 0.0
    ensures a >= 0.0
  {
  }

  lemma RatioBounds(ratio: real, zeta2: real, zetaN: real, u: real)
    requires 0.0 < zeta2 < zetaN && ratio * zetaN == zeta2 && Times(u, zetaN) >= zeta2
    ensures ratio < 1.0 && u >= ratio
  {
    assert (1.0 - ratio) * zetaN == zetaN - zeta2;
    PositiveFactor(1.0 - ratio, zetaN);
    assert (u - ratio) * zetaN == u * zetaN - zeta2;
    NonNegativeFactor(u - ratio, zetaN);
  }

  lemma Scaled(eta: real, root: real, room: real, rest: real)
    requires eta * room == 1.0 - root && 0.0 < rest <= room && 0.0 <= root <= 1.0
    ensures 0.0 <= eta * rest <= 1.0 - root
    ensures root < 1.0 ==> eta * rest > 0.0
  {
    assert eta >= 0.0;
    assert eta * rest <= eta * room;
  }

  /** The offset the third branch adds to the base. */
  function Offset(power: real -> real, num: uint64, y: real): int {
    Times(num as real, power(y)).Floor
  }

  /**
   * With at least three items the third branch leaves out the two items of the other branches and stays below `num`;
   * for a `num` smaller than the number of items it still stays below `num`.  With only two items it overruns.
   */
  predicate OffsetOk(n: uint64, num: uint64, offset: int) {
    if n == 2 then offset == num else 0 <= offset < num && (num >= n ==> 2 <= offset)
  }

  lemma OffsetBounds(power: real -> real, n: uint64, num: uint64, root: real, y: real)
    requires IsPower(power) && IsRoot(power, root, n) && n >= 2 && num >= 2
    requires root <= y <= 1.0 && (root < 1.0 ==> y < 1.0) && (root == 1.0 ==> y == 1.0)
    ensures OffsetOk(n, num, Offset(power, num, y))
  {
    RootBelowOne(power, root, n);
    if n >= 3 {
      assert power(root) <= power(y) < 1.0;
      Stretched(n, num, power(y));
    } else {
      assert power(y) == 1.0 && Times(num as real, 1.0) == num as real;
    }
  }

  lemma Stretched(n: uint64, num: uint64, p: real)
    requires n >= 3 && num >= 2 && 2.0 / n as real <= p < 1.0
    ensures 0 <= Times(num as real, p).Floor < num
    ensures num >= n ==> Times(num as real, p).Floor >= 2
  {
    StretchedReal(n as real, num as real, p);
    FloorBounds(Times(num as real, p), num);
  }

  lemma StretchedReal(n: real, num: real, p: real)
    requires n > 0.0 && num > 0.0 && 2.0 / n <= p < 1.0
    ensures 0.0 <= Times(num, p) < num
    ensures num >= n ==> Times(num, p) >= 2.0
  {
    Quotient2(n);
    UnitBelow(p, num);
    if num >= n {
      Product(2.0 / n, p, n, num);
    }
  }

  lemma Quotient2(n: real)
    requires n > 0.0
    ensures 2.0 / n > 0.0 && 2.0 / n * n == 2.0
  {
  }

  lemma UnitBelow(u: real, z: real)
    requires 0.0 <= u < 1.0 && z > 0.0
    ensures 0.0 <= Times(u, z) < z && Times(z, u) == Times(u, z)
  {
    assert z * (1.0 - u) > 0.0;
  }

  lemma Quotient(a: real, b: real)
    requires 0.0 <= a < b
    ensures 0.0 <= a / b < 1.0 && a / b * b == a
  {
    assert a / b * b == a;
    NonNegativeFactor(a / b, b);
    PositiveFactor(1.0 - a / b, b) by {
      assert (1.0 - a / b) * b == b - a;
    }
  }

  lemma FloorBounds(x: real, n: int)
    requires 0.0 <= x < n as real
    ensures 0 <= x.Floor < n
    ensures x >= 2.0 ==> x.Floor >= 2
  {
  }

  class ZipfianGenerator {
    const numItems: uint64
    const base: uint64
    const weight: nat -> real
    const power: real -> real
    const root: real
    const zeta2: real
    var zetaN: real
    var eta: Option<real>
    var nForZeta: uint64
    var lastValue: uint64

    /** The running sum is always the one computed from scratch. */
    ghost predicate Valid()
      reads this
    {
      && IsWeight(weight) && IsPower(power) && 2 <= numItems < MAX_NUM_ITEMS && IsRoot(power, root, numItems)
      && zeta2 == ZetaSum(weight, 2)
      && numItems <= nForZeta < MAX_NUM_ITEMS
      && zetaN == ZetaSum(weight, nForZeta) && zetaN > 0.0
      && eta == EtaOf(root, zeta2, zetaN)
    }

    constructor (min: uint64, max: uint64, weight: nat -> real, power: real -> real, root: real, u: real)
      requires IsWeight(weight) && IsPower(power) && IsRoot(power, root, Wrap64(max - min + 1)) && 0.0 <= u < 1.0
      requires 2 <= Wrap64(max - min + 1) < MAX_NUM_ITEMS
      ensures Valid() && numItems == nForZeta == Wrap64(max - min + 1) && base == min
      ensures this.weight == weight && this.power == power && this.root == root
    {
      this.numItems := Wrap64(max - min + 1);
      this.base := min;
      this.weight := weight;
      this.power := power;
      this.root := root;
      var two := Zeta(0, 2, weight, 0.0);
      this.zeta2 := two;
      var all := Zeta(0, Wrap64(max - min + 1), weight, 0.0);
      ZetaGrows(weight, 0, 2);
      ZetaGrows(weight, 2, Wrap64(max - min + 1));
      ZetaGrows(weight, 0, 1);
      this.zetaN := all;
      this.nForZeta := Wrap64(max - min + 1);
      this.eta := EtaOf(root, two, all);
      new;
      var first := Next(numItems, u);
    }

    /** The sum from `lastNum` on, added to what has been summed already. */
    static method Zeta(lastNum: nat, curNum: nat, weight: nat -> real, lastZeta: real) returns (zeta: real)
      requires lastNum <= curNum && lastZeta == ZetaSum(weight, lastNum)
      ensures zeta == ZetaSum(weight, curNum)
    {
      zeta := lastZeta;
      for i := lastNum + 1 to curNum + 1
        invariant zeta == ZetaSum(weight, i - 1)
      {
        zeta := zeta + weight(i);
      }
    }

    method RaiseZeta(num: uint64)
      requires Valid() && nForZeta <= num < MAX_NUM_ITEMS
      modifies this`zetaN, this`nForZeta
      ensures zetaN == ZetaSum(weight, num) && nForZeta == num && zetaN > 0.0
    {
      zetaN := Zeta(nForZeta, num, weight, zetaN);
      nForZeta := num;
      ZetaGrows(weight, 0, num);
    }

    /** Draws with the random number `u`.  The 0 and the 1 of the first two branches ignore the base. */
    method Next(num: uint64, u: real) returns (r: uint64)
      requires Valid() && 2 <= num < MAX_NUM_ITEMS && 0.0 <= u < 1.0
      modifies this`zetaN, this`nForZeta, this`eta, this`lastValue
      ensures Valid() && lastValue == r
      ensures nForZeta == if num > old(nForZeta) then num else old(nForZeta)
      ensures r == Drawn(weight, power, root, base, nForZeta, num, u)
      ensures Times(u, zetaN) < 1.0 ==> r == 0
      ensures 1.0 <= Times(u, zetaN) < zeta2 ==> r == 1
      ensures Times(u, zetaN) >= zeta2 ==> eta.Some? && r == Wrap64(base + Offset(power, num, Curve(eta.value, u)))
      ensures Times(u, zetaN) >= zeta2 ==> eta.Some? && OffsetOk(numItems, num, Offset(power, num, Curve(eta.value, u)))
      ensures base == 0 && (numItems >= 3 || nForZeta == 2) ==> r < num
    {
      hide IsWeight, IsPower, IsRoot, Curve, Offset, OffsetOk, EtaOf, Times, ZetaSum, Drawn;
      if num > nForZeta {
        RaiseZeta(num);
        eta := EtaOf(root, zeta2, zetaN);
      }
      FirstTwo(weight);
      DrawnIs(weight, power, root, base, nForZeta, num, u);
      var uz := Times(u, zetaN);
      if uz < 1.0 {
        lastValue := 0;
        return 0;
      }
      if uz < 1.0 + weight(2) {
        lastValue := 1;
        return 1;
      }
      UnitBelow(u, zetaN);
      ThirdBranch(weight, power, numItems, nForZeta, root, num, u);
      FromZero(numItems, num, Offset(power, num, Curve(eta.value, u)));
      lastValue := Wrap64(base + Offset(power, num, Curve(eta.value, u)));
      return lastValue;
    }
  }

  lemma FromZero(n: uint64, num: uint64, offset: int)
    requires OffsetOk(n, num, offset)
    ensures n >= 3 ==> Wrap64(0 + offset) < num
  {
  }

  lemma DrawnIs(weight: nat -> real, power: real -> real, root: real, base: uint64, summed: nat, num: uint64, u: real)
    requires ZetaSum(weight, summed) > 0.0
    ensures var r, z := Drawn(weight, power, root, base, summed, num, u), Times(u, ZetaSum(weight, summed));
            var eta := EtaOf(root, ZetaSum(weight, 2), ZetaSum(weight, summed));
            && (z < 1.0 ==> r == 0)
            && (1.0 <= z < ZetaSum(weight, 2) ==> r == 1)
            && (z >= 1.0 && z >= ZetaSum(weight, 2) && eta.Some? ==>
                  r == Wrap64(base + Offset(power, num, Curve(eta.value, u))))
  {
    hide ZetaSum, EtaOf, Offset, Curve, Times;
  }

  /** What a random number draws, once items up to `summed` have been summed. */
  function Drawn(weight: nat -> real, power: real -> real, root: real, base: uint64, summed: nat, num: uint64, u: real)
    : uint64
  {
    var zeta2, zetaN := ZetaSum(weight, 2), ZetaSum(weight, summed);
    if Times(u, zetaN) < 1.0 then 0
    else if Times(u, zetaN) < zeta2 then 1
    else if zetaN == 0.0 || EtaOf(root, zeta2, zetaN).None? then 0
    else Wrap64(base + Offset(power, num, Curve(EtaOf(root, zeta2, zetaN).value, u)))
  }

  lemma ThirdBranch(weight: nat -> real, power: real -> real, n: uint64, summed: nat, root: real, num: uint64, u: real)
    requires IsWeight(weight) && IsPower(power) && IsRoot(power, root, n) && 2 <= n <= summed && num >= 2
    requires 0.0 <= u < 1.0
    requires Times(u, ZetaSum(weight, summed)) >= ZetaSum(weight, 2) && ZetaSum(weight, summed) > 0.0
    ensures EtaOf(root, ZetaSum(weight, 2), ZetaSum(weight, summed)).Some?
    ensures OffsetOk(n, num,
                     Offset(power, num, Curve(EtaOf(root, ZetaSum(weight, 2), ZetaSum(weight, summed)).value, u)))
  {
    hide IsPower, IsRoot, ZetaSum, Curve, Offset, EtaOf, OffsetOk;
    var zeta2, zetaN := ZetaSum(weight, 2), ZetaSum(weight, summed);
    ZetaGrows(weight, 1, 2);
    ZetaGrows(weight, 2, summed);
    RootBelowOne(power, root, n);
    RootNotNegative(power, root, n);
    UnitBelow(u, zetaN);
    assert zeta2 < zetaN;
    CurveBounds(root, zeta2, zetaN, u);
    OffsetBounds(power, n, num, root, Curve(EtaOf(root, zeta2, zetaN).value, u));
  }

  /** The curve is the straight line from the root, where the third branch begins, to 1. */
  lemma CurveEnds(root: real, zeta2: real, zetaN: real, u: real, v: real)
    requires 0.0 < zeta2 < zetaN
    ensures EtaOf(root, zeta2, zetaN).Some?
    ensures var eta := EtaOf(root, zeta2, zetaN).value;
            && Curve(eta, zeta2 / zetaN) == root && Curve(eta, 1.0) == 1.0
            && Curve(eta, v) - Curve(eta, u) == Times(eta, v - u)
  {
    Quotient(zeta2, zetaN);
    var ratio := zeta2 / zetaN;
    var eta := (1.0 - root) / (1.0 - ratio);
    assert eta * (1.0 - ratio) == 1.0 - root;
    assert Curve(eta, ratio) == 1.0 - eta * (1.0 - ratio);
  }

  lemma ScalesUp(a: real, b: real, x: real)
    requires a <= b && x >= 0.0
    ensures Times(a, x) <= Times(b, x) && Times(x, a) <= Times(x, b)
  {
    Product(0.0, b - a, 0.0, x);
    assert (b - a) * x == b * x - a * x;
  }

  lemma FloorGrows(x: real, y: real)
    requires x <= y
    ensures x.Floor <= y.Floor
  {
  }

  lemma OffsetGrows(power: real -> real, num: uint64, y: real, z: real)
    requires IsPower(power) && 0.0 <= y <= z
    ensures Offset(power, num, y) <= Offset(power, num, z)
  {
    ScalesUp(power(y), power(z), num as real);
    FloorGrows(Times(num as real, power(y)), Times(num as real, power(z)));
  }

  /** The larger the random number, the less popular the item: no larger one draws an earlier item. */
  lemma DrawnGrows(weight: nat -> real, power: real -> real, n: uint64, summed: nat, root: real, num: uint64, u: real,
                   v: real)
    requires IsWeight(weight) && IsPower(power) && IsRoot(power, root, n) && 3 <= n <= summed && num >= n
    requires 0.0 <= u <= v < 1.0
    ensures Drawn(weight, power, root, 0, summed, num, u) <= Drawn(weight, power, root, 0, summed, num, v) < num
  {
    hide IsPower, IsRoot, ZetaSum, Curve, Offset, EtaOf, Drawn;
    var zeta2, zetaN := ZetaSum(weight, 2), ZetaSum(weight, summed);
    ZetaGrows(weight, 0, 2);
    ZetaGrows(weight, 2, summed);
    FirstTwo(weight);
    ScalesUp(u, v, zetaN);
    DrawnIs(weight, power, root, 0, summed, num, u);
    DrawnIs(weight, power, root, 0, summed, num, v);
    if Times(v, zetaN) >= zeta2 {
      ThirdBranch(weight, power, n, summed, root, num, v);
      if Times(u, zetaN) >= zeta2 {
        ThirdBranch(weight, power, n, summed, root, num, u);
        var eta := EtaOf(root, zeta2, zetaN).value;
        CurveGrows(power, n, root, zeta2, zetaN, u, v);
        OffsetGrows(power, num, Curve(eta, u), Curve(eta, v));
      }
    }
  }

  lemma CurveGrows(power: real -> real, n: uint64, root: real, zeta2: real, zetaN: real, u: real, v: real)
    requires IsPower(power) && IsRoot(power, root, n) && n >= 2 && 0.0 < zeta2 < zetaN
    requires 0.0 <= u <= v < 1.0 && Times(u, zetaN) >= zeta2
    ensures EtaOf(root, zeta2, zetaN).Some?
    ensures var eta := EtaOf(root, zeta2, zetaN).value; 0.0 <= Curve(eta, u) <= Curve(eta, v)
  {
    RootBelowOne(power, root, n);
    RootNotNegative(power, root, n);
    hide IsPower, IsRoot, Curve, EtaOf;
    CurveBounds(root, zeta2, zetaN, u);
    CurveEnds(root, zeta2, zetaN, u, v);
    SlopeNotNegative(root, zeta2, zetaN);
    ScalesUp(0.0, v - u, EtaOf(root, zeta2, zetaN).value);
  }

  lemma SlopeNotNegative(root: real, zeta2: real, zetaN: real)
    requires 0.0 < zeta2 < zetaN && root <= 1.0
    ensures EtaOf(root, zeta2, zetaN).Some? && EtaOf(root, zeta2, zetaN).value >= 0.0
  {
    Quotient(zeta2, zetaN);
    var room := 1.0 - zeta2 / zetaN;
    assert (1.0 - root) / room * room == 1.0 - root;
    NonNegativeFactor((1.0 - root) / room, room);
  }

  lemma RootNotNegative(power: real -> real, root: real, n: uint64)
    requires IsRoot(power, root, n)
    ensures root >= 0.0
  {
  }

  /** With three items or more summed, some random number reaches the third branch. */
  lemma ThirdBranchReached(weight: nat -> real, num: uint64) returns (u: real)
    requires IsWeight(weight) && num >= 3
    ensures 0.0 <= u < 1.0 && Times(u, ZetaSum(weight, num)) >= ZetaSum(weight, 2)
  {
    ZetaGrows(weight, 1, 2);
    ZetaGrows(weight, 2, num);
    Quotient(ZetaSum(weight, 2), ZetaSum(weight, num));
    u := ZetaSum(weight, 2) / ZetaSum(weight, num);
  }

  /** The third branch is taken, and what it adds to the base is below `num`. */
  ghost predicate StaysBelow(weight: nat -> real, power: real -> real, summed: nat, root: real, num: uint64, u: real)
    requires ZetaSum(weight, summed) != 0.0
  {
    var eta := EtaOf(root, ZetaSum(weight, 2), ZetaSum(weight, summed));
    eta.Some? && 0 <= Offset(power, num, Curve(eta.value, u)) < num
  }

  /**
   * Exactly when a generator for two items has been asked for more at some time, a random number can take the third
   * branch out of bounds.
   */
  lemma OverrunsExactly(weight: nat -> real, power: real -> real, n: uint64, summed: uint64, root: real, num: uint64)
    requires IsWeight(weight) && IsPower(power) && IsRoot(power, root, n) && 2 <= n <= summed && num >= 2
    ensures ZetaSum(weight, summed) > 0.0
    ensures (forall u :: 0.0 <= u < 1.0 && Times(u, ZetaSum(weight, summed)) >= ZetaSum(weight, 2) ==>
                           StaysBelow(weight, power, summed, root, num, u))
            <==> n >= 3 || summed == 2
  {
    hide IsPower, IsRoot, ZetaSum, Curve, Offset, EtaOf;
    ZetaGrows(weight, 0, 2);
    ZetaGrows(weight, 2, summed);
    forall u | 0.0 <= u < 1.0 && Times(u, ZetaSum(weight, summed)) >= ZetaSum(weight, 2)
      ensures StaysBelow(weight, power, summed, root, num, u) <==> n >= 3
      ensures summed > 2
    {
      UnitBelow(u, ZetaSum(weight, summed));
      ThirdBranch(weight, power, n, summed, root, num, u);
    }
    if n == 2 && summed > 2 {
      var u := ThirdBranchReached(weight, summed);
    }
  }

  ghost predicate InRange(weight: nat -> real, power: real -> real, root: real, base: uint64, summed: nat, num: uint64,
                          u: real) {
    base <= Drawn(weight, power, root, base, summed, num, u) < base + num
  }

  /**
   * The results are the `num` numbers from the base on exactly if the base is 0, and a generator for two items has not
   * been raised: with any other base the first two branches leave the range.
   */
  lemma InRangeExactly(weight: nat -> real, power: real -> real, n: uint64, summed: uint64, root: real, base: uint64,
                       num: uint64)
    requires IsWeight(weight) && IsPower(power) && IsRoot(power, root, n) && 2 <= n <= summed && num >= 2
    ensures (forall u :: 0.0 <= u < 1.0 ==> InRange(weight, power, root, base, summed, num, u))
            <==> base == 0 && (n >= 3 || summed == 2)
  {
    hide IsPower, IsRoot, ZetaSum;
    ZetaGrows(weight, 0, 2);
    ZetaGrows(weight, 2, summed);
    if base != 0 {
      assert Times(0.0, ZetaSum(weight, summed)) == 0.0;
      assert !InRange(weight, power, root, base, summed, num, 0.0);
    } else {
      forall u | 0.0 <= u < 1.0
        ensures InRange(weight, power, root, 0, summed, num, u)
                <==> Times(u, ZetaSum(weight, summed)) < ZetaSum(weight, 2) || n >= 3
      {
        DrawnFromZero(weight, power, n, summed, root, num, u);
      }
      if n == 2 && summed > 2 {
        var u := ThirdBranchReached(weight, summed);
        assert !InRange(weight, power, root, 0, summed, num, u);
      }
      if n == 2 && summed == 2 {
        forall u | 0.0 <= u < 1.0
          ensures Times(u, ZetaSum(weight, summed)) < ZetaSum(weight, 2)
        {
          UnitBelow(u, ZetaSum(weight, summed));
        }
      }
    }
  }

  lemma DrawnFromZero(weight: nat -> real, power: real -> real, n: uint64, summed: uint64, root: real, num: uint64,
                      u: real)
    requires IsWeight(weight) && IsPower(power) && IsRoot(power, root, n) && 2 <= n <= summed && num >= 2
    requires 0.0 <= u < 1.0 && ZetaSum(weight, summed) > 0.0
    ensures InRange(weight, power, root, 0, summed, num, u)
            <==> Times(u, ZetaSum(weight, summed)) < ZetaSum(weight, 2) || n >= 3
  {
    hide IsPower, IsRoot, ZetaSum, Curve, Offset, EtaOf;
    if Times(u, ZetaSum(weight, summed)) >= ZetaSum(weight, 2) {
      FirstTwo(weight);
      ThirdBranch(weight, power, n, summed, root, num, u);
    }
  }

  lemma FirstTwo(weight: nat -> real)
    requires IsWeight(weight)
    ensures ZetaSum(weight, 2) == 1.0 + weight(2) > 1.0
  {
    assert ZetaSum(weight, 1) == 1.0;
  }

  lemma BehindNewest(n: uint64, max: uint64, offset: int)
    requires OffsetOk(n, max, offset) && n >= 3
    ensures Wrap64(max - Wrap64(0 + offset)) == max - offset >= 1
    ensures max >= n ==> max - offset <= max - 2
  {
  }

  class SkewedLatestGenerator {
    const basis: Workload.CounterGenerator
    const zipfian: ZipfianGenerator
    var last: uint64

    ghost predicate Valid()
      reads this, zipfian
    {
      zipfian.Valid() && zipfian.base == 0
    }

    constructor (counter: Workload.CounterGenerator, weight: nat -> real, power: real -> real, root: real, u: real,
                 v: real)
      requires 2 <= Wrap64(counter.counter - 1) < MAX_NUM_ITEMS
      requires IsWeight(weight) && IsPower(power) && IsRoot(power, root, Wrap64(counter.counter - 1))
      requires 0.0 <= u < 1.0 && 0.0 <= v < 1.0
      ensures Valid() && basis == counter && fresh(zipfian)
      ensures zipfian.numItems == zipfian.nForZeta == Wrap64(counter.counter - 1)
      ensures zipfian.weight == weight && zipfian.power == power && zipfian.root == root
    {
      hide ZetaSum, Curve, Offset, EtaOf, OffsetOk, Times, IsPower, IsRoot, Drawn;
      basis := counter;
      var n := counter.Last();
      zipfian := new ZipfianGenerator(0, n - 1, weight, power, root, u);
      new;
      var first := Next(v);
    }

    /**
     * The newest record minus a Zipfian draw, so the newest records are the popular ones: random numbers small enough give
     * the newest, the next ones the one before, and all others an older one, down to record 1.
     */
    method Next(u: real) returns (r: uint64)
      requires Valid() && 2 <= Wrap64(basis.counter - 1) < MAX_NUM_ITEMS && 0.0 <= u < 1.0
      modifies this`last, zipfian
      ensures Valid() && last == r
      ensures var max := Wrap64(basis.counter - 1);
              zipfian.nForZeta == if max > old(zipfian.nForZeta) then max else old(zipfian.nForZeta)
      ensures Times(u, zipfian.zetaN) < 1.0 ==> r == Wrap64(basis.counter - 1)
      ensures 1.0 <= Times(u, zipfian.zetaN) < zipfian.zeta2 ==> r == Wrap64(basis.counter - 1) - 1
      ensures var max := Wrap64(basis.counter - 1);
              Times(u, zipfian.zetaN) >= zipfian.zeta2 && zipfian.numItems >= 3 ==>
                && zipfian.eta.Some?
                && r == max - Offset(zipfian.power, max, Curve(zipfian.eta.value, u))
                && (max >= zipfian.numItems ==> r <= max - 2)
      ensures zipfian.numItems >= 3 || zipfian.nForZeta == 2 ==> 1 <= r <= Wrap64(basis.counter - 1)
      ensures var max := Wrap64(basis.counter - 1);
              r == Wrap64(max - Drawn(zipfian.weight, zipfian.power, zipfian.root, 0, zipfian.nForZeta, max, u))
    {
      hide ZetaSum, Curve, Offset, OffsetOk, EtaOf, Times, IsPower, IsRoot, IsWeight, Drawn;
      var max := basis.Last();
      var z := zipfian.Next(max, u);
      if Times(u, zipfian.zetaN) >= zipfian.zeta2 && zipfian.numItems >= 3 {
        BehindNewest(zipfian.numItems, max, Offset(zipfian.power, max, Curve(zipfian.eta.value, u)));
      }
      last := Wrap64(max as int - z as int);
      return last;
    }
  }
}
