/** The weighted choice of operations (core/discrete_generator.h), with doubles as reals. */
module Discrete {
  import opened Wrappers

  function WeightSum<V>(values: seq<(V, real)>, n: nat): real
    requires n <= |values|
  {
    if n == 0 then 0.0 else WeightSum(values, n - 1) + values[n - 1].1
  }

  ghost predicate PositiveWeights<V>(values: seq<(V, real)>) {
    forall i :: 0 <= i < |values| ==> values[i].1 > 0.0
  }

  /** The share of the unit interval that lies before value `n`. */
  function Boundary<V>(values: seq<(V, real)>, n: nat): real
    requires n <= |values| && WeightSum(values, |values|) != 0.0
  {
    WeightSum(values, n) / WeightSum(values, |values|)
  }

  lemma {:induction false} WeightSumGrows<V>(values: seq<(V, real)>, m: nat, n: nat)
    requires PositiveWeights(values) && m <= n <= |values|
    ensures 0.0 <= WeightSum(values, m) <= WeightSum(values, n)
    ensures m < n ==> WeightSum(values, m) < WeightSum(values, n)
    decreases n
  {
    if m < n {
      WeightSumGrows(values, m, n - 1);
    } else if n > 0 {
      WeightSumGrows(values, m - 1, n - 1);
    }
  }

  lemma {:induction false} WeightSumPrefix<V>(values: seq<(V, real)>, v: (V, real), n: nat)
    requires n <= |values|
    ensures WeightSum(values + [v], n) == WeightSum(values, n)
  {
    if n > 0 {
      WeightSumPrefix(values, v, n - 1);
    }
  }

  lemma Divided(a: real, b: real, s: real)
    requires s > 0.0
    ensures (a + b) / s == a / s + b / s
    ensures a < b ==> a / s < b / s
    ensures s / s == 1.0 && 0.0 / s == 0.0
  {
    var q, r := a / s, b / s;
    assert q * s == a && r * s == b;
    assert (q + r) * s == a + b;
    if a < b {
      Positive(r - q, s);
    }
  }

  lemma Positive(d: real, s: real)
    requires d * s > 0.0 && s > 0.0
    ensures d > 0.0
  {
  }

  /** The boundaries cut the unit interval into one stretch per value, each as long as the value's share. */
  lemma Partition<V>(values: seq<(V, real)>, i: nat)
    requires PositiveWeights(values) && i < |values|
    ensures WeightSum(values, |values|) > 0.0
    ensures Boundary(values, 0) == 0.0 && Boundary(values, |values|) == 1.0
    ensures Boundary(values, i + 1) == Boundary(values, i) + values[i].1 / WeightSum(values, |values|)
    ensures Boundary(values, i) < Boundary(values, i + 1)
  {
    var s := WeightSum(values, |values|);
    WeightSumGrows(values, 0, |values|);
    WeightSumGrows(values, i, i + 1);
    Divided(WeightSum(values, i), values[i].1, s);
    Divided(WeightSum(values, i), WeightSum(values, i + 1), s);
  }

  ghost predicate Selects<V>(values: seq<(V, real)>, chooser: real, i: nat)
    requires WeightSum(values, |values|) != 0.0
  {
    i < |values| && Boundary(values, i) <= chooser < Boundary(values, i + 1)
  }

  lemma BoundaryGrows<V>(values: seq<(V, real)>, m: nat, n: nat)
    requires PositiveWeights(values) && m <= n <= |values| && WeightSum(values, |values|) > 0.0
    ensures Boundary(values, m) <= Boundary(values, n)
  {
    if m < n {
      WeightSumGrows(values, m, n);
      Divided(WeightSum(values, m), WeightSum(values, n), WeightSum(values, |values|));
    }
  }

  /** No chooser lies in two stretches, so the value drawn is the one whose stretch holds the chooser. */
  lemma SelectionUnique<V>(values: seq<(V, real)>, chooser: real, i: nat, j: nat)
    requires PositiveWeights(values) && WeightSum(values, |values|) > 0.0
    requires Selects(values, chooser, i) && Selects(values, chooser, j)
    ensures i == j
  {
    if i < j {
      BoundaryGrows(values, i + 1, j);
    } else if j < i {
      BoundaryGrows(values, j + 1, i);
    }
  }

  class DiscreteGenerator<V> {
    var values: seq<(V, real)>
    var sum: real
    var last: Option<V>

    ghost predicate Valid()
      reads this
    {
      PositiveWeights(values) && sum == WeightSum(values, |values|)
    }

    constructor ()
      ensures Valid() && values == []
    {
      values := [];
      sum := 0.0;
      last := None;
    }

    method AddValue(value: V, weight: real)
      requires Valid() && weight > 0.0
      modifies this
      ensures Valid() && values == old(values) + [(value, weight)]
      ensures last == if old(values) == [] then Some(value) else old(last)
    {
      if values == [] {
        last := Some(value);
      }
      WeightSumPrefix(values, (value, weight), |values|);
      values := values + [(value, weight)];
      sum := sum + weight;
    }

    /** Draws the value in whose stretch of the unit interval the random number lies; the loop never runs off the end. */
    method Next(random: real) returns (value: V)
      requires Valid() && values != [] && 0.0 <= random < 1.0
      modifies this`last
      ensures last == Some(value)
      ensures sum > 0.0 && exists i: nat :: Selects(values, random, i) && values[i].0 == value
    {
      value := values[0].0;
      var chooser := random;
      Partition(values, 0);
      for i := 0 to |values|
        invariant chooser == random - Boundary(values, i) && chooser >= 0.0
      {
        Partition(values, i);
        if chooser < values[i].1 / sum {
          last := Some(values[i].0);
          assert Selects(values, random, i);
          return values[i].0;
        }
        chooser := chooser - values[i].1 / sum;
      }
      assert false;
    }
  }
}
