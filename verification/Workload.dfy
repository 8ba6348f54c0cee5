/** The shared counters and the key functions of the workload (core/counter_generator.h, core/core_workload.h). */
module Workload {
  import opened MachineInts
  import opened Wrappers
  import opened KeyNames

  /** An atomic counter: each method is one atomic access. */
  class CounterGenerator {
    var counter: uint64

    constructor (start: uint64)
      ensures counter == start
    {
      counter := start;
    }

    method Next() returns (r: uint64)
      modifies this
      ensures r == old(counter) && counter == Wrap64(old(counter) + 1)
    {
      r := counter;
      counter := Wrap64(counter + 1);
    }

    method Last() returns (r: uint64)
      ensures r == Wrap64(counter - 1)
    {
      r := Wrap64(counter - 1);
    }

    method Set(start: uint64)
      modifies this
      ensures counter == start
    {
      counter := start;
    }
  }

  class CoreWorkload {
    const keyGenerator: CounterGenerator
    const insertKeySequence: CounterGenerator
    const orderedInserts: bool
    const zeroPadding: int32

    ghost predicate Valid() {
      keyGenerator != insertKeySequence
    }

    /** The part of the initialisation that wires the counters: inserts draw from one, picks are limited by the other. */
    constructor Init(insertStart: int32, recordCount: int32, orderedInserts: bool, zeroPadding: int32)
      ensures Valid() && fresh(keyGenerator) && fresh(insertKeySequence)
      ensures keyGenerator.counter == Wrap64(insertStart) && insertKeySequence.counter == Wrap64(recordCount)
      ensures this.orderedInserts == orderedInserts && this.zeroPadding == zeroPadding
    {
      keyGenerator := new CounterGenerator(Wrap64(insertStart));
      insertKeySequence := new CounterGenerator(3);
      this.orderedInserts := orderedInserts;
      this.zeroPadding := zeroPadding;
      new;
      insertKeySequence.Set(Wrap64(recordCount));
    }

    method NextSequenceKey() returns (key: string)
      requires Valid()
      modifies keyGenerator
      ensures key == KeyName(orderedInserts, zeroPadding, old(keyGenerator.counter))
      ensures keyGenerator.counter == Wrap64(old(keyGenerator.counter) + 1)
    {
      var keyNum := keyGenerator.Next();
      key := KeyName(orderedInserts, zeroPadding, keyNum);
    }

    /**
     * Rejects picks until one does not exceed the last inserted number.  `picks` is what the key chooser would answer;
     * `tries` is how many picks were taken, and no key comes out when all of them are rejected.
     */
    method NextTransactionKey(picks: seq<uint64>) returns (key: Option<string>, tries: nat)
      ensures key.None? ==>
                tries == |picks| && forall i :: 0 <= i < |picks| ==> picks[i] > Wrap64(insertKeySequence.counter - 1)
      ensures key.Some? ==>
                && 0 < tries <= |picks|
                && picks[tries - 1] <= Wrap64(insertKeySequence.counter - 1)
                && (forall i :: 0 <= i < tries - 1 ==> picks[i] > Wrap64(insertKeySequence.counter - 1))
                && key.value == KeyName(orderedInserts, zeroPadding, picks[tries - 1])
    {
      tries := 0;
      while tries < |picks|
        invariant tries <= |picks|
        invariant forall i :: 0 <= i < tries ==> picks[i] > Wrap64(insertKeySequence.counter - 1)
      {
        var keyNum := picks[tries];
        tries := tries + 1;
        var last := insertKeySequence.Last();
        if keyNum <= last {
          return Some(KeyName(orderedInserts, zeroPadding, keyNum)), tries;
        }
      }
      key := None;
    }
  }
}
