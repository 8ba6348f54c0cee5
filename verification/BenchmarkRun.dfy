/**
 * A whole benchmark run: worker threads that load records and then perform transactions, interleaved at every
 * atomic access to the key counter (ycsbc-l4.cc, core/client.h, core/core_workload.h).
 */
module BenchmarkRun {
  import opened MachineInts
  import opened KeyNames

  datatype Config = Config(insertStart: int32, recordCount: int32, operationCount: int32, threads: int32,
                           ordered: bool, zeroPadding: int32)

  /** Ready for its next operation, or between the fetch-and-add and the insert that uses the number drawn. */
  datatype Pc = Ready | Drawn(keyNum: uint64)

  datatype Worker = Worker(left: nat, pc: Pc)

  /**
   * `issued` lists the key numbers handed to Insert, `loaded` counts those of the load phase, `used` lists the key
   * numbers that reads, scans and updates used, and `drawn` counts the fetch-and-adds so far.
   */
  datatype State = State(loading: bool, workers: seq<Worker>, counter: uint64, drawn: nat,
                         issued: seq<uint64>, loaded: nat, used: seq<uint64>)

  datatype Step = Draw(w: nat) | Issue(w: nat) | Pick(w: nat, keyNum: uint64) | Barrier

  function Threads(c: Config): nat {
    if c.threads < 0 then 0 else c.threads
  }

  function Quota(total: int32, threads: int32): nat {
    if total <= 0 || threads <= 0 then 0 else total / threads
  }

  function Fresh(threads: nat, quota: nat): seq<Worker> {
    seq(threads, _ => Worker(quota, Ready))
  }

  /** What the counter limiting the picks reports: nothing ever advances it. */
  function LastInserted(c: Config): uint64 {
    Wrap64(Wrap64(c.recordCount) - 1)
  }

  function Name(c: Config, keyNum: uint64): string {
    KeyName(c.ordered, c.zeroPadding, keyNum)
  }

  predicate Init(c: Config, s: State) {
    s == State(true, Fresh(Threads(c), Quota(c.recordCount, c.threads)), Wrap64(c.insertStart), 0, [], 0, [])
  }

  predicate Enabled(s: State, w: nat) {
    w < |s.workers| && s.workers[w].left > 0
  }

  predicate NextStep(c: Config, s: State, s': State, step: Step) {
    match step
    case Draw(w) =>
      && Enabled(s, w) && s.workers[w].pc == Ready
      && s' == s.(workers := s.workers[w := s.workers[w].(pc := Drawn(s.counter))],
                  counter := Wrap64(s.counter + 1), drawn := s.drawn + 1)
    case Issue(w) =>
      && Enabled(s, w) && s.workers[w].pc.Drawn?
      && s' == s.(workers := s.workers[w := Worker(s.workers[w].left - 1, Ready)],
                  issued := s.issued + [s.workers[w].pc.keyNum])
    case Pick(w, keyNum) =>
      && Enabled(s, w) && s.workers[w].pc == Ready && !s.loading
      && s' == if keyNum > LastInserted(c) then s
               else s.(workers := s.workers[w := Worker(s.workers[w].left - 1, Ready)], used := s.used + [keyNum])
    case Barrier =>
      && s.loading && (forall w :: 0 <= w < |s.workers| ==> s.workers[w].left == 0)
      && s' == s.(loading := false, loaded := |s.issued|,
                  workers := Fresh(Threads(c), Quota(c.operationCount, c.threads)))
  }

  ghost predicate Next(c: Config, s: State, s': State) {
    exists step :: NextStep(c, s, s', step)
  }

  ghost predicate IsRun(c: Config, run: seq<State>) {
    && |run| > 0 && Init(c, run[0])
    && forall i :: 0 <= i < |run| - 1 ==> Next(c, run[i], run[i + 1])
  }

  // ----- Counting draws -----

  function Pending(w: Worker): int {
    w.left - if w.pc.Drawn? then 1 else 0
  }

  /** How many fetch-and-adds the workers of this phase can still make. */
  function Undrawn(workers: seq<Worker>): int {
    if workers == [] then 0 else Undrawn(workers[..|workers| - 1]) + Pending(workers[|workers| - 1])
  }

  lemma {:induction false} UndrawnUpdate(workers: seq<Worker>, w: nat, x: Worker)
    requires w < |workers|
    ensures Undrawn(workers[w := x]) == Undrawn(workers) - Pending(workers[w]) + Pending(x)
  {
    var n := |workers| - 1;
    if w < n {
      assert workers[w := x][..n] == workers[..n][w := x];
      UndrawnUpdate(workers[..n], w, x);
    } else {
      assert workers[w := x][..n] == workers[..n];
    }
  }

  lemma {:induction false} UndrawnFresh(threads: nat, quota: nat)
    ensures Undrawn(Fresh(threads, quota)) == threads * quota
  {
    if threads > 0 {
      assert Fresh(threads, quota)[..threads - 1] == Fresh(threads - 1, quota);
      UndrawnFresh(threads - 1, quota);
    }
  }

  lemma {:induction false} UndrawnBounds(workers: seq<Worker>)
    requires forall w :: 0 <= w < |workers| ==> workers[w].pc.Drawn? ==> workers[w].left > 0
    ensures Undrawn(workers) >= 0
    ensures (forall w :: 0 <= w < |workers| ==> workers[w].left == 0) ==> Undrawn(workers) == 0
  {
    if workers != [] {
      UndrawnBounds(workers[..|workers| - 1]);
    }
  }

  /** The draws of a phase in which every worker performs its share of `total` operations. */
  function Share(total: int32, threads: int32): nat {
    if total <= 0 || threads <= 0 then 0 else total / threads * threads
  }

  lemma ShareBounds(total: int32, threads: int32)
    ensures Share(total, threads) < 0x8000_0000
    ensures Share(total, threads) == (if threads < 0 then 0 else threads) * Quota(total, threads)
  {
  }

  // ----- The invariant -----

  /** The position of a key number in the order of draws. */
  function Ordinal(c: Config, keyNum: uint64): uint64 {
    Wrap64(keyNum - c.insertStart)
  }

  predicate InFlight(s: State, w: nat, keyNum: uint64) {
    w < |s.workers| && s.workers[w].pc == Drawn(keyNum)
  }

  /** Each number drawn so far is either issued or held by a worker; no number is in two places. */
  ghost predicate Accounted(c: Config, s: State) {
    && (forall i :: 0 <= i < |s.issued| ==> Ordinal(c, s.issued[i]) < s.drawn)
    && (forall w, k :: InFlight(s, w, k) ==> Ordinal(c, k) < s.drawn && k !in s.issued)
    && (forall k: uint64 :: Ordinal(c, k) < s.drawn ==> k in s.issued || exists w :: InFlight(s, w, k))
    && (forall i, j :: 0 <= i < j < |s.issued| ==> s.issued[i] != s.issued[j])
    && (forall v, w, k :: InFlight(s, v, k) && InFlight(s, w, k) ==> v == w)
  }

  ghost predicate Budget(c: Config, s: State) {
    && s.counter == Wrap64(c.insertStart + s.drawn)
    && (forall w :: 0 <= w < |s.workers| ==> s.workers[w].pc.Drawn? ==> s.workers[w].left > 0)
    && s.drawn + Undrawn(s.workers) + |s.used|
       == Share(c.recordCount, c.threads) + if s.loading then 0 else Share(c.operationCount, c.threads)
  }

  /** Once loading is over, exactly the first draws up to the load total have been issued as the load. */
  ghost predicate LoadComplete(c: Config, s: State) {
    !s.loading ==>
      && s.loaded <= |s.issued|
      && forall k: uint64 :: k in s.issued[..s.loaded] <==> Ordinal(c, k) < Share(c.recordCount, c.threads)
  }

  ghost predicate Inv(c: Config, s: State) {
    && Accounted(c, s) && Budget(c, s) && LoadComplete(c, s)
    && (s.loading ==> s.used == [])
    && forall i :: 0 <= i < |s.used| ==> s.used[i] <= LastInserted(c)
  }

  lemma OrdinalOfCounter(c: Config, drawn: nat)
    requires drawn < TWO_TO_64
    ensures Ordinal(c, Wrap64(c.insertStart + drawn)) == drawn
    ensures forall k: uint64 :: Ordinal(c, k) == drawn ==> k == Wrap64(c.insertStart + drawn)
  {
  }

  lemma InitInv(c: Config, s: State)
    requires Init(c, s)
    ensures Inv(c, s)
  {
    UndrawnFresh(Threads(c), Quota(c.recordCount, c.threads));
    ShareBounds(c.recordCount, c.threads);
  }

  lemma DrawnBound(c: Config, s: State)
    requires Budget(c, s)
    ensures s.drawn + |s.used| <= Share(c.recordCount, c.threads) + Share(c.operationCount, c.threads) < TWO_TO_32
  {
    UndrawnBounds(s.workers);
    ShareBounds(c.recordCount, c.threads);
    ShareBounds(c.operationCount, c.threads);
  }

  lemma DrawAccounted(c: Config, s: State, s': State, w: nat)
    requires Accounted(c, s) && s.counter == Wrap64(c.insertStart + s.drawn) && s.drawn < TWO_TO_64
    requires NextStep(c, s, s', Draw(w))
    ensures Accounted(c, s')
  {
    OrdinalOfCounter(c, s.drawn);
    var num := s.counter;
    assert InFlight(s', w, num) && num !in s.issued;
    assert forall v, k :: InFlight(s', v, k) <==> if v == w then k == num else InFlight(s, v, k);
    forall k: uint64 | Ordinal(c, k) < s'.drawn
      ensures k in s'.issued || exists v :: InFlight(s', v, k)
    {
      if k !in s.issued && k != num {
        var v :| InFlight(s, v, k);
        assert InFlight(s', v, k);
      }
    }
  }

  lemma CounterAdvances(n: int)
    ensures Wrap64(Wrap64(n) + 1) == Wrap64(n + 1)
  {
  }

  lemma DrawInv(c: Config, s: State, s': State, w: nat)
    requires Inv(c, s) && NextStep(c, s, s', Draw(w))
    ensures Inv(c, s')
  {
    DrawnBound(c, s);
    DrawAccounted(c, s, s', w);
    DrawBudget(c, s, s', w);
    hide Accounted, Budget, Ordinal, Share;
  }

  lemma DrawBudget(c: Config, s: State, s': State, w: nat)
    requires Budget(c, s) && NextStep(c, s, s', Draw(w))
    ensures Budget(c, s')
  {
    hide Share;
    UndrawnUpdate(s.workers, w, s.workers[w].(pc := Drawn(s.counter)));
    CounterAdvances(c.insertStart + s.drawn);
  }

  lemma IssueAccounted(c: Config, s: State, s': State, w: nat)
    requires Accounted(c, s) && NextStep(c, s, s', Issue(w))
    ensures Accounted(c, s')
  {
    var num := s.workers[w].pc.keyNum;
    assert InFlight(s, w, num);
    assert forall v, k :: InFlight(s', v, k) <==> v != w && InFlight(s, v, k);
    forall k: uint64 | Ordinal(c, k) < s'.drawn
      ensures k in s'.issued || exists v :: InFlight(s', v, k)
    {
      if k !in s'.issued {
        var v :| InFlight(s, v, k);
        assert InFlight(s', v, k);
      }
    }
  }

  lemma IssueInv(c: Config, s: State, s': State, w: nat)
    requires Inv(c, s) && NextStep(c, s, s', Issue(w))
    ensures Inv(c, s')
  {
    IssueAccounted(c, s, s', w);
    IssueBudget(c, s, s', w);
    hide Accounted, Budget, Ordinal, Share;
    if !s.loading {
      assert s'.issued[..s.loaded] == s.issued[..s.loaded];
    }
  }

  lemma IssueBudget(c: Config, s: State, s': State, w: nat)
    requires Budget(c, s) && NextStep(c, s, s', Issue(w))
    ensures Budget(c, s')
  {
    hide Share;
    UndrawnUpdate(s.workers, w, Worker(s.workers[w].left - 1, Ready));
  }

  lemma PickInv(c: Config, s: State, s': State, w: nat, keyNum: uint64)
    requires Inv(c, s) && NextStep(c, s, s', Pick(w, keyNum))
    ensures Inv(c, s')
  {
    PickBudget(c, s, s', w, keyNum);
    PickAccounted(c, s, s', w, keyNum);
    hide Accounted, Budget, Ordinal, Share;
  }

  lemma PickBudget(c: Config, s: State, s': State, w: nat, keyNum: uint64)
    requires Budget(c, s) && NextStep(c, s, s', Pick(w, keyNum))
    ensures Budget(c, s')
  {
    hide Share;
    UndrawnUpdate(s.workers, w, Worker(s.workers[w].left - 1, Ready));
  }

  lemma PickAccounted(c: Config, s: State, s': State, w: nat, keyNum: uint64)
    requires Accounted(c, s) && NextStep(c, s, s', Pick(w, keyNum))
    ensures Accounted(c, s')
  {
    hide Ordinal;
    assert forall v, k :: InFlight(s', v, k) <==> InFlight(s, v, k);
  }

  lemma BarrierInv(c: Config, s: State, s': State)
    requires Inv(c, s) && NextStep(c, s, s', Barrier)
    ensures Inv(c, s')
  {
    BarrierBudget(c, s, s');
    BarrierAccounted(c, s, s');
    BarrierLoad(c, s, s');
  }

  lemma BarrierBudget(c: Config, s: State, s': State)
    requires Inv(c, s) && NextStep(c, s, s', Barrier)
    ensures Budget(c, s') && s.drawn == Share(c.recordCount, c.threads) && s.used == []
  {
    hide Accounted, LoadComplete, Share, Quota;
    UndrawnBounds(s.workers);
    UndrawnFresh(Threads(c), Quota(c.operationCount, c.threads));
    ShareBounds(c.operationCount, c.threads);
  }

  lemma BarrierAccounted(c: Config, s: State, s': State)
    requires Inv(c, s) && NextStep(c, s, s', Barrier)
    ensures Accounted(c, s')
  {
    hide Share, Quota, Undrawn, Ordinal;
    assert forall v, k :: !InFlight(s, v, k) && !InFlight(s', v, k);
  }

  lemma BarrierLoad(c: Config, s: State, s': State)
    requires Inv(c, s) && NextStep(c, s, s', Barrier)
    ensures LoadComplete(c, s')
  {
    BarrierBudget(c, s, s');
    hide Share, Quota, Undrawn, Ordinal;
    assert forall v, k :: !InFlight(s, v, k);
    assert s'.issued[..s'.loaded] == s.issued;
  }

  lemma {:induction false} RunInv(c: Config, run: seq<State>)
    requires IsRun(c, run)
    ensures Inv(c, run[|run| - 1])
  {
    var n := |run| - 1;
    if n == 0 {
      InitInv(c, run[0]);
    } else {
      assert run[..n][n - 1] == run[n - 1];
      RunInv(c, run[..n]);
      assert Next(c, run[n - 1], run[n - 1 + 1]);
      var step :| NextStep(c, run[n - 1], run[n], step);
      match step
      case Draw(w) => DrawInv(c, run[n - 1], run[n], w);
      case Issue(w) => IssueInv(c, run[n - 1], run[n], w);
      case Pick(w, k) => PickInv(c, run[n - 1], run[n], w, k);
      case Barrier => BarrierInv(c, run[n - 1], run[n]);
    }
  }

  // ----- Whole-run theorems -----

  /**
   * In hashed mode the numbers drawn must share their upper 32 bits: all stay below 2^32, or all are negative numbers
   * as 64 bits see them.  With the default start of 0 they always do.
   */
  predicate NamesSeparate(c: Config, drawn: nat) {
    || c.ordered
    || (0 <= c.insertStart && c.insertStart + drawn <= TWO_TO_32)
    || (c.insertStart < 0 && c.insertStart + drawn <= 0)
  }

  lemma DrawnNumber(c: Config, drawn: nat, keyNum: uint64)
    requires 0 <= c.insertStart && c.insertStart + drawn <= TWO_TO_32 && Ordinal(c, keyNum) < drawn
    ensures c.insertStart <= keyNum < c.insertStart + drawn
  {
  }

  lemma DrawnNegative(c: Config, drawn: nat, keyNum: uint64)
    requires c.insertStart < 0 && c.insertStart + drawn <= 0 && Ordinal(c, keyNum) < drawn
    ensures keyNum / TWO_TO_32 == 0xFFFF_FFFF
  {
  }

  lemma DrawnSeparable(c: Config, drawn: nat, a: uint64, b: uint64)
    requires NamesSeparate(c, drawn) && Ordinal(c, a) < drawn && Ordinal(c, b) < drawn
    ensures Separable(c.ordered, a, b)
  {
    if c.ordered {
    } else if 0 <= c.insertStart {
      DrawnNumber(c, drawn, a);
      DrawnNumber(c, drawn, b);
    } else {
      DrawnNegative(c, drawn, a);
      DrawnNegative(c, drawn, b);
    }
  }

  /** No key is handed to Insert twice, whatever the interleaving of the load and of the transactions. */
  lemma NoKeyTwice(c: Config, run: seq<State>, i: nat, j: nat)
    requires IsRun(c, run)
    requires i < j < |run[|run| - 1].issued|
    requires NamesSeparate(c, run[|run| - 1].drawn)
    ensures Name(c, run[|run| - 1].issued[i]) != Name(c, run[|run| - 1].issued[j])
  {
    var s := run[|run| - 1];
    RunInv(c, run);
    DrawnSeparable(c, s.drawn, s.issued[i], s.issued[j]);
    KeyNameInjective(c.ordered, c.zeroPadding, s.issued[i], s.issued[j]);
  }

  lemma DefaultStartSeparates(c: Config, run: seq<State>)
    requires IsRun(c, run) && c.insertStart == 0
    ensures NamesSeparate(c, run[|run| - 1].drawn)
  {
    RunInv(c, run);
    DrawnBound(c, run[|run| - 1]);
  }
}
