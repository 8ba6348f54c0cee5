/**
 * Which records the reads, scans and updates of a run can pick (core/core_workload.h): those of the load, and sometimes
 * those that transactions inserted.
 */
module Picks {
  import opened MachineInts
  import opened KeyNames
  import opened BenchmarkRun

  /**
   * A key chooser is the set of numbers it can answer.  It spans the picks from `least` on if it answers nothing smaller
   * and can answer both ends of what the rejection loop lets through.
   */
  ghost predicate Spans(c: Config, answers: iset<uint64>, least: uint64) {
    && (forall k :: k in answers ==> least <= k)
    && (least <= LastInserted(c) ==> least in answers && LastInserted(c) in answers)
  }

  /** The uniform chooser answers every number from 0 to the last inserted one. */
  ghost function UniformChooser(c: Config): iset<uint64> {
    iset k: uint64 | Passes(c, k)
  }

  predicate Passes(c: Config, k: uint64) {
    k <= LastInserted(c)
  }

  lemma UniformSpans(c: Config)
    ensures Spans(c, UniformChooser(c), 0)
    ensures c.recordCount >= 1 ==> forall k: uint64 :: k in UniformChooser(c) <==> k <= c.recordCount - 1
  {
  }

  ghost predicate NamesLoadedRecord(c: Config, s: State, name: string)
    requires s.loaded <= |s.issued|
  {
    exists i :: 0 <= i < s.loaded && name == Name(c, s.issued[i])
  }

  ghost predicate IsLoaded(s: State, keyNum: uint64)
    requires s.loaded <= |s.issued|
  {
    keyNum in s.issued[..s.loaded]
  }

  ghost predicate PicksLoaded(c: Config, s: State, answers: iset<uint64>)
    requires s.loaded <= |s.issued|
  {
    forall k :: k in answers && k <= LastInserted(c) ==> IsLoaded(s, k)
  }

  ghost predicate PicksNamed(c: Config, s: State, answers: iset<uint64>)
    requires s.loaded <= |s.issued|
  {
    forall k :: k in answers && k <= LastInserted(c) ==> NamesLoadedRecord(c, s, Name(c, k))
  }

  /**
   * What a caller can check before the run: no pick gets through, or the load starts no later than the least pick and
   * its start makes up for the remainder that it leaves out.
   */
  predicate LoadCoversPicks(c: Config, least: uint64) {
    || least > LastInserted(c)
    || (c.threads >= 1 && c.recordCount >= 1 && 0 <= c.insertStart <= least
        && c.recordCount % c.threads <= c.insertStart)
  }

  /** For a uniform chooser that is a start of 0 and an even share. */
  lemma UniformCovers(c: Config)
    requires c.recordCount >= 1
    ensures LoadCoversPicks(c, 0) <==> c.threads >= 1 && c.insertStart == 0 && c.recordCount % c.threads == 0
  {
  }

  /** For a chooser that starts at 1 the load may also start at 1, and then leave out one record. */
  lemma LatestCovers(c: Config)
    requires c.recordCount >= 2 && c.threads >= 1 && c.insertStart >= 0
    ensures LoadCoversPicks(c, 1)
            <==> (c.insertStart == 0 && c.recordCount % c.threads == 0)
                 || (c.insertStart == 1 && c.recordCount % c.threads <= 1)
  {
  }

  /**
   * Every pick that a chooser answers and the rejection loop lets through is the number of a loaded record if and only
   * if the load covers the picks: otherwise the load leaves out the least of them, or the last.
   */
  lemma PicksAreLoaded(c: Config, run: seq<State>, answers: iset<uint64>, least: uint64)
    requires IsRun(c, run) && !run[|run| - 1].loading && Spans(c, answers, least)
    ensures run[|run| - 1].loaded <= |run[|run| - 1].issued|
    ensures PicksLoaded(c, run[|run| - 1], answers) <==> LoadCoversPicks(c, least)
  {
    var s := run[|run| - 1];
    RunInv(c, run);
    if LoadCoversPicks(c, least) {
      forall k | k in answers && k <= LastInserted(c)
        ensures IsLoaded(s, k)
      {
        CoveredPick(c, s, k, least);
      }
    } else {
      var k := UncoveredPick(c, least);
      assert !IsLoaded(s, k);
    }
  }

  /** Where names settle the same: no chance collision of hashes can stand in for a record that was not loaded. */
  ghost predicate NamesSettled(c: Config, answers: iset<uint64>, least: uint64) {
    || c.ordered || 0 <= c.insertStart || Share(c.recordCount, c.threads) == 0
    || (least + Share(c.recordCount, c.threads) <= LastInserted(c)
        && forall k: uint64 :: least <= k <= LastInserted(c) ==> k in answers)
  }

  /** The same for names. */
  lemma PicksNameLoadedRecords(c: Config, run: seq<State>, answers: iset<uint64>, least: uint64)
    requires IsRun(c, run) && !run[|run| - 1].loading && Spans(c, answers, least) && NamesSettled(c, answers, least)
    ensures run[|run| - 1].loaded <= |run[|run| - 1].issued|
    ensures PicksNamed(c, run[|run| - 1], answers) <==> LoadCoversPicks(c, least)
  {
    var s := run[|run| - 1];
    RunInv(c, run);
    if LoadCoversPicks(c, least) {
      forall k | k in answers && k <= LastInserted(c)
        ensures NamesLoadedRecord(c, s, Name(c, k))
      {
        CoveredPick(c, s, k, least);
      }
    } else {
      var k := UnnamedPick(c, s, answers, least);
    }
  }

  lemma CoveredPick(c: Config, s: State, k: uint64, least: uint64)
    requires LoadComplete(c, s) && !s.loading && LoadCoversPicks(c, least) && least <= k <= LastInserted(c)
    ensures k in s.issued[..s.loaded] && NamesLoadedRecord(c, s, Name(c, k))
  {
    hide Name, Ordinal, Share, LoadCoversPicks, LastInserted;
    CoveredNumber(c, k, least);
    assert k in s.issued[..s.loaded];
    InPrefix(s.issued, s.loaded);
  }

  lemma CoveredNumber(c: Config, k: uint64, least: uint64)
    requires LoadCoversPicks(c, least) && least <= k <= LastInserted(c)
    ensures Ordinal(c, k) < Share(c.recordCount, c.threads)
  {
    LastValue(c);
    hide Ordinal, Share, LastInserted;
    OrdinalValue(c, k);
    LoadRemainder(c.recordCount, c.threads);
  }

  lemma LastValue(c: Config)
    requires c.recordCount >= 1
    ensures LastInserted(c) == c.recordCount - 1
  {
  }

  /** A number that picks may keep and that the load leaves out: the first one or the last one. */
  lemma UncoveredPick(c: Config, least: uint64) returns (k: uint64)
    requires !LoadCoversPicks(c, least)
    ensures least <= k <= LastInserted(c) && (k == least || k == LastInserted(c))
    ensures Ordinal(c, k) >= Share(c.recordCount, c.threads)
    ensures c.recordCount >= 1 ==> k < TWO_TO_32
  {
    hide Ordinal, Share, LastInserted;
    if c.recordCount <= 0 || c.threads <= 0 {
      NoShare(c.recordCount, c.threads);
      k := least;
      if c.recordCount >= 1 {
        LastValue(c);
      }
    } else {
      LastValue(c);
      k := if c.insertStart > least then least else LastInserted(c);
      OrdinalValue(c, k);
      LoadRemainder(c.recordCount, c.threads);
    }
  }

  lemma NoShare(total: int32, threads: int32)
    requires total <= 0 || threads <= 0
    ensures Share(total, threads) == 0
  {
  }

  lemma OrdinalValue(c: Config, k: uint64)
    requires k < TWO_TO_32
    ensures Ordinal(c, k) == if k >= c.insertStart then k - c.insertStart else k - c.insertStart + TWO_TO_64
  {
  }

  lemma LoadRemainder(total: int32, threads: int32)
    requires total >= 1 && threads >= 1
    ensures Share(total, threads) == total - total % threads <= total
  {
  }

  // ----- Names -----

  lemma UnnamedPick(c: Config, s: State, answers: iset<uint64>, least: uint64) returns (k: uint64)
    requires Inv(c, s) && !s.loading && Spans(c, answers, least) && NamesSettled(c, answers, least)
    requires !LoadCoversPicks(c, least)
    ensures k in answers && k <= LastInserted(c) && !NamesLoadedRecord(c, s, Name(c, k))
  {
    k := UncoveredPick(c, least);
    if Share(c.recordCount, c.threads) == 0 {
      LoadedExactly(c, s);
    } else if c.ordered || 0 <= c.insertStart {
      NotLoaded(c, s, k);
    } else {
      k := CountedPick(c, s, least);
    }
  }

  lemma NotLoaded(c: Config, s: State, k: uint64)
    requires LoadComplete(c, s) && !s.loading
    requires c.ordered || 0 <= c.insertStart
    requires k < TWO_TO_32 && Ordinal(c, k) >= Share(c.recordCount, c.threads)
    ensures !NamesLoadedRecord(c, s, Name(c, k))
  {
    ShareBounds(c.recordCount, c.threads);
    InPrefix(s.issued, s.loaded);
    forall i | 0 <= i < s.loaded
      ensures Name(c, k) != Name(c, s.issued[i])
    {
      NamesDiffer(c, Share(c.recordCount, c.threads), k, s.issued[i]);
    }
  }

  lemma NamesDiffer(c: Config, drawn: nat, k: uint64, issued: uint64)
    requires c.ordered || (0 <= c.insertStart && c.insertStart + drawn <= TWO_TO_32)
    requires k < TWO_TO_32 && k != issued && Ordinal(c, issued) < drawn
    ensures Name(c, k) != Name(c, issued)
  {
    if !c.ordered {
      DrawnNumber(c, drawn, issued);
    }
    KeyNameInjective(c.ordered, c.zeroPadding, k, issued);
  }

  predicate AllDifferent(numbers: seq<int>) {
    forall i, j :: 0 <= i < j < |numbers| ==> numbers[i] != numbers[j]
  }

  predicate AllBelow(numbers: seq<int>, n: nat) {
    forall i :: 0 <= i < |numbers| ==> 0 <= numbers[i] < n
  }

  lemma {:induction false} FewDistinct(numbers: seq<int>, n: nat)
    requires AllDifferent(numbers) && AllBelow(numbers, n)
    ensures |numbers| <= n
  {
    if numbers != [] {
      assert 0 <= numbers[0] < n;
      if i :| 0 <= i < |numbers| && numbers[i] == n - 1 {
        WithoutOne(numbers, i, n);
        FewDistinct(numbers[..i] + numbers[i + 1..], n - 1);
      } else {
        FewDistinct(numbers, n - 1);
      }
    }
  }

  lemma WithoutOne(numbers: seq<int>, i: nat, n: nat)
    requires AllDifferent(numbers) && AllBelow(numbers, n) && i < |numbers| && numbers[i] == n - 1
    ensures AllDifferent(numbers[..i] + numbers[i + 1..]) && AllBelow(numbers[..i] + numbers[i + 1..], n - 1)
  {
    var rest := numbers[..i] + numbers[i + 1..];
    assert forall j :: 0 <= j < |rest| ==> rest[j] == numbers[if j < i then j else j + 1];
  }

  /** The number drawn at place `o`. */
  function NumberAt(c: Config, o: nat): uint64 {
    Wrap64(c.insertStart + o)
  }

  lemma {:induction false} PlacesOf(c: Config, numbers: seq<uint64>, n: nat) returns (places: seq<int>)
    requires n < TWO_TO_64 && forall o :: 0 <= o < n ==> NumberAt(c, o) in numbers
    ensures |places| == n
    ensures forall o :: 0 <= o < n ==> 0 <= places[o] < |numbers| && numbers[places[o]] == NumberAt(c, o)
  {
    hide NumberAt;
    places := [];
    if n > 0 {
      places := PlacesOf(c, numbers, n - 1);
      var i :| 0 <= i < |numbers| && numbers[i] == NumberAt(c, n - 1);
      places := places + [i];
    }
  }

  /** Different numbers that are just the first `n` in the order of draws are `n` in number. */
  lemma AsManyAsDrawn(c: Config, numbers: seq<uint64>, n: nat)
    requires n < TWO_TO_64
    requires forall k: uint64 :: k in numbers <==> Ordinal(c, k) < n
    requires forall i, j :: 0 <= i < j < |numbers| ==> numbers[i] != numbers[j]
    ensures |numbers| == n
  {
    NotMoreThanDrawn(c, numbers, n);
    NotFewerThanDrawn(c, numbers, n);
  }

  lemma NotMoreThanDrawn(c: Config, numbers: seq<uint64>, n: nat)
    requires forall k: uint64 :: k in numbers ==> Ordinal(c, k) < n
    requires forall i, j :: 0 <= i < j < |numbers| ==> numbers[i] != numbers[j]
    ensures |numbers| <= n
  {
    hide Ordinal;
    var ordinals := seq(|numbers|, i requires 0 <= i < |numbers| => Ordinal(c, numbers[i]));
    forall i, j | 0 <= i < j < |numbers|
      ensures ordinals[i] != ordinals[j]
    {
      SameOrdinal(c, numbers[i], numbers[j]);
    }
    FewDistinct(ordinals, n);
  }

  lemma NotFewerThanDrawn(c: Config, numbers: seq<uint64>, n: nat)
    requires n < TWO_TO_64 && forall k: uint64 :: Ordinal(c, k) < n ==> k in numbers
    ensures n <= |numbers|
  {
    hide Ordinal;
    forall o | 0 <= o < n
      ensures NumberAt(c, o) in numbers
    {
      OrdinalOfCounter(c, o);
    }
    var places := PlacesOf(c, numbers, n);
    forall i, j | 0 <= i < j < n
      ensures places[i] != places[j]
    {
      OrdinalOfCounter(c, i);
      OrdinalOfCounter(c, j);
    }
    FewDistinct(places, |numbers|);
  }

  /** The load is as many records as its share. */
  lemma LoadedExactly(c: Config, s: State)
    requires Inv(c, s) && !s.loading
    ensures s.loaded == Share(c.recordCount, c.threads)
  {
    ShareBounds(c.recordCount, c.threads);
    hide Ordinal, Share, Budget;
    AsManyAsDrawn(c, s.issued[..s.loaded], Share(c.recordCount, c.threads));
  }

  /** Every worker of the transactions has done its operations. */
  predicate Finished(s: State) {
    !s.loading && forall w :: 0 <= w < |s.workers| ==> s.workers[w].left == 0
  }

  /** A whole run performs as many operations as divide evenly among the threads, in each of its two phases. */
  lemma WholeRun(c: Config, run: seq<State>)
    requires IsRun(c, run) && Finished(run[|run| - 1])
    requires c.threads >= 1 && c.recordCount >= 0 && c.operationCount >= 0
    ensures var s := run[|run| - 1];
            && s.loaded == c.recordCount - c.recordCount % c.threads <= |s.issued|
            && |s.issued| - s.loaded + |s.used| == c.operationCount - c.operationCount % c.threads
  {
    var s := run[|run| - 1];
    RunInv(c, run);
    DrawnBound(c, s);
    LoadedExactly(c, s);
    ShareIs(c.recordCount, c.threads);
    ShareIs(c.operationCount, c.threads);
    UndrawnBounds(s.workers);
    NothingInFlight(c, s);
    hide Ordinal, Share;
    AsManyAsDrawn(c, s.issued, s.drawn);
  }

  lemma ShareIs(total: int32, threads: int32)
    requires total >= 0 && threads >= 1
    ensures Share(total, threads) == total - total % threads
  {
    if total > 0 {
      LoadRemainder(total, threads);
    }
  }

  lemma NothingInFlight(c: Config, s: State)
    requires Inv(c, s) && Finished(s)
    ensures forall k: uint64 :: k in s.issued <==> Ordinal(c, k) < s.drawn
  {
    hide Ordinal, Share;
    forall k: uint64
      ensures k in s.issued <==> Ordinal(c, k) < s.drawn
    {
      assert forall w :: !InFlight(s, w, k);
    }
  }

  lemma SameOrdinal(c: Config, a: uint64, b: uint64)
    ensures Ordinal(c, a) == Ordinal(c, b) <==> a == b
  {
    OrdinalOf(c, a);
    OrdinalOf(c, b);
  }

  lemma OrdinalOf(c: Config, k: uint64)
    ensures Wrap64(c.insertStart + Ordinal(c, k)) == k
  {
  }

  predicate NamedAt(c: Config, s: State, k: uint64, i: int)
    requires s.loaded <= |s.issued|
  {
    0 <= i < s.loaded && Name(c, k) == Name(c, s.issued[i])
  }

  lemma {:induction false} WhereNamed(c: Config, s: State, least: uint64, m: nat) returns (places: seq<int>)
    requires s.loaded <= |s.issued| && least + m <= TWO_TO_32
    requires forall k: uint64 :: least <= k < least + m ==> NamesLoadedRecord(c, s, Name(c, k))
    ensures |places| == m && forall j :: 0 <= j < m ==> NamedAt(c, s, least + j, places[j])
  {
    hide Name;
    if m == 0 {
      places := [];
    } else {
      places := WhereNamed(c, s, least, m - 1);
      assert NamesLoadedRecord(c, s, Name(c, least + m - 1));
      var i :| 0 <= i < s.loaded && Name(c, least + m - 1) == Name(c, s.issued[i]);
      assert NamedAt(c, s, least + m - 1, i);
      places := places + [i];
    }
  }

  /** More picks than loaded records, all with names of their own: some name is no loaded record's. */
  lemma CountedPick(c: Config, s: State, least: uint64) returns (k: uint64)
    requires Inv(c, s) && !s.loading && Share(c.recordCount, c.threads) > 0
    requires least + Share(c.recordCount, c.threads) <= LastInserted(c)
    ensures least <= k <= LastInserted(c) && !NamesLoadedRecord(c, s, Name(c, k))
  {
    var m := Share(c.recordCount, c.threads) + 1;
    ShareIsPositive(c);
    LastValue(c);
    hide Name, Share, LastInserted, NamesLoadedRecord;
    LoadedExactly(c, s);
    NotAllNamed(c, s, least, m);
    k :| least <= k < least + m && !NamesLoadedRecord(c, s, Name(c, k));
  }

  lemma ShareIsPositive(c: Config)
    requires Share(c.recordCount, c.threads) > 0
    ensures c.recordCount >= 1
  {
  }

  lemma NotAllNamed(c: Config, s: State, least: uint64, m: nat)
    requires s.loaded <= |s.issued| && s.loaded < m && least + m <= TWO_TO_32
    ensures !forall k: uint64 :: least <= k < least + m ==> NamesLoadedRecord(c, s, Name(c, k))
  {
    hide Name, NamesLoadedRecord, NamedAt, AllDifferent, AllBelow;
    if forall k: uint64 :: least <= k < least + m ==> NamesLoadedRecord(c, s, Name(c, k)) {
      var places := WhereNamed(c, s, least, m);
      PlacesDiffer(c, s, least, places);
      FewDistinct(places, s.loaded);
    }
  }

  lemma PlacesDiffer(c: Config, s: State, least: uint64, places: seq<int>)
    requires s.loaded <= |s.issued| && least + |places| <= TWO_TO_32
    requires forall j :: 0 <= j < |places| ==> NamedAt(c, s, least + j, places[j])
    ensures AllDifferent(places) && AllBelow(places, s.loaded)
  {
    hide Name, NamedAt;
    forall i, j | 0 <= i < j < |places|
      ensures places[i] != places[j]
    {
      OnePlaceOneNumber(c, s, least + i, least + j, places[i], places[j]);
    }
    forall j | 0 <= j < |places|
      ensures 0 <= places[j] < s.loaded
    {
      OnePlaceOneNumber(c, s, least + j, least + j, places[j], places[j]);
    }
  }

  lemma OnePlaceOneNumber(c: Config, s: State, k: uint64, l: uint64, i: int, j: int)
    requires s.loaded <= |s.issued| && k < TWO_TO_32 && l < TWO_TO_32
    requires NamedAt(c, s, k, i) && NamedAt(c, s, l, j)
    ensures 0 <= i < s.loaded && (i == j ==> k == l)
  {
    hide Name;
    SmallNames(c, k, l);
  }

  lemma SmallNames(c: Config, k: uint64, l: uint64)
    requires k < TWO_TO_32 && l < TWO_TO_32
    ensures Name(c, k) == Name(c, l) <==> k == l
  {
    hide KeyName;
    KeyNameInjective(c.ordered, c.zeroPadding, k, l);
  }

  /** In particular every key a read, scan or update used so far, in any run of a chooser with this least answer. */
  lemma TransactionsUseLoadedRecords(c: Config, run: seq<State>, least: uint64, i: nat)
    requires IsRun(c, run) && LoadCoversPicks(c, least)
    requires i < |run[|run| - 1].used| && run[|run| - 1].used[i] >= least
    ensures run[|run| - 1].loaded <= |run[|run| - 1].issued|
    ensures NamesLoadedRecord(c, run[|run| - 1], Name(c, run[|run| - 1].used[i]))
  {
    RunInv(c, run);
    CoveredPick(c, run[|run| - 1], run[|run| - 1].used[i], least);
  }

  // ----- Are records that transactions insert ever picked? -----

  /** A number that the transaction phase inserted was also used by one of its reads, scans or updates. */
  ghost predicate UsesInserted(s: State) {
    exists j :: s.loaded <= j < |s.issued| && s.issued[j] in s.used
  }

  /** All picks kept so far are answers of the chooser. */
  ghost predicate PicksFrom(s: State, answers: iset<uint64>) {
    forall i :: 0 <= i < |s.used| ==> s.used[i] in answers
  }

  /**
   * Number `o` in the order of draws falls into the transactions, leaves an operation to pick it, and is an answer of the
   * chooser that passes the limit.
   */
  ghost predicate PickableInsert(c: Config, answers: iset<uint64>, o: nat) {
    && Wrap64(c.insertStart + o) in answers
    && Share(c.recordCount, c.threads) <= o
    && o + 2 <= Share(c.recordCount, c.threads) + Share(c.operationCount, c.threads)
    && Wrap64(c.insertStart + o) <= LastInserted(c)
  }

  predicate AllReady(s: State) {
    forall w :: 0 <= w < |s.workers| ==> s.workers[w].pc == Ready
  }

  lemma Extended(c: Config, run: seq<State>, s: State, step: Step) returns (longer: seq<State>)
    requires IsRun(c, run) && NextStep(c, run[|run| - 1], s, step)
    ensures longer == run + [s] && IsRun(c, longer)
  {
    longer := run + [s];
    forall i | 0 <= i < |longer| - 1
      ensures Next(c, longer[i], longer[i + 1])
    {
      if i < |run| - 1 {
        assert Next(c, run[i], run[i + 1]);
      }
    }
  }

  /** With nothing in flight the draws to come are the operations left. */
  lemma {:induction false} SomeoneLeft(workers: seq<Worker>) returns (w: nat)
    requires forall v :: 0 <= v < |workers| ==> workers[v].pc == Ready
    ensures Undrawn(workers) >= 0
    ensures Undrawn(workers) > 0 ==> w < |workers| && workers[w].left > 0
    ensures Undrawn(workers) == 0 ==> forall v :: 0 <= v < |workers| ==> workers[v].left == 0
  {
    w := 0;
    if workers != [] {
      var n := |workers| - 1;
      w := SomeoneLeft(workers[..n]);
      if workers[n].left > 0 {
        w := n;
      }
    }
  }

  /** Some worker draws a number and inserts it. */
  lemma OneInsert(c: Config, run: seq<State>) returns (longer: seq<State>)
    requires IsRun(c, run) && AllReady(run[|run| - 1]) && Undrawn(run[|run| - 1].workers) > 0
    ensures IsRun(c, longer) && AllReady(longer[|longer| - 1])
    ensures Undrawn(longer[|longer| - 1].workers) == Undrawn(run[|run| - 1].workers) - 1
    ensures SameBut(run[|run| - 1], longer[|longer| - 1], 1)
  {
    var s := run[|run| - 1];
    var w := SomeoneLeft(s.workers);
    var drawn := s.(workers := s.workers[w := s.workers[w].(pc := Drawn(s.counter))],
                    counter := Wrap64(s.counter + 1), drawn := s.drawn + 1);
    var done := drawn.(workers := drawn.workers[w := Worker(s.workers[w].left - 1, Ready)],
                       issued := s.issued + [s.counter]);
    var middle := Extended(c, run, drawn, Draw(w));
    longer := Extended(c, middle, done, Issue(w));
    UndrawnUpdate(s.workers, w, drawn.workers[w]);
    UndrawnUpdate(drawn.workers, w, done.workers[w]);
  }

  predicate SameBut(s: State, s': State, inserts: nat) {
    s'.loading == s.loading && s'.loaded == s.loaded && s'.used == s.used && s'.drawn == s.drawn + inserts
  }

  lemma {:induction false} ManyInserts(c: Config, run: seq<State>, n: nat) returns (longer: seq<State>)
    requires IsRun(c, run) && AllReady(run[|run| - 1]) && n <= Undrawn(run[|run| - 1].workers)
    ensures IsRun(c, longer) && AllReady(longer[|longer| - 1])
    ensures Undrawn(longer[|longer| - 1].workers) == Undrawn(run[|run| - 1].workers) - n
    ensures SameBut(run[|run| - 1], longer[|longer| - 1], n)
    decreases n
  {
    hide IsRun, AllReady, Undrawn;
    if n == 0 {
      longer := run;
    } else {
      var middle := OneInsert(c, run);
      longer := ManyInserts(c, middle, n - 1);
    }
  }

  /** A run that loads everything and stands at the beginning of the transactions. */
  lemma LoadedRun(c: Config) returns (run: seq<State>)
    ensures IsRun(c, run) && AllReady(run[|run| - 1])
    ensures !run[|run| - 1].loading && run[|run| - 1].used == []
    ensures run[|run| - 1].drawn == Share(c.recordCount, c.threads)
    ensures Undrawn(run[|run| - 1].workers) == Share(c.operationCount, c.threads)
  {
    var start := State(true, Fresh(Threads(c), Quota(c.recordCount, c.threads)), Wrap64(c.insertStart), 0, [], 0, []);
    UndrawnFresh(Threads(c), Quota(c.recordCount, c.threads));
    ShareBounds(c.recordCount, c.threads);
    run := ManyInserts(c, [start], Share(c.recordCount, c.threads));
    var s := run[|run| - 1];
    var w := SomeoneLeft(s.workers);
    var s' := s.(loading := false, loaded := |s.issued|,
                 workers := Fresh(Threads(c), Quota(c.operationCount, c.threads)));
    UndrawnFresh(Threads(c), Quota(c.operationCount, c.threads));
    ShareBounds(c.operationCount, c.threads);
    run := Extended(c, run, s', Barrier);
  }

  /** A run that inserts number `o` and then picks it. */
  lemma PickingRun(c: Config, answers: iset<uint64>, o: nat) returns (run: seq<State>)
    requires PickableInsert(c, answers, o)
    ensures IsRun(c, run) && PicksFrom(run[|run| - 1], answers) && UsesInserted(run[|run| - 1])
  {
    run := LoadedRun(c);
    run := ManyInserts(c, run, o - Share(c.recordCount, c.threads) + 1);
    var s, k := run[|run| - 1], Wrap64(c.insertStart + o);
    ShareBounds(c.recordCount, c.threads);
    ShareBounds(c.operationCount, c.threads);
    RunInv(c, run);
    OrdinalOfCounter(c, o);
    InsertedLater(c, s, k);
    var w := SomeoneLeft(s.workers);
    var s' := s.(workers := s.workers[w := Worker(s.workers[w].left - 1, Ready)], used := s.used + [k]);
    run := Extended(c, run, s', Pick(w, k));
    assert k in s'.used;
  }

  lemma InsertedLater(c: Config, s: State, k: uint64)
    requires Inv(c, s) && AllReady(s) && !s.loading
    requires Share(c.recordCount, c.threads) <= Ordinal(c, k) < s.drawn
    ensures exists j :: s.loaded <= j < |s.issued| && s.issued[j] == k
  {
    assert forall w :: !InFlight(s, w, k);
    var j :| 0 <= j < |s.issued| && s.issued[j] == k;
    InPrefix(s.issued, s.loaded);
  }

  lemma InPrefix(numbers: seq<uint64>, n: nat)
    requires n <= |numbers|
    ensures forall j :: 0 <= j < n ==> numbers[j] in numbers[..n]
    ensures forall k :: k in numbers[..n] ==> exists j :: 0 <= j < n && numbers[j] == k
  {
    forall j | 0 <= j < n
      ensures numbers[j] in numbers[..n]
    {
      assert numbers[..n][j] == numbers[j];
    }
  }

  lemma UsedInsert(c: Config, answers: iset<uint64>, s: State)
    requires Inv(c, s) && PicksFrom(s, answers) && UsesInserted(s)
    ensures exists o :: PickableInsert(c, answers, o)
  {
    var j :| s.loaded <= j < |s.issued| && s.issued[j] in s.used;
    var k := s.issued[j];
    var i :| 0 <= i < |s.used| && s.used[i] == k;
    DrawnBound(c, s);
    InPrefix(s.issued, s.loaded);
    assert k !in s.issued[..s.loaded];
    OrdinalOf(c, k);
    assert PickableInsert(c, answers, Ordinal(c, k));
  }

  /** Some run of this chooser picks what its transactions inserted. */
  ghost predicate CanPickInserts(c: Config, answers: iset<uint64>) {
    exists run :: IsRun(c, run) && PicksFrom(run[|run| - 1], answers) && UsesInserted(run[|run| - 1])
  }

  /** The counter that limits the picks never advances, yet some runs pick what they inserted: exactly in these cases. */
  lemma InsertsPicked(c: Config, answers: iset<uint64>)
    ensures CanPickInserts(c, answers) <==> exists o :: PickableInsert(c, answers, o)
  {
    if CanPickInserts(c, answers) {
      var run :| IsRun(c, run) && PicksFrom(run[|run| - 1], answers) && UsesInserted(run[|run| - 1]);
      RunInv(c, run);
      UsedInsert(c, answers, run[|run| - 1]);
    }
    if o :| PickableInsert(c, answers, o) {
      var run := PickingRun(c, answers, o);
    }
  }

  /**
   * For an ordinary configuration and any chooser that can answer the last number it may: when transactions are performed
   * and the load leaves out more than lies below the start.
   */
  lemma InsertsPickedOrdinarily(c: Config, answers: iset<uint64>)
    requires c.insertStart >= 0 && c.threads >= 1 && c.recordCount >= 1 && LastInserted(c) in answers
    ensures CanPickInserts(c, answers)
            <==> c.insertStart < c.recordCount % c.threads && Quota(c.operationCount, c.threads) >= 1
  {
    hide CanPickInserts, PickableInsert;
    InsertsPicked(c, answers);
    PickableOrdinarily(c, answers);
  }

  lemma PickableOrdinarily(c: Config, answers: iset<uint64>)
    requires c.insertStart >= 0 && c.threads >= 1 && c.recordCount >= 1 && LastInserted(c) in answers
    ensures (exists o :: PickableInsert(c, answers, o))
            <==> c.insertStart < c.recordCount % c.threads && Quota(c.operationCount, c.threads) >= 1
  {
    LoadRemainder(c.recordCount, c.threads);
    ShareBounds(c.recordCount, c.threads);
    ShareBounds(c.operationCount, c.threads);
    NoTransactions(c.operationCount, c.threads);
    if c.insertStart < c.recordCount % c.threads && Quota(c.operationCount, c.threads) >= 1 {
      var o := c.recordCount - 1 - c.insertStart;
      RemainderBelow(c.recordCount, c.threads);
      AtLeast(c.threads, Quota(c.operationCount, c.threads));
      Within(c, o);
      assert PickableInsert(c, answers, o);
    }
    if o :| PickableInsert(c, answers, o) {
      Within(c, o);
    }
  }

  lemma RemainderBelow(total: int32, threads: int32)
    requires threads >= 1
    ensures 0 <= total % threads < threads
  {
  }

  lemma Within(c: Config, o: nat)
    requires c.insertStart >= 0 && c.recordCount >= 1 && o < TWO_TO_32
    ensures Wrap64(c.insertStart + o) == c.insertStart + o && LastInserted(c) == c.recordCount - 1
  {
  }

  lemma AtLeast(threads: nat, quota: nat)
    requires quota >= 1
    ensures threads * quota >= threads
  {
  }

  lemma NoTransactions(total: int32, threads: int32)
    ensures Quota(total, threads) == 0 ==> Share(total, threads) == 0
  {
  }
}
