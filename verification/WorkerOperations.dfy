/** The workload's key functions are the steps of a worker in a run (core/client.h, core/core_workload.h). */
module WorkerOperations {
  import opened MachineInts
  import opened Wrappers
  import opened BenchmarkRun
  import opened Workload

  /** The counters are those of the run's state. */
  ghost predicate Reflects(wl: CoreWorkload, c: Config, s: State)
    reads wl.keyGenerator, wl.insertKeySequence
  {
    && wl.Valid() && wl.orderedInserts == c.ordered && wl.zeroPadding == c.zeroPadding
    && wl.keyGenerator.counter == s.counter
    && Wrap64(wl.insertKeySequence.counter - 1) == LastInserted(c)
  }

  /** A new workload has the counters of the run's first state. */
  method Start(c: Config) returns (wl: CoreWorkload)
    ensures forall s :: Init(c, s) ==> Reflects(wl, c, s)
  {
    wl := new CoreWorkload.Init(c.insertStart, c.recordCount, c.ordered, c.zeroPadding);
  }

  ghost predicate CanAct(s: State, w: nat) {
    Enabled(s, w) && s.workers[w].pc == Ready
  }

  /** Drawing the key of an insert is a step Draw, and handing it to the database the step Issue. */
  method InsertKey(wl: CoreWorkload, c: Config, ghost s: State, ghost w: nat)
    returns (key: string, ghost drawn: State, ghost issued: State)
    requires Reflects(wl, c, s) && CanAct(s, w)
    modifies wl.keyGenerator
    ensures NextStep(c, s, drawn, Draw(w)) && NextStep(c, drawn, issued, Issue(w)) && Reflects(wl, c, issued)
    ensures issued.issued == s.issued + [s.counter] && key == Name(c, s.counter)
  {
    drawn := s.(workers := s.workers[w := s.workers[w].(pc := Drawn(s.counter))],
                counter := Wrap64(s.counter + 1), drawn := s.drawn + 1);
    issued := drawn.(workers := drawn.workers[w := Worker(s.workers[w].left - 1, Ready)],
                     issued := s.issued + [s.counter]);
    key := wl.NextSequenceKey();
  }

  /** Every pick of a read, scan or update is a step Pick, of which only the last changes anything. */
  method TransactionKey(wl: CoreWorkload, c: Config, picks: seq<uint64>, ghost s: State, ghost w: nat)
    returns (key: Option<string>, tries: nat, ghost s': State)
    requires Reflects(wl, c, s) && CanAct(s, w) && !s.loading
    ensures tries <= |picks| && Reflects(wl, c, s')
    ensures forall i :: 0 <= i < tries && (key.None? || i < tries - 1) ==> NextStep(c, s, s, Pick(w, picks[i]))
    ensures key.None? ==> s' == s
    ensures key.Some? ==> tries > 0 && NextStep(c, s, s', Pick(w, picks[tries - 1]))
    ensures key.Some? ==> s'.used == s.used + [picks[tries - 1]] && key.value == Name(c, picks[tries - 1])
  {
    key, tries := wl.NextTransactionKey(picks);
    s' := s;
    if key.Some? {
      s' := s.(workers := s.workers[w := Worker(s.workers[w].left - 1, Ready)], used := s.used + [picks[tries - 1]]);
    }
  }
}
