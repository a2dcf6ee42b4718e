/** Whole runs of the worker pool: what every run keeps, that it ends, and what it returns. */
module WorkerPoolRuns {
  import opened Basics
  import opened Counting
  import opened WorkerPool

  ghost predicate Legal(c: Config, steps: seq<Step>)
    decreases |steps|, 0
  {
    steps == [] ||
    (var before := steps[..|steps| - 1];
     Legal(c, before) && Enabled(c, After(c, before), steps[|steps| - 1]))
  }

  ghost function After(c: Config, steps: seq<Step>): State
    requires Legal(c, steps)
    decreases |steps|, 1
  {
    if steps == [] then Init(c)
    else Apply(c, After(c, steps[..|steps| - 1]), steps[|steps| - 1])
  }

  lemma StepInv(c: Config, s: State, step: Step)
    requires Inv(c, s) && Enabled(c, s, step) && RunConsistent(c)
    ensures Inv(c, Apply(c, s, step))
  {
    StepSized(c, s, step);
    StepClosing(c, s, step);
    StepPlaced(c, s, step);
    StepDeliveredOnce(c, s, step);
    StepStartedOnce(c, s, step);
    StepExact(c, s, step);
    StepSums(c, s, step);
    StepReported(c, s, step);
  }

  lemma {:induction false} RunInv(c: Config, steps: seq<Step>)
    requires Legal(c, steps) && RunConsistent(c)
    ensures Inv(c, After(c, steps))
  {
    if steps == [] {
      InitInv(c);
    } else {
      var before := steps[..|steps| - 1];
      RunInv(c, before);
      StepInv(c, After(c, before), steps[|steps| - 1]);
    }
  }

  // ---------- Safety ----------

  function Active(workers: seq<Worker>): nat {
    if workers == [] then 0
    else Active(workers[..|workers| - 1]) + if workers[|workers| - 1].Running? then 1 else 0
  }

  lemma {:induction false} ActiveBound(workers: seq<Worker>)
    ensures Active(workers) <= |workers|
  {
    if workers != [] { ActiveBound(workers[..|workers| - 1]); }
  }

  /**
   In every reachable state, cancelled or not: nobody sends on a closed
   channel, the configured concurrency bounds the tests in flight, no channel
   is tested twice, progress reports are 0, 1, 2, ... and the counters add up.
   */
  lemma PoolSafety(c: Config, steps: seq<Step>)
    requires Legal(c, steps) && RunConsistent(c)
    ensures Safe(c, After(c, steps))
  {
    RunInv(c, steps);
    SafeState(c, After(c, steps));
  }

  ghost predicate Safe(c: Config, s: State) {
    && (s.resultsClosed ==> forall w :: 0 <= w < |s.workers| ==> !s.workers[w].Sending?)
    && Active(s.workers) <= Normalized(c.concurrency)
    && NoRepeats(s.started) && (forall j :: j in s.started ==> j < |c.slots| && Runs(c.slots[j]))
    && s.reports == Upto(|s.reports|) && |s.reports| <= |c.slots| + 1
    && Consistent(s.summary)
  }

  lemma SafeState(c: Config, s: State)
    requires Inv(c, s)
    ensures Safe(c, s)
  {
    ActiveBound(s.workers);
    DistinctBelow(s.delivered, |c.slots|);
  }

  /** Once cancelled, a step starts no test and reports no progress. */
  lemma CancelledStep(c: Config, s: State, step: Step)
    requires Enabled(c, s, step) && s.cancelled
    ensures var t := Apply(c, s, step); t.cancelled && t.started == s.started && t.reports == s.reports
  {
  }

  /** Cancellation holds for the rest of the run: no test is started and no progress reported after it. */
  lemma {:induction false} CancelledRun(c: Config, steps: seq<Step>, k: nat)
    requires Legal(c, steps) && k <= |steps| && LegalPrefix(c, steps, k) && After(c, steps[..k]).cancelled
    ensures var s, t := After(c, steps[..k]), After(c, steps);
      t.cancelled && t.started == s.started && t.reports == s.reports
  {
    if k == |steps| {
      assert steps[..k] == steps;
    } else {
      var before := steps[..|steps| - 1];
      assert before[..k] == steps[..k];
      CancelledRun(c, before, k);
      CancelledStep(c, After(c, before), steps[|steps| - 1]);
    }
  }

  ghost predicate LegalPrefix(c: Config, steps: seq<Step>, k: nat)
    requires k <= |steps|
  {
    Legal(c, steps[..k])
  }

  // ---------- The concurrency is reached ----------

  /** The first `k` workers get a channel each and start testing it. */
  function Rush(k: nat): seq<Step> {
    if k == 0 then [] else Rush(k - 1) + [Feed(k - 1)] + [Check(k - 1)]
  }

  /** The first `k` workers test the first `k` channels, the others are idle. */
  ghost predicate Rushed(c: Config, s: State, k: nat) {
    && s.fed == k <= |s.workers| == WorkerCount(c) && !s.jobsClosed && !s.cancelled
    && (forall w :: 0 <= w < k ==> s.workers[w] == Running(w))
    && (forall w :: k <= w < |s.workers| ==> s.workers[w].Idle?)
  }

  lemma LegalSnoc(c: Config, steps: seq<Step>, step: Step)
    requires Legal(c, steps) && Enabled(c, After(c, steps), step)
    ensures Legal(c, steps + [step]) && After(c, steps + [step]) == Apply(c, After(c, steps), step)
  {
    assert (steps + [step])[..|steps|] == steps;
  }

  lemma RushStep(c: Config, s: State, k: nat)
    requires Rushed(c, s, k) && k < WorkerCount(c) && Runs(c.slots[k])
    ensures Enabled(c, s, Feed(k)) && Enabled(c, Apply(c, s, Feed(k)), Check(k))
    ensures Rushed(c, Apply(c, Apply(c, s, Feed(k)), Check(k)), k + 1)
  {
  }

  lemma {:induction false} RushLegal(c: Config, k: nat)
    requires k <= WorkerCount(c) && forall j :: 0 <= j < k ==> Runs(c.slots[j])
    ensures Legal(c, Rush(k)) && Rushed(c, After(c, Rush(k)), k)
  {
    if k > 0 {
      RushLegal(c, k - 1);
      var before := Rush(k - 1);
      RushStep(c, After(c, before), k - 1);
      LegalSnoc(c, before, Feed(k - 1));
      LegalSnoc(c, before + [Feed(k - 1)], Check(k - 1));
    }
  }

  lemma {:induction false} AllActive(workers: seq<Worker>)
    requires forall w :: 0 <= w < |workers| ==> workers[w].Running?
    ensures Active(workers) == |workers|
  {
    if workers != [] { AllActive(workers[..|workers| - 1]); }
  }

  /** With enough channels to test, some run has as many tests in flight as the setting allows. */
  lemma ConcurrencyReached(c: Config)
    requires forall j :: 0 <= j < |c.slots| ==> Runs(c.slots[j])
    ensures var k := if Normalized(c.concurrency) <= |c.slots| then Normalized(c.concurrency) else |c.slots|;
      Legal(c, Rush(k)) && Active(After(c, Rush(k)).workers) == k
  {
    var k := WorkerCount(c);
    RushLegal(c, k);
    AllActive(After(c, Rush(k)).workers);
  }

  // ---------- Termination ----------

  function Weight(w: Worker): nat {
    match w
    case Exited => 0
    case Idle => 1
    case Pausing => 2
    case Sending(_, _) => 5
    case Running(_) => 6
    case Got(_) => 7
  }

  function Total(workers: seq<Worker>): nat {
    if workers == [] then 0 else Total(workers[..|workers| - 1]) + Weight(workers[|workers| - 1])
  }

  lemma {:induction false} TotalUpdate(workers: seq<Worker>, w: nat, next: Worker)
    requires w < |workers|
    ensures Total(workers[w := next]) == Total(workers) - Weight(workers[w]) + Weight(next)
  {
    var last := |workers| - 1;
    if w < last {
      TotalUpdate(workers[..last], w, next);
      assert workers[w := next][..last] == workers[..last][w := next];
    } else {
      assert workers[w := next][..last] == workers[..last];
    }
  }

  /** What is left to do apart from the workers' jobs. */
  function Control(c: Config, s: State): int {
    7 * (|c.slots| - s.fed)
    + (if s.jobsClosed then 0 else 1) + (if s.resultsClosed then 0 else 1) + (if s.cancelled then 0 else 1)
    + match s.reducer case Receiving => 1 case Reporting => 2 case Returned => 0
  }

  function Measure(c: Config, s: State): int { Control(c, s) + Total(s.workers) }

  lemma WorkerStepDecreases(c: Config, s: State, t: State, w: nat)
    requires w < |s.workers| == |t.workers| && t.workers == s.workers[w := t.workers[w]]
    requires Control(c, t) + Weight(t.workers[w]) < Control(c, s) + Weight(s.workers[w])
    ensures Measure(c, t) < Measure(c, s)
  {
    TotalUpdate(s.workers, w, t.workers[w]);
  }

  /** Steps that move a job on. */
  lemma JobStepDecreases(c: Config, s: State, step: Step)
    requires Enabled(c, s, step) && (step.Feed? || step.Check? || step.Finish? || step.Deliver?)
    ensures Measure(c, Apply(c, s, step)) < Measure(c, s)
  {
    WorkerStepDecreases(c, s, Apply(c, s, step), step.w);
  }

  /** Steps by which a worker stops or goes on to the next job. */
  lemma IdleStepDecreases(c: Config, s: State, step: Step)
    requires Enabled(c, s, step)
    requires step.ExitCancelled? || step.ExitClosed? || step.PauseOver? || step.PauseCancelled?
    ensures Measure(c, Apply(c, s, step)) < Measure(c, s)
  {
    WorkerStepDecreases(c, s, Apply(c, s, step), step.w);
  }

  lemma StepDecreases(c: Config, s: State, step: Step)
    requires Enabled(c, s, step)
    ensures Measure(c, Apply(c, s, step)) < Measure(c, s)
  {
    if step.Feed? || step.Check? || step.Finish? || step.Deliver? {
      JobStepDecreases(c, s, step);
    } else if step.ExitCancelled? || step.ExitClosed? || step.PauseOver? || step.PauseCancelled? {
      IdleStepDecreases(c, s, step);
    } else {
      assert Apply(c, s, step).workers == s.workers;
    }
  }

  lemma {:induction false} IdleTotal(workers: seq<Worker>)
    requires forall w :: 0 <= w < |workers| ==> workers[w].Idle?
    ensures Total(workers) == |workers|
  {
    if workers != [] { IdleTotal(workers[..|workers| - 1]); }
  }

  /** No run is longer than seven steps a channel, one a worker, and four more. */
  lemma {:induction false} RunLength(c: Config, steps: seq<Step>)
    requires Legal(c, steps)
    ensures After(c, steps).fed <= |c.slots|
    ensures |steps| + Measure(c, After(c, steps)) <= 7 * |c.slots| + WorkerCount(c) + 4
  {
    if steps == [] {
      IdleTotal(Init(c).workers);
    } else {
      var before := steps[..|steps| - 1];
      RunLength(c, before);
      StepDecreases(c, After(c, before), steps[|steps| - 1]);
    }
  }

  lemma RunsAreBounded(c: Config, steps: seq<Step>)
    requires Legal(c, steps)
    ensures |steps| <= 7 * |c.slots| + WorkerCount(c) + 4
  {
    RunLength(c, steps);
  }

  /** The caller has its summary and no goroutine is left behind. */
  ghost predicate Finished(s: State) {
    && s.reducer.Returned? && s.jobsClosed && s.resultsClosed
    && forall w :: 0 <= w < |s.workers| ==> s.workers[w].Exited?
  }

  lemma WorkerCanMove(c: Config, s: State, w: nat) returns (step: Step)
    requires Inv(c, s) && w < |s.workers| && !s.workers[w].Exited?
    requires s.reducer.Receiving? && !s.resultsClosed
    ensures Enabled(c, s, step) && !step.Cancel?
  {
    match s.workers[w]
    case Idle =>
      if s.jobsClosed { step := ExitClosed(w); }
      else if s.fed < |c.slots| { step := Feed(w); }
      else { step := FeederFinish; }
    case Got(_) => step := Check(w);
    case Running(job) =>
      assert HasJob(s.workers[w]);
      step := Finish(w, if s.cancelled then ZERO else c.run(c.slots[job]));
    case Sending(_, _) => step := Deliver(w);
    case Pausing => step := PauseOver(w);
  }

  /** Without a worker to wait for, the reducer, the closer or the feeder can move. */
  lemma OthersCanMove(c: Config, s: State) returns (step: Step)
    requires Sized(c, s) && Closing(c, s) && !Finished(s)
    requires s.reducer.Receiving? && !s.resultsClosed ==> forall w :: 0 <= w < |s.workers| ==> s.workers[w].Exited?
    ensures Enabled(c, s, step) && !step.Cancel?
  {
    if s.reducer.Reporting? {
      step := Report;
    } else if s.reducer.Receiving? {
      step := if s.resultsClosed then Return else CloseResults;
    } else if s.fed == |c.slots| {
      step := FeederFinish;
    } else {
      assert s.workers[0].Exited?;
      step := FeederCancelled;
    }
  }

  /** Something other than cancellation can always happen until everything has ended. */
  lemma NeverStuck(c: Config, s: State) returns (step: Step)
    requires Inv(c, s) && !Finished(s)
    ensures Enabled(c, s, step) && !step.Cancel?
  {
    if w: nat :| w < |s.workers| && !s.workers[w].Exited? && s.reducer.Receiving? && !s.resultsClosed {
      step := WorkerCanMove(c, s, w);
    } else {
      step := OthersCanMove(c, s);
    }
  }

  lemma StuckState(c: Config, s: State)
    requires Inv(c, s)
    requires forall step :: Enabled(c, s, step) ==> step.Cancel?
    ensures Finished(s)
  {
    if !Finished(s) {
      var step := NeverStuck(c, s);
    }
  }

  /** A run that cannot go on, cancellation aside, has returned and leaked nothing. */
  lemma StuckMeansFinished(c: Config, steps: seq<Step>)
    requires Legal(c, steps) && RunConsistent(c)
    requires forall step :: Enabled(c, After(c, steps), step) ==> step.Cancel?
    ensures Finished(After(c, steps))
  {
    RunInv(c, steps);
    StuckState(c, After(c, steps));
  }

  // ---------- What an uncancelled run returns ----------

  lemma PlusSwap(a: Summary, b: Summary, c: Summary)
    ensures Plus(Plus(a, b), c) == Plus(Plus(a, c), b)
  {
  }

  lemma SumBothSnoc(c: Config, all: seq<nat>, others: seq<nat>, job: nat, last: nat)
    ensures SumOf(c, all) == Plus(SumOf(c, others), Expected(c, job)) ==>
            SumOf(c, all + [last]) == Plus(SumOf(c, others + [last]), Expected(c, job))
  {
    var sum, x, y := SumOf(c, others), Expected(c, job), Expected(c, last);
    PlusSwap(sum, x, y);
    assert SumOf(c, all + [last]) == Plus(SumOf(c, all), y) by { SumSnoc(c, all, last); }
    assert SumOf(c, others + [last]) == Plus(sum, y) by { SumSnoc(c, others, last); }
  }

  lemma SnocLast(front: seq<nat>, back: seq<nat>)
    requires back != []
    ensures front + back == front + back[..|back| - 1] + [back[|back| - 1]]
  {
  }

  lemma {:induction false} SumInsert(c: Config, front: seq<nat>, job: nat, back: seq<nat>)
    ensures SumOf(c, front + [job] + back) == Plus(SumOf(c, front + back), Expected(c, job))
  {
    if back == [] {
      assert front + [job] + back == front + [job] && front + back == front;
      SumSnoc(c, front, job);
    } else {
      var rest, last := back[..|back| - 1], back[|back| - 1];
      SumInsert(c, front, job, rest);
      SumBothSnoc(c, front + [job] + rest, front + rest, job, last);
      SnocLast(front + [job], back);
      SnocLast(front, back);
    }
  }

  lemma SumRemove(c: Config, jobs: seq<nat>, p: nat)
    requires p < |jobs|
    ensures SumOf(c, jobs) == Plus(SumOf(c, jobs[..p] + jobs[p + 1..]), Expected(c, jobs[p]))
  {
    assert jobs == jobs[..p] + [jobs[p]] + jobs[p + 1..];
    SumInsert(c, jobs[..p], jobs[p], jobs[p + 1..]);
  }

  ghost predicate Permutation(jobs: seq<nat>, n: nat) {
    && NoRepeats(jobs)
    && (forall i :: 0 <= i < |jobs| ==> jobs[i] < n)
    && (forall j: nat :: j < n ==> j in jobs)
  }

  /** The order in which results arrive does not matter. */
  lemma {:induction false} SumAnyOrder(c: Config, jobs: seq<nat>, n: nat)
    requires Permutation(jobs, n)
    ensures SumOf(c, jobs) == SumOf(c, Upto(n)) && |jobs| == n
  {
    if n > 0 {
      assert n - 1 in jobs;
      var p :| 0 <= p < |jobs| && jobs[p] == n - 1;
      var rest := jobs[..p] + jobs[p + 1..];
      WithoutLast(jobs, n, p);
      SumAnyOrder(c, rest, n - 1);
      SumRemove(c, jobs, p);
      assert Upto(n)[..n - 1] == Upto(n - 1);
    }
  }

  lemma WithoutLast(jobs: seq<nat>, n: nat, p: nat)
    requires Permutation(jobs, n) && 0 < n && p < |jobs| && jobs[p] == n - 1
    ensures Permutation(jobs[..p] + jobs[p + 1..], n - 1)
  {
    var rest := jobs[..p] + jobs[p + 1..];
    assert forall i :: 0 <= i < |rest| ==> rest[i] == (if i < p then jobs[i] else jobs[i + 1]);
    forall j: nat | j < n - 1 ensures j in rest {
      assert j in jobs;
      var i :| 0 <= i < |jobs| && jobs[i] == j;
      assert rest[if i < p then i else i - 1] == j;
    }
  }

  lemma AllDelivered(c: Config, s: State)
    requires Inv(c, s) && s.reducer.Returned? && !s.cancelled
    ensures s.fed == |c.slots| && forall j :: 0 <= j < s.fed ==> s.places[j].Delivered?
  {
    if |c.slots| > 0 { assert s.workers[0].Exited?; }
  }

  lemma ReturnedState(c: Config, s: State)
    requires Inv(c, s) && s.reducer.Returned? && !s.cancelled
    ensures s.summary == SumOf(c, Upto(|c.slots|)) && s.reports == Upto(|c.slots| + 1)
    ensures NoRepeats(s.started) && forall j: nat :: j in s.started <==> j < |c.slots| && Runs(c.slots[j])
  {
    AllDelivered(c, s);
    SumAnyOrder(c, s.delivered, |c.slots|);
  }

  /**
   Without cancellation the summary is the sum over all channels, a missing or
   manually disabled one counting nothing; every other channel was tested
   exactly once; and progress was reported as 0, 1, ..., total.
   */
  lemma UncancelledResult(c: Config, steps: seq<Step>)
    requires Legal(c, steps) && RunConsistent(c)
    requires After(c, steps).reducer.Returned? && !After(c, steps).cancelled
    ensures var s, n := After(c, steps), |c.slots|;
      && s.summary == SumOf(c, Upto(n))
      && s.reports == Upto(n + 1)
      && NoRepeats(s.started)
      && (forall j: nat :: j in s.started <==> j < n && c.slots[j].Channel? && c.slots[j].status != MANUALLY_DISABLED)
  {
    RunInv(c, steps);
    ReturnedState(c, After(c, steps));
  }
}
