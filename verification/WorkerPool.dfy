/**
 The bounded worker pool that tests channels: a feeder, a fixed set of workers,
 a closer and a reducer over two unbuffered channels, with cancellation at any
 moment. One step is one rendezvous or one local action of one goroutine.
 */
module WorkerPool {
  import opened Basics

  // ---------- Results ----------

  datatype Summary = Summary(tested: int, succeeded: int, failed: int, disabled: int, enabled: int)

  const ZERO := Summary(0, 0, 0, 0, 0)

  function Plus(a: Summary, b: Summary): Summary {
    Summary(a.tested + b.tested, a.succeeded + b.succeeded, a.failed + b.failed,
            a.disabled + b.disabled, a.enabled + b.enabled)
  }

  predicate Consistent(s: Summary) {
    && s.tested == s.succeeded + s.failed
    && 0 <= s.disabled <= s.failed
    && 0 <= s.enabled && s.disabled + s.enabled <= s.tested
    && 0 <= s.succeeded
  }

  // ---------- The pool ----------

  datatype Slot = Missing | Channel(id: int, status: int)

  const MAX_CONCURRENCY := 32

  function Distance(a: int, b: int): nat { if a < b then b - a else a - b }

  /** The allowed concurrency nearest to the one asked for. */
  function Normalized(concurrency: int): (n: int)
    ensures 1 <= n <= MAX_CONCURRENCY
    ensures forall m :: 1 <= m <= MAX_CONCURRENCY ==> Distance(n, concurrency) <= Distance(m, concurrency)
  {
    if concurrency < 1 then 1 else if concurrency > MAX_CONCURRENCY then MAX_CONCURRENCY else concurrency
  }

  datatype Config = Config(slots: seq<Slot>, concurrency: int, pauses: bool, run: Slot -> Summary)

  function WorkerCount(c: Config): nat {
    if Normalized(c.concurrency) < |c.slots| then Normalized(c.concurrency) else |c.slots|
  }

  predicate Runs(slot: Slot) { slot.Channel? && slot.status != MANUALLY_DISABLED }

  datatype Worker =
    | Idle
    | Got(job: nat)
    | Running(job: nat)
    | Sending(job: nat, result: Summary)
    | Pausing
    | Exited

  datatype Reducer = Receiving | Reporting | Returned

  /** Where a job handed out by the feeder is now. */
  datatype Place = Held(worker: nat) | Delivered | Dropped

  /** `places`, `started` and `delivered` record the run; nothing branches on them. */
  datatype State = State(
    fed: nat, jobsClosed: bool, resultsClosed: bool, cancelled: bool,
    workers: seq<Worker>, reducer: Reducer,
    summary: Summary, processed: nat, reports: seq<nat>,
    places: seq<Place>, started: seq<nat>, delivered: seq<nat>)

  datatype Step =
    | Cancel
    | Feed(w: nat)
    | FeederFinish
    | FeederCancelled
    | ExitCancelled(w: nat)
    | ExitClosed(w: nat)
    | Check(w: nat)
    | Finish(w: nat, result: Summary)
    | Deliver(w: nat)
    | PauseOver(w: nat)
    | PauseCancelled(w: nat)
    | CloseResults
    | Report
    | Return

  function Upto(n: nat): seq<nat> { seq(n, i requires 0 <= i < n => i) }

  function Init(c: Config): State {
    State(0, false, false, false, seq(WorkerCount(c), _ => Idle), Receiving,
          ZERO, 0, [0], [], [], [])
  }

  predicate Enabled(c: Config, s: State, step: Step) {
    match step
    case Cancel => !s.cancelled
    case Feed(w) => !s.jobsClosed && s.fed < |c.slots| && w < |s.workers| && s.workers[w].Idle?
    case FeederFinish => !s.jobsClosed && s.fed == |c.slots|
    case FeederCancelled => !s.jobsClosed && s.fed < |c.slots| && s.cancelled
    case ExitCancelled(w) => w < |s.workers| && s.workers[w].Idle? && s.cancelled
    case ExitClosed(w) => w < |s.workers| && s.workers[w].Idle? && s.jobsClosed
    case Check(w) => w < |s.workers| && s.workers[w].Got?
    case Finish(w, result) =>
      && w < |s.workers| && s.workers[w].Running? && s.workers[w].job < |c.slots|
      && (if s.cancelled then Consistent(result) else result == c.run(c.slots[s.workers[w].job]))
    case Deliver(w) =>
      w < |s.workers| && s.workers[w].Sending? && !s.resultsClosed && s.reducer.Receiving?
    case PauseOver(w) => w < |s.workers| && s.workers[w].Pausing?
    case PauseCancelled(w) => w < |s.workers| && s.workers[w].Pausing? && s.cancelled
    case CloseResults => !s.resultsClosed && forall w :: 0 <= w < |s.workers| ==> s.workers[w].Exited?
    case Report => s.reducer.Reporting?
    case Return => s.reducer.Receiving? && s.resultsClosed
  }

  function Apply(c: Config, s: State, step: Step): State
    requires Enabled(c, s, step)
  {
    match step
    case Cancel => s.(cancelled := true)
    case Feed(w) => s.(fed := s.fed + 1, workers := s.workers[w := Got(s.fed)], places := s.places + [Held(w)])
    case FeederFinish => s.(jobsClosed := true)
    case FeederCancelled => s.(jobsClosed := true)
    case ExitCancelled(w) => s.(workers := s.workers[w := Exited])
    case ExitClosed(w) => s.(workers := s.workers[w := Exited])
    case Check(w) =>
      var job := s.workers[w].job;
      if s.cancelled then
        s.(workers := s.workers[w := Exited],
           places := if job < |s.places| then s.places[job := Dropped] else s.places)
      else if job < |c.slots| && Runs(c.slots[job]) then
        s.(workers := s.workers[w := Running(job)], started := s.started + [job])
      else s.(workers := s.workers[w := Sending(job, ZERO)])
    case Finish(w, result) => s.(workers := s.workers[w := Sending(s.workers[w].job, result)])
    case Deliver(w) =>
      var job := s.workers[w].job;
      s.(workers := s.workers[w := if c.pauses then Pausing else Idle], reducer := Reporting,
         summary := Plus(s.summary, s.workers[w].result), processed := s.processed + 1,
         places := if job < |s.places| then s.places[job := Delivered] else s.places,
         delivered := s.delivered + [job])
    case PauseOver(w) => s.(workers := s.workers[w := Idle])
    case PauseCancelled(w) => s.(workers := s.workers[w := Exited])
    case CloseResults => s.(resultsClosed := true)
    case Report => s.(reducer := Receiving, reports := if s.cancelled then s.reports else s.reports + [s.processed])
    case Return => s.(reducer := Returned)
  }

  // ---------- Invariants ----------

  predicate HasJob(w: Worker) { w.Got? || w.Running? || w.Sending? }

  predicate Past(w: Worker) { w.Running? || w.Sending? }

  ghost predicate Sized(c: Config, s: State) {
    |s.workers| == WorkerCount(c) && |s.places| == s.fed <= |c.slots|
  }

  ghost predicate Closing(c: Config, s: State) {
    && (s.jobsClosed ==> s.cancelled || s.fed == |c.slots|)
    && (forall w :: 0 <= w < |s.workers| && s.workers[w].Exited? ==> s.cancelled || s.jobsClosed)
    && (s.resultsClosed ==> forall w :: 0 <= w < |s.workers| ==> s.workers[w].Exited?)
    && (s.reducer.Returned? ==> s.resultsClosed)
  }

  /** A handed-out job is held by exactly the worker its place names. */
  ghost predicate Matching(workers: seq<Worker>, places: seq<Place>) {
    && (forall w :: 0 <= w < |workers| && HasJob(workers[w]) ==>
          workers[w].job < |places| && places[workers[w].job] == Held(w))
    && (forall j :: 0 <= j < |places| && places[j].Held? ==>
          places[j].worker < |workers| && HasJob(workers[places[j].worker]) && workers[places[j].worker].job == j)
  }

  ghost predicate Placed(s: State) {
    && Matching(s.workers, s.places)
    && (forall j :: 0 <= j < |s.places| && s.places[j].Dropped? ==> s.cancelled)
  }

  ghost predicate DeliveredOnce(s: State)
    requires |s.places| == s.fed
  {
    && NoRepeats(s.delivered)
    && (forall i :: 0 <= i < |s.delivered| ==> s.delivered[i] < s.fed && s.places[s.delivered[i]].Delivered?)
    && (forall j :: 0 <= j < s.fed && s.places[j].Delivered? ==> j in s.delivered)
  }

  /** The job is past its worker's cancellation check. */
  ghost predicate Entered(s: State, j: nat)
    requires |s.places| == s.fed && j < s.fed
  {
    match s.places[j]
    case Held(w) => w < |s.workers| && Past(s.workers[w])
    case Delivered => true
    case Dropped => false
  }

  ghost predicate StartedOnce(c: Config, s: State)
    requires |s.places| == s.fed <= |c.slots|
  {
    && NoRepeats(s.started)
    && (forall j :: j in s.started ==> j < s.fed && Runs(c.slots[j]) && Entered(s, j))
    && (forall j :: 0 <= j < s.fed && Runs(c.slots[j]) && Entered(s, j) ==> j in s.started)
  }

  function Expected(c: Config, j: nat): Summary {
    if j < |c.slots| && Runs(c.slots[j]) then c.run(c.slots[j]) else ZERO
  }

  /** The results of `jobs`, added in the order given. */
  function SumOf(c: Config, jobs: seq<nat>): Summary {
    if jobs == [] then ZERO else Plus(SumOf(c, jobs[..|jobs| - 1]), Expected(c, jobs[|jobs| - 1]))
  }

  ghost predicate WorkersExact(c: Config, s: State) {
    && (forall w :: 0 <= w < |s.workers| && s.workers[w].Sending? ==>
          s.workers[w].result == Expected(c, s.workers[w].job))
    && (forall w :: 0 <= w < |s.workers| && s.workers[w].Running? ==>
          s.workers[w].job < |c.slots| && Runs(c.slots[s.workers[w].job]))
  }

  ghost predicate Exact(c: Config, s: State) {
    !s.cancelled ==> WorkersExact(c, s) && s.summary == SumOf(c, s.delivered)
  }

  ghost predicate Sums(s: State) {
    && Consistent(s.summary)
    && (forall w :: 0 <= w < |s.workers| && s.workers[w].Sending? ==> Consistent(s.workers[w].result))
  }

  ghost predicate Reported(s: State) {
    && s.processed == |s.delivered|
    && s.reports == Upto(|s.reports|) && |s.reports| <= s.processed + 1
    && (!s.cancelled ==> |s.reports| == s.processed + if s.reducer.Reporting? then 0 else 1)
  }

  ghost predicate Inv(c: Config, s: State) {
    && Sized(c, s) && Closing(c, s) && Placed(s) && DeliveredOnce(s) && StartedOnce(c, s)
    && Exact(c, s) && Sums(s) && Reported(s)
  }

  ghost predicate RunConsistent(c: Config) {
    forall slot :: Consistent(c.run(slot))
  }

  lemma InitShape(c: Config)
    ensures Sized(c, Init(c)) && Closing(c, Init(c)) && Placed(Init(c))
  {
    var s := Init(c);
    assert forall w :: 0 <= w < |s.workers| ==> s.workers[w] == Idle;
  }

  lemma InitRecord(c: Config)
    ensures Sized(c, Init(c)) && DeliveredOnce(Init(c)) && StartedOnce(c, Init(c)) && Reported(Init(c))
  {
    assert Upto(1) == [0];
  }

  /** Nothing is being sent or run, so nothing has to be right about it. */
  lemma IdleResults(c: Config, s: State)
    requires s.delivered == [] && s.summary == ZERO
    requires forall w :: 0 <= w < |s.workers| ==> s.workers[w].Idle?
    ensures Exact(c, s) && Sums(s)
  {
  }

  lemma InitResults(c: Config)
    ensures Exact(c, Init(c)) && Sums(Init(c))
  {
    var s := Init(c);
    forall w | 0 <= w < |s.workers| ensures s.workers[w].Idle? { assert s.workers[w] == Idle; }
    IdleResults(c, s);
  }

  lemma InitInv(c: Config)
    ensures Inv(c, Init(c))
  {
    InitShape(c);
    InitRecord(c);
    InitResults(c);
  }

  lemma StepSized(c: Config, s: State, step: Step)
    requires Sized(c, s) && Enabled(c, s, step)
    ensures Sized(c, Apply(c, s, step))
  {
  }

  lemma StepClosing(c: Config, s: State, step: Step)
    requires Sized(c, s) && Closing(c, s) && Enabled(c, s, step)
    ensures Closing(c, Apply(c, s, step))
  {
  }

  lemma MatchingKept(workers: seq<Worker>, places: seq<Place>, w: nat, next: Worker)
    requires Matching(workers, places) && w < |workers|
    requires HasJob(workers[w]) == HasJob(next) && (HasJob(next) ==> next.job == workers[w].job)
    ensures Matching(workers[w := next], places)
  {
  }

  lemma MatchingTaken(workers: seq<Worker>, places: seq<Place>, w: nat)
    requires Matching(workers, places) && w < |workers| && !HasJob(workers[w])
    ensures Matching(workers[w := Got(|places|)], places + [Held(w)])
  {
  }

  lemma MatchingGiven(workers: seq<Worker>, places: seq<Place>, w: nat, next: Worker, place: Place)
    requires Matching(workers, places) && w < |workers| && HasJob(workers[w])
    requires !HasJob(next) && !place.Held?
    ensures Matching(workers[w := next], places[workers[w].job := place])
  {
  }

  lemma StepPlaced(c: Config, s: State, step: Step)
    requires Sized(c, s) && Placed(s) && Enabled(c, s, step)
    ensures Placed(Apply(c, s, step))
  {
    match step
    case Feed(w) => MatchingTaken(s.workers, s.places, w);
    case Check(w) => CheckPlaced(c, s, w);
    case Deliver(w) => MatchingGiven(s.workers, s.places, w, if c.pauses then Pausing else Idle, Delivered);
    case _ => QuietPlaced(c, s, step);
  }

  lemma CheckPlaced(c: Config, s: State, w: nat)
    requires Sized(c, s) && Placed(s) && Enabled(c, s, Check(w))
    ensures Placed(Apply(c, s, Check(w)))
  {
    if s.cancelled {
      MatchingGiven(s.workers, s.places, w, Exited, Dropped);
    } else {
      MatchingKept(s.workers, s.places, w, Apply(c, s, Check(w)).workers[w]);
    }
  }

  /** Steps that neither hand out, drop nor deliver a job. */
  lemma QuietPlaced(c: Config, s: State, step: Step)
    requires Placed(s) && Enabled(c, s, step) && !step.Feed? && !step.Check? && !step.Deliver?
    ensures Placed(Apply(c, s, step))
  {
    var t := Apply(c, s, step);
    match step
    case ExitCancelled(w) => MatchingKept(s.workers, s.places, w, Exited);
    case ExitClosed(w) => MatchingKept(s.workers, s.places, w, Exited);
    case Finish(w, result) => MatchingKept(s.workers, s.places, w, Sending(s.workers[w].job, result));
    case PauseOver(w) => MatchingKept(s.workers, s.places, w, Idle);
    case PauseCancelled(w) => MatchingKept(s.workers, s.places, w, Exited);
    case _ =>
  }

  /** Nothing is delivered, and no delivered place changes. */
  lemma NoneDelivered(s: State, t: State)
    requires |s.places| == s.fed && |t.places| == t.fed && DeliveredOnce(s)
    requires t.delivered == s.delivered && s.fed <= t.fed
    requires forall j :: 0 <= j < s.fed ==> s.places[j].Delivered? == t.places[j].Delivered?
    requires forall j :: s.fed <= j < t.fed ==> !t.places[j].Delivered?
    ensures DeliveredOnce(t)
  {
  }

  lemma OneDelivered(s: State, t: State, job: nat)
    requires |s.places| == s.fed == t.fed && DeliveredOnce(s) && job < s.fed && !s.places[job].Delivered?
    requires t.delivered == s.delivered + [job] && t.places == s.places[job := Delivered]
    ensures DeliveredOnce(t)
  {
    assert t.delivered[|s.delivered|] == job;
    forall j | 0 <= j < t.fed && t.places[j].Delivered? ensures j in t.delivered {
      if j != job { assert s.places[j].Delivered? && j in s.delivered; }
    }
  }

  lemma StepDeliveredOnce(c: Config, s: State, step: Step)
    requires Sized(c, s) && Placed(s) && DeliveredOnce(s) && Enabled(c, s, step)
    ensures Sized(c, Apply(c, s, step)) && DeliveredOnce(Apply(c, s, step))
  {
    var t := Apply(c, s, step);
    if step.Deliver? {
      OneDelivered(s, t, s.workers[step.w].job);
    } else {
      NoneDelivered(s, t);
    }
  }

  /** Only a passed check changes which jobs have been entered. */
  lemma EnteredStep(c: Config, s: State, step: Step, j: nat)
    requires Sized(c, s) && Placed(s) && Enabled(c, s, step) && j < s.fed
    ensures Sized(c, Apply(c, s, step))
    ensures Entered(Apply(c, s, step), j) <==>
            Entered(s, j) || (step.Check? && !s.cancelled && s.workers[step.w].job == j)
  {
    StepSized(c, s, step);
    var t := Apply(c, s, step);
    match step
    case Cancel => assert t.places == s.places && t.workers == s.workers;
    case Feed(w) => assert t.places[j] == s.places[j];
    case Check(w) => EnteredCheck(c, s, w, j);
    case Finish(w, _) => assert t.places == s.places;
    case Deliver(w) => assert s.places[s.workers[w].job] == Held(w);
    case _ => assert t.places == s.places;
  }

  lemma EnteredCheck(c: Config, s: State, w: nat, j: nat)
    requires Sized(c, s) && Placed(s) && Enabled(c, s, Check(w)) && j < s.fed
    ensures Sized(c, Apply(c, s, Check(w)))
    ensures Entered(Apply(c, s, Check(w)), j) <==> Entered(s, j) || (!s.cancelled && s.workers[w].job == j)
  {
    assert s.places[s.workers[w].job] == Held(w);
  }

  lemma StepStartedOnce(c: Config, s: State, step: Step)
    requires Sized(c, s) && Placed(s) && StartedOnce(c, s) && Enabled(c, s, step)
    ensures Sized(c, Apply(c, s, step)) && StartedOnce(c, Apply(c, s, step))
  {
    var t := Apply(c, s, step);
    StepSized(c, s, step);
    forall j: nat | j < s.fed
      ensures Entered(t, j) <==> Entered(s, j) || (step.Check? && !s.cancelled && s.workers[step.w].job == j)
    {
      EnteredStep(c, s, step, j);
    }
    if step.Check? && !s.cancelled {
      StartedByCheck(c, s, step.w);
    } else {
      assert t.started == s.started;
      assert forall j :: s.fed <= j < t.fed ==> !Entered(t, j);
    }
  }

  /** The job whose check is passed is started if it is to run, for the first time. */
  lemma StartedByCheck(c: Config, s: State, w: nat)
    requires Sized(c, s) && Placed(s) && StartedOnce(c, s) && Enabled(c, s, Check(w)) && !s.cancelled
    ensures Sized(c, Apply(c, s, Check(w))) && StartedOnce(c, Apply(c, s, Check(w)))
  {
    var t, job := Apply(c, s, Check(w)), s.workers[w].job;
    assert s.places[job] == Held(w) && !Entered(s, job) && job !in s.started;
    forall j: nat | j < s.fed ensures Entered(t, j) <==> Entered(s, j) || job == j { EnteredCheck(c, s, w, j); }
  }

  lemma SumSnoc(c: Config, jobs: seq<nat>, job: nat)
    ensures SumOf(c, jobs + [job]) == Plus(SumOf(c, jobs), Expected(c, job))
  {
    assert (jobs + [job])[..|jobs|] == jobs;
  }

  lemma StepSummary(c: Config, s: State, step: Step)
    requires Exact(c, s) && Enabled(c, s, step)
    ensures var t := Apply(c, s, step); !t.cancelled ==> t.summary == SumOf(c, t.delivered)
  {
    if step.Deliver? { SumSnoc(c, s.delivered, s.workers[step.w].job); }
  }

  lemma StepWorkersExact(c: Config, s: State, step: Step)
    requires (!s.cancelled ==> WorkersExact(c, s)) && Enabled(c, s, step)
    ensures var t := Apply(c, s, step); !t.cancelled ==> WorkersExact(c, t)
  {
  }

  lemma StepExact(c: Config, s: State, step: Step)
    requires Exact(c, s) && Enabled(c, s, step)
    ensures Exact(c, Apply(c, s, step))
  {
    StepSummary(c, s, step);
    StepWorkersExact(c, s, step);
  }

  lemma StepSums(c: Config, s: State, step: Step)
    requires Sums(s) && Enabled(c, s, step) && RunConsistent(c)
    ensures Sums(Apply(c, s, step))
  {
  }

  lemma StepReported(c: Config, s: State, step: Step)
    requires Reported(s) && Enabled(c, s, step)
    ensures Reported(Apply(c, s, step))
  {
  }
}
