/**
 The global usage counters of body storages. Creating and closing a storage
 each touch two atomic counters, one after the other, so the operations of
 different storages interleave between any two of these touches.
 */
module StorageCounters {

  datatype Kind = Memory | Disk

  /**
   A storage's progress: New, then counted, then Live with its size added; after
   the first Close it is Closing, then uncounted, then Gone. A disk counter
   seen below zero would be reset before going on.
   */
  datatype Phase = New | Counted | Live | Closing | CountBelowZero | Uncounted | SizeBelowZero | Gone

  datatype Stored = Stored(kind: Kind, size: nat, phase: Phase)

  datatype Counters = Counters(count: int, bytes: int)

  datatype State = State(stores: seq<Stored>, disk: Counters, memory: Counters)

  datatype Step =
    | Create(kind: Kind, size: nat)
    | AddCount(i: nat)
    | AddSize(i: nat)
    | Close(i: nat)
    | SubtractCount(i: nat)
    | ResetCount(i: nat)
    | SubtractSize(i: nat)
    | ResetSize(i: nat)

  const INIT := State([], Counters(0, 0), Counters(0, 0))

  function Get(s: State, kind: Kind): Counters { if kind.Disk? then s.disk else s.memory }

  function Put(s: State, kind: Kind, c: Counters): State {
    if kind.Disk? then s.(disk := c) else s.(memory := c)
  }

  function Move(s: State, i: nat, phase: Phase): State
    requires i < |s.stores|
  {
    s.(stores := s.stores[i := s.stores[i].(phase := phase)])
  }

  predicate Enabled(s: State, step: Step) {
    match step
    case Create(_, _) => true
    case AddCount(i) => i < |s.stores| && s.stores[i].phase.New?
    case AddSize(i) => i < |s.stores| && s.stores[i].phase.Counted?
    case Close(i) => i < |s.stores| && !s.stores[i].phase.New? && !s.stores[i].phase.Counted?
    case SubtractCount(i) => i < |s.stores| && s.stores[i].phase.Closing?
    case ResetCount(i) => i < |s.stores| && s.stores[i].phase.CountBelowZero?
    case SubtractSize(i) => i < |s.stores| && s.stores[i].phase.Uncounted?
    case ResetSize(i) => i < |s.stores| && s.stores[i].phase.SizeBelowZero?
  }

  /** Only the first Close of a storage does anything. */
  function Apply(s: State, step: Step): State
    requires Enabled(s, step)
  {
    match step
    case Create(kind, size) => s.(stores := s.stores + [Stored(kind, size, New)])
    case AddCount(i) =>
      var c := Get(s, s.stores[i].kind);
      Put(Move(s, i, Counted), s.stores[i].kind, c.(count := c.count + 1))
    case AddSize(i) =>
      var c := Get(s, s.stores[i].kind);
      Put(Move(s, i, Live), s.stores[i].kind, c.(bytes := c.bytes + s.stores[i].size))
    case Close(i) => if s.stores[i].phase.Live? then Move(s, i, Closing) else s
    case SubtractCount(i) =>
      var kind := s.stores[i].kind;
      var c := Get(s, kind);
      Put(Move(s, i, if kind.Disk? && c.count - 1 < 0 then CountBelowZero else Uncounted), kind, c.(count := c.count - 1))
    case ResetCount(i) => Put(Move(s, i, Uncounted), s.stores[i].kind, Get(s, s.stores[i].kind).(count := 0))
    case SubtractSize(i) =>
      var kind, size := s.stores[i].kind, s.stores[i].size;
      var c := Get(s, kind);
      Put(Move(s, i, if kind.Disk? && c.bytes - size < 0 then SizeBelowZero else Gone), kind, c.(bytes := c.bytes - size))
    case ResetSize(i) => Put(Move(s, i, Gone), s.stores[i].kind, Get(s, s.stores[i].kind).(bytes := 0))
  }

  // ---------- What the counters hold ----------

  /** What one storage currently adds to its kind's count and bytes. */
  function Part(x: Stored, kind: Kind): Counters {
    if x.kind != kind then Counters(0, 0)
    else match x.phase
      case New => Counters(0, 0)
      case Counted => Counters(1, 0)
      case Live => Counters(1, x.size)
      case Closing => Counters(1, x.size)
      case CountBelowZero => Counters(0, x.size)
      case Uncounted => Counters(0, x.size)
      case SizeBelowZero => Counters(0, 0)
      case Gone => Counters(0, 0)
  }

  function Sum(stores: seq<Stored>, kind: Kind): Counters {
    if stores == [] then Counters(0, 0)
    else
      var before, last := Sum(stores[..|stores| - 1], kind), Part(stores[|stores| - 1], kind);
      Counters(before.count + last.count, before.bytes + last.bytes)
  }

  lemma {:induction false} SumUpdate(stores: seq<Stored>, kind: Kind, i: nat, x: Stored)
    requires i < |stores|
    ensures var before, after := Sum(stores, kind), Sum(stores[i := x], kind);
      && after.count == before.count - Part(stores[i], kind).count + Part(x, kind).count
      && after.bytes == before.bytes - Part(stores[i], kind).bytes + Part(x, kind).bytes
  {
    var last := |stores| - 1;
    if i < last {
      SumUpdate(stores[..last], kind, i, x);
      assert stores[i := x][..last] == stores[..last][i := x];
    } else {
      assert stores[i := x][..last] == stores[..last];
    }
  }

  /** The sum is at least each part: a storage being closed is still paid for. */
  lemma {:induction false} PartInSum(stores: seq<Stored>, kind: Kind, i: nat)
    requires i < |stores|
    ensures Sum(stores, kind).count >= Part(stores[i], kind).count
    ensures Sum(stores, kind).bytes >= Part(stores[i], kind).bytes
  {
    var last := |stores| - 1;
    NonNegative(stores[..last], kind);
    if i < last { PartInSum(stores[..last], kind, i); }
  }

  lemma {:induction false} NonNegative(stores: seq<Stored>, kind: Kind)
    ensures Sum(stores, kind).count >= 0 && Sum(stores, kind).bytes >= 0
  {
    if stores != [] { NonNegative(stores[..|stores| - 1], kind); }
  }

  ghost predicate Exact(s: State) {
    s.disk == Sum(s.stores, Disk) && s.memory == Sum(s.stores, Memory)
  }

  ghost predicate NoneBelowZero(s: State) {
    forall i :: 0 <= i < |s.stores| ==> !s.stores[i].phase.CountBelowZero? && !s.stores[i].phase.SizeBelowZero?
  }

  lemma StepNoneBelowZero(s: State, step: Step)
    requires Exact(s) && NoneBelowZero(s) && Enabled(s, step)
    ensures NoneBelowZero(Apply(s, step))
  {
    if !step.Create? { PartInSum(s.stores, Disk, step.i); }
  }

  /** A storage's move is exact when its counters change by what its part changes. */
  lemma MoveExact(s: State, t: State, i: nat)
    requires Exact(s) && i < |s.stores|
    requires |t.stores| == |s.stores| && t.stores == s.stores[i := t.stores[i]]
    requires forall kind ::
      var before, after := Part(s.stores[i], kind), Part(t.stores[i], kind);
      && Get(t, kind).count == Get(s, kind).count - before.count + after.count
      && Get(t, kind).bytes == Get(s, kind).bytes - before.bytes + after.bytes
    ensures Exact(t)
  {
    assert Get(t, Disk) == t.disk && Get(t, Memory) == t.memory;
    SumUpdate(s.stores, Disk, i, t.stores[i]);
    SumUpdate(s.stores, Memory, i, t.stores[i]);
  }

  lemma StepExact(s: State, step: Step)
    requires Exact(s) && NoneBelowZero(s) && Enabled(s, step)
    ensures Exact(Apply(s, step))
  {
    var t := Apply(s, step);
    if step.Create? {
      assert t.stores[..|s.stores|] == s.stores;
    } else {
      StepNoneBelowZero(s, step);
      MoveExact(s, t, step.i);
    }
  }

  // ---------- Runs ----------

  ghost predicate Legal(steps: seq<Step>)
    decreases |steps|, 0
  {
    steps == [] ||
    (var before := steps[..|steps| - 1]; Legal(before) && Enabled(After(before), steps[|steps| - 1]))
  }

  ghost function After(steps: seq<Step>): State
    requires Legal(steps)
    decreases |steps|, 1
  {
    if steps == [] then INIT else Apply(After(steps[..|steps| - 1]), steps[|steps| - 1])
  }

  /** Whatever the interleaving, the counters are the sum over the storages and no reset is ever needed. */
  lemma {:induction false} CountersExact(steps: seq<Step>)
    requires Legal(steps)
    ensures Exact(After(steps)) && NoneBelowZero(After(steps))
    ensures forall i :: !Enabled(After(steps), ResetCount(i)) && !Enabled(After(steps), ResetSize(i))
  {
    if steps != [] {
      CountersExact(steps[..|steps| - 1]);
      StepNoneBelowZero(After(steps[..|steps| - 1]), steps[|steps| - 1]);
      StepExact(After(steps[..|steps| - 1]), steps[|steps| - 1]);
    }
  }

  function LiveOf(stores: seq<Stored>, kind: Kind): Counters {
    if stores == [] then Counters(0, 0)
    else
      var before, x := LiveOf(stores[..|stores| - 1], kind), stores[|stores| - 1];
      if x.kind == kind && x.phase.Live? then Counters(before.count + 1, before.bytes + x.size) else before
  }

  lemma {:induction false} SettledSum(stores: seq<Stored>, kind: Kind)
    requires forall i :: 0 <= i < |stores| ==> stores[i].phase.Live? || stores[i].phase.Gone?
    ensures Sum(stores, kind) == LiveOf(stores, kind)
  {
    if stores != [] { SettledSum(stores[..|stores| - 1], kind); }
  }

  /** When no creation or close is under way, the counters are the number and size of the open storages. */
  lemma SettledCounters(steps: seq<Step>)
    requires Legal(steps)
    requires forall i :: 0 <= i < |After(steps).stores| ==>
      After(steps).stores[i].phase.Live? || After(steps).stores[i].phase.Gone?
    ensures After(steps).disk == LiveOf(After(steps).stores, Disk)
    ensures After(steps).memory == LiveOf(After(steps).stores, Memory)
  {
    CountersExact(steps);
    SettledSum(After(steps).stores, Disk);
    SettledSum(After(steps).stores, Memory);
  }

  // ---------- From the run alone ----------

  datatype Creation = Creation(kind: Kind, size: nat)

  /** The storages a run creates, in order. */
  function Creations(steps: seq<Step>): seq<Creation> {
    if steps == [] then []
    else
      var before, last := Creations(steps[..|steps| - 1]), steps[|steps| - 1];
      if last.Create? then before + [Creation(last.kind, last.size)] else before
  }

  predicate Unclosed(p: Phase) { p.New? || p.Counted? || p.Live? }

  /** Storage `i` is the one created `i`-th, and is on its way out exactly if it has been closed. */
  ghost predicate Told(s: State, steps: seq<Step>, created: seq<Creation>, i: nat)
    requires i < |s.stores| == |created|
  {
    && s.stores[i].kind == created[i].kind && s.stores[i].size == created[i].size
    && (Unclosed(s.stores[i].phase) <==> Step.Close(i) !in steps)
  }

  lemma StepTold(s: State, steps: seq<Step>, step: Step, created: seq<Creation>, i: nat)
    requires Enabled(s, step) && |s.stores| == |created| && i < |Apply(s, step).stores|
    requires i < |s.stores| ==> Told(s, steps, created, i)
    requires Step.Close(i) in steps ==> i < |s.stores|
    ensures var after := if step.Create? then created + [Creation(step.kind, step.size)] else created;
      |Apply(s, step).stores| == |after| && Told(Apply(s, step), steps + [step], after, i)
  {
  }

  lemma {:induction false} RunTold(steps: seq<Step>)
    requires Legal(steps)
    ensures |After(steps).stores| == |Creations(steps)|
    ensures forall i: nat :: i < |After(steps).stores| ==> Told(After(steps), steps, Creations(steps), i)
    ensures forall i: nat :: Step.Close(i) in steps ==> i < |After(steps).stores|
  {
    if steps != [] {
      var before, step := steps[..|steps| - 1], steps[|steps| - 1];
      RunTold(before);
      assert steps == before + [step];
      forall i: nat | i < |After(steps).stores| ensures Told(After(steps), steps, Creations(steps), i) {
        StepTold(After(before), before, step, Creations(before), i);
      }
      assert |After(steps).stores| == |Creations(steps)|;
    }
  }

  /** What the created storages that were never closed add up to. */
  function OpenTotal(created: seq<Creation>, steps: seq<Step>, kind: Kind, n: nat): Counters
    requires n <= |created|
  {
    if n == 0 then Counters(0, 0)
    else
      var before := OpenTotal(created, steps, kind, n - 1);
      if created[n - 1].kind == kind && Step.Close(n - 1) !in steps
      then Counters(before.count + 1, before.bytes + created[n - 1].size) else before
  }

  lemma {:induction false} LiveIsOpen(s: State, steps: seq<Step>, created: seq<Creation>, kind: Kind, n: nat)
    requires n <= |s.stores| == |created| && forall i: nat :: i < |s.stores| ==> Told(s, steps, created, i)
    requires forall i :: 0 <= i < |s.stores| ==> s.stores[i].phase.Live? || s.stores[i].phase.Gone?
    ensures LiveOf(s.stores[..n], kind) == OpenTotal(created, steps, kind, n)
  {
    if n > 0 {
      LiveIsOpen(s, steps, created, kind, n - 1);
      assert s.stores[..n][..n - 1] == s.stores[..n - 1];
      assert Told(s, steps, created, n - 1);
    }
  }

  /**
   Once nothing is under way, each kind's counters are the number and the total
   size of the storages of that kind that the run created and never closed.
   */
  lemma CountersFromRun(steps: seq<Step>)
    requires Legal(steps)
    requires forall i :: 0 <= i < |After(steps).stores| ==>
      After(steps).stores[i].phase.Live? || After(steps).stores[i].phase.Gone?
    ensures var created := Creations(steps);
      && After(steps).disk == OpenTotal(created, steps, Disk, |created|)
      && After(steps).memory == OpenTotal(created, steps, Memory, |created|)
  {
    var s, n := After(steps), |Creations(steps)|;
    SettledCounters(steps);
    RunTold(steps);
    LiveIsOpen(s, steps, Creations(steps), Disk, n);
    LiveIsOpen(s, steps, Creations(steps), Memory, n);
    assert s.stores[..n] == s.stores;
  }

  /** A storage on its way can always take its next step, so every run can be brought to that point. */
  lemma NeverHeldUp(s: State, i: nat) returns (step: Step)
    requires i < |s.stores| && !s.stores[i].phase.Live? && !s.stores[i].phase.Gone?
    ensures Enabled(s, step) && !step.Create? && !step.Close? && Apply(s, step).stores[i].phase != s.stores[i].phase
  {
    match s.stores[i].phase
    case New => step := AddCount(i);
    case Counted => step := AddSize(i);
    case Closing => step := SubtractCount(i);
    case CountBelowZero => step := ResetCount(i);
    case Uncounted => step := SubtractSize(i);
    case SizeBelowZero => step := ResetSize(i);
  }
}
