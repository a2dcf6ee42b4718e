/**
 Publishing email configurations through one atomic reference: each publisher
 loads the reference, gives up if a newer revision is visible and its own
 carries no error, and otherwise tries to swap its snapshot in, starting over
 when the reference has moved. Steps of different publishers interleave freely.
 */
module EmailPublish {
  import opened Basics
  import opened Counting

  datatype Publication = Publication(revision: int, failed: bool)

  /** What the reference can hold: nothing, the snapshot there at the start, or a publisher's own. */
  datatype Ref = Nil | Initial | Of(publisher: nat)

  /** `initial` is the snapshot visible at the start, if any. */
  datatype Config = Config(initial: Start, pubs: seq<Publication>)

  datatype Start = Unset | Set(revision: int, failed: bool)

  datatype Phase = Loading | Loaded(was: Ref) | Installed | GaveUp

  /** `swaps` lists the publishers whose swap succeeded; `seen` is its length at each one's last load. */
  datatype State = State(current: Ref, phases: seq<Phase>, swaps: seq<nat>, seen: seq<nat>, retries: seq<nat>)

  datatype Step = Load(i: nat) | GiveUp(i: nat) | Swap(i: nat) | Retry(i: nat)

  function StartRef(c: Config): Ref { if c.initial.Unset? then Nil else Initial }

  predicate Known(c: Config, p: Ref) {
    match p
    case Nil => true
    case Initial => c.initial.Set?
    case Of(i) => i < |c.pubs|
  }

  function Revision(c: Config, p: Ref): int
    requires Known(c, p) && !p.Nil?
  {
    match p
    case Initial => c.initial.revision
    case Of(i) => c.pubs[i].revision
  }

  /** The publisher sees something newer and has no error to report. */
  predicate Outdated(c: Config, i: nat, was: Ref)
    requires i < |c.pubs| && Known(c, was)
  {
    !was.Nil? && Revision(c, was) > c.pubs[i].revision && !c.pubs[i].failed
  }

  function Init(c: Config): State {
    var n := |c.pubs|;
    State(StartRef(c), seq(n, _ => Loading), [], seq(n, _ => 0), seq(n, _ => 0))
  }

  predicate Enabled(c: Config, s: State, step: Step) {
    && step.i < |c.pubs| == |s.phases| == |s.seen| == |s.retries|
    && match step
       case Load(i) => s.phases[i].Loading?
       case GiveUp(i) => s.phases[i].Loaded? && Known(c, s.phases[i].was) && Outdated(c, i, s.phases[i].was)
       case Swap(i) =>
         && s.phases[i].Loaded? && Known(c, s.phases[i].was) && !Outdated(c, i, s.phases[i].was)
         && s.current == s.phases[i].was
       case Retry(i) =>
         && s.phases[i].Loaded? && Known(c, s.phases[i].was) && !Outdated(c, i, s.phases[i].was)
         && s.current != s.phases[i].was
  }

  function Apply(c: Config, s: State, step: Step): State
    requires Enabled(c, s, step)
  {
    var i := step.i;
    match step
    case Load(_) => s.(phases := s.phases[i := Loaded(s.current)], seen := s.seen[i := |s.swaps|])
    case GiveUp(_) => s.(phases := s.phases[i := GaveUp])
    case Swap(_) => s.(current := Of(i), phases := s.phases[i := Installed], swaps := s.swaps + [i])
    case Retry(_) => s.(phases := s.phases[i := Loading], retries := s.retries[i := s.retries[i] + 1])
  }

  // ---------- Invariants ----------

  /** The reference after the first `k` swaps. */
  function RefAfter(c: Config, swaps: seq<nat>, k: nat): Ref
    requires k <= |swaps|
  {
    if k == 0 then StartRef(c) else Of(swaps[k - 1])
  }

  ghost predicate Sized(c: Config, s: State) {
    |s.phases| == |s.seen| == |s.retries| == |c.pubs|
  }

  ghost predicate SwapsOnce(c: Config, s: State)
    requires Sized(c, s)
  {
    && (forall k :: 0 <= k < |s.swaps| ==> s.swaps[k] < |c.pubs| && s.phases[s.swaps[k]].Installed?)
    && NoRepeats(s.swaps)
    && (forall i :: 0 <= i < |c.pubs| && s.phases[i].Installed? ==> i in s.swaps)
    && s.current == RefAfter(c, s.swaps, |s.swaps|)
  }

  /** A loaded reference is the one of the moment it was loaded, and retries are paid for by swaps. */
  ghost predicate Remembers(c: Config, s: State)
    requires Sized(c, s)
  {
    forall i :: 0 <= i < |c.pubs| ==>
      && s.retries[i] <= |s.swaps|
      && (s.phases[i].Loaded? ==>
            && s.retries[i] <= s.seen[i] <= |s.swaps|
            && s.phases[i].was == RefAfter(c, s.swaps, s.seen[i]))
  }

  ghost predicate Inv(c: Config, s: State) {
    Sized(c, s) && SwapsOnce(c, s) && Remembers(c, s)
  }

  lemma InitInv(c: Config)
    ensures Inv(c, Init(c))
  {
  }

  lemma StepInv(c: Config, s: State, step: Step)
    requires Inv(c, s) && Enabled(c, s, step)
    ensures Inv(c, Apply(c, s, step))
  {
    StepSwapsOnce(c, s, step);
    StepRemembers(c, s, step);
  }

  lemma StepSwapsOnce(c: Config, s: State, step: Step)
    requires Sized(c, s) && SwapsOnce(c, s) && Enabled(c, s, step)
    ensures Sized(c, Apply(c, s, step)) && SwapsOnce(c, Apply(c, s, step))
  {
  }

  lemma StepRemembers(c: Config, s: State, step: Step)
    requires Inv(c, s) && Enabled(c, s, step)
    ensures Sized(c, Apply(c, s, step)) && Remembers(c, Apply(c, s, step))
  {
    if step.Retry? { MovedSince(c, s, step.i); }
  }

  /**
   The compare-and-swap has no ABA: a publisher is sent back only because some
   other publisher's swap succeeded after its load, and succeeds only if none did.
   */
  lemma MovedSince(c: Config, s: State, i: nat)
    requires Inv(c, s) && i < |c.pubs| && s.phases[i].Loaded?
    ensures s.current != s.phases[i].was <==> s.seen[i] < |s.swaps|
    ensures s.seen[i] < |s.swaps| ==> s.swaps[s.seen[i]] != i
  {
    var k, n := s.seen[i], |s.swaps|;
    if k < n && k > 0 { assert s.swaps[k - 1] != s.swaps[n - 1]; }
  }

  // ---------- Runs ----------

  ghost predicate Legal(c: Config, steps: seq<Step>)
    decreases |steps|, 0
  {
    steps == [] ||
    (var before := steps[..|steps| - 1];
     Legal(c, before) && Enabled(c, After(c, before), steps[|steps| - 1]))
  }

  ghost function After(c: Config, steps: seq<Step>): State
    requires Legal(c, steps)
    decreases |steps|, 1
  {
    if steps == [] then Init(c) else Apply(c, After(c, steps[..|steps| - 1]), steps[|steps| - 1])
  }

  lemma {:induction false} RunInv(c: Config, steps: seq<Step>)
    requires Legal(c, steps)
    ensures Inv(c, After(c, steps))
  {
    if steps == [] {
      InitInv(c);
    } else {
      RunInv(c, steps[..|steps| - 1]);
      StepInv(c, After(c, steps[..|steps| - 1]), steps[|steps| - 1]);
    }
  }

  lemma RefKnown(c: Config, s: State)
    requires Inv(c, s)
    ensures Known(c, s.current)
    ensures forall i :: 0 <= i < |c.pubs| && s.phases[i].Loaded? ==> Known(c, s.phases[i].was)
  {
  }

  /** The visible revision goes down in one way only: an error is published over it. */
  lemma VisibleStep(c: Config, s: State, step: Step)
    requires Inv(c, s) && Enabled(c, s, step) && !s.current.Nil?
    requires !(step.Swap? && c.pubs[step.i].failed)
    ensures var t := Apply(c, s, step);
      && Known(c, s.current) && Known(c, t.current) && !t.current.Nil?
      && Revision(c, t.current) >= Revision(c, s.current)
  {
  }

  ghost predicate NoErrors(c: Config) {
    forall i :: 0 <= i < |c.pubs| ==> !c.pubs[i].failed
  }

  ghost predicate Done(c: Config, s: State, i: nat)
    requires Sized(c, s) && i < |c.pubs|
  {
    s.phases[i].Installed? || s.phases[i].GaveUp?
  }

  /** The visible revision is at least every finished publisher's and the initial one. */
  ghost predicate Covers(c: Config, s: State)
    requires Inv(c, s)
  {
    RefKnown(c, s);
    && (c.initial.Set? ==> !s.current.Nil? && Revision(c, s.current) >= c.initial.revision)
    && (forall i :: 0 <= i < |c.pubs| && Done(c, s, i) ==>
          !s.current.Nil? && Revision(c, s.current) >= c.pubs[i].revision)
    && (forall i :: 0 <= i < |c.pubs| && s.phases[i].Loaded? && !s.phases[i].was.Nil? ==>
          !s.current.Nil? && Revision(c, s.current) >= Revision(c, s.phases[i].was))
  }

  /** A revision at least this new is visible. */
  ghost predicate Shows(c: Config, s: State, revision: int) {
    !s.current.Nil? && Known(c, s.current) && Revision(c, s.current) >= revision
  }

  /** What a step by publisher `i` leaves covered, when the visible revision does not drop. */
  lemma CoversKept(c: Config, s: State, t: State, i: nat)
    requires Inv(c, s) && Inv(c, t) && Covers(c, s) && i < |c.pubs|
    requires forall j :: 0 <= j < |c.pubs| && j != i ==> t.phases[j] == s.phases[j]
    requires !s.current.Nil? && Known(c, s.current) ==> Shows(c, t, Revision(c, s.current))
    requires Done(c, t, i) ==> Shows(c, t, c.pubs[i].revision)
    requires t.phases[i].Loaded? && !t.phases[i].was.Nil? && Known(c, t.phases[i].was) ==>
      Shows(c, t, Revision(c, t.phases[i].was))
    ensures Covers(c, t)
  {
    RefKnown(c, s);
    RefKnown(c, t);
    forall j | 0 <= j < |c.pubs| && Done(c, t, j)
      ensures !t.current.Nil? && Revision(c, t.current) >= c.pubs[j].revision
    {
      if j != i { assert Done(c, s, j); }
    }
    forall j | 0 <= j < |c.pubs| && t.phases[j].Loaded? && !t.phases[j].was.Nil?
      ensures !t.current.Nil? && Revision(c, t.current) >= Revision(c, t.phases[j].was)
    {
      if j != i { assert s.phases[j] == t.phases[j]; }
    }
  }

  lemma StepCovers(c: Config, s: State, step: Step)
    requires Inv(c, s) && Covers(c, s) && Enabled(c, s, step) && NoErrors(c)
    ensures Inv(c, Apply(c, s, step)) && Covers(c, Apply(c, s, step))
  {
    var t := Apply(c, s, step);
    StepInv(c, s, step);
    RefKnown(c, s);
    RefKnown(c, t);
    if !s.current.Nil? { VisibleStep(c, s, step); }
    CoversKept(c, s, t, step.i);
  }

  lemma {:induction false} RunCovers(c: Config, steps: seq<Step>)
    requires Legal(c, steps) && NoErrors(c)
    ensures Inv(c, After(c, steps)) && Covers(c, After(c, steps))
  {
    RunInv(c, steps);
    if steps != [] {
      RunCovers(c, steps[..|steps| - 1]);
      StepCovers(c, After(c, steps[..|steps| - 1]), steps[|steps| - 1]);
    }
  }

  /**
   Once all error-free publishers have returned, in whatever interleaving, the
   visible revision is the largest of those published and the initial one.
   */
  lemma MaximumWins(c: Config, steps: seq<Step>)
    requires Legal(c, steps) && NoErrors(c) && |c.pubs| > 0
    requires forall i :: 0 <= i < |c.pubs| ==>
      After(c, steps).phases[i].Installed? || After(c, steps).phases[i].GaveUp?
    ensures var p := After(c, steps).current;
      && Known(c, p) && !p.Nil?
      && (forall i :: 0 <= i < |c.pubs| ==> c.pubs[i].revision <= Revision(c, p))
      && (c.initial.Set? ==> c.initial.revision <= Revision(c, p))
      && (p.Initial? || (exists i :: 0 <= i < |c.pubs| && c.pubs[i].revision == Revision(c, p)))
  {
    RunCovers(c, steps);
    AllDone(c, After(c, steps));
  }

  lemma AllDone(c: Config, s: State)
    requires Inv(c, s) && Covers(c, s) && |c.pubs| > 0
    requires forall i :: 0 <= i < |c.pubs| ==> Done(c, s, i)
    ensures Known(c, s.current) && !s.current.Nil?
    ensures forall i :: 0 <= i < |c.pubs| ==> c.pubs[i].revision <= Revision(c, s.current)
    ensures c.initial.Set? ==> c.initial.revision <= Revision(c, s.current)
    ensures s.current.Initial? || exists i :: 0 <= i < |c.pubs| && c.pubs[i].revision == Revision(c, s.current)
  {
    RefKnown(c, s);
    assert Done(c, s, 0);
    if s.current.Of? { assert c.pubs[s.current.publisher].revision == Revision(c, s.current); }
  }

  // ---------- When the visible revision can drop ----------

  ghost predicate LegalStep(c: Config, steps: seq<Step>, step: Step) {
    Legal(c, steps) && Enabled(c, After(c, steps), step)
  }

  /** The step lowers the visible revision. */
  ghost predicate Lowers(c: Config, s: State, step: Step)
    requires Enabled(c, s, step)
  {
    var t := Apply(c, s, step);
    && !s.current.Nil? && Known(c, s.current) && !t.current.Nil? && Known(c, t.current)
    && Revision(c, t.current) < Revision(c, s.current)
  }

  /** No step of any run lowers the visible revision. */
  ghost predicate NeverLowers(c: Config) {
    forall steps, step :: LegalStep(c, steps, step) ==> !Lowers(c, After(c, steps), step)
  }

  /** No failed publication is older than the initial revision or any other publication. */
  predicate ErrorsNewest(c: Config) {
    forall i :: 0 <= i < |c.pubs| && c.pubs[i].failed ==>
      && (c.initial.Set? ==> c.initial.revision <= c.pubs[i].revision)
      && (forall j :: 0 <= j < |c.pubs| ==> c.pubs[j].revision <= c.pubs[i].revision)
  }

  lemma NewestErrorsKeep(c: Config, s: State, step: Step)
    requires Inv(c, s) && Enabled(c, s, step) && ErrorsNewest(c)
    ensures !Lowers(c, s, step)
  {
    RefKnown(c, s);
    if !s.current.Nil? && !(step.Swap? && c.pubs[step.i].failed) { VisibleStep(c, s, step); }
  }

  lemma AfterSnoc(c: Config, steps: seq<Step>, step: Step)
    requires LegalStep(c, steps, step)
    ensures Legal(c, steps + [step]) && After(c, steps + [step]) == Apply(c, After(c, steps), step)
  {
    assert (steps + [step])[..|steps|] == steps;
  }

  /** A publisher that has not started and need not give up can swap its snapshot in. */
  lemma Publishes(c: Config, steps: seq<Step>, i: nat)
    requires Legal(c, steps) && i < |c.pubs|
    requires var s := After(c, steps);
      |c.pubs| == |s.phases| == |s.seen| == |s.retries| && s.phases[i].Loading? && Known(c, s.current) &&
      !Outdated(c, i, s.current)
    ensures var s := After(c, steps);
      && LegalStep(c, steps, Load(i)) && LegalStep(c, steps + [Load(i)], Swap(i))
      && After(c, steps + [Load(i)]).current == s.current
      && Apply(c, After(c, steps + [Load(i)]), Swap(i)).current == Of(i)
      && forall j :: 0 <= j < |c.pubs| && j != i ==> Apply(c, After(c, steps + [Load(i)]), Swap(i)).phases[j] == s.phases[j]
  {
    AfterSnoc(c, steps, Load(i));
  }

  /** A failed publication swapped in over a newer visible revision. */
  lemma ErrorLowers(c: Config, steps: seq<Step>, i: nat)
    requires Legal(c, steps) && i < |c.pubs| && c.pubs[i].failed
    requires var s := After(c, steps);
      |c.pubs| == |s.phases| == |s.seen| == |s.retries| && s.phases[i].Loading? && Known(c, s.current) &&
      !s.current.Nil? && c.pubs[i].revision < Revision(c, s.current)
    ensures !NeverLowers(c)
  {
    Publishes(c, steps, i);
    assert Lowers(c, After(c, steps + [Load(i)]), Swap(i));
  }

  lemma OlderThanInitial(c: Config, i: nat)
    requires i < |c.pubs| && c.pubs[i].failed && c.initial.Set? && c.pubs[i].revision < c.initial.revision
    ensures !NeverLowers(c)
  {
    ErrorLowers(c, [], i);
  }

  lemma OlderThanAnother(c: Config, i: nat, j: nat)
    requires i < |c.pubs| && j < |c.pubs| && c.pubs[i].failed && c.pubs[i].revision < c.pubs[j].revision
    requires c.initial.Set? ==> c.initial.revision <= c.pubs[i].revision
    ensures !NeverLowers(c)
  {
    Publishes(c, [], j);
    AfterSnoc(c, [Load(j)], Swap(j));
    assert [] + [Load(j)] == [Load(j)];
    RunInv(c, [Load(j)] + [Swap(j)]);
    ErrorLowers(c, [Load(j)] + [Swap(j)], i);
  }

  /** One failed publication of revision 3 over revision 5. */
  lemma ErrorLowersRevision()
    ensures var c := Config(Set(5, false), [Publication(3, true)]);
      && LegalStep(c, [], Load(0)) && LegalStep(c, [] + [Load(0)], Swap(0))
      && Lowers(c, After(c, [] + [Load(0)]), Swap(0))
  {
    var c := Config(Set(5, false), [Publication(3, true)]);
    Publishes(c, [], 0);
  }

  /**
   Over every interleaving the visible revision never decreases if and only if
   no publisher with an error carries a revision older than the initial one or
   than another publisher's.
   */
  lemma NeverLowersIff(c: Config)
    ensures NeverLowers(c) <==> ErrorsNewest(c)
  {
    if ErrorsNewest(c) {
      forall steps, step | LegalStep(c, steps, step) ensures !Lowers(c, After(c, steps), step) {
        RunInv(c, steps);
        NewestErrorsKeep(c, After(c, steps), step);
      }
    } else {
      var i :| 0 <= i < |c.pubs| && c.pubs[i].failed &&
        !((c.initial.Set? ==> c.initial.revision <= c.pubs[i].revision)
          && (forall j :: 0 <= j < |c.pubs| ==> c.pubs[j].revision <= c.pubs[i].revision));
      if c.initial.Set? && c.pubs[i].revision < c.initial.revision {
        OlderThanInitial(c, i);
      } else {
        var j :| 0 <= j < |c.pubs| && c.pubs[i].revision < c.pubs[j].revision;
        OlderThanAnother(c, i, j);
      }
    }
  }

  /** A publisher with an error never gives up: when it has returned, its snapshot was installed. */
  lemma {:induction false} ErrorsAreInstalled(c: Config, steps: seq<Step>, i: nat)
    requires Legal(c, steps) && i < |c.pubs| && c.pubs[i].failed
    ensures Sized(c, After(c, steps)) && !After(c, steps).phases[i].GaveUp?
    ensures After(c, steps).phases[i].Installed? ==> i in After(c, steps).swaps
  {
    RunInv(c, steps);
    if steps != [] { ErrorsAreInstalled(c, steps[..|steps| - 1], i); }
  }

  // ---------- Lock freedom ----------

  /** A publisher is sent back fewer times than there are publishers. */
  lemma RetriesBounded(c: Config, s: State, i: nat)
    requires Inv(c, s) && i < |c.pubs| && !s.phases[i].Installed?
    ensures s.retries[i] < |c.pubs|
  {
    var q := s.swaps + [i];
    assert forall k :: 0 <= k < |s.swaps| ==> q[k] == s.swaps[k];
    DistinctBelow(q, |c.pubs|);
  }

  function Left(c: Config, phase: Phase, retries: nat): int {
    match phase
    case Loading => 2 * (|c.pubs| - retries)
    case Loaded(_) => 2 * (|c.pubs| - retries) - 1
    case _ => 0
  }

  function TotalLeft(c: Config, phases: seq<Phase>, retries: seq<nat>): int
    requires |phases| == |retries|
  {
    if phases == [] then 0
    else
      var last := |phases| - 1;
      TotalLeft(c, phases[..last], retries[..last]) + Left(c, phases[last], retries[last])
  }

  lemma {:induction false} TotalLeftUpdate(c: Config, phases: seq<Phase>, retries: seq<nat>, i: nat, phase: Phase, r: nat)
    requires |phases| == |retries| && i < |phases|
    ensures TotalLeft(c, phases[i := phase], retries[i := r]) ==
            TotalLeft(c, phases, retries) - Left(c, phases[i], retries[i]) + Left(c, phase, r)
  {
    var last := |phases| - 1;
    if i < last {
      TotalLeftUpdate(c, phases[..last], retries[..last], i, phase, r);
      assert phases[i := phase][..last] == phases[..last][i := phase];
      assert retries[i := r][..last] == retries[..last][i := r];
    } else {
      assert phases[i := phase][..last] == phases[..last] && retries[i := r][..last] == retries[..last];
    }
  }

  lemma StepsLeft(c: Config, s: State, step: Step)
    requires Inv(c, s) && Enabled(c, s, step)
    ensures var t := Apply(c, s, step);
      Sized(c, t) && TotalLeft(c, t.phases, t.retries) < TotalLeft(c, s.phases, s.retries)
  {
    var i, t := step.i, Apply(c, s, step);
    RetriesBounded(c, s, i);
    assert t.retries == s.retries[i := t.retries[i]];
    TotalLeftUpdate(c, s.phases, s.retries, i, t.phases[i], t.retries[i]);
  }

  lemma {:induction false} LeftNonnegative(c: Config, s: State, n: nat)
    requires Inv(c, s) && n <= |c.pubs|
    ensures TotalLeft(c, s.phases[..n], s.retries[..n]) >= 0
  {
    if n > 0 {
      LeftNonnegative(c, s, n - 1);
      if !s.phases[n - 1].Installed? { RetriesBounded(c, s, n - 1); }
      assert s.phases[..n][..n - 1] == s.phases[..n - 1] && s.retries[..n][..n - 1] == s.retries[..n - 1];
    }
  }

  lemma {:induction false} InitialLeft(c: Config, phases: seq<Phase>, retries: seq<nat>)
    requires |phases| == |retries| && forall i :: 0 <= i < |phases| ==> phases[i].Loading? && retries[i] == 0
    ensures TotalLeft(c, phases, retries) == |phases| * (2 * |c.pubs|)
  {
    if phases != [] { InitialLeft(c, phases[..|phases| - 1], retries[..|phases| - 1]); }
  }

  lemma {:induction false} RunLeft(c: Config, steps: seq<Step>)
    requires Legal(c, steps)
    ensures Sized(c, After(c, steps))
    ensures |steps| + TotalLeft(c, After(c, steps).phases, After(c, steps).retries) <= |c.pubs| * (2 * |c.pubs|)
  {
    RunInv(c, steps);
    if steps == [] {
      InitialLeft(c, Init(c).phases, Init(c).retries);
    } else {
      var before := steps[..|steps| - 1];
      RunLeft(c, before);
      RunInv(c, before);
      StepsLeft(c, After(c, before), steps[|steps| - 1]);
    }
  }

  /** However the steps interleave, `n` publishers are all done within 2n² steps. */
  lemma PublishersFinish(c: Config, steps: seq<Step>)
    requires Legal(c, steps)
    ensures |steps| <= 2 * |c.pubs| * |c.pubs|
  {
    RunLeft(c, steps);
    RunInv(c, steps);
    var s := After(c, steps);
    LeftNonnegative(c, s, |c.pubs|);
    assert s.phases[..|c.pubs|] == s.phases && s.retries[..|c.pubs|] == s.retries;
  }

  /** A publisher that has not returned can always take its next step. */
  lemma NeverBlocked(c: Config, s: State, i: nat) returns (step: Step)
    requires Inv(c, s) && i < |c.pubs| && !s.phases[i].Installed? && !s.phases[i].GaveUp?
    ensures step.i == i && Enabled(c, s, step)
  {
    RefKnown(c, s);
    match s.phases[i]
    case Loading => step := Load(i);
    case Loaded(was) =>
      step := if Outdated(c, i, was) then GiveUp(i) else if s.current == was then Swap(i) else Retry(i);
  }
}
