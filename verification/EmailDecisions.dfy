/** Which publishers give up and which are installed, and what a lone publisher leaves visible. */
module EmailDecisions {
  import opened Counting
  import opened EmailPublish

  /** Whether the snapshot carries an error. */
  predicate Broken(c: Config, p: Ref)
    requires Known(c, p) && !p.Nil?
  {
    match p
    case Initial => c.initial.failed
    case Of(i) => c.pubs[i].failed
  }

  /** A snapshot of a strictly newer revision. */
  ghost predicate Newer(c: Config, p: Ref, revision: int) {
    !p.Nil? && Known(c, p) && revision < Revision(c, p)
  }

  /** Of what publisher `i` found at its last load, and what became of it. */
  ghost predicate Decided(c: Config, s: State, i: nat)
    requires Sized(c, s) && i < |c.pubs|
  {
    && s.seen[i] <= |s.swaps|
    && (s.phases[i].GaveUp? ==> !c.pubs[i].failed && Newer(c, RefAfter(c, s.swaps, s.seen[i]), c.pubs[i].revision))
    && (s.phases[i].Installed? ==>
          && (c.pubs[i].failed || !Newer(c, RefAfter(c, s.swaps, s.seen[i]), c.pubs[i].revision))
          && s.seen[i] < |s.swaps| && s.swaps[s.seen[i]] == i)
  }

  lemma StepDecided(c: Config, s: State, step: Step, i: nat)
    requires Inv(c, s) && Enabled(c, s, step) && i < |c.pubs| && Decided(c, s, i)
    ensures Sized(c, Apply(c, s, step)) && Decided(c, Apply(c, s, step), i)
  {
    var t := Apply(c, s, step);
    assert RefAfter(c, t.swaps, s.seen[i]) == RefAfter(c, s.swaps, s.seen[i]);
    if step.i == i && s.phases[i].Loaded? { MovedSince(c, s, i); }
  }

  lemma {:induction false} RunDecided(c: Config, steps: seq<Step>, i: nat)
    requires Legal(c, steps) && i < |c.pubs|
    ensures Sized(c, After(c, steps)) && Decided(c, After(c, steps), i)
  {
    RunInv(c, steps);
    if steps != [] {
      RunDecided(c, steps[..|steps| - 1], i);
      RunInv(c, steps[..|steps| - 1]);
      StepDecided(c, After(c, steps[..|steps| - 1]), steps[|steps| - 1], i);
    }
  }

  /**
   In every interleaving a publisher that has returned has given up if and only
   if it had no error and found a strictly newer revision at its last load; an
   equal one does not stop it.
   */
  lemma GaveUpIff(c: Config, steps: seq<Step>, i: nat)
    requires Legal(c, steps) && i < |c.pubs|
    ensures var s := After(c, steps);
      && Sized(c, s) && s.seen[i] <= |s.swaps|
      && (s.phases[i].GaveUp? || s.phases[i].Installed? ==>
            (s.phases[i].GaveUp? <==>
             !c.pubs[i].failed && Newer(c, RefAfter(c, s.swaps, s.seen[i]), c.pubs[i].revision)))
  {
    RunDecided(c, steps, i);
  }

  /** Left alone from any reachable state, a publisher about to load is installed exactly unless it is outdated. */
  lemma SoloPublish(c: Config, steps: seq<Step>, i: nat)
    requires Legal(c, steps) && i < |c.pubs| && Sized(c, After(c, steps)) && After(c, steps).phases[i].Loading?
    ensures var was := After(c, steps).current;
      && LegalStep(c, steps, Load(i))
      && if !c.pubs[i].failed && Newer(c, was, c.pubs[i].revision) then
           LegalStep(c, steps + [Load(i)], GiveUp(i)) && Apply(c, After(c, steps + [Load(i)]), GiveUp(i)).current == was
         else
           LegalStep(c, steps + [Load(i)], Swap(i)) && Apply(c, After(c, steps + [Load(i)]), Swap(i)).current == Of(i)
  {
    RunInv(c, steps);
    RefKnown(c, After(c, steps));
    AfterSnoc(c, steps, Load(i));
  }

  lemma LoneSwaps(c: Config, s: State)
    requires Inv(c, s) && |c.pubs| == 1
    ensures s.swaps == if s.phases[0].Installed? then [0] else []
  {
    DistinctBelow(s.swaps, 1);
    if |s.swaps| > 0 { assert s.swaps[0] == 0; }
  }

  /**
   A lone publisher that has returned is what is visible, unless it is without
   error and what was there is strictly newer; so a good refresh replaces an
   error snapshot of its own revision.
   */
  lemma LonePublisher(c: Config, steps: seq<Step>)
    requires Legal(c, steps) && |c.pubs| == 1 && Sized(c, After(c, steps))
    requires After(c, steps).phases[0].Installed? || After(c, steps).phases[0].GaveUp?
    ensures After(c, steps).current ==
      if c.pubs[0].failed || c.initial.Unset? || c.initial.revision <= c.pubs[0].revision then Of(0) else Initial
    ensures c.initial.Set? && !c.pubs[0].failed && c.initial.revision == c.pubs[0].revision ==>
      Known(c, After(c, steps).current) && !After(c, steps).current.Nil? && !Broken(c, After(c, steps).current)
  {
    RunInv(c, steps);
    LoneSwaps(c, After(c, steps));
    RunDecided(c, steps, 0);
  }
}
