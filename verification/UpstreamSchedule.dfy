/** When a check takes effect, over whole runs, and what one that does leaves behind. */
module UpstreamSchedule {
  import opened Basics
  import opened Text
  import opened ModelNames
  import opened UpstreamUpdate
  import opened UpstreamProtocol

  // ---------- One check ----------

  /** Never stamped, or stamped at least the interval ago. */
  predicate Due(stamp: int, now: int, minInterval: int) { stamp <= 0 || stamp + minInterval <= now }

  /** A check that is forced or due does what a forced one does; any other changes and reports nothing. */
  lemma CheckTakesEffectIff(c: Channel, force: bool, auto: bool, now: int, minInterval: int,
                            fetched: Option<seq<string>>, matches: Matcher)
    ensures Check(c, force, auto, now, minInterval, fetched, matches) ==
      if force || Due(c.settings.lastCheck, now, minInterval)
      then Check(c, true, auto, now, minInterval, fetched, matches)
      else Checked(c, false, 0, true)
  {
  }

  /** A failed fetch records the time and the failure and leaves models, redirects and lists alone. */
  lemma FailedFetch(c: Channel, auto: bool, now: int, minInterval: int, matches: Matcher)
    ensures var r := Check(c, true, auto, now, minInterval, None, matches);
      && !r.ok && !r.modelsChanged && r.autoAdded == 0
      && r.channel.models == c.models && r.channel.mapping == c.mapping
      && r.channel.settings == c.settings.(lastCheck := now)
  {
  }

  lemma MergedIsConcatenation(origin: seq<string>, adds: seq<string>)
    requires IsNames(origin) && IsNames(adds) && forall x :: x in adds ==> x !in origin
    ensures Merge(origin, adds) == origin + adds
  {
    NormalizeId(origin);
    NormalizeId(adds);
    MinusFacts(adds, origin);
  }

  /**
   A completed check: removals are staged; additions are appended to the models
   where that is automatic, and staged where it is not; nothing else changes.
   */
  lemma CompletedCheck(c: Channel, auto: bool, now: int, minInterval: int, upstream: seq<string>, matches: Matcher)
    ensures var r := Check(c, true, auto, now, minInterval, Some(upstream), matches);
      var adds, removes := PendingAdds(c, upstream, matches), PendingRemoves(c, upstream);
      && r.ok && r.channel.mapping == c.mapping
      && (if auto && c.settings.autoSync && adds != [] then
            && r.modelsChanged && r.autoAdded == |adds| && r.channel.models == Join(Names(c) + adds, ',')
            && r.channel.settings == c.settings.(lastCheck := now, detected := [], removed := removes)
          else
            && !r.modelsChanged && r.autoAdded == 0 && r.channel.models == c.models
            && r.channel.settings == c.settings.(lastCheck := now, detected := adds, removed := removes))
  {
    NamesFacts(c);
    PendingAddsFacts(c, upstream, matches);
    MergedIsConcatenation(Names(c), PendingAdds(c, upstream, matches));
  }

  // ---------- Runs ----------

  /** Whether an event stamps a channel last stamped at `stamp`. */
  predicate Stamps(stamp: int, e: Event, now: int) {
    match e
    case Checking(force, _, minInterval, _) => force || Due(stamp, now, minInterval)
    case Applying(_, _, _) => true
    case Editing(_, _, _, _) => false
  }

  /** The last stamp, from the events and their times alone. */
  function Stamp(start: int, events: seq<Event>, clock: nat -> int): int {
    if events == [] then start
    else
      var before := Stamp(start, events[..|events| - 1], clock);
      if Stamps(before, events[|events| - 1], clock(|events|)) then clock(|events|) else before
  }

  /** The event at position `k` took effect. */
  predicate Takes(start: int, events: seq<Event>, clock: nat -> int, k: nat)
    requires k < |events|
  {
    Stamps(Stamp(start, events[..k], clock), events[k], clock(k + 1))
  }

  lemma NextStamp(c: Channel, e: Event, now: int, matches: Matcher)
    ensures Next(c, e, now, matches).settings.lastCheck ==
      if Stamps(c.settings.lastCheck, e, now) then now else c.settings.lastCheck
  {
    match e
    case Checking(force, auto, minInterval, fetched) =>
      CheckTakesEffectIff(c, force, auto, now, minInterval, fetched, matches);
      if fetched.Some? { CompletedCheck(c, auto, now, minInterval, fetched.value, matches); }
    case _ =>
  }

  lemma {:induction false} RunStamp(c: Channel, events: seq<Event>, clock: nat -> int, matches: Matcher)
    ensures After(c, events, clock, matches).settings.lastCheck == Stamp(c.settings.lastCheck, events, clock)
  {
    if events != [] {
      var before := events[..|events| - 1];
      RunStamp(c, before, clock, matches);
      NextStamp(After(c, before, clock, matches), events[|events| - 1], clock(|events|), matches);
    }
  }

  lemma AfterPrefix(c: Channel, events: seq<Event>, clock: nat -> int, matches: Matcher, k: nat)
    requires k < |events|
    ensures After(c, events[..k + 1], clock, matches) ==
            Next(After(c, events[..k], clock, matches), events[k], clock(k + 1), matches)
  {
    assert events[..k + 1][..k] == events[..k];
  }

  /**
   In every run, a check that is forced, is the first, or comes at least the
   interval after the last stamp takes effect; every other one changes nothing.
   */
  lemma RunTakesEffectIff(c: Channel, events: seq<Event>, clock: nat -> int, matches: Matcher, k: nat)
    requires k < |events| && events[k].Checking?
    ensures var stamp, now := Stamp(c.settings.lastCheck, events[..k], clock), clock(k + 1);
      var before, after := After(c, events[..k], clock, matches), After(c, events[..k + 1], clock, matches);
      if events[k].force || stamp <= 0 || now - stamp >= events[k].minInterval
      then after == Check(before, true, events[k].allowAutoApply, now, events[k].minInterval, events[k].fetched, matches).channel
      else after == before
  {
    var before := After(c, events[..k], clock, matches);
    RunStamp(c, events[..k], clock, matches);
    AfterPrefix(c, events, clock, matches, k);
    CheckTakesEffectIff(before, events[k].force, events[k].allowAutoApply, clock(k + 1), events[k].minInterval,
                        events[k].fetched, matches);
  }

  ghost predicate Forward(clock: nat -> int) {
    forall i: nat, j: nat :: i <= j ==> clock(i) <= clock(j)
  }

  lemma StampSnoc(start: int, events: seq<Event>, clock: nat -> int, k: nat)
    requires k < |events|
    ensures Stamp(start, events[..k + 1], clock) ==
      if Takes(start, events, clock, k) then clock(k + 1) else Stamp(start, events[..k], clock)
  {
    assert events[..k + 1][..k] == events[..k];
  }

  lemma {:induction false} StampStays(start: int, events: seq<Event>, clock: nat -> int, i: nat, k: nat)
    requires Forward(clock) && i < k <= |events| && Takes(start, events, clock, i)
    ensures Stamp(start, events[..k], clock) >= clock(i + 1)
    decreases k
  {
    StampSnoc(start, events, clock, k - 1);
    if k - 1 > i { StampStays(start, events, clock, i, k - 1); }
    assert clock(i + 1) <= clock(k);
  }

  /** An unforced check that takes effect comes at least its interval after everything that took effect before. */
  lemma UnforcedAreApart(start: int, events: seq<Event>, clock: nat -> int, i: nat, j: nat)
    requires Forward(clock) && i < j < |events| && 0 < clock(i + 1)
    requires Takes(start, events, clock, i) && Takes(start, events, clock, j)
    requires events[j].Checking? && !events[j].force
    ensures clock(j + 1) - clock(i + 1) >= events[j].minInterval
  {
    StampStays(start, events, clock, i, j);
  }
}
