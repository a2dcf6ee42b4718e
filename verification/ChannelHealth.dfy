/** What one channel test decides, and what a whole test cycle adds up to. */
module ChannelHealth {
  import opened Basics
  import opened WorkerPool
  import opened WorkerPoolRuns

  /** What is known of an error the upstream reported. */
  datatype ApiError = ApiError(channelError: bool, skipRetry: bool, disablingCode: bool, disablingKeyword: bool)

  /** What one test observed, and the settings in force. */
  datatype Probe = Probe(
    cancelled: bool, status: int, error: Option<ApiError>, localError: bool, milliseconds: int, threshold: int,
    autoDisable: bool, autoEnable: bool, allowDisable: bool, autoBan: bool)

  predicate ShouldDisable(error: Option<ApiError>, autoDisable: bool) {
    && autoDisable && error.Some?
    && (error.value.channelError ||
        (!error.value.skipRetry && (error.value.disablingCode || error.value.disablingKeyword)))
  }

  predicate ShouldEnable(failed: bool, status: int, autoEnable: bool) {
    autoEnable && !failed && status == AUTO_DISABLED
  }

  // ---------- What the outcome should be ----------

  /** Slower than the threshold, where that matters. */
  predicate TooSlow(p: Probe) { p.autoDisable && p.milliseconds > p.threshold }

  predicate Failing(p: Probe) { p.error.Some? || TooSlow(p) }

  function Bit(b: bool): int { if b then 1 else 0 }

  function Outcome(p: Probe): Summary {
    Summary(Bit(!p.cancelled),
            Bit(!p.cancelled && !Failing(p)),
            Bit(!p.cancelled && Failing(p)),
            Bit(!p.cancelled && Disables(p)),
            Bit(!p.cancelled && Enables(p)))
  }

  predicate Disables(p: Probe) {
    (ShouldDisable(p.error, p.autoDisable) || TooSlow(p)) && p.allowDisable && p.status == ENABLED && p.autoBan
  }

  predicate Enables(p: Probe) { !p.localError && ShouldEnable(Failing(p), p.status, p.autoEnable) }

  /** The decisions in the order they are taken. */
  method HealthCheck(p: Probe) returns (s: Summary)
    ensures s == Outcome(p)
  {
    s := ZERO;
    if p.cancelled {
      return;
    }
    s := s.(tested := 1);
    var shouldBan, failed := false, p.error.Some?;
    if failed {
      shouldBan := ShouldDisable(p.error, p.autoDisable);
    }
    if p.autoDisable && !shouldBan {
      if p.milliseconds > p.threshold {
        failed, shouldBan := true, true;
      }
    }
    if failed {
      s := s.(failed := s.failed + 1);
    } else {
      s := s.(succeeded := s.succeeded + 1);
    }
    var isEnabled := p.status == ENABLED;
    if p.allowDisable && isEnabled && shouldBan && p.autoBan {
      s := s.(disabled := s.disabled + 1);
    }
    if !p.localError && !isEnabled && ShouldEnable(failed, p.status, p.autoEnable) {
      s := s.(enabled := s.enabled + 1);
    }
  }

  // ---------- Exactly when each counter moves, in terms of the observations ----------

  lemma TestedIff(p: Probe)
    ensures Consistent(Outcome(p))
    ensures Outcome(p).tested == if p.cancelled then 0 else 1
  {
  }

  lemma FailedIff(p: Probe)
    ensures Outcome(p).failed == 1 <==>
            !p.cancelled && (p.error.Some? || (p.autoDisable && p.milliseconds > p.threshold))
    ensures Outcome(p).succeeded == 1 <==>
            !p.cancelled && p.error.None? && (p.autoDisable ==> p.milliseconds <= p.threshold)
    ensures 0 <= Outcome(p).failed <= 1 && 0 <= Outcome(p).succeeded <= 1
  {
  }

  /** An error that is the channel's own fault, or whose code or text asks for it and that may be retried. */
  predicate BanWorthy(e: ApiError) {
    if e.channelError then true else if e.skipRetry then false else e.disablingCode || e.disablingKeyword
  }

  lemma DisabledIff(p: Probe)
    ensures Outcome(p).disabled == 1 <==>
      && !p.cancelled && p.autoDisable && p.allowDisable && p.autoBan && p.status == ENABLED
      && (p.milliseconds > p.threshold || (p.error.Some? && BanWorthy(p.error.value)))
    ensures 0 <= Outcome(p).disabled <= 1
  {
  }

  lemma EnabledIff(p: Probe)
    ensures Outcome(p).enabled == 1 <==>
      Outcome(p).succeeded == 1 && p.autoEnable && p.status == AUTO_DISABLED && !p.localError
    ensures 0 <= Outcome(p).enabled <= 1
  {
  }

  /** A slower response never turns a failure into a success, nor keeps a channel on or turns one on. */
  lemma SlowerIsNoBetter(p: Probe, milliseconds: int)
    requires p.milliseconds <= milliseconds
    ensures var s, t := Outcome(p), Outcome(p.(milliseconds := milliseconds));
      && t.tested == s.tested && s.failed <= t.failed && t.succeeded <= s.succeeded
      && s.disabled <= t.disabled && t.enabled <= s.enabled
  {
  }

  // ---------- A whole cycle ----------

  datatype Finding = AnyResult | Failure | Success | TurnedOff | TurnedOn

  predicate Shows(p: Probe, f: Finding) {
    match f
    case AnyResult => true
    case Failure => Failing(p)
    case Success => !Failing(p)
    case TurnedOff => Disables(p)
    case TurnedOn => Enables(p)
  }

  /** How many channels are there, were not disabled by hand, and have a test that shows `f`. */
  function Tally(slots: seq<Slot>, probe: Slot -> Probe, f: Finding): nat {
    if slots == [] then 0
    else
      var slot := slots[|slots| - 1];
      Tally(slots[..|slots| - 1], probe, f) +
      if slot.Channel? && slot.status != MANUALLY_DISABLED && Shows(probe(slot), f) then 1 else 0
  }

  function Cycle(slots: seq<Slot>, concurrency: int, pauses: bool, probe: Slot -> Probe): Config {
    Config(slots, concurrency, pauses, slot => Outcome(probe(slot)))
  }

  /** A summary read counter by counter. */
  function Counter(s: Summary, f: Finding): int {
    match f
    case AnyResult => s.tested
    case Failure => s.failed
    case Success => s.succeeded
    case TurnedOff => s.disabled
    case TurnedOn => s.enabled
  }

  ghost predicate Tallied(s: Summary, slots: seq<Slot>, probe: Slot -> Probe) {
    forall f :: Counter(s, f) == Tally(slots, probe, f)
  }

  lemma OutcomeShows(p: Probe, f: Finding)
    requires !p.cancelled
    ensures Counter(Outcome(p), f) == if Shows(p, f) then 1 else 0
  {
  }

  lemma CounterPlus(a: Summary, b: Summary, f: Finding)
    ensures Counter(Plus(a, b), f) == Counter(a, f) + Counter(b, f) && Counter(ZERO, f) == 0
  {
  }

  lemma TallySnoc(slots: seq<Slot>, slot: Slot, probe: Slot -> Probe, f: Finding)
    ensures Tally(slots + [slot], probe, f) == Tally(slots, probe, f) +
      if slot.Channel? && slot.status != MANUALLY_DISABLED && Shows(probe(slot), f) then 1 else 0
  {
    assert (slots + [slot])[..|slots|] == slots;
  }

  lemma TalliedSnoc(s: Summary, slots: seq<Slot>, slot: Slot, probe: Slot -> Probe, r: Summary)
    requires Tallied(s, slots, probe) && !probe(slot).cancelled
    requires r == if slot.Channel? && slot.status != MANUALLY_DISABLED then Outcome(probe(slot)) else ZERO
    ensures Tallied(Plus(s, r), slots + [slot], probe)
  {
    forall f ensures Counter(Plus(s, r), f) == Tally(slots + [slot], probe, f) {
      TallySnoc(slots, slot, probe, f);
      CounterPlus(s, r, f);
      OutcomeShows(probe(slot), f);
    }
  }

  lemma {:induction false} SumTallied(c: Config, n: nat, probe: Slot -> Probe)
    requires n <= |c.slots| && c == Cycle(c.slots, c.concurrency, c.pauses, probe)
    requires forall slot :: !probe(slot).cancelled
    ensures Tallied(SumOf(c, Upto(n)), c.slots[..n], probe)
  {
    if n > 0 {
      SumTallied(c, n - 1, probe);
      assert Upto(n) == Upto(n - 1) + [n - 1] && c.slots[..n] == c.slots[..n - 1] + [c.slots[n - 1]];
      SumSnoc(c, Upto(n - 1), n - 1);
      TalliedSnoc(SumOf(c, Upto(n - 1)), c.slots[..n - 1], c.slots[n - 1], probe, Expected(c, n - 1));
    }
  }

  /**
   Whatever the interleaving of an uncancelled cycle, each counter of its
   summary is the number of channels that are there, were not disabled by hand
   and whose own test shows it.
   */
  lemma CycleCounts(slots: seq<Slot>, concurrency: int, pauses: bool, probe: Slot -> Probe, steps: seq<Step>)
    requires forall slot :: !probe(slot).cancelled
    requires var c := Cycle(slots, concurrency, pauses, probe);
      Legal(c, steps) && After(c, steps).reducer.Returned? && !After(c, steps).cancelled
    ensures Tallied(After(Cycle(slots, concurrency, pauses, probe), steps).summary, slots, probe)
  {
    var c := Cycle(slots, concurrency, pauses, probe);
    forall slot ensures Consistent(c.run(slot)) { TestedIff(probe(slot)); }
    UncancelledResult(c, steps);
    SumTallied(c, |slots|, probe);
    assert slots[..|slots|] == slots;
  }
}
