/** Exactly what is admitted, on runs that mix requests, reservations and sweeps. */
module RateLimitAdmission {
  import opened RateLimitWindow
  import opened RateLimitSpec
  import opened RateLimitIdeal
  import opened RateLimitReservations

  /** The event accepted a request of `key`, or completed one with success. */
  predicate Records(s: Limiter, t: Timed, key: Key) {
    (t.event.Request? && t.event.key == key && Step(s, t).1) || Completes(s, t, key)
  }

  /** The readings of these events, from the limiter's own answers. */
  function Recorded(expiration: int, run: seq<Timed>, key: Key): seq<int> {
    if run == [] then []
    else
      var before, t := run[..|run| - 1], run[|run| - 1];
      Recorded(expiration, before, key) + if Records(After(expiration, before), t, key) then [t.now] else []
  }

  lemma RecordHistory(s: Limiter, m: Ideal, t: Timed, key: Key)
    requires s.handles == m.handles && Step(s, t).1 == IdealStep(m, t).1
    ensures Hist(IdealStep(m, t).0, key) == Hist(m, key) + if Records(s, t, key) then [t.now] else []
  {
    assert Hist(m, key) + [] == Hist(m, key);
  }

  lemma {:induction false} RecordedIsHistory(expiration: int, run: seq<Timed>, dur: Key -> int, key: Key)
    requires Legal(run, dur) && Fits(expiration, dur)
    ensures Recorded(expiration, run, key) == Hist(IdealAfter(run), key)
  {
    if run != [] {
      var before, t := run[..|run| - 1], run[|run| - 1];
      RecordedIsHistory(expiration, before, dur, key);
      RunRefines(expiration, before, dur, t.now);
      StepRefines(After(expiration, before), IdealAfter(before), dur, t);
      RecordHistory(After(expiration, before), IdealAfter(before), t, key);
    }
  }

  /** How much of the limit is taken: what was recorded within the duration and, for a reservation, what is open. */
  function Taken(expiration: int, run: seq<Timed>, key: Key, duration: int, now: int, reserving: bool): nat {
    Young(Secs(Recorded(expiration, run, key)), Unix(now), duration) +
    if reserving then Open(After(expiration, run).handles, key) else 0
  }

  /**
   After any run, a request or reservation is admitted if and only if less than
   its limit is taken: neither refused below the limit nor let in at it.
   */
  lemma AdmittedIff(expiration: int, run: seq<Timed>, dur: Key -> int, t: Timed)
    requires Legal(run + [t], dur) && Fits(expiration, dur) && (t.event.Request? || t.event.Reserve?)
    ensures Step(After(expiration, run), t).1 <==>
      Taken(expiration, run, t.event.key, t.event.duration, t.now, t.event.Reserve?) < t.event.max
  {
    var all := run + [t];
    assert forall i :: 0 <= i < |run| ==> all[i] == run[i];
    assert all[|run|] == t && LegalEvent(t, dur);
    assert run != [] ==> all[|run| - 1].now <= all[|run|].now;
    RunRefines(expiration, run, dur, t.now);
    StepRefines(After(expiration, run), IdealAfter(run), dur, t);
    RecordedIsHistory(expiration, run, dur, t.event.key);
  }

  /** Handles: one more for every reservation granted, each open until its first completion. */
  lemma HandlesStep(s: Limiter, t: Timed, clock: int)
    requires WellFormed(s, clock)
    ensures var u := Step(s, t).0;
      if t.event.Reserve? && Step(s, t).1 then u.handles == s.handles + [Handle(t.event.key, false)]
      else
        && |u.handles| == |s.handles|
        && forall i :: 0 <= i < |s.handles| ==>
             && u.handles[i].key == s.handles[i].key
             && (u.handles[i].completed <==> s.handles[i].completed || (t.event.Complete? && t.event.handle == i))
  {
    if t.event.Sweep? { SweepRemovesExactlyIdle(s, clock, t.event.tick); }
  }
}
