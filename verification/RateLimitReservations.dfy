/** Keys used through reservations: what completes, what is in flight, and the limit on both. */
module RateLimitReservations {
  import opened RateLimitWindow
  import opened RateLimitSpec
  import opened RateLimitIdeal
  import opened RateLimitSafety

  ghost predicate OnlyReserved(run: seq<Timed>, key: Key, max: int) {
    forall i :: 0 <= i < |run| ==>
      match run[i].event
      case Request(k, _, _) => k != key
      case Reserve(k, m, _) => k == key ==> m == max
      case _ => true
  }

  lemma RecentAfterRecord(h: seq<int>, now: int, duration: int)
    ensures Young(Secs(h + [now]), Unix(now), duration) <= Young(Secs(h), Unix(now), duration) + 1
  {
    assert Secs(h + [now])[..|h|] == Secs(h);
  }

  lemma ReserveStepBound(m: Ideal, t: Timed, dur: Key -> int, key: Key, max: int)
    requires t.event.Reserve? && LegalEvent(t, dur) && (t.event.key == key ==> t.event.max == max)
    requires Recent(m, key, t.now, dur(key)) + Open(m.handles, key) <= max
    ensures var n := IdealStep(m, t).0;
      Recent(n, key, t.now, dur(key)) + Open(n.handles, key) <= max
  {
    OpenAppended(m.handles, Handle(t.event.key, false), key);
  }

  lemma CompleteStepBound(m: Ideal, t: Timed, key: Key, duration: int, max: int)
    requires t.event.Complete? && Recent(m, key, t.now, duration) + Open(m.handles, key) <= max
    ensures var n := IdealStep(m, t).0;
      Recent(n, key, t.now, duration) + Open(n.handles, key) <= max
  {
    var h := t.event.handle;
    if h < |m.handles| && !m.handles[h].completed {
      OpenCompleted(m.handles, h, key);
      if m.handles[h].key == key { RecentAfterRecord(Hist(m, key), t.now, duration); }
    }
  }

  lemma IdealReservationStep(m: Ideal, t: Timed, dur: Key -> int, key: Key, max: int)
    requires LegalEvent(t, dur) && OnlyReserved([t], key, max)
    requires Recent(m, key, t.now, dur(key)) + Open(m.handles, key) <= max
    ensures var n := IdealStep(m, t).0;
      Recent(n, key, t.now, dur(key)) + Open(n.handles, key) <= max
  {
    assert [t][0] == t;
    match t.event
    case Request(k, _, _) => assert Hist(IdealStep(m, t).0, key) == Hist(m, key);
    case Reserve(_, _, _) => ReserveStepBound(m, t, dur, key, max);
    case Complete(_, _) => CompleteStepBound(m, t, key, dur(key), max);
    case Sweep(_) =>
  }

  lemma {:induction false} IdealReservationBound(run: seq<Timed>, dur: Key -> int, key: Key, max: int, clock: int)
    requires Legal(run, dur) && OnlyReserved(run, key, max) && 0 <= max
    requires run != [] ==> run[|run| - 1].now <= clock
    ensures Recent(IdealAfter(run), key, clock, dur(key)) + Open(IdealAfter(run).handles, key) <= max
  {
    if run != [] {
      var last := |run| - 1;
      var t := run[last];
      IdealReservationBound(run[..last], dur, key, max, t.now);
      IdealReservationStep(IdealAfter(run[..last]), t, dur, key, max);
      YoungFades(Secs(Hist(IdealAfter(run), key)), Unix(t.now), Unix(clock), dur(key));
    }
  }

  // ---------- What actually completed ----------

  /** The event releases an open handle of `key` with success. */
  predicate Completes(s: Limiter, t: Timed, key: Key) {
    && t.event.Complete? && t.event.success && t.event.handle < |s.handles|
    && s.handles[t.event.handle] == Handle(key, false)
  }

  /** Readings at which requests of `key` completed with success. */
  function Completed(expiration: int, run: seq<Timed>, key: Key): seq<int> {
    if run == [] then []
    else
      var before, t := run[..|run| - 1], run[|run| - 1];
      Completed(expiration, before, key) + if Completes(After(expiration, before), t, key) then [t.now] else []
  }

  lemma CompletionHistory(s: Limiter, m: Ideal, t: Timed, key: Key, max: int)
    requires s.handles == m.handles && OnlyReserved([t], key, max)
    ensures Hist(IdealStep(m, t).0, key) == Hist(m, key) + if Completes(s, t, key) then [t.now] else []
  {
    assert [t][0] == t;
    assert Hist(m, key) + [] == Hist(m, key);
  }

  /** The completions are the ideal history: eviction loses none that still counts. */
  lemma {:induction false} CompletedIsHistory(expiration: int, run: seq<Timed>, dur: Key -> int, key: Key, max: int)
    requires Legal(run, dur) && Fits(expiration, dur) && OnlyReserved(run, key, max)
    ensures Completed(expiration, run, key) == Hist(IdealAfter(run), key)
  {
    if run != [] {
      var last := |run| - 1;
      CompletedIsHistory(expiration, run[..last], dur, key, max);
      RunRefines(expiration, run[..last], dur, run[last].now);
      CompletionHistory(After(expiration, run[..last]), IdealAfter(run[..last]), run[last], key, max);
    }
  }

  // ---------- The limit ----------

  /** Successes younger than the duration plus reservations not completed. */
  function InUse(expiration: int, run: seq<Timed>, key: Key, duration: int, clock: int): nat {
    Young(Secs(Completed(expiration, run, key)), Unix(clock), duration) + Open(After(expiration, run).handles, key)
  }

  predicate EndsBy(run: seq<Timed>, clock: int) {
    run != [] ==> run[|run| - 1].now <= clock
  }

  /**
   Whatever the interleaving of Reserve, repeated Complete and sweeps: the
   completions still young plus the requests in flight never exceed the limit,
   and the table counts exactly the open handles.
   */
  lemma ReservationBound(expiration: int, run: seq<Timed>, dur: Key -> int, key: Key, max: int, clock: int)
    requires Legal(run, dur) && Fits(expiration, dur) && OnlyReserved(run, key, max) && 0 <= max && EndsBy(run, clock)
    ensures InUse(expiration, run, key, dur(key), clock) <= max
    ensures var s := After(expiration, run);
      InFlight(s, key) == Open(s.handles, key) && (key in s.reservations <==> Open(s.handles, key) > 0)
  {
    RunRefines(expiration, run, dur, clock);
    IdealReservationBound(run, dur, key, max, clock);
    CompletedIsHistory(expiration, run, dur, key, max);
    assert Counted(After(expiration, run).reservations, After(expiration, run).handles);
  }

  lemma RecentWithin(m: Ideal, key: Key, duration: int, now: int, start: int, max: int)
    requires Recent(m, key, now, duration) <= max && Unix(now) < start + duration
    ensures Within(Hist(m, key), start * SECOND, (start + duration) * SECOND) <= max
  {
    WithinYoung(Hist(m, key), start, now, duration);
  }

  /** A step after the span adds nothing to it. */
  lemma LateStep(m: Ideal, t: Timed, key: Key, lo: int, hi: int)
    requires hi <= t.now
    ensures Within(Hist(IdealStep(m, t).0, key), lo, hi) == Within(Hist(m, key), lo, hi)
  {
    HistoryGrows(m, t, key);
    WithinSnoc(Hist(m, key), t.now, lo, hi);
  }

  /** A step records at most its own reading. */
  lemma HistoryGrows(m: Ideal, t: Timed, key: Key)
    ensures Hist(IdealStep(m, t).0, key) == Hist(m, key) || Hist(IdealStep(m, t).0, key) == Hist(m, key) + [t.now]
  {
  }

  lemma {:induction false} IdealCompletionsWithin(run: seq<Timed>, dur: Key -> int, key: Key, max: int, start: int)
    requires Legal(run, dur) && OnlyReserved(run, key, max) && 0 <= max
    ensures Within(Hist(IdealAfter(run), key), start * SECOND, (start + dur(key)) * SECOND) <= max
  {
    if run != [] {
      var last := |run| - 1;
      var t := run[last];
      if Unix(t.now) < start + dur(key) {
        IdealReservationBound(run, dur, key, max, t.now);
        RecentWithin(IdealAfter(run), key, dur(key), t.now, start, max);
      } else {
        IdealCompletionsWithin(run[..last], dur, key, max, start);
        LateStep(IdealAfter(run[..last]), t, key, start * SECOND, (start + dur(key)) * SECOND);
      }
    }
  }

  /** No span of the key's duration in whole seconds ever holds more than `max` successful completions. */
  lemma AlignedCompletionBound(expiration: int, run: seq<Timed>, dur: Key -> int, key: Key, max: int, start: int)
    requires Legal(run, dur) && Fits(expiration, dur) && OnlyReserved(run, key, max) && 0 <= max
    ensures Within(Completed(expiration, run, key), start * SECOND, (start + dur(key)) * SECOND) <= max
  {
    IdealCompletionsWithin(run, dur, key, max, start);
    CompletedIsHistory(expiration, run, dur, key, max);
  }

  // ---------- Exactly when ----------

  /** Over all runs, keys and limits. */
  ghost predicate ReservationsBounded(expiration: int, dur: Key -> int) {
    forall run, key, max, clock ::
      Legal(run, dur) && OnlyReserved(run, key, max) && 0 <= max && EndsBy(run, clock) ==>
        InUse(expiration, run, key, dur(key), clock) <= max
  }

  /** One slot: a success, a sweep as soon as the key is idle, and a second reservation. */
  function ForgottenSuccess(key: Key, expiration: int, duration: int): seq<Timed> {
    [At(0, Reserve(key, 1, duration)), At(0, Complete(0, true)), At(expiration, Sweep(expiration)),
     At(expiration, Reserve(key, 1, duration))]
  }

  lemma AfterSnoc(expiration: int, run: seq<Timed>, t: Timed)
    ensures After(expiration, run + [t]) == Step(After(expiration, run), t).0
  {
    assert (run + [t])[..|run|] == run;
  }

  lemma CompletedSnoc(expiration: int, run: seq<Timed>, t: Timed, key: Key)
    ensures Completed(expiration, run + [t], key) ==
            Completed(expiration, run, key) + if Completes(After(expiration, run), t, key) then [t.now] else []
  {
    assert (run + [t])[..|run|] == run;
  }

  lemma FirstReservation(key: Key, expiration: int, duration: int)
    ensures Step(Empty(expiration), At(0, Reserve(key, 1, duration))).0 ==
            Limiter(expiration, map[key := Bucket(0, [])], [key], map[key := 1], [Handle(key, false)])
  {
    var s := Empty(expiration);
    assert Window(s, key) == [] && [key] + Without([], key) == [key] && [] + [Handle(key, false)] == [Handle(key, false)];
  }

  lemma FirstCompletion(key: Key, expiration: int)
    ensures var s := Limiter(expiration, map[key := Bucket(0, [])], [key], map[key := 1], [Handle(key, false)]);
      Step(s, At(0, Complete(0, true))).0 ==
      Limiter(expiration, map[key := Bucket(0, [0])], [key], map[], [Handle(key, true)])
  {
    var s := Limiter(expiration, map[key := Bucket(0, [])], [key], map[key := 1], [Handle(key, false)]);
    var u := Release(s, 0);
    assert u == Limiter(expiration, map[key := Bucket(0, [])], [key], map[], [Handle(key, true)]);
    assert Without([key], key) == Without([], key) == [] && [key] + [] == [key];
    assert Window(u, key) + [Unix(0)] == [0];
    assert u.store[key := Bucket(0, [0])] == map[key := Bucket(0, [0])];
  }

  /** After the first success the key is alone in the store. */
  lemma FirstSuccess(key: Key, expiration: int, duration: int)
    ensures var run := [At(0, Reserve(key, 1, duration)), At(0, Complete(0, true))];
      && After(expiration, run) == Limiter(expiration, map[key := Bucket(0, [0])], [key], map[], [Handle(key, true)])
      && Completed(expiration, run, key) == [0]
  {
    var reserve, complete := At(0, Reserve(key, 1, duration)), At(0, Complete(0, true));
    FirstReservation(key, expiration, duration);
    FirstCompletion(key, expiration);
    AfterSnoc(expiration, [], reserve);
    CompletedSnoc(expiration, [], reserve, key);
    assert [] + [reserve] == [reserve] && [reserve] + [complete] == [reserve, complete];
    AfterSnoc(expiration, [reserve], complete);
    CompletedSnoc(expiration, [reserve], complete, key);
  }

  /** The key is swept while its success is young, and its slot is given away again. */
  lemma SecondReservation(s: Limiter, key: Key, expiration: int, duration: int)
    requires s == Limiter(expiration, map[key := Bucket(0, [0])], [key], map[], [Handle(key, true)]) && 0 < expiration
    ensures var swept := Step(s, At(expiration, Sweep(expiration))).0;
      && swept == Limiter(expiration, map[], [], map[], [Handle(key, true)])
      && Step(swept, At(expiration, Reserve(key, 1, duration))).0.handles == [Handle(key, true)] + [Handle(key, false)]
  {
    SweptAlone(s, key, expiration);
    var swept := Limiter(expiration, map[], [], map[], [Handle(key, true)]);
    assert s.store - {key} == map[];
    assert Window(swept, key) == [] && InFlight(swept, key) == 0;
  }

  lemma OneOpen(key: Key)
    ensures Open([Handle(key, true)] + [Handle(key, false)], key) == 1
  {
    OpenAppended([Handle(key, true)], Handle(key, false), key);
    OpenAppended([], Handle(key, true), key);
    assert [] + [Handle(key, true)] == [Handle(key, true)];
  }

  lemma ForgottenSuccessRun(key: Key, expiration: int, duration: int, run: seq<Timed>)
    requires 0 < expiration && run == ForgottenSuccess(key, expiration, duration)
    ensures After(expiration, run).handles == [Handle(key, true)] + [Handle(key, false)]
    ensures Completed(expiration, run, key) == [0]
  {
    var r2 := [At(0, Reserve(key, 1, duration)), At(0, Complete(0, true))];
    var sweep, reserve := At(expiration, Sweep(expiration)), At(expiration, Reserve(key, 1, duration));
    FirstSuccess(key, expiration, duration);
    SecondReservation(After(expiration, r2), key, expiration, duration);
    AfterSnoc(expiration, r2, sweep);
    CompletedSnoc(expiration, r2, sweep, key);
    AfterSnoc(expiration, r2 + [sweep], reserve);
    CompletedSnoc(expiration, r2 + [sweep], reserve, key);
    assert run == r2 + [sweep] + [reserve];
  }

  lemma ForgottenSuccessOverflows(key: Key, expiration: int, duration: int)
    requires 0 < expiration && expiration < duration * SECOND
    ensures InUse(expiration, ForgottenSuccess(key, expiration, duration), key, duration, expiration) == 2
  {
    ForgottenSuccessRun(key, expiration, duration, ForgottenSuccess(key, expiration, duration));
    OneOpen(key);
    assert Secs([0]) == [0];
    YoungExtremes([0], Unix(expiration), duration);
  }

  lemma ForgottenSuccessLegal(key: Key, expiration: int, dur: Key -> int, run: seq<Timed>)
    requires 0 < expiration && run == ForgottenSuccess(key, expiration, dur(key))
    ensures Legal(run, dur) && OnlyReserved(run, key, 1) && EndsBy(run, expiration)
  {
  }

  lemma OverflowRefutes(expiration: int, dur: Key -> int, run: seq<Timed>, key: Key, max: int, clock: int)
    requires Legal(run, dur) && OnlyReserved(run, key, max) && 0 <= max && EndsBy(run, clock)
    requires InUse(expiration, run, key, dur(key), clock) > max
    ensures !ReservationsBounded(expiration, dur)
  {
  }

  /** The limit on completions and reservations holds exactly when no key's window outlives an idle key. */
  lemma ReservationsBoundedIff(expiration: int, dur: Key -> int)
    ensures ReservationsBounded(expiration, dur) <==> Fits(expiration, dur)
  {
    if Fits(expiration, dur) {
      forall run, key, max, clock |
        Legal(run, dur) && OnlyReserved(run, key, max) && 0 <= max && EndsBy(run, clock)
        ensures InUse(expiration, run, key, dur(key), clock) <= max
      {
        ReservationBound(expiration, run, dur, key, max, clock);
      }
    } else {
      var key :| dur(key) * SECOND > expiration;
      ForgottenSuccessOverflows(key, expiration, dur(key));
      var run := ForgottenSuccess(key, expiration, dur(key));
      ForgottenSuccessLegal(key, expiration, dur, run);
      OverflowRefutes(expiration, dur, run, key, 1, expiration);
    }
  }
}
