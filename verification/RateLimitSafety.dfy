/** What the limiter guarantees over whole runs, and exactly when. */
module RateLimitSafety {
  import opened RateLimitWindow
  import opened RateLimitSpec
  import opened RateLimitIdeal

  // ---------- When idle-key eviction is invisible ----------

  ghost predicate EvictionInvisible(expiration: int, dur: Key -> int) {
    forall run :: Legal(run, dur) ==> Answers(expiration, run) == IdealAnswers(run)
  }

  /** One slot, a sweep as soon as the key is idle, and a second request. */
  function ForgettingRun(key: Key, expiration: int, duration: int): seq<Timed> {
    [At(0, Request(key, 1, duration)), At(expiration, Sweep(expiration)),
     At(expiration, Request(key, 1, duration))]
  }

  lemma ForgettingRunReal(key: Key, expiration: int, duration: int)
    requires 0 < expiration && expiration < duration * SECOND
    ensures Answers(expiration, ForgettingRun(key, expiration, duration)) == [true, false, true]
  {
    var run := ForgettingRun(key, expiration, duration);
    assert run[..2][..1] == run[..1] && run[..1][..0] == [];
    var s1 := Touch(Empty(expiration), key, 0, [0]);
    assert Window(Empty(expiration), key) == [] && [] + [Unix(0)] == [0];
    assert After(expiration, run[..1]) == s1;
    SweptAlone(s1, key, expiration);
    var s2 := SweepFrom(s1, expiration);
    assert After(expiration, run[..2]) == s2 && key !in s2.store;
    assert Answers(expiration, run[..1]) == [true];
    assert Answers(expiration, run[..2]) == [true, false];
  }

  /** A key alone in the store and idle for the expiration is swept. */
  lemma SweptAlone(s: Limiter, key: Key, tick: int)
    requires s.order == [key] && key in s.store && tick - s.store[key].lastActive >= s.expiration
    ensures SweepFrom(s, tick) == s.(store := s.store - {key}, order := [])
  {
    assert s.order[..0] == [];
  }

  lemma ForgettingRunIdeal(key: Key, expiration: int, duration: int)
    requires 0 < expiration && expiration < duration * SECOND
    ensures IdealAnswers(ForgettingRun(key, expiration, duration)) == [true, false, false]
  {
    var run := ForgettingRun(key, expiration, duration);
    assert run[..2][..1] == run[..1] && run[..1][..0] == [];
    var m1 := Record(Ideal(map[], []), key, 0);
    assert Secs(Hist(Ideal(map[], []), key)) == [];
    assert IdealAfter(run[..1]) == m1;
    assert IdealAfter(run[..2]) == m1;
    assert Hist(m1, key) == [0] && Secs([0]) == [0];
    YoungExtremes([0], Unix(expiration), duration);
    assert IdealAnswers(run[..1]) == [true];
    assert IdealAnswers(run[..2]) == [true, false];
  }

  lemma ForgettingRunTells(key: Key, expiration: int, dur: Key -> int)
    requires 0 < expiration && expiration < dur(key) * SECOND
    ensures !EvictionInvisible(expiration, dur)
  {
    var run := ForgettingRun(key, expiration, dur(key));
    ForgettingRunReal(key, expiration, dur(key));
    ForgettingRunIdeal(key, expiration, dur(key));
    assert [true, false, true][2] != [true, false, false][2];
    assert Legal(run, dur);
  }

  /**
   Eviction is invisible exactly when it is off or no key's window outlives an
   idle key, which is what the settings' comment asks of every duration.
   */
  lemma EvictionInvisibleIff(expiration: int, dur: Key -> int)
    ensures EvictionInvisible(expiration, dur) <==> Fits(expiration, dur)
  {
    if Fits(expiration, dur) {
      forall run: seq<Timed> | Legal(run, dur) ensures Answers(expiration, run) == IdealAnswers(run) {
        RunRefines(expiration, run, dur, if run == [] then 0 else run[|run| - 1].now);
      }
    } else {
      var key :| dur(key) * SECOND > expiration;
      ForgettingRunTells(key, expiration, dur);
    }
  }

  // ---------- Requests per window ----------

  /** Readings at which requests of `key` were accepted, from the limiter's own answers. */
  function Accepted(expiration: int, run: seq<Timed>, key: Key): seq<int> {
    if run == [] then []
    else
      var before, t := run[..|run| - 1], run[|run| - 1];
      Accepted(expiration, before, key) +
      if t.event.Request? && t.event.key == key && Step(After(expiration, before), t).1 then [t.now] else []
  }

  /** How many readings lie in the half-open interval from `lo` to `hi`. */
  function Within(h: seq<int>, lo: int, hi: int): nat {
    if h == [] then 0 else Within(h[..|h| - 1], lo, hi) + if lo <= h[|h| - 1] < hi then 1 else 0
  }

  lemma WithinSnoc(h: seq<int>, x: int, lo: int, hi: int)
    ensures Within(h + [x], lo, hi) == Within(h, lo, hi) + if lo <= x < hi then 1 else 0
  {
    assert (h + [x])[..|h|] == h;
  }

  ghost predicate OnlyRequests(run: seq<Timed>, key: Key, max: int) {
    forall i :: 0 <= i < |run| ==>
      match run[i].event
      case Request(k, m, _) => k == key ==> m == max
      case Reserve(k, _, _) => k != key
      case _ => true
  }

  lemma {:induction false} WithinYoung(h: seq<int>, start: int, now: int, duration: int)
    requires Unix(now) < start + duration
    ensures Within(h, start * SECOND, (start + duration) * SECOND) <= Young(Secs(h), Unix(now), duration)
  {
    if h != [] {
      var last := |h| - 1;
      WithinYoung(h[..last], start, now, duration);
      assert Secs(h)[..last] == Secs(h[..last]);
    }
  }

  lemma {:induction false} WithinWider(h: seq<int>, lo: int, hi: int, lo': int, hi': int)
    requires lo' <= lo && hi <= hi'
    ensures Within(h, lo, hi) <= Within(h, lo', hi')
  {
    if h != [] { WithinWider(h[..|h| - 1], lo, hi, lo', hi'); }
  }

  /** An admitted reading keeps the span's count: the younger ones alone are fewer than `max`. */
  lemma AdmittedWithin(h: seq<int>, now: int, duration: int, max: int, start: int)
    requires Young(Secs(h), Unix(now), duration) < max
    requires Within(h, start * SECOND, (start + duration) * SECOND) <= max
    ensures Within(h + [now], start * SECOND, (start + duration) * SECOND) <= max
  {
    WithinSnoc(h, now, start * SECOND, (start + duration) * SECOND);
    if Unix(now) < start + duration { WithinYoung(h, start, now, duration); }
  }

  /** A key that is only requested gets no handle. */
  lemma NoHandle(m: Ideal, t: Timed, key: Key, max: int)
    requires OnlyRequests([t], key, max) && forall i :: 0 <= i < |m.handles| ==> m.handles[i].key != key
    ensures forall i :: 0 <= i < |IdealStep(m, t).0.handles| ==> IdealStep(m, t).0.handles[i].key != key
  {
    assert [t][0] == t;
  }

  lemma IdealWindowStep(m: Ideal, t: Timed, dur: Key -> int, key: Key, max: int, start: int)
    requires LegalEvent(t, dur) && OnlyRequests([t], key, max)
    requires forall i :: 0 <= i < |m.handles| ==> m.handles[i].key != key
    requires Within(Hist(m, key), start * SECOND, (start + dur(key)) * SECOND) <= max
    ensures Within(Hist(IdealStep(m, t).0, key), start * SECOND, (start + dur(key)) * SECOND) <= max
  {
    assert [t][0] == t;
    RequestHistory(m, t, key);
    if t.event.Request? && t.event.key == key && IdealStep(m, t).1 {
      AdmittedWithin(Hist(m, key), t.now, dur(key), max, start);
    } else {
      assert Hist(m, key) + [] == Hist(m, key);
    }
  }

  lemma {:induction false} IdealWindowBound(run: seq<Timed>, dur: Key -> int, key: Key, max: int, start: int)
    requires Legal(run, dur) && OnlyRequests(run, key, max) && 0 <= max
    ensures forall i :: 0 <= i < |IdealAfter(run).handles| ==> IdealAfter(run).handles[i].key != key
    ensures Within(Hist(IdealAfter(run), key), start * SECOND, (start + dur(key)) * SECOND) <= max
  {
    if run != [] {
      var last := |run| - 1;
      IdealWindowBound(run[..last], dur, key, max, start);
      NoHandle(IdealAfter(run[..last]), run[last], key, max);
      IdealWindowStep(IdealAfter(run[..last]), run[last], dur, key, max, start);
    }
  }

  lemma RequestHistory(m: Ideal, t: Timed, key: Key)
    requires forall i :: 0 <= i < |m.handles| ==> m.handles[i].key != key
    ensures var accepted := t.event.Request? && t.event.key == key && IdealStep(m, t).1;
      Hist(IdealStep(m, t).0, key) == Hist(m, key) + if accepted then [t.now] else []
  {
  }

  lemma {:induction false} AcceptedIsHistory(expiration: int, run: seq<Timed>, dur: Key -> int, key: Key, max: int)
    requires Legal(run, dur) && Fits(expiration, dur) && OnlyRequests(run, key, max) && 0 <= max
    ensures Accepted(expiration, run, key) == Hist(IdealAfter(run), key)
  {
    if run != [] {
      var last := |run| - 1;
      var before, t := run[..last], run[last];
      AcceptedIsHistory(expiration, before, dur, key, max);
      IdealWindowBound(before, dur, key, max, 0);
      RequestHistory(IdealAfter(before), t, key);
      assert Step(After(expiration, before), t).1 == IdealStep(IdealAfter(before), t).1 by {
        RunRefines(expiration, before, dur, t.now);
        StepRefines(After(expiration, before), IdealAfter(before), dur, t);
      }
    }
  }

  /** No span of `duration` whole seconds ever holds more than `max` accepted requests. */
  lemma AlignedWindowBound(expiration: int, run: seq<Timed>, dur: Key -> int, key: Key, max: int, start: int)
    requires Legal(run, dur) && Fits(expiration, dur) && OnlyRequests(run, key, max) && 0 <= max
    ensures Within(Accepted(expiration, run, key), start * SECOND, (start + dur(key)) * SECOND) <= max
  {
    IdealWindowBound(run, dur, key, max, start);
    AcceptedIsHistory(expiration, run, dur, key, max);
  }
}
