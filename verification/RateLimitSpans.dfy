/**
 How long a span of real time the request limit holds for, whatever the
 expiration of idle keys.
 */
module RateLimitSpans {
  import opened RateLimitWindow
  import opened RateLimitSpec
  import opened RateLimitIdeal
  import opened RateLimitSafety

  function InSpan(h: seq<int>, lo: int, length: int): nat { Within(h, lo, lo + length) }

  /** Every span of `length` nanoseconds holds at most `max` accepted requests of `key`, on every run. */
  ghost predicate SpansBounded(expiration: int, dur: Key -> int, key: Key, max: int, length: int) {
    forall run, lo ::
      Legal(run, dur) && OnlyRequests(run, key, max) ==> InSpan(Accepted(expiration, run, key), lo, length) <= max
  }

  /** A second less one tick short of the duration, or the time after which an idle key is forgotten. */
  function LongestSpan(expiration: int, duration: int): int {
    var aligned := (duration - 1) * SECOND + 1;
    if 0 < expiration < aligned then expiration else aligned
  }

  // ---------- What the limiter still remembers ----------

  /** Old enough to have been released, or to have been forgotten with its key. */
  predicate Gone(x: int, clock: int, expiration: int, duration: int) {
    Unix(clock) - Unix(x) >= duration || 0 < expiration <= clock - x
  }

  lemma NotGone(x: int, clock: int, expiration: int, duration: int)
    requires clock - x < LongestSpan(expiration, duration)
    ensures !Gone(x, clock, expiration, duration)
  {
  }

  /** The window is a suffix of the accepted readings, in whole seconds, and the others are gone. */
  ghost predicate Recalls(w: seq<int>, h: seq<int>, clock: int, expiration: int, duration: int) {
    && |w| <= |h|
    && (forall i :: 0 <= i < |w| ==> w[i] == Unix(h[|h| - |w| + i]))
    && (forall i :: 0 <= i < |h| - |w| ==> Gone(h[i], clock, expiration, duration))
    && Ordered(h)
    && (forall i :: 0 <= i < |h| ==> h[i] <= clock)
  }

  lemma RecallsLater(w: seq<int>, h: seq<int>, clock: int, later: int, expiration: int, duration: int)
    requires Recalls(w, h, clock, expiration, duration) && clock <= later
    ensures Recalls(w, h, later, expiration, duration)
  {
  }

  lemma RecallsOrdered(w: seq<int>, h: seq<int>, clock: int, expiration: int, duration: int)
    requires Recalls(w, h, clock, expiration, duration)
    ensures Ordered(w)
  {
    forall i, j | 0 <= i < j < |w| ensures w[i] <= w[j] {
      assert h[|h| - |w| + i] <= h[|h| - |w| + j];
    }
  }

  lemma RecallsRelease(w: seq<int>, h: seq<int>, clock: int, expiration: int, duration: int)
    requires Recalls(w, h, clock, expiration, duration)
    ensures Recalls(RemoveExpired(w, Unix(clock), duration), h, clock, expiration, duration)
  {
    RecallsOrdered(w, h, clock, expiration, duration);
    RemoveExpiredSplits(w, Unix(clock), duration);
    var r := RemoveExpired(w, Unix(clock), duration);
    forall i | 0 <= i < |h| - |r| ensures Gone(h[i], clock, expiration, duration) {
      if i >= |h| - |w| { assert w[i - (|h| - |w|)] == Unix(h[i]); }
    }
    forall i | 0 <= i < |r| ensures r[i] == Unix(h[|h| - |r| + i]) {
      assert r[i] == w[|w| - |r| + i];
    }
  }

  lemma RecallsAppend(w: seq<int>, h: seq<int>, now: int, expiration: int, duration: int)
    requires Recalls(w, h, now, expiration, duration)
    ensures Recalls(w + [Unix(now)], h + [now], now, expiration, duration)
  {
    var w', h' := w + [Unix(now)], h + [now];
    assert forall i :: 0 <= i < |h'| - |w'| ==> h'[i] == h[i];
  }

  lemma RecallsNothing(w: seq<int>, h: seq<int>, clock: int, lastActive: int, expiration: int, duration: int)
    requires Recalls(w, h, clock, expiration, duration) && 0 < expiration <= clock - lastActive
    requires forall i :: 0 <= i < |h| ==> h[i] <= lastActive
    ensures Recalls([], h, clock, expiration, duration)
  {
  }

  /** What holds after every run: `h` are the readings at which requests of `key` were accepted. */
  ghost predicate Remembers(s: Limiter, h: seq<int>, key: Key, clock: int, expiration: int, duration: int) {
    && WellFormed(s, clock) && s.expiration == expiration
    && Recalls(Window(s, key), h, clock, expiration, duration)
    && (key in s.store ==> forall i :: 0 <= i < |h| ==> h[i] <= s.store[key].lastActive)
    && (forall i :: 0 <= i < |s.handles| ==> s.handles[i].key != key)
  }

  lemma RemembersRequest(s: Limiter, h: seq<int>, key: Key, now: int, expiration: int, duration: int, max: int)
    requires Remembers(s, h, key, now, expiration, duration)
    ensures var (u, accepted) := RequestStep(s, now, key, max, duration);
      WellFormed(u, now) ==>
        Remembers(u, if accepted then h + [now] else h, key, now, expiration, duration)
  {
    var w := RemoveExpired(Window(s, key), Unix(now), duration);
    RecallsRelease(Window(s, key), h, now, expiration, duration);
    RecallsAppend(w, h, now, expiration, duration);
  }

  lemma RemembersSweep(s: Limiter, h: seq<int>, key: Key, clock: int, tick: int, expiration: int, duration: int)
    requires Remembers(s, h, key, clock, expiration, duration) && tick <= clock
    ensures Remembers(SweepStep(s, tick), h, key, clock, expiration, duration)
  {
    if expiration > 0 {
      SweepRemovesExactlyIdle(s, clock, tick);
      if key in s.store && key !in SweepFrom(s, tick).store {
        RecallsNothing(Window(s, key), h, clock, s.store[key].lastActive, expiration, duration);
      }
    }
  }

  /** A step that is neither a request of `key` nor a sweep leaves its bucket alone. */
  lemma OtherStep(s: Limiter, t: Timed, key: Key, max: int)
    requires OnlyRequests([t], key, max) && !t.event.Sweep? && !(t.event.Request? && t.event.key == key)
    requires forall i :: 0 <= i < |s.handles| ==> s.handles[i].key != key
    ensures var u := Step(s, t).0;
      && u.expiration == s.expiration
      && (key in u.store <==> key in s.store) && (key in s.store ==> u.store[key] == s.store[key])
      && (forall i :: 0 <= i < |u.handles| ==> u.handles[i].key != key)
  {
    assert [t][0] == t;
  }

  lemma RemembersStep(s: Limiter, h: seq<int>, t: Timed, dur: Key -> int, key: Key, max: int, clock: int, expiration: int)
    requires Remembers(s, h, key, clock, expiration, dur(key)) && clock <= t.now
    requires LegalEvent(t, dur) && OnlyRequests([t], key, max)
    ensures var accepted := t.event.Request? && t.event.key == key && Step(s, t).1;
      Remembers(Step(s, t).0, if accepted then h + [t.now] else h, key, t.now, expiration, dur(key))
  {
    assert [t][0] == t;
    StepKeepsShape(s, clock, t);
    RecallsLater(Window(s, key), h, clock, t.now, expiration, dur(key));
    LaterClock(s, clock, t.now);
    if t.event.Request? && t.event.key == key {
      RemembersRequest(s, h, key, t.now, expiration, dur(key), max);
    } else if t.event.Sweep? {
      RemembersSweep(s, h, key, t.now, t.event.tick, expiration, dur(key));
    } else {
      OtherStep(s, t, key, max);
    }
  }

  // ---------- Short spans are bounded ----------

  lemma {:induction false} WithinLast(h: seq<int>, lo: int, hi: int, k: nat)
    requires k <= |h| && forall i :: 0 <= i < k ==> h[i] < lo
    ensures Within(h, lo, hi) <= |h| - k
  {
    if h != [] {
      if k == |h| {
        WithinLast(h[..|h| - 1], lo, hi, k - 1);
      } else {
        WithinLast(h[..|h| - 1], lo, hi, k);
      }
    }
  }

  /** What lies in a short span up to now is still in the window. */
  lemma SpanRecalled(w: seq<int>, h: seq<int>, now: int, expiration: int, duration: int, lo: int, length: int)
    requires Recalls(w, h, now, expiration, duration) && now < lo + length && length <= LongestSpan(expiration, duration)
    ensures InSpan(h, lo, length) <= |w|
  {
    forall i | 0 <= i < |h| - |w| ensures h[i] < lo {
      assert Gone(h[i], now, expiration, duration);
      if h[i] >= lo { NotGone(h[i], now, expiration, duration); }
    }
    WithinLast(h, lo, lo + length, |h| - |w|);
  }

  lemma AcceptedSpan(s: Limiter, h: seq<int>, key: Key, now: int, expiration: int, duration: int, max: int, lo: int, length: int)
    requires Remembers(s, h, key, now, expiration, duration) && RequestStep(s, now, key, max, duration).1
    requires InSpan(h, lo, length) <= max && length <= LongestSpan(expiration, duration)
    ensures InSpan(h + [now], lo, length) <= max
  {
    WithinSnoc(h, now, lo, lo + length);
    if now < lo + length {
      RecallsRelease(Window(s, key), h, now, expiration, duration);
      SpanRecalled(RemoveExpired(Window(s, key), Unix(now), duration), h, now, expiration, duration, lo, length);
    }
  }

  /** The clock a run ends at; any reading will do before it starts. */
  function Clock(run: seq<Timed>, start: int): int { if run == [] then start else run[|run| - 1].now }

  lemma RemembersLater(s: Limiter, h: seq<int>, key: Key, clock: int, later: int, expiration: int, duration: int)
    requires Remembers(s, h, key, clock, expiration, duration) && clock <= later
    ensures Remembers(s, h, key, later, expiration, duration)
  {
    RecallsLater(Window(s, key), h, clock, later, expiration, duration);
    LaterClock(s, clock, later);
  }

  lemma SpanStep(s: Limiter, h: seq<int>, t: Timed, dur: Key -> int, key: Key, max: int, clock: int, expiration: int,
                 lo: int, length: int)
    requires Remembers(s, h, key, clock, expiration, dur(key)) && clock <= t.now
    requires LegalEvent(t, dur) && OnlyRequests([t], key, max)
    requires InSpan(h, lo, length) <= max && length <= LongestSpan(expiration, dur(key))
    ensures var accepted := t.event.Request? && t.event.key == key && Step(s, t).1;
      InSpan(if accepted then h + [t.now] else h, lo, length) <= max
  {
    assert [t][0] == t;
    if t.event.Request? && t.event.key == key && Step(s, t).1 {
      RemembersLater(s, h, key, clock, t.now, expiration, dur(key));
      AcceptedSpan(s, h, key, t.now, expiration, dur(key), max, lo, length);
    }
  }

  lemma AcceptedSnoc(expiration: int, run: seq<Timed>, t: Timed, key: Key)
    ensures After(expiration, run + [t]) == Step(After(expiration, run), t).0
    ensures var accepted := t.event.Request? && t.event.key == key && Step(After(expiration, run), t).1;
      Accepted(expiration, run + [t], key) ==
      if accepted then Accepted(expiration, run, key) + [t.now] else Accepted(expiration, run, key)
  {
    assert (run + [t])[..|run|] == run;
  }

  lemma LegalLast(run: seq<Timed>, dur: Key -> int, key: Key, max: int, start: int)
    requires Legal(run, dur) && OnlyRequests(run, key, max) && run != [] && start <= run[0].now
    ensures var before, t := run[..|run| - 1], run[|run| - 1];
      && run == before + [t] && Legal(before, dur) && OnlyRequests(before, key, max)
      && LegalEvent(t, dur) && OnlyRequests([t], key, max)
      && Clock(before, start) <= t.now && (before != [] ==> before[0] == run[0])
  {
    assert run[0].now <= run[|run| - 1].now;
  }

  lemma {:induction false} RunRemembers(expiration: int, run: seq<Timed>, dur: Key -> int, key: Key, max: int, start: int)
    requires Legal(run, dur) && OnlyRequests(run, key, max) && (run != [] ==> start <= run[0].now)
    ensures Remembers(After(expiration, run), Accepted(expiration, run, key), key, Clock(run, start), expiration, dur(key))
  {
    if run != [] {
      var before, t := run[..|run| - 1], run[|run| - 1];
      LegalLast(run, dur, key, max, start);
      RunRemembers(expiration, before, dur, key, max, start);
      AcceptedSnoc(expiration, before, t, key);
      RemembersStep(After(expiration, before), Accepted(expiration, before, key), t, dur, key, max,
                    Clock(before, start), expiration);
    }
  }

  /** No run exceeds the limit in a span that is short enough. */
  lemma {:induction false} ShortSpanBounded(expiration: int, run: seq<Timed>, dur: Key -> int, key: Key, max: int,
                                            lo: int, length: int)
    requires Legal(run, dur) && OnlyRequests(run, key, max) && 0 <= max && length <= LongestSpan(expiration, dur(key))
    ensures InSpan(Accepted(expiration, run, key), lo, length) <= max
  {
    if run != [] {
      var before, t := run[..|run| - 1], run[|run| - 1];
      LegalLast(run, dur, key, max, run[0].now);
      ShortSpanBounded(expiration, before, dur, key, max, lo, length);
      RunRemembers(expiration, before, dur, key, max, run[0].now);
      AcceptedSnoc(expiration, before, t, key);
      SpanStep(After(expiration, before), Accepted(expiration, before, key), t, dur, key, max,
               Clock(before, run[0].now), expiration, lo, length);
    }
  }

  // ---------- Longer ones are not ----------

  function Repeated(n: nat, x: int): seq<int> { if n == 0 then [] else Repeated(n - 1, x) + [x] }

  lemma {:induction false} RepeatedFacts(n: nat, x: int)
    ensures |Repeated(n, x)| == n && forall i :: 0 <= i < n ==> Repeated(n, x)[i] == x
  {
    if n > 0 { RepeatedFacts(n - 1, x); }
  }

  lemma {:induction false} RepeatedWithin(n: nat, x: int, lo: int, hi: int)
    requires lo <= x < hi
    ensures Within(Repeated(n, x), lo, hi) == n
  {
    if n > 0 {
      RepeatedWithin(n - 1, x, lo, hi);
      WithinSnoc(Repeated(n - 1, x), x, lo, hi);
    }
  }

  /** One key, active at `now` with these timestamps. */
  function Alone(key: Key, now: int, window: seq<int>, expiration: int): Limiter {
    Limiter(expiration, map[key := Bucket(now, window)], [key], map[], [])
  }

  function Burst(key: Key, n: nat, now: int, max: int, duration: int): seq<Timed> {
    if n == 0 then [] else Burst(key, n - 1, now, max, duration) + [At(now, Request(key, max, duration))]
  }

  lemma FirstOfBurst(key: Key, now: int, max: int, duration: int, expiration: int)
    requires 0 < max
    ensures RequestStep(Empty(expiration), now, key, max, duration) == (Alone(key, now, [Unix(now)], expiration), true)
  {
    var u := RequestStep(Empty(expiration), now, key, max, duration).0;
    assert [] + [Unix(now)] == [Unix(now)] && [key] + [] == [key];
    assert u.store == map[key := Bucket(now, [Unix(now)])];
  }

  lemma NextOfBurst(key: Key, now: int, max: int, duration: int, expiration: int, w: seq<int>)
    requires 0 < |w| < max && w[0] == Unix(now) && 0 < duration
    ensures RequestStep(Alone(key, now, w, expiration), now, key, max, duration) ==
            (Alone(key, now, w + [Unix(now)], expiration), true)
  {
    var u := RequestStep(Alone(key, now, w, expiration), now, key, max, duration).0;
    Fronted(key);
    assert u.store == map[key := Bucket(now, w + [Unix(now)])];
  }

  lemma Fronted(key: Key)
    ensures [key] + Without([key], key) == [key]
  {
    assert [key][1..] == [];
  }

  /** `n` requests of `key` at `now`, and nothing else, have been accepted. */
  ghost predicate AfterBurst(expiration: int, run: seq<Timed>, key: Key, n: nat, now: int) {
    && After(expiration, run) == Alone(key, now, Repeated(n, Unix(now)), expiration)
    && Accepted(expiration, run, key) == Repeated(n, now)
  }

  lemma BurstBegins(expiration: int, key: Key, now: int, max: int, duration: int)
    requires 0 < max
    ensures AfterBurst(expiration, [] + [At(now, Request(key, max, duration))], key, 1, now)
  {
    AcceptedSnoc(expiration, [], At(now, Request(key, max, duration)), key);
    FirstOfBurst(key, now, max, duration, expiration);
    RepeatedFacts(1, Unix(now));
    RepeatedFacts(1, now);
    assert Repeated(1, Unix(now)) == [Unix(now)] && Repeated(1, now) == [now];
  }

  lemma BurstGoesOn(expiration: int, run: seq<Timed>, key: Key, n: nat, now: int, max: int, duration: int)
    requires AfterBurst(expiration, run, key, n, now) && 0 < n < max && 0 < duration
    ensures AfterBurst(expiration, run + [At(now, Request(key, max, duration))], key, n + 1, now)
  {
    AcceptedSnoc(expiration, run, At(now, Request(key, max, duration)), key);
    RepeatedFacts(n, Unix(now));
    NextOfBurst(key, now, max, duration, expiration, Repeated(n, Unix(now)));
  }

  /** Up to `max` requests at once are all accepted. */
  lemma {:induction false} BurstAccepted(key: Key, n: nat, now: int, max: int, duration: int, expiration: int)
    requires 0 < n <= max && 0 < duration
    ensures AfterBurst(expiration, Burst(key, n, now, max, duration), key, n, now)
  {
    if n == 1 {
      BurstBegins(expiration, key, now, max, duration);
    } else {
      BurstAccepted(key, n - 1, now, max, duration, expiration);
      BurstGoesOn(expiration, Burst(key, n - 1, now, max, duration), key, n - 1, now, max, duration);
    }
  }

  lemma {:induction false} BurstEvents(key: Key, n: nat, now: int, max: int, duration: int)
    ensures |Burst(key, n, now, max, duration)| == n
    ensures forall i :: 0 <= i < n ==> Burst(key, n, now, max, duration)[i] == At(now, Request(key, max, duration))
  {
    if n > 0 { BurstEvents(key, n - 1, now, max, duration); }
  }

  /** `max` requests in the last tick of a second, one more when they have just expired. */
  function StraddlingRun(key: Key, max: nat, duration: int): seq<Timed> {
    Burst(key, max, SECOND - 1, max, duration) + [At(duration * SECOND, Request(key, max, duration))]
  }

  lemma AdmittedAfterAll(key: Key, earlier: int, now: int, max: int, duration: int, expiration: int, w: seq<int>)
    requires w != [] && Unix(now) - w[0] >= duration && Unix(now) - w[|w| - 1] >= duration && 0 < max
    ensures RequestStep(Alone(key, earlier, w, expiration), now, key, max, duration).1
  {
  }

  lemma StraddlingRunLegal(dur: Key -> int, key: Key, max: nat, run: seq<Timed>)
    requires 0 < dur(key) && run == StraddlingRun(key, max, dur(key))
    ensures Legal(run, dur) && OnlyRequests(run, key, max)
  {
    BurstEvents(key, max, SECOND - 1, max, dur(key));
  }

  /** A burst that has expired leaves room for one more request. */
  lemma AcceptedAfterBurst(expiration: int, burst: seq<Timed>, key: Key, max: nat, earlier: int, now: int, duration: int)
    requires 0 < max && AfterBurst(expiration, burst, key, max, earlier) && Unix(now) - Unix(earlier) >= duration
    ensures Accepted(expiration, burst + [At(now, Request(key, max, duration))], key) == Repeated(max, earlier) + [now]
  {
    RepeatedFacts(max, Unix(earlier));
    AdmittedAfterAll(key, earlier, now, max, duration, expiration, Repeated(max, Unix(earlier)));
    AcceptedSnoc(expiration, burst, At(now, Request(key, max, duration)), key);
  }

  /** `max` requests, a sweep as soon as the key is idle, one more request. */
  function ForgetfulRun(key: Key, max: nat, duration: int, expiration: int): seq<Timed> {
    Burst(key, max, 0, max, duration) + [At(expiration, Sweep(expiration))] +
    [At(expiration, Request(key, max, duration))]
  }

  lemma ForgetfulRunLegal(expiration: int, dur: Key -> int, key: Key, max: nat, run: seq<Timed>)
    requires 0 < expiration && run == ForgetfulRun(key, max, dur(key), expiration)
    ensures Legal(run, dur) && OnlyRequests(run, key, max)
  {
    BurstEvents(key, max, 0, max, dur(key));
  }

  lemma Forgotten(key: Key, w: seq<int>, expiration: int)
    requires 0 < expiration
    ensures SweepStep(Alone(key, 0, w, expiration), expiration) == Empty(expiration)
  {
    var s := Alone(key, 0, w, expiration);
    SweptAlone(s, key, expiration);
    assert s.store - {key} == map[];
  }

  lemma ForgetfulRunAccepted(expiration: int, key: Key, max: nat, duration: int, burst: seq<Timed>)
    requires 0 < max && 0 < duration && 0 < expiration && AfterBurst(expiration, burst, key, max, 0)
    ensures var sweep, last := At(expiration, Sweep(expiration)), At(expiration, Request(key, max, duration));
      Accepted(expiration, burst + [sweep] + [last], key) == Repeated(max, 0) + [expiration]
  {
    var sweep := At(expiration, Sweep(expiration));
    AcceptedSnoc(expiration, burst, sweep, key);
    Forgotten(key, Repeated(max, 0), expiration);
    FirstOfBurst(key, expiration, max, duration, expiration);
    AcceptedSnoc(expiration, burst + [sweep], At(expiration, Request(key, max, duration)), key);
  }

  lemma OneMoreInSpan(max: nat, start: int, end: int, length: int)
    requires start <= end < start + length
    ensures InSpan(Repeated(max, start) + [end], start, length) == max + 1
  {
    RepeatedWithin(max, start, start, start + length);
    WithinSnoc(Repeated(max, start), end, start, start + length);
  }

  lemma SpanWitness(expiration: int, dur: Key -> int, key: Key, max: int, length: int, run: seq<Timed>, lo: int)
    requires Legal(run, dur) && OnlyRequests(run, key, max) && InSpan(Accepted(expiration, run, key), lo, length) > max
    ensures !SpansBounded(expiration, dur, key, max, length)
  {
  }

  /** Whatever the expiration, one tick beyond the aligned span the limit can be exceeded. */
  lemma StraddlingRunOverflows(expiration: int, dur: Key -> int, key: Key, max: nat, length: int, run: seq<Timed>)
    requires 0 < max && 0 < dur(key) && run == StraddlingRun(key, max, dur(key))
    requires length > (dur(key) - 1) * SECOND + 1
    ensures InSpan(Accepted(expiration, run, key), SECOND - 1, length) == max + 1
    ensures !SpansBounded(expiration, dur, key, max, length)
  {
    StraddlingRunLegal(dur, key, max, run);
    BurstAccepted(key, max, SECOND - 1, max, dur(key), expiration);
    AcceptedAfterBurst(expiration, Burst(key, max, SECOND - 1, max, dur(key)), key, max,
                       SECOND - 1, dur(key) * SECOND, dur(key));
    OneMoreInSpan(max, SECOND - 1, dur(key) * SECOND, length);
    SpanWitness(expiration, dur, key, max, length, run, SECOND - 1);
  }

  /** So it can beyond the expiration. */
  lemma ForgetfulRunOverflows(expiration: int, dur: Key -> int, key: Key, max: nat, length: int, run: seq<Timed>)
    requires 0 < max && 0 < dur(key) && 0 < expiration < length && run == ForgetfulRun(key, max, dur(key), expiration)
    ensures InSpan(Accepted(expiration, run, key), 0, length) == max + 1
    ensures !SpansBounded(expiration, dur, key, max, length)
  {
    ForgetfulRunLegal(expiration, dur, key, max, run);
    BurstAccepted(key, max, 0, max, dur(key), expiration);
    ForgetfulRunAccepted(expiration, key, max, dur(key), Burst(key, max, 0, max, dur(key)));
    OneMoreInSpan(max, 0, expiration, length);
    SpanWitness(expiration, dur, key, max, length, run, 0);
  }

  /**
   Timestamps are whole seconds and idle keys are forgotten, so the limit does
   not hold for every span of a key's duration in real time: it holds exactly
   for the spans one second (less one tick) shorter, and no longer than the
   expiration where keys expire.
   */
  lemma SpansBoundedIff(expiration: int, dur: Key -> int, key: Key, max: int, length: int)
    requires 0 < dur(key) && 0 < max
    ensures SpansBounded(expiration, dur, key, max, length) <==> length <= LongestSpan(expiration, dur(key))
  {
    if length <= LongestSpan(expiration, dur(key)) {
      forall run, lo | Legal(run, dur) && OnlyRequests(run, key, max)
        ensures InSpan(Accepted(expiration, run, key), lo, length) <= max
      {
        ShortSpanBounded(expiration, run, dur, key, max, lo, length);
      }
    } else if length > (dur(key) - 1) * SECOND + 1 {
      StraddlingRunOverflows(expiration, dur, key, max, length, StraddlingRun(key, max, dur(key)));
    } else {
      ForgetfulRunOverflows(expiration, dur, key, max, length, ForgetfulRun(key, max, dur(key), expiration));
    }
  }
}
