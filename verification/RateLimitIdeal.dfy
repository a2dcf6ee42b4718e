/**
 The ideal limiter keeps every accepted reading forever. The real limiter, which
 releases expired requests, forgets idle keys and stores whole seconds, gives
 the same answers on every run.
 */
module RateLimitIdeal {
  import opened RateLimitWindow
  import opened RateLimitSpec

  datatype Ideal = Ideal(history: map<Key, seq<int>>, handles: seq<Handle>)

  function Hist(m: Ideal, key: Key): seq<int> {
    if key in m.history then m.history[key] else []
  }

  function Secs(h: seq<int>): seq<int> {
    seq(|h|, i requires 0 <= i < |h| => Unix(h[i]))
  }

  /** Handles of `key` not completed yet. */
  function Open(handles: seq<Handle>, key: Key): nat {
    if handles == [] then 0
    else Open(handles[..|handles| - 1], key) +
         var last := handles[|handles| - 1]; if last.key == key && !last.completed then 1 else 0
  }

  /** Accepted requests of `key` younger than `duration`, over the whole past. */
  function Recent(m: Ideal, key: Key, now: int, duration: int): nat {
    Young(Secs(Hist(m, key)), Unix(now), duration)
  }

  function Record(m: Ideal, key: Key, now: int): Ideal {
    m.(history := m.history[key := Hist(m, key) + [now]])
  }

  function IdealStep(m: Ideal, t: Timed): (Ideal, bool) {
    match t.event
    case Request(key, max, duration) =>
      if Recent(m, key, t.now, duration) < max then (Record(m, key, t.now), true) else (m, false)
    case Reserve(key, max, duration) =>
      if Recent(m, key, t.now, duration) + Open(m.handles, key) < max
      then (m.(handles := m.handles + [Handle(key, false)]), true) else (m, false)
    case Complete(handle, success) =>
      if handle >= |m.handles| || m.handles[handle].completed then (m, false)
      else
        var key := m.handles[handle].key;
        var n := m.(handles := m.handles[handle := Handle(key, true)]);
        (if success then Record(n, key, t.now) else n, false)
    case Sweep(_) => (m, false)
  }

  function IdealAfter(run: seq<Timed>): Ideal {
    if run == [] then Ideal(map[], [])
    else IdealStep(IdealAfter(run[..|run| - 1]), run[|run| - 1]).0
  }

  function IdealAnswers(run: seq<Timed>): seq<bool> {
    if run == [] then []
    else IdealAnswers(run[..|run| - 1]) + [IdealStep(IdealAfter(run[..|run| - 1]), run[|run| - 1]).1]
  }

  // ---------- Runs ----------

  /** Each key is limited with one duration; a tick is no later than the sweep it causes. */
  ghost predicate LegalEvent(t: Timed, dur: Key -> int) {
    match t.event
    case Request(key, _, duration) => duration == dur(key)
    case Reserve(key, _, duration) => duration == dur(key)
    case Complete(_, _) => true
    case Sweep(tick) => tick <= t.now
  }

  ghost predicate Legal(run: seq<Timed>, dur: Key -> int) {
    && (forall i, j :: 0 <= i < j < |run| ==> run[i].now <= run[j].now)
    && (forall i :: 0 <= i < |run| ==> LegalEvent(run[i], dur))
  }

  /** No duration outlives an idle key. */
  ghost predicate Fits(expiration: int, dur: Key -> int) {
    expiration <= 0 || forall key :: dur(key) * SECOND <= expiration
  }

  // ---------- Simulation ----------

  /** The window is the not-yet-released suffix of the history, in whole seconds. */
  ghost predicate Tracks(w: seq<int>, h: seq<int>, duration: int, clock: int) {
    && |w| <= |h|
    && (forall i :: 0 <= i < |w| ==> w[i] == Unix(h[|h| - |w| + i]))
    && (forall i :: 0 <= i < |h| - |w| ==> Unix(clock) - Unix(h[i]) >= duration)
    && Ordered(h)
    && (forall i :: 0 <= i < |h| ==> h[i] <= clock)
  }

  /** The reservation table counts open handles and has no entry for zero. */
  ghost predicate Counted(reservations: map<Key, int>, handles: seq<Handle>) {
    forall k: Key ::
      && (k in reservations <==> Open(handles, k) > 0)
      && (k in reservations ==> reservations[k] == Open(handles, k))
  }

  ghost predicate AllTrack(s: Limiter, m: Ideal, dur: Key -> int, clock: int) {
    forall k :: Tracks(Window(s, k), Hist(m, k), dur(k), clock)
  }

  ghost predicate Simulates(s: Limiter, m: Ideal, dur: Key -> int, clock: int) {
    && WellFormed(s, clock)
    && s.handles == m.handles
    && Counted(s.reservations, s.handles)
    && AllTrack(s, m, dur, clock)
  }

  lemma TracksLater(w: seq<int>, h: seq<int>, duration: int, clock: int, later: int)
    requires Tracks(w, h, duration, clock) && clock <= later
    ensures Tracks(w, h, duration, later)
  {
  }

  lemma TracksSuffix(w: seq<int>, h: seq<int>, duration: int, clock: int, r: seq<int>)
    requires Tracks(w, h, duration, clock)
    requires |r| <= |w| && r == w[|w| - |r|..]
    requires forall i :: 0 <= i < |w| - |r| ==> Unix(clock) - w[i] >= duration
    ensures Tracks(r, h, duration, clock)
  {
    forall i | 0 <= i < |h| - |r| ensures Unix(clock) - Unix(h[i]) >= duration {
      if i >= |h| - |w| { assert w[i - (|h| - |w|)] == Unix(h[i]); }
    }
    forall i | 0 <= i < |r| ensures r[i] == Unix(h[|h| - |r| + i]) {
      assert r[i] == w[|w| - |r| + i];
    }
  }

  lemma TracksCount(w: seq<int>, h: seq<int>, duration: int, clock: int)
    requires Tracks(w, h, duration, clock)
    requires forall i :: 0 <= i < |w| ==> Unix(clock) - w[i] < duration
    ensures |w| == Young(Secs(h), Unix(clock), duration)
  {
    var k := |h| - |w|;
    forall i | k <= i < |h| ensures Unix(clock) - Secs(h)[i] < duration {
      assert w[i - k] == Unix(h[i]);
    }
    YoungBoundary(Secs(h), k, Unix(clock), duration);
  }

  /** Releasing what expired leaves the ideal count. */
  lemma TracksRelease(w: seq<int>, h: seq<int>, duration: int, clock: int)
    requires Tracks(w, h, duration, clock)
    ensures var r := RemoveExpired(w, Unix(clock), duration);
      && Tracks(r, h, duration, clock)
      && |r| == Young(Secs(h), Unix(clock), duration)
  {
    assert Ordered(w) by {
      forall i, j | 0 <= i < j < |w| ensures w[i] <= w[j] {
        assert h[|h| - |w| + i] <= h[|h| - |w| + j];
      }
    }
    RemoveExpiredSplits(w, Unix(clock), duration);
    var r := RemoveExpired(w, Unix(clock), duration);
    TracksSuffix(w, h, duration, clock, r);
    TracksCount(r, h, duration, clock);
  }

  lemma TracksAppend(w: seq<int>, h: seq<int>, duration: int, now: int)
    requires Tracks(w, h, duration, now)
    ensures Tracks(w + [Unix(now)], h + [now], duration, now)
  {
    var w', h' := w + [Unix(now)], h + [now];
    assert forall i :: 0 <= i < |h'| - |w'| ==> h'[i] == h[i];
  }

  /** A key idle for its whole duration has nothing young left to forget. */
  lemma TracksForgotten(w: seq<int>, h: seq<int>, duration: int, clock: int, lastActive: int)
    requires Tracks(w, h, duration, clock)
    requires forall i :: 0 <= i < |w| ==> w[i] <= Unix(lastActive)
    requires clock - lastActive >= duration * SECOND
    ensures Tracks([], h, duration, clock)
  {
    forall i | 0 <= i < |h| ensures Unix(clock) - Unix(h[i]) >= duration {
      if i >= |h| - |w| { assert w[i - (|h| - |w|)] == Unix(h[i]); }
    }
  }

  lemma {:induction false} OpenCompleted(handles: seq<Handle>, i: nat, key: Key)
    requires i < |handles| && !handles[i].completed
    ensures Open(handles[i := Handle(handles[i].key, true)], key) ==
            Open(handles, key) - if handles[i].key == key then 1 else 0
  {
    var last := |handles| - 1;
    var changed := handles[i := Handle(handles[i].key, true)];
    if i < last {
      OpenCompleted(handles[..last], i, key);
      assert changed[..last] == handles[..last][i := Handle(handles[i].key, true)];
    } else {
      assert changed[..last] == handles[..last];
    }
  }

  lemma OpenAppended(handles: seq<Handle>, h: Handle, key: Key)
    ensures Open(handles + [h], key) == Open(handles, key) + if h.key == key && !h.completed then 1 else 0
  {
    assert (handles + [h])[..|handles|] == handles;
  }

  lemma ReserveKeepsCount(s: Limiter, key: Key)
    requires Counted(s.reservations, s.handles)
    ensures Counted(s.reservations[key := InFlight(s, key) + 1], s.handles + [Handle(key, false)])
  {
    forall k: Key { OpenAppended(s.handles, Handle(key, false), k); }
  }

  lemma ReleaseKeepsCount(s: Limiter, handle: nat)
    requires Counted(s.reservations, s.handles)
    requires handle < |s.handles| && !s.handles[handle].completed
    ensures Counted(Release(s, handle).reservations, Release(s, handle).handles)
  {
    forall k: Key { OpenCompleted(s.handles, handle, k); }
  }

  lemma SimulatesLater(s: Limiter, m: Ideal, dur: Key -> int, clock: int, later: int)
    requires Simulates(s, m, dur, clock) && clock <= later
    ensures Simulates(s, m, dur, later)
  {
    LaterClock(s, clock, later);
    forall k ensures Tracks(Window(s, k), Hist(m, k), dur(k), later) {
      TracksLater(Window(s, k), Hist(m, k), dur(k), clock, later);
    }
  }

  /** Replacing one key's window and history leaves every other key alone. */
  lemma TouchTracks(s: Limiter, m: Ideal, n: Ideal, dur: Key -> int, now: int, key: Key, w: seq<int>)
    requires AllTrack(s, m, dur, now)
    requires forall k :: k != key ==> Hist(n, k) == Hist(m, k)
    requires Tracks(w, Hist(n, key), dur(key), now)
    ensures AllTrack(Touch(s, key, now, w), n, dur, now)
  {
    var t := Touch(s, key, now, w);
    forall k ensures Tracks(Window(t, k), Hist(n, k), dur(k), now) {
      if k != key { assert Window(t, k) == Window(s, k); }
    }
  }

  lemma RequestRefines(s: Limiter, m: Ideal, dur: Key -> int, t: Timed)
    requires t.event.Request? && Simulates(s, m, dur, t.now) && LegalEvent(t, dur)
    ensures Step(s, t).1 == IdealStep(m, t).1
    ensures Simulates(Step(s, t).0, IdealStep(m, t).0, dur, t.now)
  {
    var key, now := t.event.key, t.now;
    StepKeepsShape(s, now, t);
    TracksRelease(Window(s, key), Hist(m, key), dur(key), now);
    var w := RemoveExpired(Window(s, key), Unix(now), dur(key));
    TracksAppend(w, Hist(m, key), dur(key), now);
    var n := IdealStep(m, t).0;
    TouchTracks(s, m, n, dur, now, key, if |w| < t.event.max then w + [Unix(now)] else w);
  }

  lemma ReserveTracks(s: Limiter, m: Ideal, dur: Key -> int, t: Timed)
    requires t.event.Reserve? && AllTrack(s, m, dur, t.now) && LegalEvent(t, dur)
    ensures AllTrack(Step(s, t).0, IdealStep(m, t).0, dur, t.now)
  {
    var key, now := t.event.key, t.now;
    TracksRelease(Window(s, key), Hist(m, key), dur(key), now);
    var w := RemoveExpired(Window(s, key), Unix(now), dur(key));
    var s', n := Step(s, t).0, IdealStep(m, t).0;
    TouchTracks(s, m, n, dur, now, key, w);
    forall k ensures Tracks(Window(s', k), Hist(n, k), dur(k), now) {
      assert Window(s', k) == Window(Touch(s, key, now, w), k);
    }
  }

  lemma ReserveRefines(s: Limiter, m: Ideal, dur: Key -> int, t: Timed)
    requires t.event.Reserve? && Simulates(s, m, dur, t.now) && LegalEvent(t, dur)
    ensures Step(s, t).1 == IdealStep(m, t).1
    ensures Simulates(Step(s, t).0, IdealStep(m, t).0, dur, t.now)
  {
    StepKeepsShape(s, t.now, t);
    ReserveTracks(s, m, dur, t);
    ReserveKeepsCount(s, t.event.key);
    TracksRelease(Window(s, t.event.key), Hist(m, t.event.key), dur(t.event.key), t.now);
  }

  /** A released reservation leaves every window as it was. */
  lemma ReleaseTracks(s: Limiter, m: Ideal, dur: Key -> int, now: int, handle: nat)
    requires AllTrack(s, m, dur, now) && handle < |s.handles|
    ensures AllTrack(Release(s, handle), m.(handles := Release(s, handle).handles), dur, now)
  {
    var u := Release(s, handle);
    var n := m.(handles := u.handles);
    forall k ensures Tracks(Window(u, k), Hist(n, k), dur(k), now) {
      assert Window(u, k) == Window(s, k) && Hist(n, k) == Hist(m, k);
    }
  }

  lemma CompleteTracks(s: Limiter, m: Ideal, dur: Key -> int, t: Timed)
    requires t.event.Complete? && s.handles == m.handles && AllTrack(s, m, dur, t.now)
    ensures AllTrack(Step(s, t).0, IdealStep(m, t).0, dur, t.now)
  {
    var handle, now := t.event.handle, t.now;
    if handle < |s.handles| && !s.handles[handle].completed {
      var key, u := s.handles[handle].key, Release(s, handle);
      var n := m.(handles := u.handles);
      ReleaseTracks(s, m, dur, now, handle);
      if t.event.success {
        TracksAppend(Window(u, key), Hist(n, key), dur(key), now);
        TouchTracks(u, n, Record(n, key, now), dur, now, key, Window(u, key) + [Unix(now)]);
      }
    }
  }

  lemma CompleteRefines(s: Limiter, m: Ideal, dur: Key -> int, t: Timed)
    requires t.event.Complete? && Simulates(s, m, dur, t.now)
    ensures Simulates(Step(s, t).0, IdealStep(m, t).0, dur, t.now)
  {
    StepKeepsShape(s, t.now, t);
    CompleteTracks(s, m, dur, t);
    var handle := t.event.handle;
    if handle < |s.handles| && !s.handles[handle].completed { ReleaseKeepsCount(s, handle); }
  }

  /** A swept key's missing window is one that had nothing young in it. */
  lemma SweepRefines(s: Limiter, m: Ideal, dur: Key -> int, now: int, tick: int)
    requires Simulates(s, m, dur, now) && tick <= now && Fits(s.expiration, dur)
    ensures Simulates(SweepStep(s, tick), m, dur, now)
  {
    if s.expiration > 0 {
      SweepRemovesExactlyIdle(s, now, tick);
      var t := SweepFrom(s, tick);
      forall k ensures Tracks(Window(t, k), Hist(m, k), dur(k), now) {
        assert Tracks(Window(s, k), Hist(m, k), dur(k), now);
        if k in s.store && k !in t.store {
          assert dur(k) * SECOND <= s.expiration;
          TracksForgotten(Window(s, k), Hist(m, k), dur(k), now, s.store[k].lastActive);
        } else {
          assert Window(t, k) == Window(s, k);
        }
      }
    }
  }

  lemma StepRefines(s: Limiter, m: Ideal, dur: Key -> int, t: Timed)
    requires Simulates(s, m, dur, t.now) && LegalEvent(t, dur) && Fits(s.expiration, dur)
    ensures Step(s, t).1 == IdealStep(m, t).1
    ensures Simulates(Step(s, t).0, IdealStep(m, t).0, dur, t.now)
    ensures Step(s, t).0.expiration == s.expiration
  {
    match t.event
    case Request(_, _, _) => RequestRefines(s, m, dur, t);
    case Reserve(_, _, _) => ReserveRefines(s, m, dur, t);
    case Complete(_, _) => CompleteRefines(s, m, dur, t);
    case Sweep(tick) =>
      SweepRefines(s, m, dur, t.now, tick);
      SweepRemovesExactlyIdle(s, t.now, tick);
  }

  /**
   Whole runs: whatever the interleaving of requests, reservations, completions
   and sweeps over any keys, forgetting is invisible in the answers.
   */
  lemma {:induction false} RunRefines(expiration: int, run: seq<Timed>, dur: Key -> int, clock: int)
    requires Legal(run, dur) && Fits(expiration, dur)
    requires run != [] ==> run[|run| - 1].now <= clock
    ensures Answers(expiration, run) == IdealAnswers(run)
    ensures Simulates(After(expiration, run), IdealAfter(run), dur, clock)
    ensures After(expiration, run).expiration == expiration
  {
    if run != [] {
      var last := |run| - 1;
      var t := run[last];
      RunRefines(expiration, run[..last], dur, t.now);
      StepRefines(After(expiration, run[..last]), IdealAfter(run[..last]), dur, t);
      SimulatesLater(After(expiration, run), IdealAfter(run), dur, t.now, clock);
    }
  }
}
