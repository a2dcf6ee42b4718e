/** Which keys the limiter holds, and since when: told from the run alone. */
module RateLimitActivity {
  import opened Basics
  import opened RateLimitWindow
  import opened RateLimitSpec

  ghost predicate Chronological(run: seq<Timed>) {
    forall i, j :: 0 <= i < j < |run| ==> run[i].now <= run[j].now
  }

  /** A request or reservation, granted or not, or the successful completion of an open handle. */
  predicate Uses(handles: seq<Handle>, t: Timed, key: Key) {
    match t.event
    case Request(k, _, _) => k == key
    case Reserve(k, _, _) => k == key
    case Complete(h, success) => success && h < |handles| && !handles[h].completed && handles[h].key == key
    case Sweep(_) => false
  }

  /** The position of the last use of `key` in the run, or -1. */
  function LastUse(expiration: int, run: seq<Timed>, key: Key): int {
    if run == [] then -1
    else
      var before := run[..|run| - 1];
      if Uses(After(expiration, before).handles, run[|run| - 1], key) then |run| - 1
      else LastUse(expiration, before, key)
  }

  /** No sweep after position `i` ticked at least the expiration later. */
  predicate NotSwept(expiration: int, run: seq<Timed>, i: nat)
    requires i < |run|
  {
    forall j :: i < j < |run| && run[j].event.Sweep? && 0 < expiration ==>
      run[j].event.tick - run[i].now < expiration
  }

  lemma {:induction false} LastUseRange(expiration: int, run: seq<Timed>, key: Key)
    ensures -1 <= LastUse(expiration, run, key) < |run|
  {
    if run != [] { LastUseRange(expiration, run[..|run| - 1], key); }
  }

  /** What the store says about a key, given its last use. */
  ghost predicate Knows(s: Limiter, expiration: int, run: seq<Timed>, key: Key, i: int) {
    && -1 <= i < |run|
    && (key in s.store <==> i >= 0 && NotSwept(expiration, run, i))
    && (key in s.store ==> s.store[key].lastActive == run[i].now)
  }

  // ---------- One step ----------

  lemma UsedStep(s: Limiter, t: Timed, key: Key)
    requires Uses(s.handles, t, key)
    ensures var u := Step(s, t).0; key in u.store && u.store[key].lastActive == t.now
  {
  }

  lemma UnusedStep(s: Limiter, t: Timed, key: Key)
    requires !Uses(s.handles, t, key) && !t.event.Sweep?
    ensures var u := Step(s, t).0; (key in u.store <==> key in s.store) && (key in s.store ==> u.store[key] == s.store[key])
  {
  }

  lemma SweptStep(s: Limiter, clock: int, tick: int, key: Key)
    requires WellFormed(s, clock)
    ensures var u := SweepStep(s, tick);
      && (key in u.store <==> key in s.store && (0 < s.expiration ==> tick - s.store[key].lastActive < s.expiration))
      && (key in u.store ==> u.store[key] == s.store[key])
  {
    SweepRemovesExactlyIdle(s, clock, tick);
  }

  lemma NotSweptSnoc(expiration: int, run: seq<Timed>, t: Timed, i: nat)
    requires i < |run|
    ensures NotSwept(expiration, run + [t], i) <==>
      NotSwept(expiration, run, i) && (t.event.Sweep? && 0 < expiration ==> t.event.tick - run[i].now < expiration)
  {
    var all := run + [t];
    assert all[|run|] == t && forall j :: 0 <= j < |run| ==> all[j] == run[j];
  }

  lemma KnowsStep(s: Limiter, clock: int, expiration: int, run: seq<Timed>, t: Timed, key: Key, i: int)
    requires WellFormed(s, clock) && s.expiration == expiration && Knows(s, expiration, run, key, i)
    ensures Knows(Step(s, t).0, expiration, run + [t], key, if Uses(s.handles, t, key) then |run| else i)
  {
    if Uses(s.handles, t, key) {
      UsedStep(s, t, key);
    } else {
      if i >= 0 { NotSweptSnoc(expiration, run, t, i); }
      if t.event.Sweep? { SweptStep(s, clock, t.event.tick, key); } else { UnusedStep(s, t, key); }
    }
  }

  // ---------- Every run ----------

  lemma RunLast(expiration: int, run: seq<Timed>, key: Key)
    requires run != []
    ensures var before, t := run[..|run| - 1], run[|run| - 1];
      && run == before + [t] && After(expiration, run) == Step(After(expiration, before), t).0
      && LastUse(expiration, run, key) ==
         (if Uses(After(expiration, before).handles, t, key) then |before| else LastUse(expiration, before, key))
  {
  }

  lemma StepKeepsExpiration(s: Limiter, clock: int, t: Timed)
    requires WellFormed(s, clock)
    ensures Step(s, t).0.expiration == s.expiration
  {
    if t.event.Sweep? { SweepRemovesExactlyIdle(s, clock, t.event.tick); }
  }

  lemma {:induction false} RunShape(expiration: int, run: seq<Timed>)
    requires Chronological(run)
    ensures After(expiration, run).expiration == expiration
    ensures forall clock :: (run != [] ==> run[|run| - 1].now <= clock) ==> WellFormed(After(expiration, run), clock)
  {
    if run != [] {
      var before, t := run[..|run| - 1], run[|run| - 1];
      RunShape(expiration, before);
      StepKeepsExpiration(After(expiration, before), t.now, t);
      StepKeepsShape(After(expiration, before), t.now, t);
      forall clock | t.now <= clock ensures WellFormed(After(expiration, run), clock) {
        LaterClock(After(expiration, run), t.now, clock);
      }
    }
  }

  /**
   After every run a key is held if and only if it was used and no later sweep
   ticked an expiration after its last use; and its recorded activity is the
   reading of that use, denied requests included.
   */
  lemma {:induction false} HeldIff(expiration: int, run: seq<Timed>, key: Key)
    requires Chronological(run)
    ensures var s, i := After(expiration, run), LastUse(expiration, run, key);
      && -1 <= i < |run|
      && (key in s.store <==> i >= 0 && NotSwept(expiration, run, i))
      && (key in s.store ==> s.store[key].lastActive == run[i].now)
  {
    if run != [] {
      var before, t := run[..|run| - 1], run[|run| - 1];
      HeldIff(expiration, before, key);
      RunShape(expiration, before);
      RunLast(expiration, run, key);
      KnowsStep(After(expiration, before), t.now, expiration, before, t, key, LastUse(expiration, before, key));
    }
  }

  // ---------- The recency list ----------

  /** Most recently used first. */
  ghost predicate ByUse(order: seq<Key>, use: Key -> int) {
    forall a, b :: 0 <= a < b < |order| ==> use(order[a]) > use(order[b])
  }

  function UseOf(expiration: int, run: seq<Timed>): Key -> int { key => LastUse(expiration, run, key) }

  /** A key is moved to the front, or none, and some may be dropped at the back. */
  lemma {:induction false} SweepDropsBack(s: Limiter, tick: int)
    ensures var u := SweepFrom(s, tick); |u.order| <= |s.order| && u.order == s.order[..|u.order|]
    ensures SweepFrom(s, tick).handles == s.handles
    decreases |s.order|
  {
    if s.order != [] {
      var oldest := s.order[|s.order| - 1];
      if !(oldest in s.store && tick - s.store[oldest].lastActive < s.expiration) {
        SweepDropsBack(s.(store := s.store - {oldest}, order := s.order[..|s.order| - 1]), tick);
      }
    }
  }

  lemma OrderStep(s: Limiter, t: Timed)
    ensures var u := Step(s, t).0;
      || (exists key :: Uses(s.handles, t, key) && u.order == [key] + Without(s.order, key))
      || ((forall key :: !Uses(s.handles, t, key)) && |u.order| <= |s.order| && u.order == s.order[..|u.order|])
  {
    match t.event
    case Request(key, _, _) => assert Uses(s.handles, t, key);
    case Reserve(key, _, _) => assert Uses(s.handles, t, key);
    case Complete(h, success) =>
      if success && h < |s.handles| && !s.handles[h].completed { assert Uses(s.handles, t, s.handles[h].key); }
    case Sweep(tick) => SweepDropsBack(s, tick);
  }

  lemma FrontByUse(order: seq<Key>, key: Key, use: Key -> int, later: Key -> int)
    requires NoRepeats(order) && ByUse(order, use)
    requires forall k :: k != key ==> later(k) == use(k) && use(k) < later(key)
    ensures ByUse([key] + Without(order, key), later)
  {
    var r := Without(order, key);
    var p := WithoutIndexed(order, key, r);
    WithoutFacts(order, key);
    var all := [key] + r;
    forall a, b | 0 <= a < b < |all| ensures later(all[a]) > later(all[b]) {
      assert all[b] == r[b - 1] && r[b - 1] in r;
      if a > 0 {
        assert all[a] == r[a - 1] && r[a - 1] in r;
        assert r[a - 1] == order[Before(p, a - 1)] && r[b - 1] == order[Before(p, b - 1)];
      }
    }
  }

  lemma UseSnoc(expiration: int, run: seq<Timed>, t: Timed, key: Key)
    ensures UseOf(expiration, run + [t])(key) ==
      if Uses(After(expiration, run).handles, t, key) then |run| else UseOf(expiration, run)(key)
    ensures UseOf(expiration, run)(key) < |run|
  {
    RunLast(expiration, run + [t], key);
    LastUseRange(expiration, run, key);
    assert (run + [t])[..|run|] == run;
  }

  lemma ByUseStep(expiration: int, before: seq<Timed>, t: Timed, s: Limiter, u: Limiter)
    requires s == After(expiration, before) && u == Step(s, t).0
    requires NoRepeats(s.order) && ByUse(s.order, UseOf(expiration, before))
    ensures ByUse(u.order, UseOf(expiration, before + [t]))
  {
    var use, later := UseOf(expiration, before), UseOf(expiration, before + [t]);
    forall k: Key ensures later(k) == (if Uses(s.handles, t, k) then |before| else use(k)) && use(k) < |before| {
      UseSnoc(expiration, before, t, k);
    }
    OrderStep(s, t);
    if key :| Uses(s.handles, t, key) && u.order == [key] + Without(s.order, key) {
      FrontByUse(s.order, key, use, later);
    }
  }

  /** The list is in the order of last use, also among equal readings. */
  lemma {:induction false} ListedByUse(expiration: int, run: seq<Timed>)
    requires Chronological(run)
    ensures ByUse(After(expiration, run).order, UseOf(expiration, run))
  {
    if run != [] {
      var before, t := run[..|run| - 1], run[|run| - 1];
      ListedByUse(expiration, before);
      RunShape(expiration, before);
      assert WellFormed(After(expiration, before), t.now);
      assert run == before + [t];
      ByUseStep(expiration, before, t, After(expiration, before), After(expiration, run));
    }
  }

  lemma YoungSnoc(r: seq<int>, now: int, duration: int)
    requires 0 < duration && forall i :: 0 <= i < |r| ==> now - r[i] < duration
    ensures forall i :: 0 <= i < |r + [now]| ==> now - (r + [now])[i] < duration
  {
  }

  /** An admission decision leaves only unexpired requests in the window, whatever it decides. */
  lemma DecisionReleases(s: Limiter, clock: int, t: Timed)
    requires WellFormed(s, clock) && (t.event.Request? || t.event.Reserve?) && 0 < t.event.duration
    ensures var w := Window(Step(s, t).0, t.event.key);
      forall i :: 0 <= i < |w| ==> Unix(t.now) - w[i] < t.event.duration
  {
    var r := RemoveExpired(Window(s, t.event.key), Unix(t.now), t.event.duration);
    assert Ordered(Window(s, t.event.key));
    RemoveExpiredSplits(Window(s, t.event.key), Unix(t.now), t.event.duration);
    YoungSnoc(r, Unix(t.now), t.event.duration);
    var w := Window(Step(s, t).0, t.event.key);
    assert w == r || w == r + [Unix(t.now)];
  }
}
