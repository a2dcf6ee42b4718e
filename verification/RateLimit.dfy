/**
 Sliding-window admission as a value: the window of one key, the limiter that
 forgets idle keys, and the ideal limiter that forgets nothing.

 Clock readings are integers in nanoseconds; one reading is taken per operation
 while the mutex is held, so a run sees nondecreasing readings.
 */
module RateLimitWindow {

  const SECOND: int := 1_000_000_000

  /** A rate-limit key: the name of one bucket. */
  datatype Key = Key(name: string)

  /** Whole seconds of a clock reading. */
  function Unix(now: int): int { now / SECOND }

  ghost predicate Ordered(w: seq<int>) {
    forall i, j :: 0 <= i < j < |w| ==> w[i] <= w[j]
  }

  function DropExpired(w: seq<int>, now: int, duration: int): seq<int> {
    if w == [] || now - w[0] < duration then w else DropExpired(w[1..], now, duration)
  }

  /** What is left of a window after its expired requests were released. */
  function RemoveExpired(w: seq<int>, now: int, duration: int): seq<int> {
    if w == [] || now - w[0] < duration then w
    else if now - w[|w| - 1] >= duration then []
    else DropExpired(w, now, duration)
  }

  /** How many entries are younger than `duration`: the reference count. */
  function Young(w: seq<int>, now: int, duration: int): nat {
    if w == [] then 0
    else Young(w[..|w| - 1], now, duration) + if now - w[|w| - 1] < duration then 1 else 0
  }

  lemma {:induction false} YoungSplit(a: seq<int>, b: seq<int>, now: int, duration: int)
    ensures Young(a + b, now, duration) == Young(a, now, duration) + Young(b, now, duration)
  {
    if b == [] {
      assert a + b == a;
    } else {
      assert (a + b)[..|a + b| - 1] == a + b[..|b| - 1];
      YoungSplit(a, b[..|b| - 1], now, duration);
    }
  }

  lemma {:induction false} YoungExtremes(w: seq<int>, now: int, duration: int)
    ensures (forall i :: 0 <= i < |w| ==> now - w[i] >= duration) ==> Young(w, now, duration) == 0
    ensures (forall i :: 0 <= i < |w| ==> now - w[i] < duration) ==> Young(w, now, duration) == |w|
    ensures Young(w, now, duration) <= |w|
  {
    if w != [] { YoungExtremes(w[..|w| - 1], now, duration); }
  }

  /** Later readings see fewer young entries. */
  lemma {:induction false} YoungFades(w: seq<int>, now: int, later: int, duration: int)
    requires now <= later
    ensures Young(w, later, duration) <= Young(w, now, duration)
  {
    if w != [] { YoungFades(w[..|w| - 1], now, later, duration); }
  }

  /** Dropping stops at position `k`. */
  lemma {:induction false} DropExpiredSuffix(w: seq<int>, now: int, duration: int) returns (k: nat)
    ensures k <= |w| && DropExpired(w, now, duration) == w[k..]
    ensures forall i :: 0 <= i < k ==> now - w[i] >= duration
    ensures k < |w| ==> now - w[k] < duration
  {
    if w == [] || now - w[0] < duration {
      k := 0;
    } else {
      var rest := w[1..];
      var m := DropExpiredSuffix(rest, now, duration);
      k := m + 1;
      assert rest[m..] == w[k..];
      forall i | 0 <= i < k ensures now - w[i] >= duration {
        if i > 0 { assert rest[i - 1] == w[i]; }
      }
    }
  }

  /** What removal keeps and drops, entry by entry. */
  lemma RemoveExpiredSplits(w: seq<int>, now: int, duration: int)
    requires Ordered(w)
    ensures var r := RemoveExpired(w, now, duration);
      && |r| <= |w| && r == w[|w| - |r|..]
      && (forall i :: 0 <= i < |w| - |r| ==> now - w[i] >= duration)
      && (forall i :: 0 <= i < |r| ==> now - r[i] < duration)
  {
    if w != [] && now - w[0] >= duration {
      if now - w[|w| - 1] >= duration {
        assert forall i :: 0 <= i < |w| ==> w[i] <= w[|w| - 1];
      } else {
        var k := DropExpiredSuffix(w, now, duration);
        assert forall i :: k <= i < |w| ==> w[k] <= w[i];
      }
    }
  }

  /** A window whose first `k` entries expired and whose rest is young. */
  lemma YoungBoundary(w: seq<int>, k: nat, now: int, duration: int)
    requires k <= |w|
    requires forall i :: 0 <= i < k ==> now - w[i] >= duration
    requires forall i :: k <= i < |w| ==> now - w[i] < duration
    ensures Young(w, now, duration) == |w| - k
  {
    assert w == w[..k] + w[k..];
    YoungSplit(w[..k], w[k..], now, duration);
    YoungExtremes(w[..k], now, duration);
    YoungExtremes(w[k..], now, duration);
  }

  /** On a time-ordered window, what removal leaves is the reference count. */
  lemma RemoveExpiredKeepsYoung(w: seq<int>, now: int, duration: int)
    requires Ordered(w)
    ensures |RemoveExpired(w, now, duration)| == Young(w, now, duration)
  {
    RemoveExpiredSplits(w, now, duration);
    var r := RemoveExpired(w, now, duration);
    forall i | |w| - |r| <= i < |w| ensures now - w[i] < duration {
      assert w[i] == r[i - (|w| - |r|)];
    }
    YoungBoundary(w, |w| - |r|, now, duration);
  }
}

/** The limiter as a value, one step per locked operation. */
module RateLimitSpec {
  import opened Basics
  import opened RateLimitWindow

  datatype Bucket = Bucket(lastActive: int, window: seq<int>)

  datatype Handle = Handle(key: Key, completed: bool)

  /** `order` lists the keys from most to least recently active. */
  datatype Limiter = Limiter(
    expiration: int,
    store: map<Key, Bucket>,
    order: seq<Key>,
    reservations: map<Key, int>,
    handles: seq<Handle>)

  datatype Event =
    | Request(key: Key, max: int, duration: int)
    | Reserve(key: Key, max: int, duration: int)
    | Complete(handle: nat, success: bool)
    | Sweep(tick: int)

  datatype Timed = At(now: int, event: Event)

  function Empty(expiration: int): Limiter {
    Limiter(expiration, map[], [], map[], [])
  }

  function Window(s: Limiter, key: Key): seq<int> {
    if key in s.store then s.store[key].window else []
  }

  function InFlight(s: Limiter, key: Key): int {
    if key in s.reservations then s.reservations[key] else 0
  }

  function Without(order: seq<Key>, key: Key): seq<Key> {
    if order == [] then []
    else if order[0] == key then Without(order[1..], key)
    else [order[0]] + Without(order[1..], key)
  }

  /** The key becomes the most recently active one and its window is replaced. */
  function Touch(s: Limiter, key: Key, now: int, window: seq<int>): Limiter {
    s.(store := s.store[key := Bucket(now, window)], order := [key] + Without(s.order, key))
  }

  function RequestStep(s: Limiter, now: int, key: Key, max: int, duration: int): (Limiter, bool) {
    var w := RemoveExpired(Window(s, key), Unix(now), duration);
    if |w| < max then (Touch(s, key, now, w + [Unix(now)]), true) else (Touch(s, key, now, w), false)
  }

  function ReserveStep(s: Limiter, now: int, key: Key, max: int, duration: int): (Limiter, bool) {
    var w := RemoveExpired(Window(s, key), Unix(now), duration);
    var t := Touch(s, key, now, w);
    if |w| + InFlight(s, key) >= max then (t, false)
    else (t.(reservations := s.reservations[key := InFlight(s, key) + 1],
             handles := s.handles + [Handle(key, false)]), true)
  }

  function Release(s: Limiter, handle: nat): Limiter
    requires handle < |s.handles|
  {
    var key := s.handles[handle].key;
    var left := InFlight(s, key) - 1;
    s.(reservations := if left == 0 then s.reservations - {key} else s.reservations[key := left],
       handles := s.handles[handle := Handle(key, true)])
  }

  function CompleteStep(s: Limiter, now: int, handle: nat, success: bool): Limiter {
    if handle >= |s.handles| || s.handles[handle].completed then s
    else
      var key := s.handles[handle].key;
      var t := Release(s, handle);
      if success then Touch(t, key, now, Window(t, key) + [Unix(now)]) else t
  }

  function SweepFrom(s: Limiter, tick: int): Limiter
    decreases |s.order|
  {
    if s.order == [] then s
    else
      var oldest := s.order[|s.order| - 1];
      if oldest in s.store && tick - s.store[oldest].lastActive < s.expiration then s
      else SweepFrom(s.(store := s.store - {oldest}, order := s.order[..|s.order| - 1]), tick)
  }

  function SweepStep(s: Limiter, tick: int): Limiter {
    if s.expiration <= 0 then s else SweepFrom(s, tick)
  }

  /** One locked operation: the next state and the admission answer. */
  function Step(s: Limiter, t: Timed): (Limiter, bool) {
    match t.event
    case Request(key, max, duration) => RequestStep(s, t.now, key, max, duration)
    case Reserve(key, max, duration) => ReserveStep(s, t.now, key, max, duration)
    case Complete(handle, success) => (CompleteStep(s, t.now, handle, success), false)
    case Sweep(tick) => (SweepStep(s, tick), false)
  }

  function After(expiration: int, run: seq<Timed>): Limiter {
    if run == [] then Empty(expiration)
    else Step(After(expiration, run[..|run| - 1]), run[|run| - 1]).0
  }

  function Answers(expiration: int, run: seq<Timed>): seq<bool> {
    if run == [] then []
    else Answers(expiration, run[..|run| - 1]) +
         [Step(After(expiration, run[..|run| - 1]), run[|run| - 1]).1]
  }

  // ---------- Shape of the store and its recency list ----------

  ghost predicate SameKeys(s: Limiter) {
    && (forall i :: 0 <= i < |s.order| ==> s.order[i] in s.store)
    && (forall k :: k in s.store ==> k in s.order)
  }

  ghost predicate ByRecency(s: Limiter)
    requires SameKeys(s)
  {
    forall i, j :: 0 <= i < j < |s.order| ==>
      s.store[s.order[i]].lastActive >= s.store[s.order[j]].lastActive
  }

  ghost predicate BucketOk(b: Bucket, clock: int) {
    && b.lastActive <= clock
    && Ordered(b.window)
    && (forall i :: 0 <= i < |b.window| ==> b.window[i] <= Unix(b.lastActive))
  }

  ghost predicate WellFormed(s: Limiter, clock: int) {
    && NoRepeats(s.order)
    && SameKeys(s)
    && ByRecency(s)
    && (forall k :: k in s.store ==> BucketOk(s.store[k], clock))
  }

  lemma {:induction false} WithoutAbsent(order: seq<Key>, key: Key)
    requires forall i :: 0 <= i < |order| ==> order[i] != key
    ensures Without(order, key) == order
  {
    if order != [] { WithoutAbsent(order[1..], key); }
  }

  /** Among distinct keys the filter takes out one position, or none (`p == |order|`). */
  lemma {:induction false} WithoutCuts(order: seq<Key>, key: Key) returns (p: nat)
    requires NoRepeats(order)
    ensures p <= |order| && (p < |order| ==> order[p] == key) && (p == |order| ==> key !in order)
    ensures Without(order, key) == if p < |order| then order[..p] + order[p + 1..] else order
  {
    if order == [] {
      p := 0;
    } else if order[0] == key {
      p := 0;
      WithoutAbsent(order[1..], key);
    } else {
      var tail := order[1..];
      var q := WithoutCuts(tail, key);
      p := q + 1;
      assert q < |tail| ==> order[..p] == [order[0]] + tail[..q] && order[p + 1..] == tail[q + 1..];
    }
  }

  /** Where the `i`-th remaining element was, position `p` having been taken out. */
  function Before(p: nat, i: nat): nat { if i < p then i else i + 1 }

  lemma WithoutIndexed(order: seq<Key>, key: Key, r: seq<Key>) returns (p: nat)
    requires NoRepeats(order) && r == Without(order, key)
    ensures p <= |order| && (p < |order| ==> order[p] == key) && (p == |order| ==> key !in order)
    ensures |r| == if p < |order| then |order| - 1 else |order|
    ensures forall i: nat :: i < |r| ==> r[i] == order[Before(p, i)]
  {
    p := WithoutCuts(order, key);
    if p < |order| { CutIndexed(order, p); }
  }

  lemma CutIndexed(order: seq<Key>, p: nat)
    requires p < |order|
    ensures forall i: nat :: i < |order| - 1 ==> (order[..p] + order[p + 1..])[i] == order[Before(p, i)]
  {
  }

  lemma WithoutFacts(order: seq<Key>, key: Key)
    requires NoRepeats(order)
    ensures NoRepeats(Without(order, key))
    ensures forall k :: k in Without(order, key) <==> k in order && k != key
  {
    var r := Without(order, key);
    var p := WithoutIndexed(order, key, r);
    forall i, j | 0 <= i < j < |r| ensures r[i] != r[j] {
      assert r[i] == order[Before(p, i)] && r[j] == order[Before(p, j)];
    }
    forall i | 0 <= i < |r| ensures r[i] in order && r[i] != key {
      assert r[i] == order[Before(p, i)] && Before(p, i) != p;
      assert p < |order| ==> order[p] != order[Before(p, i)];
    }
    forall k | k in order && k != key ensures k in r {
      var a :| 0 <= a < |order| && order[a] == k;
      assert r[if a < p then a else a - 1] == k;
    }
  }

  lemma FrontedDistinct(order: seq<Key>, key: Key)
    requires NoRepeats(order)
    ensures NoRepeats([key] + Without(order, key))
  {
    WithoutFacts(order, key);
    var r := Without(order, key);
    forall i | 0 <= i < |r| ensures r[i] != key { assert r[i] in r; }
  }

  lemma TouchKeepsKeys(s: Limiter, key: Key, now: int, window: seq<int>)
    requires NoRepeats(s.order) && SameKeys(s)
    ensures var t := Touch(s, key, now, window);
      NoRepeats(t.order) && SameKeys(t)
  {
    FrontedDistinct(s.order, key);
    WithoutFacts(s.order, key);
    var t := Touch(s, key, now, window);
    var rest := Without(s.order, key);
    assert t.order == [key] + rest;
    forall i | 0 <= i < |t.order| ensures t.order[i] in t.store {
      if i > 0 { assert t.order[i] == rest[i - 1] && rest[i - 1] in rest; }
    }
    forall k | k in t.store ensures k in t.order {
      if k != key { assert k in rest; }
    }
  }

  /** Taking a key out leaves the others by recency. */
  lemma RestByRecency(s: Limiter, key: Key, r: seq<Key>)
    requires NoRepeats(s.order) && SameKeys(s) && ByRecency(s) && r == Without(s.order, key)
    ensures forall i :: 0 <= i < |r| ==> r[i] in s.store && r[i] != key
    ensures forall i, j :: 0 <= i < j < |r| ==> s.store[r[i]].lastActive >= s.store[r[j]].lastActive
  {
    WithoutFacts(s.order, key);
    var p := WithoutIndexed(s.order, key, r);
    forall i | 0 <= i < |r| ensures r[i] in s.store && r[i] != key { assert r[i] in r; }
    forall i, j | 0 <= i < j < |r| ensures s.store[r[i]].lastActive >= s.store[r[j]].lastActive {
      var a, b := Before(p, i), Before(p, j);
      assert s.store[s.order[a]].lastActive >= s.store[s.order[b]].lastActive;
    }
  }

  lemma TouchKeepsRecency(s: Limiter, key: Key, now: int, window: seq<int>)
    requires NoRepeats(s.order) && SameKeys(s) && ByRecency(s)
    requires forall k :: k in s.store ==> s.store[k].lastActive <= now
    ensures SameKeys(Touch(s, key, now, window)) && ByRecency(Touch(s, key, now, window))
  {
    TouchKeepsKeys(s, key, now, window);
    var t, rest := Touch(s, key, now, window), Without(s.order, key);
    RestByRecency(s, key, rest);
    assert t.order == [key] + rest;
    forall i, j | 0 <= i < j < |t.order|
      ensures t.store[t.order[i]].lastActive >= t.store[t.order[j]].lastActive
    {
      assert rest[j - 1] in s.store && t.order[j] == rest[j - 1] != key;
      if i > 0 { assert rest[i - 1] in s.store && t.order[i] == rest[i - 1] != key; }
    }
  }

  /** Touching a key with a window no newer than the reading keeps the shape. */
  lemma TouchKeepsShape(s: Limiter, clock: int, key: Key, now: int, window: seq<int>)
    requires WellFormed(s, clock) && clock <= now
    requires BucketOk(Bucket(now, window), now)
    ensures WellFormed(Touch(s, key, now, window), now)
  {
    TouchKeepsKeys(s, key, now, window);
    TouchKeepsRecency(s, key, now, window);
    LaterClock(s, clock, now);
  }

  /** The window an admission decision leaves behind, with or without the new request. */
  lemma AdmissionWindow(s: Limiter, clock: int, key: Key, now: int, duration: int)
    requires WellFormed(s, clock) && clock <= now
    ensures var w := RemoveExpired(Window(s, key), Unix(now), duration);
      BucketOk(Bucket(now, w), now) && BucketOk(Bucket(now, w + [Unix(now)]), now)
  {
    RemoveExpiredSplits(Window(s, key), Unix(now), duration);
  }

  /** The keys a sweep at `tick` must keep: those active within the expiration. */
  function Active(s: Limiter, tick: int): map<Key, Bucket> {
    map k | k in s.store && tick - s.store[k].lastActive < s.expiration :: s.store[k]
  }

  /**
   The sweep stops at the first active key from the back, yet removes exactly
   the idle keys: the recency order makes the early stop complete.
   */
  lemma {:induction false} SweepRemovesExactlyIdle(s: Limiter, clock: int, tick: int)
    requires WellFormed(s, clock)
    ensures var t := SweepFrom(s, tick);
      && WellFormed(t, clock)
      && t.store == Active(s, tick)
      && t == s.(store := t.store, order := t.order)
    decreases |s.order|
  {
    if s.order == [] {
      assert s.store.Keys == {};
      assert Active(s, tick) == s.store;
    } else {
      var last := |s.order| - 1;
      var oldest := s.order[last];
      if tick - s.store[oldest].lastActive < s.expiration {
        AllActive(s, clock, tick);
      } else {
        var u := OldestDropped(s);
        DropOldestKeepsShape(s, clock);
        SweepRemovesExactlyIdle(u, clock, tick);
        SameActive(s, oldest, tick, u);
      }
    }
  }

  lemma SameActive(s: Limiter, idle: Key, tick: int, u: Limiter)
    requires u.store == s.store - {idle} && u.expiration == s.expiration
    requires idle in s.store && tick - s.store[idle].lastActive >= s.expiration
    ensures Active(s, tick) == Active(u, tick)
  {
  }

  lemma AllActive(s: Limiter, clock: int, tick: int)
    requires WellFormed(s, clock) && s.order != []
    requires tick - s.store[s.order[|s.order| - 1]].lastActive < s.expiration
    ensures Active(s, tick) == s.store
  {
    var last := |s.order| - 1;
    forall k | k in s.store ensures tick - s.store[k].lastActive < s.expiration {
      var i :| 0 <= i < |s.order| && s.order[i] == k;
      assert i == last || s.store[s.order[i]].lastActive >= s.store[s.order[last]].lastActive;
    }
  }

  /** The limiter without its least recently active key. */
  function OldestDropped(s: Limiter): Limiter
    requires s.order != []
  {
    var last := |s.order| - 1;
    s.(store := s.store - {s.order[last]}, order := s.order[..last])
  }

  lemma DropOldestKeepsKeys(s: Limiter)
    requires NoRepeats(s.order) && SameKeys(s) && s.order != []
    ensures NoRepeats(OldestDropped(s).order) && SameKeys(OldestDropped(s))
  {
    var u := OldestDropped(s);
    forall k | k in u.store ensures k in u.order {
      var i :| 0 <= i < |s.order| && s.order[i] == k;
      assert u.order[i] == k;
    }
  }

  lemma DropOldestKeepsRecency(s: Limiter)
    requires NoRepeats(s.order) && SameKeys(s) && ByRecency(s) && s.order != []
    ensures SameKeys(OldestDropped(s)) && ByRecency(OldestDropped(s))
  {
    DropOldestKeepsKeys(s);
  }

  lemma DropOldestKeepsShape(s: Limiter, clock: int)
    requires WellFormed(s, clock) && s.order != []
    ensures WellFormed(OldestDropped(s), clock)
  {
    DropOldestKeepsKeys(s);
    DropOldestKeepsRecency(s);
  }

  lemma LaterClock(s: Limiter, clock: int, later: int)
    requires WellFormed(s, clock) && clock <= later
    ensures WellFormed(s, later)
  {
    forall k | k in s.store ensures BucketOk(s.store[k], later) { assert BucketOk(s.store[k], clock); }
  }

  lemma AdmissionKeepsShape(s: Limiter, clock: int, t: Timed)
    requires WellFormed(s, clock) && clock <= t.now && (t.event.Request? || t.event.Reserve?)
    ensures WellFormed(Step(s, t).0, t.now)
  {
    var key, duration := t.event.key, t.event.duration;
    AdmissionWindow(s, clock, key, t.now, duration);
    var w := RemoveExpired(Window(s, key), Unix(t.now), duration);
    TouchKeepsShape(s, clock, key, t.now, w);
    TouchKeepsShape(s, clock, key, t.now, w + [Unix(t.now)]);
  }

  lemma CompleteKeepsShape(s: Limiter, now: int, handle: nat, success: bool)
    requires WellFormed(s, now)
    ensures WellFormed(CompleteStep(s, now, handle, success), now)
  {
    if handle < |s.handles| && !s.handles[handle].completed {
      var u, key := Release(s, handle), s.handles[handle].key;
      assert WellFormed(u, now) && Window(u, key) == Window(s, key);
      TouchKeepsShape(u, now, key, now, Window(u, key) + [Unix(now)]);
    }
  }

  /** Every locked operation keeps the store and the recency list in step. */
  lemma StepKeepsShape(s: Limiter, clock: int, t: Timed)
    requires WellFormed(s, clock) && clock <= t.now
    ensures WellFormed(Step(s, t).0, t.now)
  {
    LaterClock(s, clock, t.now);
    match t.event
    case Request(_, _, _) => AdmissionKeepsShape(s, clock, t);
    case Reserve(_, _, _) => AdmissionKeepsShape(s, clock, t);
    case Complete(handle, success) => CompleteKeepsShape(s, t.now, handle, success);
    case Sweep(tick) => SweepRemovesExactlyIdle(s, t.now, tick);
  }
}
