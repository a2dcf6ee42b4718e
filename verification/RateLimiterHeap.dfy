/**
 The hand-linked queue of accepted requests: each method is proved to compute
 the window function of the same name on the chain's timestamps.
 */
module RateLimitQueue {
  import opened RateLimitWindow

  class RequestNode {
    var next: RequestNode?
    const timestamp: int
    ghost const serial: int
    ghost const owner: RequestQueue

    constructor (timestamp: int, ghost serial: int, ghost owner: RequestQueue)
      ensures this.timestamp == timestamp && next == null && this.serial == serial && this.owner == owner
    {
      this.timestamp, this.serial, this.owner := timestamp, serial, owner;
      next := null;
    }
  }

  ghost function Stamps(nodes: seq<RequestNode>): seq<int> {
    seq(|nodes|, i requires 0 <= i < |nodes| => nodes[i].timestamp)
  }

  ghost function Successor(nodes: seq<RequestNode>, i: nat): RequestNode? {
    if i + 1 < |nodes| then nodes[i + 1] else null
  }

  ghost function First(nodes: seq<RequestNode>): RequestNode? {
    if nodes == [] then null else nodes[0]
  }

  ghost function Last(nodes: seq<RequestNode>): RequestNode? {
    if nodes == [] then null else nodes[|nodes| - 1]
  }

  /** Accepted requests, linked from oldest to newest. */
  class RequestQueue {
    var head: RequestNode?
    var tail: RequestNode?
    var length: int
    ghost var nodes: seq<RequestNode>
    ghost var first: int
    ghost const key: Key

    /** Nodes are numbered along the chain, so none occurs twice, and belong to one queue. */
    ghost predicate Valid()
      reads this, nodes
    {
      && (forall i :: 0 <= i < |nodes| ==> nodes[i].serial == first + i)
      && (forall i :: 0 <= i < |nodes| ==> nodes[i].owner == this)
      && (forall i {:trigger nodes[i].next} :: 0 <= i < |nodes| ==> nodes[i].next == Successor(nodes, i))
      && length == |nodes|
      && head == First(nodes)
      && tail == Last(nodes)
    }

    /** The chain is made of owned nodes. */
    ghost predicate Within(owned: set<RequestNode>)
      reads this
    {
      forall i :: 0 <= i < |nodes| ==> nodes[i] in owned
    }

    /** The chain holds these timestamps. */
    ghost predicate Holds(window: seq<int>)
      reads this, nodes
    {
      Valid() && Stamps(nodes) == window
    }

    constructor (ghost key: Key)
      ensures Valid() && nodes == [] && this.key == key
    {
      head, tail, length, nodes, first := null, null, 0, [], 0;
      this.key := key;
    }

    method Append(timestamp: int)
      requires Valid()
      modifies this, nodes
      ensures Valid()
      ensures Stamps(nodes) == old(Stamps(nodes)) + [timestamp]
      ensures |nodes| == |old(nodes)| + 1 && nodes[..|old(nodes)|] == old(nodes)
      ensures fresh(nodes[|old(nodes)|])
    {
      var request := new RequestNode(timestamp, first + |nodes|, this);
      if tail == null {
        head := request;
        tail := request;
      } else {
        tail.next := request;
        tail := request;
      }
      length := length + 1;
      nodes := nodes + [request];
    }

    method Clear()
      modifies this
      ensures Valid() && nodes == []
    {
      head, tail, length, nodes := null, null, 0, [];
    }

    method RemoveExpired(now: int, duration: int)
      requires Valid()
      modifies this, nodes
      ensures Valid()
      ensures |nodes| <= |old(nodes)| && nodes == old(nodes)[|old(nodes)| - |nodes|..]
      ensures Stamps(nodes) == RateLimitWindow.RemoveExpired(old(Stamps(nodes)), now, duration)
    {
      ghost var before := Stamps(nodes);
      if head == null || now - head.timestamp < duration {
        return;
      }
      if now - tail.timestamp >= duration {
        Clear();
        assert Stamps(nodes) == [];
        return;
      }
      assert before[|before| - 1] == tail.timestamp;
      while now - head.timestamp >= duration
        invariant Valid() && 0 < |nodes| <= |old(nodes)|
        invariant nodes == old(nodes)[|old(nodes)| - |nodes|..]
        invariant now - nodes[|nodes| - 1].timestamp < duration
        invariant DropExpired(Stamps(nodes), now, duration) == DropExpired(before, now, duration)
        decreases |nodes|
      {
        UnlinkHead();
      }
    }

    /** The loop body of RemoveExpired: the head leaves the chain. */
    method UnlinkHead()
      requires Valid() && |nodes| > 1
      modifies this, nodes
      ensures Valid() && nodes == old(nodes)[1..]
      ensures Stamps(nodes) == old(Stamps(nodes))[1..]
    {
      var expired := head;
      ghost var rest := nodes[1..];
      assert expired.next == Successor(nodes, 0);
      forall i | 0 <= i < |rest| ensures rest[i].next == Successor(rest, i) {
        var j := i + 1;
        assert rest[i] == nodes[j] && nodes[j].next == Successor(nodes, j);
      }
      head := expired.next;
      expired.next := null;
      length := length - 1;
      nodes, first := rest, first + 1;
    }
  }
}

/**
 The limiter object: a map of entries, each with its own request queue, a
 recency list whose elements the entries point back at, and a reservation
 table. Every operation is proved to take exactly one step of `RateLimitSpec`.

 An operation on a queue comes in two halves: the queue changes while the rest
 stays as it was, and then an `Adopt` method brings the represented value up to
 what the queues already hold.
 */
module InMemoryRateLimiter {
  import opened RateLimitWindow
  import opened Basics
  import opened RateLimitQueue
  import Spec = RateLimitSpec

  /** A key's bucket; its list element is made with it. */
  class Entry {
    var lastActive: int
    var element: Element?
    const requests: RequestQueue
    const key: Key

    constructor (key: Key, lastActive: int)
      ensures this.key == key && this.lastActive == lastActive
      ensures fresh(requests) && requests.key == key && requests.Valid() && requests.nodes == []
      ensures element != null && element.value == this
    {
      this.key := key;
      this.lastActive := lastActive;
      requests := new RequestQueue(key);
      new;
      element := new Element(this);
    }
  }

  /** A node of the recency list. */
  class Element {
    const value: Entry

    constructor (value: Entry)
      ensures this.value == value
    {
      this.value := value;
    }
  }

  /** The list without one of its elements. */
  function Detach(lru: seq<Element>, element: Element): seq<Element> {
    if lru == [] then []
    else if lru[0] == element then Detach(lru[1..], element)
    else [lru[0]] + Detach(lru[1..], element)
  }

  /** The list elements of `order`, in that order. */
  ghost function Listed(points: map<Key, Element>, order: seq<Key>): seq<Element>
    requires forall i :: 0 <= i < |order| ==> order[i] in points
  {
    seq(|order|, i requires 0 <= i < |order| => points[order[i]])
  }

  lemma {:induction false} DetachListed(points: map<Key, Element>, order: seq<Key>, key: Key)
    requires forall k :: k in points ==> points[k].value.key == k
    requires key in points && forall i :: 0 <= i < |order| ==> order[i] in points
    ensures forall i :: 0 <= i < |Spec.Without(order, key)| ==> Spec.Without(order, key)[i] in points
    ensures Detach(Listed(points, order), points[key]) == Listed(points, Spec.Without(order, key))
  {
    if order != [] {
      DetachListed(points, order[1..], key);
      assert Listed(points, order)[1..] == Listed(points, order[1..]);
      assert points[order[0]] == points[key] <==> order[0] == key;
    }
  }

  /** The objects a limiter is made of, and each key's list element. */
  datatype Objects = Objects(
    points: map<Key, Element>, repr: set<object>, queues: set<RequestQueue>, nodes: set<RequestNode>)

  /**
   The store and the recency list are in bijection: each key's entry has its
   own list element, and the list is the recency order of the keys.
   */
  ghost predicate Shape(l: Limiter, store: map<Key, Entry>, lru: seq<Element>, s: Spec.Limiter, own: Objects) {
    && l in own.repr && own.queues <= own.repr && own.nodes <= own.repr
    && s.store.Keys == store.Keys
    && (forall k :: k in store ==>
          k in own.points && store[k] in own.repr && store[k].key == k && own.points[k].value == store[k])
    && |lru| == |s.order|
    && (forall i :: 0 <= i < |lru| ==> s.order[i] in store && lru[i] == own.points[s.order[i]])
    && NoRepeats(s.order)
  }

  /** Each key has a queue of its own, whose chain holds the key's window. */
  ghost predicate Windows(store: map<Key, Entry>, buckets: map<Key, Spec.Bucket>,
                          queues: set<RequestQueue>, nodes: set<RequestNode>)
    reads queues, nodes
  {
    forall k :: k in store ==>
      && k in buckets && store[k].requests.key == k && store[k].requests in queues
      && store[k].requests.Within(nodes) && store[k].requests.Holds(buckets[k].window)
  }

  // ---------- What the mutators do to the queues ----------

  lemma WindowsRevalued(store: map<Key, Entry>, buckets: map<Key, Spec.Bucket>,
                        queues: set<RequestQueue>, nodes: set<RequestNode>, key: Key, b: Spec.Bucket)
    requires Windows(store, buckets, queues, nodes) && key in buckets && b.window == buckets[key].window
    ensures Windows(store, buckets[key := b], queues, nodes)
  {
  }

  lemma WindowsAdded(store: map<Key, Entry>, buckets: map<Key, Spec.Bucket>,
                     queues: set<RequestQueue>, nodes: set<RequestNode>, entry: Entry, b: Spec.Bucket)
    requires Windows(store, buckets, queues, nodes) && entry.requests.key == entry.key
    requires entry.requests.Holds([]) && b.window == []
    ensures Windows(store[entry.key := entry], buckets[entry.key := b], queues + {entry.requests}, nodes)
  {
  }

  method ReleaseChain(q: RequestQueue, now: int, duration: int, ghost store: map<Key, Entry>,
                      ghost buckets: map<Key, Spec.Bucket>, ghost queues: set<RequestQueue>, ghost nodes: set<RequestNode>)
    returns (length: int)
    requires Windows(store, buckets, queues, nodes) && q.key in store && store[q.key].requests == q
    modifies q, q.nodes
    ensures var w := RemoveExpired(buckets[q.key].window, now, duration);
      && length == |w|
      && Windows(store, buckets[q.key := Spec.Bucket(buckets[q.key].lastActive, w)], queues, nodes)
  {
    q.RemoveExpired(now, duration);
    length := q.length;
  }

  method AppendChain(q: RequestQueue, timestamp: int, ghost store: map<Key, Entry>,
                     ghost buckets: map<Key, Spec.Bucket>, ghost queues: set<RequestQueue>, ghost nodes: set<RequestNode>)
    returns (ghost node: RequestNode)
    requires Windows(store, buckets, queues, nodes) && q.key in store && store[q.key].requests == q
    modifies q, q.nodes
    ensures fresh(node)
    ensures Windows(store, buckets[q.key := Spec.Bucket(buckets[q.key].lastActive,
                      buckets[q.key].window + [timestamp])], queues, nodes + {node})
  {
    q.Append(timestamp);
    node := q.nodes[|q.nodes| - 1];
  }

  method ClearChain(q: RequestQueue, ghost store: map<Key, Entry>,
                    ghost buckets: map<Key, Spec.Bucket>, ghost queues: set<RequestQueue>, ghost nodes: set<RequestNode>)
    requires Windows(store, buckets, queues, nodes) && q.key in store && store[q.key].requests == q
    modifies q
    ensures Windows(store - {q.key}, buckets - {q.key}, queues, nodes)
  {
    q.Clear();
  }

  // ---------- What they do to the value and to the shape ----------

  ghost function Windowed(s: Spec.Limiter, key: Key, window: seq<int>): Spec.Limiter
    requires key in s.store
  {
    s.(store := s.store[key := Spec.Bucket(s.store[key].lastActive, window)])
  }

  ghost function Activated(s: Spec.Limiter, key: Key, now: int): Spec.Limiter {
    s.(store := s.store[key := Spec.Bucket(now, Spec.Window(s, key))])
  }

  ghost function Fronted(s: Spec.Limiter, key: Key): Spec.Limiter {
    s.(order := [key] + Spec.Without(s.order, key))
  }

  lemma ReactivatedIsTouched(s: Spec.Limiter, key: Key, now: int)
    ensures Fronted(Activated(s, key, now), key) == Spec.Touch(s, key, now, Spec.Window(s, key))
  {
  }

  ghost function Extended(own: Objects, node: RequestNode): Objects {
    own.(repr := own.repr + {node}, nodes := own.nodes + {node})
  }

  ghost function Added(own: Objects, entry: Entry, element: Element): Objects {
    Objects(own.points[entry.key := element], own.repr + {entry, entry.requests},
            own.queues + {entry.requests}, own.nodes)
  }

  lemma ShapeMoved(l: Limiter, store: map<Key, Entry>, lru: seq<Element>, s: Spec.Limiter, own: Objects, key: Key)
    requires Shape(l, store, lru, s, own) && key in store
    ensures Shape(l, store, [own.points[key]] + Detach(lru, own.points[key]), Fronted(s, key), own)
  {
    var points := map k | k in store :: own.points[k];
    assert lru == Listed(points, s.order);
    DetachListed(points, s.order, key);
    Spec.FrontedDistinct(s.order, key);
  }

  /** Which keys are stored is all the shape says of the buckets. */
  lemma ShapeRevalued(l: Limiter, store: map<Key, Entry>, lru: seq<Element>, s: Spec.Limiter, own: Objects,
                      key: Key, b: Spec.Bucket)
    requires Shape(l, store, lru, s, own) && key in store
    ensures Shape(l, store, lru, s.(store := s.store[key := b]), own)
  {
    assert s.store[key := b].Keys == s.store.Keys;
  }

  lemma TouchedThenWindowed(s: Spec.Limiter, t: Spec.Limiter, key: Key, now: int, window: seq<int>)
    requires key in t.store && t == Spec.Touch(s, key, now, t.store[key].window)
    ensures Windowed(t, key, window) == Spec.Touch(s, key, now, window)
  {
  }

  lemma ShapeAdded(l: Limiter, store: map<Key, Entry>, lru: seq<Element>, s: Spec.Limiter, own: Objects,
                   entry: Entry, element: Element, now: int)
    requires Shape(l, store, lru, s, own) && entry.key !in store && element.value == entry
    ensures Shape(l, store[entry.key := entry], [element] + lru, Spec.Touch(s, entry.key, now, []),
                  Added(own, entry, element))
  {
    var t, points := Spec.Touch(s, entry.key, now, []), Added(own, entry, element).points;
    OrderAdded(s.order, store, entry.key);
    assert t.order == [entry.key] + s.order;
    forall i | 0 <= i < |t.order| ensures t.order[i] in store[entry.key := entry] && ([element] + lru)[i] == points[t.order[i]] {
      if i > 0 { assert t.order[i] == s.order[i - 1] && ([element] + lru)[i] == lru[i - 1]; }
    }
  }

  lemma OrderAdded(order: seq<Key>, store: map<Key, Entry>, key: Key)
    requires NoRepeats(order) && key !in store && forall i :: 0 <= i < |order| ==> order[i] in store
    ensures Spec.Without(order, key) == order && NoRepeats([key] + order)
  {
    Spec.WithoutAbsent(order, key);
  }

  lemma ShapeForgotten(l: Limiter, store: map<Key, Entry>, lru: seq<Element>, s: Spec.Limiter, own: Objects)
    requires Shape(l, store, lru, s, own) && lru != []
    ensures var last := |lru| - 1;
      && s.order[last] in store && lru[last].value.key == s.order[last]
      && lru[last].value == store[s.order[last]]
      && Shape(l, store - {lru[last].value.key}, lru[..last], Spec.OldestDropped(s), own)
  {
  }

  ghost function Granted(s: Spec.Limiter, key: Key): Spec.Limiter {
    s.(reservations := s.reservations[key := Spec.InFlight(s, key) + 1], handles := s.handles + [Spec.Handle(key, false)])
  }

  lemma GrantedStep(s: Spec.Limiter, t: Spec.Limiter, now: int, key: Key, max: int, duration: int, length: int)
    requires var w := RemoveExpired(Spec.Window(s, key), Unix(now), duration);
      t == Spec.Touch(s, key, now, w) && length == |w|
    ensures Spec.ReserveStep(s, now, key, max, duration) ==
      if Spec.InFlight(t, key) < max - length then (Granted(t, key), true) else (t, false)
  {
  }

  /** The sweep would remove the oldest key. */
  ghost predicate Idle(s: Spec.Limiter, tick: int) {
    s.order != [] &&
    var oldest := s.order[|s.order| - 1];
    oldest in s.store ==> tick - s.store[oldest].lastActive >= s.expiration
  }

  lemma SweptOldest(s: Spec.Limiter, tick: int)
    requires Idle(s, tick)
    ensures Spec.SweepFrom(s, tick) == Spec.SweepFrom(Spec.OldestDropped(s), tick)
  {
  }

  /** Nothing but new objects has been taken in. */
  twostate predicate Grows(before: set<object>, new after: set<object>) {
    forall o :: o in after ==> o in before || fresh(o)
  }

  class RateLimitReservation {
    const limiter: Limiter
    const key: Key
    var completed: bool
    /** Position among all reservations the limiter granted. */
    ghost const id: nat

    constructor (limiter: Limiter, key: Key, ghost id: nat)
      ensures this.limiter == limiter && this.key == key && !completed && this.id == id
    {
      this.limiter := limiter;
      this.key := key;
      this.id := id;
      completed := false;
    }

    ghost predicate Agrees()
      reads this, limiter
    {
      id < |limiter.state.handles| && limiter.state.handles[id] == Spec.Handle(key, completed)
    }

    /** Repeated calls change nothing: the first one decides. */
    method Complete(success: bool, now: int)
      requires limiter.Valid() && Agrees() && this !in limiter.own.repr
      modifies this, limiter.own.repr
      ensures limiter.Valid() && Grows(old(limiter.own.repr), limiter.own.repr)
      ensures Agrees() && completed
      ensures limiter.state == Spec.CompleteStep(old(limiter.state), now, id, success)
    {
      if completed {
        return;
      }
      completed := true;
      ghost var s := limiter.state;
      var left := (if key in limiter.reservations then limiter.reservations[key] else 0) - 1;
      limiter.SetReservations(
        if left == 0 then limiter.reservations - {key} else limiter.reservations[key := left],
        s.handles[id := Spec.Handle(key, true)]);
      assert limiter.state == Spec.Release(s, id);
      if success {
        limiter.Record(key, now);
      }
    }
  }

  class Limiter {
    var store: map<Key, Entry>
    var lru: seq<Element>
    var reservations: map<Key, int>
    const expiration: int
    ghost var state: Spec.Limiter
    ghost var own: Objects

    /** Everything but the queues. */
    ghost predicate Core()
      reads this, store.Values
    {
      && Shape(this, store, lru, state, own)
      && (state.expiration, state.reservations) == (expiration, reservations)
      && (forall k :: k in store ==>
            store[k].lastActive == state.store[k].lastActive && store[k].element == own.points[k])
    }

    ghost predicate Valid()
      reads this, store.Values, own.queues, own.nodes
    {
      Core() && Windows(store, state.store, own.queues, own.nodes)
    }

    constructor (expiration: int)
      ensures Valid() && fresh(own.repr) && state == Spec.Empty(expiration)
    {
      this.expiration := expiration;
      store, lru, reservations := map[], [], map[];
      state, own := Spec.Empty(expiration), Objects(map[], {this}, {}, {});
    }

    method TouchEntry(key: Key, now: int) returns (entry: Entry)
      requires Valid()
      modifies own.repr
      ensures Valid() && Grows(old(own.repr), own.repr)
      ensures key in store && entry == store[key]
      ensures state == Spec.Touch(old(state), key, now, Spec.Window(old(state), key))
    {
      if key !in store {
        entry := AddEntry(key, now);
      } else {
        entry := store[key];
        MoveToFront(entry, now);
      }
    }

    method AddEntry(key: Key, now: int) returns (entry: Entry)
      requires Valid() && key !in store
      modifies this
      ensures Valid() && Grows(old(own.repr), own.repr)
      ensures key in store && entry == store[key] && state == Spec.Touch(old(state), key, now, [])
    {
      entry := NewEntry(key, now);
      AdoptEntry(entry, now);
    }

    /** A new entry, whose queue is among the windows already, becomes the most recent one. */
    method AdoptEntry(entry: Entry, now: int)
      requires Core() && entry.key !in store && entry.lastActive == now
      requires entry.element != null && entry.element.value == entry
      requires Windows(store[entry.key := entry], state.store[entry.key := Spec.Bucket(now, [])],
                       own.queues + {entry.requests}, own.nodes)
      modifies this
      ensures Valid() && store == old(store)[entry.key := entry]
      ensures state == Spec.Touch(old(state), entry.key, now, []) && own == Added(old(own), entry, old(entry.element))
    {
      ShapeAdded(this, store, lru, state, own, entry, entry.element, now);
      Insert(entry, now);
    }

    /** It goes into the store and to the front of the list. */
    method Insert(entry: Entry, now: int)
      requires Core() && entry.key !in store && entry.lastActive == now && entry.element != null
      requires Shape(this, store[entry.key := entry], [entry.element] + lru, Spec.Touch(state, entry.key, now, []),
                     Added(own, entry, entry.element))
      modifies this
      ensures Core() && store == old(store)[entry.key := entry]
      ensures state == Spec.Touch(old(state), entry.key, now, []) && own == Added(old(own), entry, old(entry.element))
    {
      EntriesAdded(entry, now);
      lru := [entry.element] + lru;
      store := store[entry.key := entry];
      state, own := Spec.Touch(state, entry.key, now, []), Added(own, entry, entry.element);
    }

    lemma EntriesAdded(entry: Entry, now: int)
      requires Core() && entry.key !in store && entry.lastActive == now && entry.element != null
      ensures var entries, s, added := store[entry.key := entry], Spec.Touch(state, entry.key, now, []),
                                       Added(own, entry, entry.element);
        forall k :: k in entries ==>
          && k in s.store && k in added.points
          && entries[k].lastActive == s.store[k].lastActive && entries[k].element == added.points[k]
    {
    }

    /** Its empty queue is one more window. */
    method NewEntry(key: Key, now: int) returns (entry: Entry)
      requires Valid()
      ensures fresh(entry) && fresh(entry.requests) && entry.key == key && entry.lastActive == now
      ensures entry.element != null && entry.element.value == entry && Core()
      ensures Windows(store[key := entry], state.store[key := Spec.Bucket(now, [])],
                      own.queues + {entry.requests}, own.nodes)
    {
      entry := new Entry(key, now);
      WindowsAdded(store, state.store, own.queues, own.nodes, entry, Spec.Bucket(now, []));
    }

    method MoveToFront(entry: Entry, now: int)
      requires Valid() && entry.key in store && entry == store[entry.key]
      modifies this`lru, this`state, entry`lastActive
      ensures Valid()
      ensures state == Spec.Touch(old(state), entry.key, now, Spec.Window(old(state), entry.key))
    {
      ReactivatedIsTouched(state, entry.key, now);
      Reactivate(entry, now);
      Relist(entry);
    }

    /** The queues stay as they are. */
    method Reactivate(entry: Entry, now: int)
      requires Valid() && entry.key in store && entry == store[entry.key]
      modifies this`state, entry`lastActive
      ensures Valid() && state == Activated(old(state), entry.key, now)
    {
      WindowsRevalued(store, state.store, own.queues, own.nodes, entry.key,
                      Spec.Bucket(now, Spec.Window(state, entry.key)));
      Activate(entry, now);
    }

    method Activate(entry: Entry, now: int)
      requires Core() && entry.key in store && entry == store[entry.key]
      modifies this`state, entry`lastActive
      ensures Core() && state == Activated(old(state), entry.key, now)
    {
      ghost var s := Activated(state, entry.key, now);
      ShapeRevalued(this, store, lru, state, own, entry.key, s.store[entry.key]);
      entry.lastActive := now;
      state := s;
    }

    method Relist(entry: Entry)
      requires Valid() && entry.key in store && entry == store[entry.key]
      modifies this`lru, this`state
      ensures Valid() && state == Fronted(old(state), entry.key)
    {
      var element := entry.element;
      ShapeMoved(this, store, lru, state, own, entry.key);
      lru := [element] + Detach(lru, element);
      state := Fronted(state, entry.key);
    }

    /** The key's queue already holds this window. */
    ghost method AdoptWindow(key: Key, window: seq<int>)
      requires Core() && key in store && Windows(store, Windowed(state, key, window).store, own.queues, own.nodes)
      modifies this`state
      ensures Valid() && state == Windowed(old(state), key, window)
    {
      SetWindow(key, window);
    }

    ghost method SetWindow(key: Key, window: seq<int>)
      requires Core() && key in store
      modifies this`state
      ensures Core() && state == Windowed(old(state), key, window)
    {
      CoreWindowed(key, window);
      state := Windowed(state, key, window);
    }

    /** A new window changes nothing but the window. */
    lemma CoreWindowed(key: Key, window: seq<int>)
      requires Core() && key in store
      ensures var s := Windowed(state, key, window);
        && Shape(this, store, lru, s, own)
        && (s.expiration, s.reservations) == (expiration, reservations)
        && (forall k :: k in store ==>
              store[k].lastActive == s.store[k].lastActive && store[k].element == own.points[k])
    {
      ShapeRevalued(this, store, lru, state, own, key, Windowed(state, key, window).store[key]);
    }

    /** The queues may already use a new node. */
    ghost method AdoptNode(node: RequestNode, buckets: map<Key, Spec.Bucket>)
      requires Core() && Windows(store, buckets, own.queues, own.nodes + {node})
      modifies this`own
      ensures Core() && Windows(store, buckets, own.queues, own.nodes) && own == Extended(old(own), node)
    {
      own := Extended(own, node);
    }

    method ReleaseExpired(entry: Entry, now: int, duration: int) returns (length: int)
      requires Valid() && entry.key in store && entry == store[entry.key]
      modifies this`state, entry.requests, entry.requests.nodes
      ensures Valid()
      ensures var w := RemoveExpired(old(state).store[entry.key].window, now, duration);
        state == Windowed(old(state), entry.key, w) && length == |w|
    {
      length := ReleaseChain(entry.requests, now, duration, store, state.store, own.queues, own.nodes);
      AdoptWindow(entry.key, RemoveExpired(state.store[entry.key].window, now, duration));
    }

    method AppendRequest(entry: Entry, timestamp: int) returns (ghost node: RequestNode)
      requires Valid() && entry.key in store && entry == store[entry.key]
      modifies this`state, this`own, entry.requests, entry.requests.nodes
      ensures Valid() && fresh(node) && own == Extended(old(own), node)
      ensures state == Windowed(old(state), entry.key, old(state).store[entry.key].window + [timestamp])
    {
      ghost var window := state.store[entry.key].window + [timestamp];
      node := AppendNode(entry, timestamp);
      AdoptWindow(entry.key, window);
    }

    method AppendNode(entry: Entry, timestamp: int) returns (ghost node: RequestNode)
      requires Valid() && entry.key in store && entry == store[entry.key]
      modifies this`own, entry.requests, entry.requests.nodes
      ensures Core() && fresh(node) && own == Extended(old(own), node)
      ensures var window := state.store[entry.key].window + [timestamp];
        Windows(store, Windowed(state, entry.key, window).store, own.queues, own.nodes)
    {
      node := AppendChain(entry.requests, timestamp, store, state.store, own.queues, own.nodes);
      AdoptNode(node, Windowed(state, entry.key, state.store[entry.key].window + [timestamp]).store);
    }

    /** Half of an admission: touch the key, then release what expired and count the rest. */
    method TouchAndRelease(key: Key, duration: int, now: int) returns (entry: Entry, length: int)
      requires Valid()
      modifies own.repr
      ensures Valid() && Grows(old(own.repr), own.repr)
      ensures key in store && entry == store[key] && reservations == old(reservations)
      ensures var w := RemoveExpired(Spec.Window(old(state), key), Unix(now), duration);
        state == Spec.Touch(old(state), key, now, w) && length == |w|
    {
      ghost var s := state;
      entry := TouchEntry(key, now);
      ghost var t := state;
      length := ReleaseExpired(entry, Unix(now), duration);
      TouchedThenWindowed(s, t, key, now, RemoveExpired(t.store[key].window, Unix(now), duration));
    }

    /** The other half: the request enters the window of the key just touched. */
    method Enter(entry: Entry, now: int, ghost s: Spec.Limiter, ghost window: seq<int>)
      requires Valid() && entry.key in store && entry == store[entry.key]
      requires state == Spec.Touch(s, entry.key, now, window)
      modifies this`state, this`own, entry.requests, entry.requests.nodes
      ensures Valid() && Grows(old(own.repr), own.repr)
      ensures state == Spec.Touch(s, entry.key, now, window + [Unix(now)])
    {
      ghost var t := state;
      ghost var node := AppendRequest(entry, Unix(now));
      TouchedThenWindowed(s, t, entry.key, now, window + [Unix(now)]);
    }

    method Request(key: Key, max: int, duration: int, now: int) returns (allowed: bool)
      requires Valid()
      modifies own.repr
      ensures Valid() && Grows(old(own.repr), own.repr)
      ensures (state, allowed) == Spec.RequestStep(old(state), now, key, max, duration)
    {
      ghost var s := state;
      var entry, length := TouchAndRelease(key, duration, now);
      allowed := length < max;
      if allowed {
        Enter(entry, now, s, RemoveExpired(Spec.Window(s, key), Unix(now), duration));
      }
    }

    method Reserve(key: Key, max: int, duration: int, now: int) returns (reservation: RateLimitReservation?)
      requires Valid()
      modifies own.repr
      ensures Valid() && Grows(old(own.repr), own.repr)
      ensures state == Spec.ReserveStep(old(state), now, key, max, duration).0
      ensures reservation != null <==> Spec.ReserveStep(old(state), now, key, max, duration).1
      ensures reservation != null ==>
        && fresh(reservation) && reservation !in own.repr && reservation.limiter == this
        && reservation.id == |old(state.handles)| && reservation.Agrees()
    {
      ghost var s := state;
      var entry, length := TouchAndRelease(key, duration, now);
      GrantedStep(s, state, now, key, max, duration, length);
      reservation := GrantBelow(key, max - length);
    }

    /** A reservation, unless the key has `free` of them in flight already. */
    method GrantBelow(key: Key, free: int) returns (reservation: RateLimitReservation?)
      requires Valid()
      modifies this`state, this`reservations
      ensures Valid() && (reservation != null <==> Spec.InFlight(old(state), key) < free)
      ensures reservation == null ==> state == old(state)
      ensures reservation != null ==>
        && fresh(reservation) && reservation.limiter == this
        && reservation.id == |old(state.handles)| && reservation.Agrees()
        && state == Granted(old(state), key)
    {
      var inFlight := if key in reservations then reservations[key] else 0;
      reservation := null;
      if inFlight < free {
        reservation := Grant(key, inFlight + 1);
      }
    }

    method Grant(key: Key, inFlight: int) returns (reservation: RateLimitReservation)
      requires Valid()
      modifies this`state, this`reservations
      ensures Valid() && fresh(reservation) && reservation.limiter == this
      ensures reservation.id == |old(state.handles)| && reservation.Agrees()
      ensures inFlight == Spec.InFlight(old(state), key) + 1 ==> state == Granted(old(state), key)
    {
      ghost var handles := state.handles;
      SetReservations(reservations[key := inFlight], handles + [Spec.Handle(key, false)]);
      reservation := new RateLimitReservation(this, key, |handles|);
    }

    /** A completed request enters its key's window. */
    method Record(key: Key, now: int)
      requires Valid()
      modifies own.repr
      ensures Valid() && Grows(old(own.repr), own.repr)
      ensures state == Spec.Touch(old(state), key, now, Spec.Window(old(state), key) + [Unix(now)])
    {
      ghost var s := state;
      var entry := TouchEntry(key, now);
      Enter(entry, now, s, Spec.Window(s, key));
    }

    method SetReservations(table: map<Key, int>, ghost handles: seq<Spec.Handle>)
      requires Valid()
      modifies this`state, this`reservations
      ensures Valid() && reservations == table
      ensures state == old(state).(reservations := table, handles := handles)
    {
      reservations := table;
      state := state.(reservations := table, handles := handles);
    }

    method DeleteExpiredEntries(tick: int)
      requires Valid()
      modifies own.repr
      ensures Valid() && own.repr == old(own.repr)
      ensures state == Spec.SweepStep(old(state), tick)
    {
      if expiration <= 0 {
        return;
      }
      ghost var s := state;
      while OldestIsIdle(tick)
        invariant Valid() && own == old(own)
        invariant Spec.SweepFrom(state, tick) == Spec.SweepFrom(s, tick)
        decreases |lru|
      {
        DeleteOldest(tick);
      }
      IdleInState(tick);
    }

    predicate OldestIsIdle(tick: int)
      reads this, if lru == [] then {} else {lru[|lru| - 1].value}
    {
      lru != [] && tick - lru[|lru| - 1].value.lastActive >= expiration
    }

    lemma IdleInState(tick: int)
      requires Core()
      ensures OldestIsIdle(tick) <==> Idle(state, tick)
    {
    }

    /** The loop body: the least recently active entry goes. */
    method DeleteOldest(tick: int)
      requires Valid() && OldestIsIdle(tick)
      modifies own.repr
      ensures Valid() && own == old(own)
      ensures Spec.SweepFrom(state, tick) == Spec.SweepFrom(old(state), tick)
      ensures |lru| < |old(lru)|
    {
      IdleInState(tick);
      SweptOldest(state, tick);
      Forget(lru[|lru| - 1].value);
    }

    /** The least recently active entry leaves the store and the list, and its chain is let go. */
    method Forget(entry: Entry)
      requires Valid() && lru != [] && entry == lru[|lru| - 1].value
      modifies this`store, this`lru, this`state, entry`element, entry.requests
      ensures Valid() && state == Spec.OldestDropped(old(state)) && |lru| == |old(lru)| - 1
    {
      ShapeForgotten(this, store, lru, state, own);
      ClearChain(entry.requests, store, state.store, own.queues, own.nodes);
      AdoptRemoval(entry);
    }

    /** The least recently active entry, whose queue is out of the windows already, goes. */
    method AdoptRemoval(entry: Entry)
      requires Core() && lru != [] && entry == lru[|lru| - 1].value
      requires Windows(store - {entry.key}, state.store - {entry.key}, own.queues, own.nodes)
      modifies this`store, this`lru, this`state, entry`element
      ensures Valid() && state == Spec.OldestDropped(old(state)) && |lru| == |old(lru)| - 1
    {
      ShapeForgotten(this, store, lru, state, own);
      Unlist(entry);
    }

    /** It leaves the store and the list. */
    method Unlist(entry: Entry)
      requires Core() && lru != [] && entry == lru[|lru| - 1].value
      modifies this`store, this`lru, this`state, entry`element
      ensures Core() && state == Spec.OldestDropped(old(state))
      ensures store == old(store) - {entry.key} && |lru| == |old(lru)| - 1
    {
      ShapeForgotten(this, store, lru, state, own);
      assert forall k :: k in store && k != entry.key ==> store[k] != entry;
      store := store - {entry.key};
      lru := lru[..|lru| - 1];
      entry.element := null;
      state := Spec.OldestDropped(state);
    }
  }
}
