/** Channels whose keys are plain lines: exactly which action breaks their invariants, and over runs. */
module MultiKeyPlain {
  import opened Basics
  import opened Text
  import opened MultiKey
  import opened MultiKeyText
  import opened MultiKeyFacts
  import opened MultiKeyExact

  /** A key on one line that starts with neither white space nor an array bracket. */
  predicate PlainKey(k: string) {
    k != "" && '\n' !in k && !IsSpace(k[0]) && k[0] != '['
  }

  predicate Plain(q: seq<string>) {
    forall i :: 0 <= i < |q| ==> PlainKey(q[i])
  }

  /** The bulk deletion of a channel that was turned off because its last usable key had been auto-disabled. */
  predicate Strands(c: Channel, action: Action) {
    && action.DeleteDisabledKeys?
    && (forall i :: 0 <= i < c.size ==> StatusOf(c, i) == AUTO_DISABLED)
    && LacksKeys(c)
  }

  lemma PlainStorable(q: seq<string>, parse: ArrayParser)
    requires q != [] && Plain(q)
    ensures Storable(q, parse)
  {
    assert PlainKey(q[0]) && PlainKey(q[|q| - 1]);
    JoinFirst(q, '\n');
    NotAnArray(Join(q, '\n'), parse);
  }

  lemma PlainRemaining(c: Channel, action: Action, parse: ArrayParser)
    requires Plain(GetKeys(c.key, parse))
    ensures Plain(Remaining(c, action, parse))
  {
    KeptFacts(|GetKeys(c.key, parse)|, Dropped(c, action));
  }

  lemma NothingKept(c: Channel, parse: ArrayParser)
    requires WellFormed(c, parse) && Remaining(c, DeleteDisabledKeys, parse) == []
    ensures forall i :: 0 <= i < c.size ==> StatusOf(c, i) == AUTO_DISABLED
  {
    var n := |GetKeys(c.key, parse)|;
    KeptFacts(n, AutoDisabled(c));
    assert forall i: nat :: i < n ==> AutoDisabled(c)(i);
    forall i | 0 <= i < c.size ensures StatusOf(c, i) == AUTO_DISABLED { assert AutoDisabled(c)(i); }
  }

  lemma SomethingKept(c: Channel, action: Action, parse: ArrayParser)
    requires WellFormed(c, parse) && Remaining(c, action, parse) != []
    ensures !Strands(c, action)
  {
    if Strands(c, action) { AllDropped(|GetKeys(c.key, parse)|, AutoDisabled(c)); }
  }

  /** The coupling leaves no enabled channel without a key that is not auto-disabled. */
  lemma AllAutoDisabledIsOff(c: Channel, parse: ArrayParser)
    requires Sound(c, parse) && forall i :: 0 <= i < c.size ==> StatusOf(c, i) == AUTO_DISABLED
    ensures c.status != ENABLED
  {
  }

  lemma PlainDeletion(c: Channel, action: Action, parse: ArrayParser)
    requires Sound(c, parse) && Plain(GetKeys(c.key, parse)) && IsDeletion(action) && Act(c, action, parse).ok
    ensures Keeps(c, action, parse) <==> !Strands(c, action)
    ensures Plain(GetKeys(Act(c, action, parse).row.key, parse))
  {
    var q := Remaining(c, action, parse);
    PlainRemaining(c, action, parse);
    DeletionKey(c, action, parse);
    if q != [] {
      PlainStorable(q, parse);
      KeepableKeeps(c, action, parse);
      StorableRoundTrip(q, parse);
      SomethingKept(c, action, parse);
    } else {
      NothingKept(c, parse);
      AllAutoDisabledIsOff(c, parse);
    }
  }

  /**
   On plain keys an action keeps a sound channel sound exactly when it is not
   the bulk deletion that would leave a channel without keys which was disabled
   for lack of them; the keys stay plain in any case.
   */
  lemma PlainKeepsIff(c: Channel, action: Action, parse: ArrayParser)
    requires Sound(c, parse) && Plain(GetKeys(c.key, parse))
    ensures Keeps(c, action, parse) <==> !Strands(c, action)
    ensures Plain(GetKeys(Act(c, action, parse).row.key, parse))
  {
    if IsDeletion(action) && Act(c, action, parse).ok {
      PlainDeletion(c, action, parse);
    } else {
      OthersKeep(c, action, parse);
      if Strands(c, action) { AllAutoDisabledComeBack(c, parse); }
    }
  }

  /** One step of a run, on the channel it meets. */
  lemma PlainStep(before: Channel, action: Action, after: Channel, parse: ArrayParser)
    requires Sound(before, parse) && Plain(GetKeys(before.key, parse)) && after == Act(before, action, parse).row
    ensures Plain(GetKeys(after.key, parse)) && (!Strands(before, action) ==> Sound(after, parse))
  {
    PlainKeepsIff(before, action, parse);
    ActKeepsIff(before, action, parse);
  }

  lemma {:induction false} PlainReaches(c: Channel, actions: seq<Action>, parse: ArrayParser, i: nat)
    requires Plain(GetKeys(c.key, parse)) && i <= |actions|
    requires forall j :: 0 <= j < i ==> Sound(After(c, actions[..j], parse), parse)
    ensures Plain(GetKeys(After(c, actions[..i], parse).key, parse))
  {
    if i > 0 {
      PlainReaches(c, actions, parse, i - 1);
      assert Sound(After(c, actions[..i - 1], parse), parse);
      PrefixSteps(c, actions, parse, i - 1);
      PlainStep(After(c, actions[..i - 1], parse), actions[i - 1], After(c, actions[..i], parse), parse);
    }
  }

  lemma {:induction false} UnstrandedReaches(c: Channel, actions: seq<Action>, parse: ArrayParser, i: nat)
    requires Sound(c, parse) && Plain(GetKeys(c.key, parse)) && i <= |actions|
    requires forall j :: 0 <= j < |actions| ==> !Strands(After(c, actions[..j], parse), actions[j])
    ensures var r := After(c, actions[..i], parse); Sound(r, parse) && Plain(GetKeys(r.key, parse))
  {
    if i > 0 {
      UnstrandedReaches(c, actions, parse, i - 1);
      PrefixSteps(c, actions, parse, i - 1);
      PlainStep(After(c, actions[..i - 1], parse), actions[i - 1], After(c, actions[..i], parse), parse);
    }
  }

  /** A run on plain keys stays sound throughout if and only if it has no such deletion. */
  lemma PlainRunKeepsIff(c: Channel, actions: seq<Action>, parse: ArrayParser)
    requires Sound(c, parse) && Plain(GetKeys(c.key, parse))
    ensures SoundThroughout(c, actions, parse) <==>
            forall i :: 0 <= i < |actions| ==> !Strands(After(c, actions[..i], parse), actions[i])
  {
    if forall i :: 0 <= i < |actions| ==> !Strands(After(c, actions[..i], parse), actions[i]) {
      forall i | 0 <= i <= |actions| ensures Sound(After(c, actions[..i], parse), parse) {
        UnstrandedReaches(c, actions, parse, i);
      }
    }
    if SoundThroughout(c, actions, parse) {
      RunKeepsIff(c, actions, parse);
      forall i | 0 <= i < |actions| ensures !Strands(After(c, actions[..i], parse), actions[i]) {
        PlainReaches(c, actions, parse, i);
        assert Sound(After(c, actions[..i], parse), parse) && Keeps(After(c, actions[..i], parse), actions[i], parse);
        PlainKeepsIff(After(c, actions[..i], parse), actions[i], parse);
      }
    }
  }
}
