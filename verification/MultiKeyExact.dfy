/** Exactly which key actions keep a sound channel sound, one by one and over runs, whatever the keys are. */
module MultiKeyExact {
  import opened Basics
  import opened Text
  import opened MultiKey
  import opened MultiKeyText
  import opened MultiKeyFacts

  /**
   What a deletion needs. With nothing to write, every key comes back: the
   channel must be neither enabled nor disabled for lack of keys. Otherwise the
   text must read as some keys, reaching all recorded positions, and as no more
   than remain if the channel lacks enabled ones.
   */
  ghost predicate Keeps(c: Channel, action: Action, parse: ArrayParser) {
    IsDeletion(action) && Act(c, action, parse).ok ==>
      var q, d := Remaining(c, action, parse), Deletion(c, action, parse);
      var read := |GetKeys(Join(q, '\n'), parse)|;
      if Join(q, '\n') == "" then c.status != ENABLED && !LacksKeys(c)
      else 0 < read && Below(d.times, read) && Below(d.reasons, read) && (LacksKeys(c) ==> read <= |q|)
  }

  // ---------- Nothing to write ----------

  /** The unwritten key text leaves all keys. */
  lemma EmptyTextRow(c: Channel, action: Action, parse: ArrayParser)
    requires WellFormed(c, parse) && IsDeletion(action) && Act(c, action, parse).ok
    requires Join(Remaining(c, action, parse), '\n') == ""
    ensures var r, d := Act(c, action, parse).row, Deletion(c, action, parse);
      && r.key == c.key && r.size == c.size && r.times == d.times && r.reasons == d.reasons
      && (forall i :: i in r.statuses ==> i in d.statuses)
      && (if c.status == ENABLED then LacksKeys(r) else r.status == c.status && r.reason == c.reason)
  {
    DeletionSaved(c, action, parse);
  }

  /** One key at least then has no recorded status. */
  lemma EmptyTextEnabled(c: Channel, action: Action, parse: ArrayParser)
    requires WellFormed(c, parse) && IsDeletion(action) && Act(c, action, parse).ok
    requires Join(Remaining(c, action, parse), '\n') == ""
    ensures WellFormed(Act(c, action, parse).row, parse) && HasEnabled(Act(c, action, parse).row, parse)
  {
    var r, n := Act(c, action, parse).row, |Remaining(c, action, parse)|;
    FewerKeys(c, action, parse);
    DeletedBelow(c, Dropped(c, action), action.DeleteDisabledKeys?, parse);
    EmptyTextRow(c, action, parse);
    assert StatusOf(r, n) == ENABLED;
  }

  // ---------- A text to write ----------

  /** When a row with a key text of its own is saved well formed. */
  lemma SavedWellFormedIff(row: Channel, mem: Channel, n: int, parse: ArrayParser)
    requires mem.key != "" && Below(mem.statuses, n) && Below(mem.times, n) && Below(mem.reasons, n)
    ensures var read := |GetKeys(mem.key, parse)|;
      WellFormed(Save(row, mem, parse), parse) <==> 0 < read && Below(mem.times, read) && Below(mem.reasons, read)
  {
  }

  lemma SavedEnabled(row: Channel, mem: Channel, parse: ArrayParser)
    requires mem.key != ""
    ensures HasEnabled(Save(row, mem, parse), parse) == HasEnabled(mem, parse)
  {
    var r := Save(row, mem, parse);
    assert |GetKeys(mem.key, parse)| <= r.size;
    assert forall i :: i < r.size ==> StatusOf(r, i) == StatusOf(mem, i);
  }

  lemma SavedCoupled(row: Channel, mem: Channel, parse: ArrayParser)
    requires mem.key != ""
    ensures Coupled(Save(row, mem, parse), parse) == Coupled(mem, parse)
  {
    SavedEnabled(row, mem, parse);
  }

  /** Positions past the survivors have no recorded status, so they count as enabled. */
  lemma DeletedEnabledIff(c: Channel, drop: nat -> bool, onlyDisabled: bool, parse: ArrayParser)
    requires !HasEnabled(c, parse)
    ensures var d := Deleted(c, drop, onlyDisabled, parse);
      HasEnabled(d, parse) <==> |GetKeys(d.key, parse)| > |Kept(|GetKeys(c.key, parse)|, drop)|
  {
    var d, kept := Deleted(c, drop, onlyDisabled, parse), Kept(|GetKeys(c.key, parse)|, drop);
    KeptFacts(|GetKeys(c.key, parse)|, drop);
    forall n | 0 <= n < |kept| ensures StatusOf(d, n) != ENABLED { SurvivorStatus(c, drop, onlyDisabled, parse, n); }
    DeletedBelow(c, drop, onlyDisabled, parse);
    assert StatusOf(d, |kept|) == ENABLED;
  }

  /** Only a channel that lacks enabled keys can be uncoupled, by gaining one. */
  lemma DisabledCoupledIff(d: Channel, parse: ArrayParser)
    ensures Coupled(DisableIfUnavailable(d, parse), parse) <==> (LacksKeys(d) ==> !HasEnabled(d, parse))
  {
    SameKeys(d, DisableIfUnavailable(d, parse), parse);
  }

  lemma TextWellFormedIff(c: Channel, action: Action, parse: ArrayParser)
    requires IsDeletion(action)
    ensures var d := Deletion(c, action, parse);
      var read := |GetKeys(d.key, parse)|;
      Act(c, action, parse).ok && d.key != "" ==>
        (WellFormed(Act(c, action, parse).row, parse) <==>
           0 < read && Below(d.times, read) && Below(d.reasons, read))
  {
    var d := Deletion(c, action, parse);
    DeletedBelow(c, Dropped(c, action), action.DeleteDisabledKeys?, parse);
    if Act(c, action, parse).ok && d.key != "" {
      DeletionSaved(c, action, parse);
      SavedWellFormedIff(c, DisableIfUnavailable(d, parse), |Remaining(c, action, parse)|, parse);
    }
  }

  lemma TextCoupledIff(c: Channel, action: Action, parse: ArrayParser)
    requires Coupled(c, parse)
    requires IsDeletion(action) && Act(c, action, parse).ok && Join(Remaining(c, action, parse), '\n') != ""
    ensures var q := Remaining(c, action, parse);
      Coupled(Act(c, action, parse).row, parse) <==>
        (LacksKeys(c) ==> |GetKeys(Join(q, '\n'), parse)| <= |q|)
  {
    var d := Deletion(c, action, parse);
    DeletionSaved(c, action, parse);
    SavedCoupled(c, DisableIfUnavailable(d, parse), parse);
    DisabledCoupledIff(d, parse);
    if LacksKeys(c) { DeletedEnabledIff(c, Dropped(c, action), action.DeleteDisabledKeys?, parse); }
  }

  // ---------- Every action, every run ----------

  /** An action keeps a sound channel sound if and only if it is no deletion or one that `Keeps` describes. */
  lemma ActKeepsIff(c: Channel, action: Action, parse: ArrayParser)
    requires Sound(c, parse)
    ensures Sound(Act(c, action, parse).row, parse) <==> Keeps(c, action, parse)
  {
    if !IsDeletion(action) || !Act(c, action, parse).ok {
      OthersKeep(c, action, parse);
    } else if Join(Remaining(c, action, parse), '\n') == "" {
      EmptyTextRow(c, action, parse);
      EmptyTextEnabled(c, action, parse);
    } else {
      TextWellFormedIff(c, action, parse);
      TextCoupledIff(c, action, parse);
    }
  }

  ghost predicate SoundThroughout(c: Channel, actions: seq<Action>, parse: ArrayParser) {
    forall i :: 0 <= i <= |actions| ==> Sound(After(c, actions[..i], parse), parse)
  }

  ghost predicate KeepsThroughout(c: Channel, actions: seq<Action>, parse: ArrayParser) {
    forall i :: 0 <= i < |actions| ==> Keeps(After(c, actions[..i], parse), actions[i], parse)
  }

  lemma PrefixSteps(c: Channel, actions: seq<Action>, parse: ArrayParser, i: nat)
    requires i < |actions|
    ensures After(c, actions[..i + 1], parse) == Act(After(c, actions[..i], parse), actions[i], parse).row
  {
    assert actions[..i + 1][..i] == actions[..i];
  }

  /** One step of a run, on the channel it meets. */
  lemma StepKeeps(before: Channel, action: Action, after: Channel, parse: ArrayParser)
    requires Sound(before, parse) && after == Act(before, action, parse).row
    ensures Sound(after, parse) <==> Keeps(before, action, parse)
  {
    ActKeepsIff(before, action, parse);
  }

  lemma {:induction false} KeepsReaches(c: Channel, actions: seq<Action>, parse: ArrayParser, i: nat)
    requires Sound(c, parse) && KeepsThroughout(c, actions, parse) && i <= |actions|
    ensures Sound(After(c, actions[..i], parse), parse)
  {
    if i > 0 {
      KeepsReaches(c, actions, parse, i - 1);
      PrefixSteps(c, actions, parse, i - 1);
      StepKeeps(After(c, actions[..i - 1], parse), actions[i - 1], After(c, actions[..i], parse), parse);
    }
  }

  /** A run stays sound throughout if and only if each of its actions keeps the channel it meets sound. */
  lemma RunKeepsIff(c: Channel, actions: seq<Action>, parse: ArrayParser)
    requires Sound(c, parse)
    ensures SoundThroughout(c, actions, parse) <==> KeepsThroughout(c, actions, parse)
  {
    if KeepsThroughout(c, actions, parse) {
      forall i | 0 <= i <= |actions| ensures Sound(After(c, actions[..i], parse), parse) {
        KeepsReaches(c, actions, parse, i);
      }
    }
    if SoundThroughout(c, actions, parse) {
      forall i | 0 <= i < |actions| ensures Keeps(After(c, actions[..i], parse), actions[i], parse) {
        assert Sound(After(c, actions[..i], parse), parse) && Sound(After(c, actions[..i + 1], parse), parse);
        PrefixSteps(c, actions, parse, i);
        ActKeepsIff(After(c, actions[..i], parse), actions[i], parse);
      }
    }
  }

  /** The deletion leaves keys that can be stored. */
  ghost predicate Keepable(c: Channel, action: Action, parse: ArrayParser) {
    IsDeletion(action) && Act(c, action, parse).ok ==> Storable(Remaining(c, action, parse), parse)
  }

  lemma KeepableKeeps(c: Channel, action: Action, parse: ArrayParser)
    requires Keepable(c, action, parse)
    ensures Keeps(c, action, parse)
  {
    if IsDeletion(action) && Act(c, action, parse).ok {
      StorableRoundTrip(Remaining(c, action, parse), parse);
      DeletedBelow(c, Dropped(c, action), action.DeleteDisabledKeys?, parse);
    }
  }

  /** So a run whose deletions all leave such keys stays sound. */
  lemma KeepableRunKeeps(c: Channel, actions: seq<Action>, parse: ArrayParser)
    requires Sound(c, parse)
    requires forall i :: 0 <= i < |actions| ==> Keepable(After(c, actions[..i], parse), actions[i], parse)
    ensures SoundThroughout(c, actions, parse)
  {
    forall i | 0 <= i < |actions| ensures Keeps(After(c, actions[..i], parse), actions[i], parse) {
      KeepableKeeps(After(c, actions[..i], parse), actions[i], parse);
    }
    RunKeepsIff(c, actions, parse);
  }

  // ---------- A blank key ----------

  /** A blank key is kept between two others. */
  lemma BlankBetween(parse: ArrayParser)
    ensures GetKeys("a\n\nb", parse) == ["a", "", "b"]
  {
    var q := ["a", "", "b"];
    BlankBetweenText();
    NotAnArray("a\n\nb", parse);
    StorableRoundTrip(q, parse);
  }

  lemma BlankBetweenText()
    ensures Join(["a", "", "b"], '\n') == "a\n\nb"
  {
    var q := ["a", "", "b"];
    assert q[..2] == ["a", ""] && ["a", ""][..1] == ["a"];
    assert Join(["a", ""], '\n') == "a\n";
  }

  /** In front it is lost. */
  lemma BlankInFront(parse: ArrayParser)
    ensures Join(["", "b"], '\n') == "\nb" && GetKeys("\nb", parse) == ["b"]
  {
    assert ["", "b"][..1] == [""];
    assert "\nb"[1..] == "b";
    assert TrimLeft("\nb", IsSpace) == "b" && TrimLeft("\nb", IsNewline) == "b";
    assert Split("b", '\n') == ["b"] by { SplitJoin(["b"], '\n'); }
  }

  /** Three keys, the middle one blank, the last one disabled at time 7. */
  function BlankMiddle(): Channel {
    Channel("a\n\nb", ENABLED, "", 3, map[2 := MANUALLY_DISABLED], map[2 := 7], map[])
  }

  lemma BlankMiddleSound(parse: ArrayParser)
    ensures GetKeys(BlankMiddle().key, parse) == ["a", "", "b"] && Sound(BlankMiddle(), parse)
  {
    BlankBetween(parse);
    assert StatusOf(BlankMiddle(), 0) == ENABLED;
  }

  lemma FirstDropped(drop: nat -> bool)
    requires drop(0) && !drop(1) && !drop(2)
    ensures Kept(3, drop) == [1, 2]
  {
    assert Kept(1, drop) == [] && Kept(2, drop) == [1];
  }

  lemma FirstDeleted(c: Channel, action: Action, parse: ArrayParser)
    requires action == DeleteKey(Some(0)) && |GetKeys(c.key, parse)| == 3 && 2 in c.times
    ensures Remaining(c, action, parse) == GetKeys(c.key, parse)[1..] && 1 in Deletion(c, action, parse).times
    ensures c.size == 3 ==> Act(c, action, parse).ok
  {
    FirstDropped(At(Some(0)));
  }

  /** A time recorded past the keys that are read back leaves an ill-formed row. */
  lemma UnreadTimeBreaks(c: Channel, action: Action, i: int, parse: ArrayParser)
    requires IsDeletion(action)
    ensures var d := Deletion(c, action, parse);
      Act(c, action, parse).ok && d.key != "" && i in d.times && |GetKeys(d.key, parse)| <= i ==>
        !Keeps(c, action, parse) && !WellFormed(Act(c, action, parse).row, parse)
  {
    TextWellFormedIff(c, action, parse);
  }

  /** Deleting the first of those keys leaves a text of one key, and a time recorded for a second. */
  lemma BlankKeyBreaks(c: Channel, action: Action, parse: ArrayParser)
    requires c == BlankMiddle() && action == DeleteKey(Some(0))
    ensures GetKeys(c.key, parse) == ["a", "", "b"] && Sound(c, parse) && Act(c, action, parse).ok
    ensures !Keeps(c, action, parse) && !WellFormed(Act(c, action, parse).row, parse)
  {
    BlankMiddleSound(parse);
    FirstDeleted(c, action, parse);
    BlankInFront(parse);
    assert Remaining(c, action, parse) == ["", "b"];
    UnreadTimeBreaks(c, action, 1, parse);
  }
}
