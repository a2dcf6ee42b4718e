/** What the key actions keep, over every sequence of them. */
module MultiKeyFacts {
  import opened Basics
  import opened Text
  import opened MultiKey
  import opened MultiKeyText

  ghost predicate Below<T>(m: map<int, T>, size: int) {
    forall i :: i in m ==> 0 <= i < size
  }

  /** The recorded size is the number of keys and every recorded position has a key. */
  ghost predicate WellFormed(c: Channel, parse: ArrayParser) {
    && 0 < c.size == |GetKeys(c.key, parse)|
    && Below(c.statuses, c.size) && Below(c.times, c.size) && Below(c.reasons, c.size)
  }

  /** An enabled channel has an enabled key; one disabled for lack of keys has none. */
  ghost predicate Coupled(c: Channel, parse: ArrayParser) {
    && (c.status == ENABLED ==> HasEnabled(c, parse))
    && (LacksKeys(c) ==> !HasEnabled(c, parse))
  }

  /** Turned off because no key was left enabled. */
  predicate LacksKeys(c: Channel) { c.status == MANUALLY_DISABLED && c.reason == ALL_KEYS_DISABLED }

  ghost predicate Sound(c: Channel, parse: ArrayParser) { WellFormed(c, parse) && Coupled(c, parse) }

  predicate IsDeletion(action: Action) { action.DeleteKey? || action.DeleteDisabledKeys? }

  /** The positions a deletion drops. */
  function Dropped(c: Channel, action: Action): nat -> bool {
    match action
    case DeleteKey(index) => At(index)
    case DeleteDisabledKeys => AutoDisabled(c)
    case _ => (i => false)
  }

  function Remaining(c: Channel, action: Action, parse: ArrayParser): seq<string> {
    Survivors(c, GetKeys(c.key, parse), Dropped(c, action))
  }

  /** The channel without the dropped keys, before it is saved. */
  function Deletion(c: Channel, action: Action, parse: ArrayParser): Channel {
    Deleted(c, Dropped(c, action), action.DeleteDisabledKeys?, parse)
  }

  // ---------- Saving ----------

  lemma SaveSameKey(row: Channel, mem: Channel, parse: ArrayParser)
    requires WellFormed(row, parse) && mem.key == row.key && Below(mem.statuses, row.size)
    ensures Save(row, mem, parse) == mem.(size := row.size)
  {
    var s := Save(row, mem, parse);
    assert SavedSize(row.key, parse) == row.size;
    assert s.statuses == mem.statuses;
  }

  lemma SaveNewKeys(row: Channel, mem: Channel, q: seq<string>, parse: ArrayParser)
    requires Storable(q, parse) && mem.key == Join(q, '\n') && Below(mem.statuses, |q|)
    ensures Save(row, mem, parse) == mem.(size := |q|)
  {
    StorableRoundTrip(q, parse);
    var s := Save(row, mem, parse);
    assert s.statuses == mem.statuses;
  }

  lemma DisableIfUnavailableCouples(c: Channel, parse: ArrayParser)
    requires LacksKeys(c) ==> !HasEnabled(c, parse)
    ensures Coupled(DisableIfUnavailable(c, parse), parse)
  {
    var d := DisableIfUnavailable(c, parse);
    assert HasEnabled(d, parse) == HasEnabled(c, parse) by { SameKeys(c, d, parse); }
  }

  lemma SameKeys(c: Channel, d: Channel, parse: ArrayParser)
    requires c.key == d.key && c.statuses == d.statuses
    ensures HasEnabled(c, parse) == HasEnabled(d, parse)
  {
    assert forall i :: StatusOf(c, i) == StatusOf(d, i);
  }

  lemma RestoreCouples(c: Channel, parse: ArrayParser)
    requires HasEnabled(c, parse)
    ensures Coupled(RestoreIfAvailable(c, parse), parse)
  {
    SameKeys(c, RestoreIfAvailable(c, parse), parse);
  }

  // ---------- Each action ----------

  lemma DisableKeyKeeps(c: Channel, i: int, parse: ArrayParser)
    requires WellFormed(c, parse) && Coupled(c, parse) && 0 <= i < c.size
    ensures var r := Act(c, DisableKey(Some(i)), parse).row;
      WellFormed(r, parse) && Coupled(r, parse) && r.key == c.key
  {
    var mem := c.(statuses := c.statuses[i := MANUALLY_DISABLED]);
    if HasEnabled(mem, parse) {
      var j :| 0 <= j < |GetKeys(mem.key, parse)| && StatusOf(mem, j) == ENABLED;
      assert StatusOf(c, j) == ENABLED;
    }
    DisableIfUnavailableCouples(mem, parse);
    SaveSameKey(c, DisableIfUnavailable(mem, parse), parse);
  }

  lemma EnableKeyKeeps(c: Channel, i: int, parse: ArrayParser)
    requires WellFormed(c, parse) && 0 <= i < c.size
    ensures var r := Act(c, EnableKey(Some(i)), parse).row;
      WellFormed(r, parse) && Coupled(r, parse) && r.key == c.key
  {
    var mem := c.(statuses := c.statuses - {i}, times := c.times - {i}, reasons := c.reasons - {i});
    assert StatusOf(mem, i) == ENABLED;
    RestoreCouples(mem, parse);
    SaveSameKey(c, RestoreIfAvailable(mem, parse), parse);
  }

  lemma EnableAllKeeps(c: Channel, parse: ArrayParser)
    requires WellFormed(c, parse)
    ensures var r := Act(c, EnableAllKeys, parse).row;
      WellFormed(r, parse) && Coupled(r, parse) && r.key == c.key && r.statuses == map[]
  {
    var mem := c.(statuses := map[], times := map[], reasons := map[]);
    assert StatusOf(mem, 0) == ENABLED;
    RestoreCouples(mem, parse);
    SaveSameKey(c, RestoreIfAvailable(mem, parse), parse);
  }

  lemma {:induction false} DisabledBelowFacts(c: Channel, n: nat)
    requires Below(c.statuses, c.size) && n <= c.size
    ensures Below(DisabledBelow(c, n), c.size)
    ensures forall i :: 0 <= i < n ==>
      && i in DisabledBelow(c, n)
      && DisabledBelow(c, n)[i] == if StatusOf(c, i) == ENABLED then MANUALLY_DISABLED else StatusOf(c, i)
    ensures forall i :: n <= i ==>
      && (i in DisabledBelow(c, n) <==> i in c.statuses)
      && (i in c.statuses ==> DisabledBelow(c, n)[i] == c.statuses[i])
  {
    if n > 0 { DisabledBelowFacts(c, n - 1); }
  }

  lemma DisableAllKeeps(c: Channel, parse: ArrayParser)
    requires WellFormed(c, parse) && Coupled(c, parse)
    ensures var r := Act(c, DisableAllKeys, parse).row;
      WellFormed(r, parse) && Coupled(r, parse) && r.key == c.key
  {
    DisabledBelowFacts(c, c.size);
    var mem := c.(statuses := DisabledBelow(c, c.size));
    DisableIfUnavailableCouples(mem, parse);
    SaveSameKey(c, DisableIfUnavailable(mem, parse), parse);
  }

  // ---------- Deleting ----------

  /** A survivor keeps its status. */
  lemma SurvivorStatus(c: Channel, drop: nat -> bool, onlyDisabled: bool, parse: ArrayParser, n: nat)
    requires n < |Kept(|GetKeys(c.key, parse)|, drop)|
    ensures StatusOf(Deleted(c, drop, onlyDisabled, parse), n) ==
            StatusOf(c, Kept(|GetKeys(c.key, parse)|, drop)[n])
  {
  }

  lemma DeletedBelow(c: Channel, drop: nat -> bool, onlyDisabled: bool, parse: ArrayParser)
    ensures var d, size := Deleted(c, drop, onlyDisabled, parse), |Kept(|GetKeys(c.key, parse)|, drop)|;
      Below(d.statuses, size) && Below(d.times, size) && Below(d.reasons, size)
  {
  }

  /** Storable survivors are saved as they are. */
  lemma DeleteSaves(c: Channel, drop: nat -> bool, onlyDisabled: bool, parse: ArrayParser)
    requires Storable(Survivors(c, GetKeys(c.key, parse), drop), parse)
    ensures var mem := DisableIfUnavailable(Deleted(c, drop, onlyDisabled, parse), parse);
      var r := Save(c, mem, parse);
      && r == mem && WellFormed(r, parse)
      && GetKeys(r.key, parse) == Survivors(c, GetKeys(c.key, parse), drop)
  {
    var q, d := Survivors(c, GetKeys(c.key, parse), drop), Deleted(c, drop, onlyDisabled, parse);
    StorableRoundTrip(q, parse);
    DeletedBelow(c, drop, onlyDisabled, parse);
    SaveNewKeys(c, DisableIfUnavailable(d, parse), q, parse);
  }

  /** The saved row, with the key text and the status decided before saving. */
  lemma DeletionSaved(c: Channel, action: Action, parse: ArrayParser)
    requires IsDeletion(action) && Act(c, action, parse).ok
    ensures Act(c, action, parse).row == Save(c, DisableIfUnavailable(Deletion(c, action, parse), parse), parse)
    ensures Deletion(c, action, parse).key == Join(Remaining(c, action, parse), '\n')
    ensures Deletion(c, action, parse).status == c.status && Deletion(c, action, parse).reason == c.reason
  {
  }

  /** Nothing but a successful deletion can break anything. */
  lemma OthersKeep(c: Channel, action: Action, parse: ArrayParser)
    requires Sound(c, parse) && (IsDeletion(action) ==> !Act(c, action, parse).ok)
    ensures Sound(Act(c, action, parse).row, parse) && Act(c, action, parse).row.key == c.key
  {
    match action
    case DisableKey(index) => if InRange(c, index) { DisableKeyKeeps(c, index.value, parse); }
    case EnableKey(index) => if InRange(c, index) { EnableKeyKeeps(c, index.value, parse); }
    case EnableAllKeys => EnableAllKeeps(c, parse);
    case DisableAllKeys => DisableAllKeeps(c, parse);
    case _ =>
  }

  // ---------- Runs ----------

  function After(c: Channel, actions: seq<Action>, parse: ArrayParser): Channel {
    if actions == [] then c
    else Act(After(c, actions[..|actions| - 1], parse), actions[|actions| - 1], parse).row
  }

  lemma ActNotOverridden(c: Channel, action: Action, parse: ArrayParser)
    requires c.status == MANUALLY_DISABLED && c.reason != ALL_KEYS_DISABLED
    ensures Act(c, action, parse).row.status == c.status && Act(c, action, parse).row.reason == c.reason
  {
  }

  /** A channel disabled by hand for its own reason stays so, whatever is done to its keys. */
  lemma {:induction false} NeverOverridden(c: Channel, actions: seq<Action>, parse: ArrayParser)
    requires c.status == MANUALLY_DISABLED && c.reason != ALL_KEYS_DISABLED
    ensures After(c, actions, parse).status == c.status && After(c, actions, parse).reason == c.reason
  {
    if actions != [] {
      var before, last := actions[..|actions| - 1], actions[|actions| - 1];
      NeverOverridden(c, before, parse);
      ActNotOverridden(After(c, before, parse), last, parse);
    }
  }

  // ---------- What a deletion preserves, and exactly when ----------

  /** A disabled survivor's record moves with it. */
  ghost predicate SameRecord<T>(before: map<int, T>, i: int, after: map<int, T>, n: int) {
    (n in after <==> i in before) && (i in before && n in after ==> after[n] == before[i])
  }

  /** The surviving keys in order, each with its status, and its time and reason if still disabled. */
  ghost predicate Faithful(c: Channel, action: Action, r: Channel, parse: ArrayParser) {
    var kept := Kept(|GetKeys(c.key, parse)|, Dropped(c, action));
    && GetKeys(r.key, parse) == Remaining(c, action, parse)
    && (forall n :: 0 <= n < |kept| ==> StatusOf(r, n) == StatusOf(c, kept[n]))
    && (forall n :: 0 <= n < |kept| && StatusOf(c, kept[n]) != ENABLED ==>
          SameRecord(c.times, kept[n], r.times, n) && SameRecord(c.reasons, kept[n], r.reasons, n))
  }

  lemma ReindexedRecord<T>(m: map<int, T>, kept: seq<nat>, keep: nat -> bool, n: nat)
    requires n < |kept| && keep(kept[n])
    ensures SameRecord(m, kept[n], Reindexed(m, kept, keep), n)
  {
  }

  lemma DeletedRecords(c: Channel, drop: nat -> bool, onlyDisabled: bool, parse: ArrayParser)
    ensures var d, kept := Deleted(c, drop, onlyDisabled, parse), Kept(|GetKeys(c.key, parse)|, drop);
      && (forall n :: 0 <= n < |kept| ==> StatusOf(d, n) == StatusOf(c, kept[n]))
      && (forall n :: 0 <= n < |kept| && StatusOf(c, kept[n]) != ENABLED ==>
            SameRecord(c.times, kept[n], d.times, n) && SameRecord(c.reasons, kept[n], d.reasons, n))
  {
    var d, kept := Deleted(c, drop, onlyDisabled, parse), Kept(|GetKeys(c.key, parse)|, drop);
    forall n | 0 <= n < |kept| ensures StatusOf(d, n) == StatusOf(c, kept[n]) {
      SurvivorStatus(c, drop, onlyDisabled, parse, n);
    }
    forall n | 0 <= n < |kept| && StatusOf(c, kept[n]) != ENABLED
      ensures SameRecord(c.times, kept[n], d.times, n) && SameRecord(c.reasons, kept[n], d.reasons, n)
    {
      ReindexedRecord(c.times, kept, Recorded(c, onlyDisabled), n);
      ReindexedRecord(c.reasons, kept, Recorded(c, onlyDisabled), n);
    }
  }

  lemma {:induction false} KeptFewer(n: nat, drop: nat -> bool, i: nat)
    requires i < n && drop(i)
    ensures |Kept(n, drop)| < n
  {
    KeptFacts(n - 1, drop);
    if i < n - 1 { KeptFewer(n - 1, drop, i); }
  }

  /** A successful deletion leaves fewer keys. */
  lemma FewerKeys(c: Channel, action: Action, parse: ArrayParser)
    requires WellFormed(c, parse) && IsDeletion(action) && Act(c, action, parse).ok
    ensures |Remaining(c, action, parse)| < |GetKeys(c.key, parse)|
  {
    var n := |GetKeys(c.key, parse)|;
    KeptFacts(n, Dropped(c, action));
    if action.DeleteKey? { KeptFewer(n, Dropped(c, action), action.index.value); }
  }

  /** The key text a deletion saves. */
  lemma DeletionKey(c: Channel, action: Action, parse: ArrayParser)
    requires IsDeletion(action)
    ensures Act(c, action, parse).ok ==>
      var text := Join(Remaining(c, action, parse), '\n');
      Act(c, action, parse).row.key == if text != "" then text else c.key
  {
  }

  /** Storable survivors are saved with the re-indexed maps. */
  lemma DeletionRow(c: Channel, action: Action, parse: ArrayParser)
    requires IsDeletion(action)
    ensures Act(c, action, parse).ok && Storable(Remaining(c, action, parse), parse) ==>
      var r, d := Act(c, action, parse).row, Deletion(c, action, parse);
      && r.statuses == d.statuses && r.times == d.times && r.reasons == d.reasons
      && GetKeys(r.key, parse) == Remaining(c, action, parse)
  {
    if Storable(Remaining(c, action, parse), parse) {
      DeleteSaves(c, Dropped(c, action), action.DeleteDisabledKeys?, parse);
    }
  }

  lemma StorableIsFaithful(c: Channel, action: Action, parse: ArrayParser)
    requires IsDeletion(action)
    ensures Act(c, action, parse).ok && Storable(Remaining(c, action, parse), parse) ==>
      Faithful(c, action, Act(c, action, parse).row, parse)
  {
    DeletionRow(c, action, parse);
    DeletedRecords(c, Dropped(c, action), action.DeleteDisabledKeys?, parse);
    var d, r := Deletion(c, action, parse), Act(c, action, parse).row;
    if r.statuses == d.statuses { assert forall n :: StatusOf(r, n) == StatusOf(d, n); }
  }

  /**
   A deletion leaves exactly the surviving keys, in order and with their
   records, if and only if those keys can be stored: at least one is left, none
   holds a line break, neither end is blank, and the text is not an array.
   */
  lemma FaithfulIff(c: Channel, action: Action, parse: ArrayParser)
    requires WellFormed(c, parse) && Brackets(parse) && IsDeletion(action)
    ensures Act(c, action, parse).ok ==>
      (Faithful(c, action, Act(c, action, parse).row, parse) <==> Storable(Remaining(c, action, parse), parse))
  {
    var q := Remaining(c, action, parse);
    if Storable(q, parse) {
      StorableIsFaithful(c, action, parse);
    } else if Act(c, action, parse).ok {
      FewerKeys(c, action, parse);
      DeletionKey(c, action, parse);
      if q != [] { StoredKeysIff(q, parse); }
    }
  }

  lemma {:induction false} AllDropped(n: nat, drop: nat -> bool)
    requires forall i: nat :: i < n ==> drop(i)
    ensures Kept(n, drop) == []
  {
    if n > 0 { AllDropped(n - 1, drop); }
  }

  /**
   Deleting the auto-disabled keys of a channel that has no others deletes
   nothing: the saved row keeps every key and forgets that they were disabled.
   */
  lemma AllAutoDisabledComeBack(c: Channel, parse: ArrayParser)
    requires WellFormed(c, parse)
    requires forall i :: 0 <= i < c.size ==> StatusOf(c, i) == AUTO_DISABLED
    ensures var r := Act(c, DeleteDisabledKeys, parse);
      && r.ok && r.count == c.size
      && GetKeys(r.row.key, parse) == GetKeys(c.key, parse)
      && (forall i :: 0 <= i < c.size ==> StatusOf(r.row, i) == ENABLED)
  {
    var keys := GetKeys(c.key, parse);
    AllDropped(|keys|, AutoDisabled(c));
    var d := Deleted(c, AutoDisabled(c), true, parse);
    assert d.key == "" && d.statuses == map[];
  }

  /** Such a channel is left disabled for lack of keys although it has an enabled one. */
  lemma AllAutoDisabledUncouples(c: Channel, parse: ArrayParser)
    requires WellFormed(c, parse) && LacksKeys(c)
    requires forall i :: 0 <= i < c.size ==> StatusOf(c, i) == AUTO_DISABLED
    ensures Coupled(c, parse) && !Coupled(Act(c, DeleteDisabledKeys, parse).row, parse)
  {
    AllAutoDisabledComeBack(c, parse);
    var r := Act(c, DeleteDisabledKeys, parse).row;
    assert StatusOf(r, 0) == ENABLED;
  }

  // ---------- Counting ----------

  function CountBelow(c: Channel, n: nat, status: int): nat {
    if n == 0 then 0 else CountBelow(c, n - 1, status) + if StatusOf(c, n - 1) == status then 1 else 0
  }

  function CountAt(c: Channel, kept: seq<nat>, status: int): nat {
    if kept == [] then 0
    else CountAt(c, kept[..|kept| - 1], status) + if StatusOf(c, kept[|kept| - 1]) == status then 1 else 0
  }

  lemma {:induction false} CountKept(c: Channel, n: nat, status: int)
    ensures CountAt(c, Kept(n, AutoDisabled(c)), status) ==
            if status == AUTO_DISABLED then 0 else CountBelow(c, n, status)
  {
    if n > 0 {
      CountKept(c, n - 1, status);
      var before := Kept(n - 1, AutoDisabled(c));
      assert (before + [n - 1])[..|before|] == before;
    }
  }

  lemma {:induction false} CountMoved(c: Channel, r: Channel, kept: seq<nat>, n: nat, status: int)
    requires n <= |kept| && forall k :: 0 <= k < |kept| ==> StatusOf(r, k) == StatusOf(c, kept[k])
    ensures CountBelow(r, n, status) == CountAt(c, kept[..n], status)
  {
    if n > 0 {
      CountMoved(c, r, kept, n - 1, status);
      assert kept[..n][..n - 1] == kept[..n - 1];
    }
  }

  /** Saving prunes no status below the counted size. */
  lemma SaveKeepsStatuses(row: Channel, mem: Channel, parse: ArrayParser)
    ensures var r := Save(row, mem, parse); forall i :: i < r.size ==> StatusOf(r, i) == StatusOf(mem, i)
  {
  }

  /** Counted one by one, every survivor is saved with its status. */
  lemma BulkDeleteStatuses(c: Channel, parse: ArrayParser)
    requires WellFormed(c, parse) && Act(c, DeleteDisabledKeys, parse).ok
    requires var q := Remaining(c, DeleteDisabledKeys, parse);
      Join(q, '\n') != "" && SavedSize(Join(q, '\n'), parse) == |q|
    ensures var r, kept := Act(c, DeleteDisabledKeys, parse).row, Kept(c.size, AutoDisabled(c));
      r.size == |kept| && forall k :: 0 <= k < |kept| ==> StatusOf(r, k) == StatusOf(c, kept[k])
  {
    var d := Deletion(c, DeleteDisabledKeys, parse);
    DeletionSaved(c, DeleteDisabledKeys, parse);
    DeletedRecords(c, AutoDisabled(c), true, parse);
    SaveKeepsStatuses(c, DisableIfUnavailable(d, parse), parse);
  }

  lemma CountMovedKept(c: Channel, r: Channel, n: nat, status: int)
    requires var kept := Kept(n, AutoDisabled(c));
      r.size == |kept| && forall k :: 0 <= k < |kept| ==> StatusOf(r, k) == StatusOf(c, kept[k])
    ensures CountBelow(r, r.size, status) == if status == AUTO_DISABLED then 0 else CountBelow(c, n, status)
  {
    var kept := Kept(n, AutoDisabled(c));
    assert kept[..|kept|] == kept;
    CountMoved(c, r, kept, |kept|, status);
    CountKept(c, n, status);
  }

  /** How many keys the saved row counts: those the remaining text is counted as, or all if there is no text. */
  lemma BulkDeleteSize(c: Channel, parse: ArrayParser)
    requires WellFormed(c, parse)
    ensures var r, q := Act(c, DeleteDisabledKeys, parse), Remaining(c, DeleteDisabledKeys, parse);
      r.ok ==>
        && r.count == c.size - |q| > 0
        && r.row.size == if Join(q, '\n') == "" then c.size else SavedSize(Join(q, '\n'), parse)
  {
    if Act(c, DeleteDisabledKeys, parse).ok { FewerKeys(c, DeleteDisabledKeys, parse); }
  }

  /**
   Deleted plus remaining is the original number exactly when the remaining
   keys have a text and are counted in it one by one; then the other statuses
   keep their numbers and no auto-disabled key is left.
   */
  lemma BulkDeleteCountsIff(c: Channel, parse: ArrayParser)
    requires WellFormed(c, parse)
    ensures var r, q := Act(c, DeleteDisabledKeys, parse), Remaining(c, DeleteDisabledKeys, parse);
      var counted := Join(q, '\n') != "" && SavedSize(Join(q, '\n'), parse) == |q|;
      r.ok ==>
        && (r.count + r.row.size == c.size <==> counted)
        && (counted ==> forall status ::
              CountBelow(r.row, r.row.size, status) ==
              if status == AUTO_DISABLED then 0 else CountBelow(c, c.size, status))
  {
    var r, q := Act(c, DeleteDisabledKeys, parse), Remaining(c, DeleteDisabledKeys, parse);
    BulkDeleteSize(c, parse);
    if r.ok && Join(q, '\n') != "" && SavedSize(Join(q, '\n'), parse) == |q| {
      BulkDeleteStatuses(c, parse);
      forall status
        ensures CountBelow(r.row, r.row.size, status) ==
                if status == AUTO_DISABLED then 0 else CountBelow(c, c.size, status)
      {
        CountMovedKept(c, r.row, c.size, status);
      }
    }
  }
}
