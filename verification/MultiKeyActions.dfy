/** What each key action does, position by position: to the keys, to the channel, and in its reply. */
module MultiKeyActions {
  import opened Basics
  import opened Text
  import opened MultiKey
  import opened MultiKeyFacts

  /** The channel itself goes from on to off for lack of keys, or stays as it is. */
  ghost predicate TurnedOffIff(c: Channel, r: Channel, condition: bool) {
    if c.status == ENABLED && condition then r.status == MANUALLY_DISABLED && r.reason == ALL_KEYS_DISABLED
    else r.status == c.status && r.reason == c.reason
  }

  /** It is turned on again exactly if it had been off for lack of keys. */
  ghost predicate TurnedOnIfLacking(c: Channel, r: Channel) {
    if c.status == MANUALLY_DISABLED && c.reason == ALL_KEYS_DISABLED then r.status == ENABLED && r.reason == ""
    else r.status == c.status && r.reason == c.reason
  }

  ghost predicate SameAt<T>(a: map<int, T>, b: map<int, T>, j: int) {
    (j in a <==> j in b) && (j in a && j in b ==> a[j] == b[j])
  }

  /** Status, time and reason at `j` are as before. */
  ghost predicate SameKeyAt(c: Channel, r: Channel, j: int) {
    SameAt(c.statuses, r.statuses, j) && SameAt(c.times, r.times, j) && SameAt(c.reasons, r.reasons, j)
  }

  ghost predicate Refused(c: Channel, o: Outcome) { !o.ok && o.row == c && o.count == 0 }

  // ---------- One key ----------

  /** Exactly the named key is disabled, if there is one; its own time and reason stay. */
  lemma DisableKeyEffect(c: Channel, index: Option<int>, parse: ArrayParser)
    requires WellFormed(c, parse)
    ensures var o, n := Act(c, DisableKey(index), parse), |GetKeys(c.key, parse)|;
      if index.None? || index.value < 0 || n <= index.value then Refused(c, o)
      else
        && o.ok && o.count == 1 && o.row.key == c.key && o.row.size == c.size
        && StatusOf(o.row, index.value) == MANUALLY_DISABLED
        && (forall j :: j != index.value ==> SameKeyAt(c, o.row, j))
        && o.row.times == c.times && o.row.reasons == c.reasons
  {
    if index.Some? && 0 <= index.value < c.size {
      var mem := c.(statuses := c.statuses[index.value := MANUALLY_DISABLED]);
      SaveSameKey(c, DisableIfUnavailable(mem, parse), parse);
    }
  }

  lemma DisableKeyTurnsOffIff(c: Channel, i: int, parse: ArrayParser)
    requires WellFormed(c, parse) && 0 <= i < c.size
    ensures TurnedOffIff(c, Act(c, DisableKey(Some(i)), parse).row,
                         forall j :: 0 <= j < c.size && j != i ==> StatusOf(c, j) != ENABLED)
  {
    var mem := c.(statuses := c.statuses[i := MANUALLY_DISABLED]);
    SaveSameKey(c, DisableIfUnavailable(mem, parse), parse);
    forall j | 0 <= j < c.size ensures StatusOf(mem, j) == ENABLED <==> j != i && StatusOf(c, j) == ENABLED {}
  }

  /** Exactly the named key is enabled, without time or reason. */
  lemma EnableKeyEffect(c: Channel, index: Option<int>, parse: ArrayParser)
    requires WellFormed(c, parse)
    ensures var o, n := Act(c, EnableKey(index), parse), |GetKeys(c.key, parse)|;
      if index.None? || index.value < 0 || n <= index.value then Refused(c, o)
      else
        && o.ok && o.count == 1 && o.row.key == c.key && o.row.size == c.size
        && index.value !in o.row.statuses && index.value !in o.row.times && index.value !in o.row.reasons
        && StatusOf(o.row, index.value) == ENABLED
        && (forall j :: j != index.value ==> SameKeyAt(c, o.row, j))
        && TurnedOnIfLacking(c, o.row)
  {
    if index.Some? && 0 <= index.value < c.size {
      var i := index.value;
      var mem := c.(statuses := c.statuses - {i}, times := c.times - {i}, reasons := c.reasons - {i});
      assert StatusOf(mem, i) == ENABLED;
      SaveSameKey(c, RestoreIfAvailable(mem, parse), parse);
    }
  }

  // ---------- All keys ----------

  /** No status, time or reason is left; the reply counts the recorded statuses. */
  lemma EnableAllEffect(c: Channel, parse: ArrayParser)
    requires WellFormed(c, parse)
    ensures var o := Act(c, EnableAllKeys, parse);
      && o.ok && o.count == |c.statuses| && o.row.key == c.key && o.row.size == c.size
      && o.row.statuses == map[] && o.row.times == map[] && o.row.reasons == map[]
      && TurnedOnIfLacking(c, o.row)
  {
    var mem := c.(statuses := map[], times := map[], reasons := map[]);
    assert StatusOf(mem, 0) == ENABLED;
    SaveSameKey(c, RestoreIfAvailable(mem, parse), parse);
  }

  lemma {:induction false} EnabledBelowCounts(c: Channel, n: nat)
    ensures EnabledBelow(c, n) == CountBelow(c, n, ENABLED)
  {
    if n > 0 { EnabledBelowCounts(c, n - 1); }
  }

  lemma {:induction false} CountsSome(c: Channel, n: nat, status: int)
    ensures CountBelow(c, n, status) > 0 <==> exists i :: 0 <= i < n && StatusOf(c, i) == status
  {
    if n > 0 {
      CountsSome(c, n - 1, status);
      if StatusOf(c, n - 1) == status { assert 0 <= n - 1 < n; }
    }
  }

  /** Exactly the enabled keys are disabled; the reply counts them, and none is an error. */
  lemma DisableAllEffect(c: Channel, parse: ArrayParser)
    requires WellFormed(c, parse)
    ensures var o := Act(c, DisableAllKeys, parse);
      if forall i :: 0 <= i < c.size ==> StatusOf(c, i) != ENABLED then Refused(c, o)
      else
        && o.ok && o.count == CountBelow(c, c.size, ENABLED) && o.row.key == c.key && o.row.size == c.size
        && (forall i :: 0 <= i < c.size ==>
              StatusOf(o.row, i) == if StatusOf(c, i) == ENABLED then MANUALLY_DISABLED else StatusOf(c, i))
        && o.row.times == c.times && o.row.reasons == c.reasons && TurnedOffIff(c, o.row, true)
  {
    EnabledBelowCounts(c, c.size);
    CountsSome(c, c.size, ENABLED);
    DisabledBelowFacts(c, c.size);
    var mem := c.(statuses := DisabledBelow(c, c.size));
    forall i | 0 <= i < c.size ensures StatusOf(mem, i) != ENABLED { assert i in DisabledBelow(c, c.size); }
    SaveSameKey(c, DisableIfUnavailable(mem, parse), parse);
  }

  // ---------- Deleting ----------

  lemma {:induction false} KeptAll(n: nat, drop: nat -> bool)
    requires forall i: nat :: i < n ==> !drop(i)
    ensures |Kept(n, drop)| == n && forall k :: 0 <= k < n ==> Kept(n, drop)[k] == k
  {
    if n > 0 { KeptAll(n - 1, drop); }
  }

  lemma {:induction false} KeptButOne(n: nat, i: nat, drop: nat -> bool)
    requires i < n && forall j: nat :: drop(j) <==> j == i
    ensures |Kept(n, drop)| == n - 1 && forall k :: 0 <= k < n - 1 ==> Kept(n, drop)[k] == if k < i then k else k + 1
  {
    if i == n - 1 { KeptAll(n - 1, drop); } else { KeptButOne(n - 1, i, drop); }
  }

  /** Deleting one key leaves all the others in order; the last key cannot be deleted. */
  lemma DeleteKeyLeaves(c: Channel, index: Option<int>, parse: ArrayParser)
    requires WellFormed(c, parse)
    ensures var o, keys := Act(c, DeleteKey(index), parse), GetKeys(c.key, parse);
      if index.None? || index.value < 0 || |keys| <= index.value || |keys| == 1 then Refused(c, o)
      else
        && o.ok && o.count == 1
        && Remaining(c, DeleteKey(index), parse) == keys[..index.value] + keys[index.value + 1..]
  {
    var keys := GetKeys(c.key, parse);
    if index.Some? && 0 <= index.value < |keys| {
      KeptButOne(|keys|, index.value, At(index));
    }
  }

  lemma {:induction false} KeptCount(c: Channel, n: nat)
    ensures |Kept(n, AutoDisabled(c))| == n - CountBelow(c, n, AUTO_DISABLED)
  {
    if n > 0 { KeptCount(c, n - 1); }
  }

  /** The bulk deletion drops exactly the auto-disabled keys and counts them; none is an error. */
  lemma DeleteDisabledLeaves(c: Channel, parse: ArrayParser)
    requires WellFormed(c, parse)
    ensures var o, keys, q := Act(c, DeleteDisabledKeys, parse), GetKeys(c.key, parse), Remaining(c, DeleteDisabledKeys, parse);
      var kept := Kept(|keys|, AutoDisabled(c));
      && (if forall i :: 0 <= i < c.size ==> StatusOf(c, i) != AUTO_DISABLED then Refused(c, o)
          else o.ok && o.count == CountBelow(c, c.size, AUTO_DISABLED))
      && |q| == |kept| && (forall k :: 0 <= k < |kept| ==> kept[k] < |keys| && q[k] == keys[kept[k]])
      && (forall j, k :: 0 <= j < k < |kept| ==> kept[j] < kept[k])
      && (forall i: nat :: i in kept <==> i < |keys| && StatusOf(c, i) != AUTO_DISABLED)
  {
    KeptCount(c, c.size);
    CountsSome(c, c.size, AUTO_DISABLED);
    KeptFacts(c.size, AutoDisabled(c));
  }

  /**
   The records of the survivors: every status; after a single deletion every
   time and reason, after the bulk deletion those of keys still disabled.
   */
  lemma DeletionRecords(c: Channel, action: Action, parse: ArrayParser, n: nat)
    requires IsDeletion(action) && n < |Kept(|GetKeys(c.key, parse)|, Dropped(c, action))|
    ensures var d, i := Deletion(c, action, parse), Kept(|GetKeys(c.key, parse)|, Dropped(c, action))[n];
      && StatusOf(d, n) == StatusOf(c, i)
      && (if action.DeleteDisabledKeys? && StatusOf(c, i) == ENABLED then n !in d.times && n !in d.reasons
          else SameRecord(c.times, i, d.times, n) && SameRecord(c.reasons, i, d.reasons, n))
  {
    SurvivorStatus(c, Dropped(c, action), action.DeleteDisabledKeys?, parse, n);
  }

  /** The first `read` positions all hold survivors, none of them enabled. */
  ghost predicate NoneEnabled(c: Channel, kept: seq<nat>, read: nat) {
    read <= |kept| && forall n :: 0 <= n < read ==> StatusOf(c, kept[n]) != ENABLED
  }

  /** Positions past the survivors have no recorded status, so they count as enabled. */
  lemma LacksIff(c: Channel, d: Channel, kept: seq<nat>, parse: ArrayParser)
    requires forall n :: 0 <= n < |kept| ==> StatusOf(d, n) == StatusOf(c, kept[n])
    requires Below(d.statuses, |kept|)
    ensures !HasEnabled(d, parse) <==> NoneEnabled(c, kept, |GetKeys(d.key, parse)|)
  {
    assert StatusOf(d, |kept|) == ENABLED;
    if !HasEnabled(d, parse) {
      forall n | 0 <= n < |GetKeys(d.key, parse)| ensures StatusOf(c, kept[n]) != ENABLED {
        assert StatusOf(d, n) != ENABLED;
      }
    } else {
      var i :| 0 <= i < |GetKeys(d.key, parse)| && StatusOf(d, i) == ENABLED;
      if i < |kept| { assert StatusOf(c, kept[i]) == ENABLED; }
    }
  }

  lemma SavedTurnedOff(c: Channel, d: Channel, parse: ArrayParser)
    requires d.status == c.status && d.reason == c.reason
    ensures TurnedOffIff(c, Save(c, DisableIfUnavailable(d, parse), parse), !HasEnabled(d, parse))
  {
  }

  /** A deletion turns the channel off exactly when what is left reads as no enabled key. */
  lemma DeletionTurnsOffIff(c: Channel, action: Action, parse: ArrayParser)
    requires IsDeletion(action)
    ensures var kept := Kept(|GetKeys(c.key, parse)|, Dropped(c, action));
      var read := |GetKeys(Join(Remaining(c, action, parse), '\n'), parse)|;
      Act(c, action, parse).ok ==>
        TurnedOffIff(c, Act(c, action, parse).row, NoneEnabled(c, kept, read))
  {
    if Act(c, action, parse).ok {
      var d := Deletion(c, action, parse);
      DeletionSaved(c, action, parse);
      SavedTurnedOff(c, d, parse);
      DeletedRecords(c, Dropped(c, action), action.DeleteDisabledKeys?, parse);
      DeletedBelow(c, Dropped(c, action), action.DeleteDisabledKeys?, parse);
      LacksIff(c, d, Kept(|GetKeys(c.key, parse)|, Dropped(c, action)), parse);
    }
  }
}
