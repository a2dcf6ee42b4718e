/** The stored channel and the loops that carry out each action on it. */
module MultiKeyChannel {
  import opened Basics
  import opened Text
  import opened MultiKey

  /** `r` holds the values of the kept positions, under their new positions. */
  ghost predicate IsReindexed<T>(r: map<int, T>, m: map<int, T>, kept: seq<nat>, keep: nat -> bool) {
    forall n :: if 0 <= n < |kept| && kept[n] in m && keep(kept[n]) then n in r && r[n] == m[kept[n]] else n !in r
  }

  lemma IsReindexedStep<T>(r: map<int, T>, m: map<int, T>, kept: seq<nat>, keep: nat -> bool, i: nat)
    requires IsReindexed(r, m, kept, keep)
    ensures IsReindexed(if i in m && keep(i) then r[|kept| := m[i]] else r, m, kept + [i], keep)
  {
    assert forall n :: 0 <= n < |kept| ==> (kept + [i])[n] == kept[n];
  }

  lemma ReindexedIs<T>(r: map<int, T>, m: map<int, T>, kept: seq<nat>, keep: nat -> bool)
    requires IsReindexed(r, m, kept, keep)
    ensures r == Reindexed(m, kept, keep)
  {
  }

  lemma PickStep(keys: seq<string>, kept: seq<nat>, i: nat)
    requires i < |keys| && forall n :: 0 <= n < |kept| ==> kept[n] < |keys|
    ensures Pick(keys, kept + [i]) == Pick(keys, kept) + [keys[i]]
  {
  }

  /** What a deletion has rebuilt so far. */
  datatype Partial = Partial(
    keys: seq<string>, statuses: map<int, int>, times: map<int, int>, reasons: map<int, string>)

  /** Key `i` added at the next position, with what is recorded of it. */
  function Added(p: Partial, c: Channel, key: string, i: nat, onlyDisabled: bool): Partial {
    var at, recorded := |p.keys|, onlyDisabled ==> StatusOf(c, i) != ENABLED;
    Partial(p.keys + [key],
            if StatusOf(c, i) != ENABLED then p.statuses[at := StatusOf(c, i)] else p.statuses,
            if i in c.times && recorded then p.times[at := c.times[i]] else p.times,
            if i in c.reasons && recorded then p.reasons[at := c.reasons[i]] else p.reasons)
  }

  /** What keeping or dropping the first `n` keys in turn leaves. */
  function Rebuilt(c: Channel, keys: seq<string>, n: nat, drop: nat -> bool, onlyDisabled: bool): Partial
    requires n <= |keys|
  {
    if n == 0 then Partial([], map[], map[], map[])
    else
      var p := Rebuilt(c, keys, n - 1, drop, onlyDisabled);
      if drop(n - 1) then p else Added(p, c, keys[n - 1], n - 1, onlyDisabled)
  }

  lemma {:induction false} RebuiltKeys(c: Channel, keys: seq<string>, n: nat, drop: nat -> bool, onlyDisabled: bool)
    requires n <= |keys|
    ensures forall k :: 0 <= k < |Kept(n, drop)| ==> Kept(n, drop)[k] < |keys|
    ensures Rebuilt(c, keys, n, drop, onlyDisabled).keys == Pick(keys, Kept(n, drop))
  {
    KeptFacts(n, drop);
    if n > 0 {
      RebuiltKeys(c, keys, n - 1, drop, onlyDisabled);
      PickStep(keys, Kept(n - 1, drop), n - 1);
    }
  }

  lemma AddedStatuses(p: Partial, c: Channel, key: string, kept: seq<nat>, i: nat, onlyDisabled: bool)
    requires IsReindexed(p.statuses, c.statuses, kept, Disabled(c)) && |p.keys| == |kept|
    ensures IsReindexed(Added(p, c, key, i, onlyDisabled).statuses, c.statuses, kept + [i], Disabled(c))
  {
    IsReindexedStep(p.statuses, c.statuses, kept, Disabled(c), i);
  }

  lemma {:induction false} RebuiltStatuses(c: Channel, keys: seq<string>, n: nat, drop: nat -> bool, onlyDisabled: bool, kept: seq<nat>)
    requires n <= |keys| && kept == Kept(n, drop)
    ensures IsReindexed(Rebuilt(c, keys, n, drop, onlyDisabled).statuses, c.statuses, kept, Disabled(c))
  {
    if n > 0 {
      var before := Kept(n - 1, drop);
      RebuiltStatuses(c, keys, n - 1, drop, onlyDisabled, before);
      if !drop(n - 1) {
        RebuiltKeys(c, keys, n - 1, drop, onlyDisabled);
        AddedStatuses(Rebuilt(c, keys, n - 1, drop, onlyDisabled), c, keys[n - 1], before, n - 1, onlyDisabled);
      }
    }
  }

  lemma AddedTimes(p: Partial, c: Channel, key: string, kept: seq<nat>, i: nat, onlyDisabled: bool)
    requires IsReindexed(p.times, c.times, kept, Recorded(c, onlyDisabled)) && |p.keys| == |kept|
    ensures IsReindexed(Added(p, c, key, i, onlyDisabled).times, c.times, kept + [i], Recorded(c, onlyDisabled))
  {
    IsReindexedStep(p.times, c.times, kept, Recorded(c, onlyDisabled), i);
  }

  lemma {:induction false} RebuiltTimes(c: Channel, keys: seq<string>, n: nat, drop: nat -> bool, onlyDisabled: bool, kept: seq<nat>)
    requires n <= |keys| && kept == Kept(n, drop)
    ensures IsReindexed(Rebuilt(c, keys, n, drop, onlyDisabled).times, c.times, kept, Recorded(c, onlyDisabled))
  {
    if n > 0 {
      var before := Kept(n - 1, drop);
      RebuiltTimes(c, keys, n - 1, drop, onlyDisabled, before);
      if !drop(n - 1) {
        RebuiltKeys(c, keys, n - 1, drop, onlyDisabled);
        AddedTimes(Rebuilt(c, keys, n - 1, drop, onlyDisabled), c, keys[n - 1], before, n - 1, onlyDisabled);
      }
    }
  }

  lemma AddedReasons(p: Partial, c: Channel, key: string, kept: seq<nat>, i: nat, onlyDisabled: bool)
    requires IsReindexed(p.reasons, c.reasons, kept, Recorded(c, onlyDisabled)) && |p.keys| == |kept|
    ensures IsReindexed(Added(p, c, key, i, onlyDisabled).reasons, c.reasons, kept + [i], Recorded(c, onlyDisabled))
  {
    IsReindexedStep(p.reasons, c.reasons, kept, Recorded(c, onlyDisabled), i);
  }

  lemma {:induction false} RebuiltReasons(c: Channel, keys: seq<string>, n: nat, drop: nat -> bool, onlyDisabled: bool, kept: seq<nat>)
    requires n <= |keys| && kept == Kept(n, drop)
    ensures IsReindexed(Rebuilt(c, keys, n, drop, onlyDisabled).reasons, c.reasons, kept, Recorded(c, onlyDisabled))
  {
    if n > 0 {
      var before := Kept(n - 1, drop);
      RebuiltReasons(c, keys, n - 1, drop, onlyDisabled, before);
      if !drop(n - 1) {
        RebuiltKeys(c, keys, n - 1, drop, onlyDisabled);
        AddedReasons(Rebuilt(c, keys, n - 1, drop, onlyDisabled), c, keys[n - 1], before, n - 1, onlyDisabled);
      }
    }
  }

  /** The rebuilt parts make up the channel the deletion describes. */
  lemma RebuiltIsDeleted(c: Channel, drop: nat -> bool, onlyDisabled: bool, parse: ArrayParser)
    ensures var keys := GetKeys(c.key, parse);
      var p := Rebuilt(c, keys, |keys|, drop, onlyDisabled);
      && |p.keys| == |Kept(|keys|, drop)|
      && Deleted(c, drop, onlyDisabled, parse) ==
         c.(key := Join(p.keys, '\n'), size := |p.keys|,
            statuses := p.statuses, times := p.times, reasons := p.reasons)
  {
    var keys := GetKeys(c.key, parse);
    var p, kept := Rebuilt(c, keys, |keys|, drop, onlyDisabled), Kept(|keys|, drop);
    RebuiltKeys(c, keys, |keys|, drop, onlyDisabled);
    RebuiltStatuses(c, keys, |keys|, drop, onlyDisabled, kept);
    RebuiltTimes(c, keys, |keys|, drop, onlyDisabled, kept);
    RebuiltReasons(c, keys, |keys|, drop, onlyDisabled, kept);
    ReindexedIs(p.statuses, c.statuses, kept, Disabled(c));
    ReindexedIs(p.times, c.times, kept, Recorded(c, onlyDisabled));
    ReindexedIs(p.reasons, c.reasons, kept, Recorded(c, onlyDisabled));
  }

  /** Scans for a key that is enabled or has no recorded status. */
  method HasEnabledKey(c: Channel, parse: ArrayParser) returns (found: bool)
    ensures found == HasEnabled(c, parse)
  {
    var keys := GetKeys(c.key, parse);
    for i := 0 to |keys|
      invariant forall j :: 0 <= j < i ==> StatusOf(c, j) != ENABLED
    {
      if i !in c.statuses || c.statuses[i] == ENABLED {
        assert StatusOf(c, i) == ENABLED;
        return true;
      }
    }
    return false;
  }

  /** Disables every enabled key, counting them. */
  method DisableEnabledKeys(c: Channel) returns (statuses: map<int, int>, count: int)
    ensures statuses == DisabledBelow(c, c.size) && count == EnabledBelow(c, c.size)
  {
    statuses, count := c.statuses, 0;
    var i := 0;
    while i < c.size
      invariant i == 0 || 0 < i <= c.size
      invariant statuses == DisabledBelow(c, i) && count == EnabledBelow(c, i)
      invariant forall j :: i <= j ==> (j in statuses <==> j in c.statuses) && (j in statuses ==> statuses[j] == c.statuses[j])
    {
      var status := if i in statuses then statuses[i] else ENABLED;
      if status == ENABLED {
        statuses := statuses[i := MANUALLY_DISABLED];
        count := count + 1;
      }
      i := i + 1;
    }
  }

  /** Rebuilds keys and maps without the key at `index`. */
  method WithoutKey(c: Channel, index: Option<int>, parse: ArrayParser) returns (d: Channel, remaining: seq<string>)
    ensures d == Deleted(c, At(index), false, parse)
    ensures |remaining| == |Kept(|GetKeys(c.key, parse)|, At(index))|
  {
    var keys := GetKeys(c.key, parse);
    remaining := [];
    var statuses: map<int, int>, times: map<int, int>, reasons: map<int, string> := map[], map[], map[];
    for i := 0 to |keys|
      invariant Partial(remaining, statuses, times, reasons) == Rebuilt(c, keys, i, At(index), false)
    {
      if index == Some(i) {
        continue;
      }
      if i in c.statuses && c.statuses[i] != ENABLED {
        statuses := statuses[|remaining| := c.statuses[i]];
      }
      if i in c.times {
        times := times[|remaining| := c.times[i]];
      }
      if i in c.reasons {
        reasons := reasons[|remaining| := c.reasons[i]];
      }
      remaining := remaining + [keys[i]];
    }
    RebuiltIsDeleted(c, At(index), false, parse);
    d := c.(key := Join(remaining, '\n'), size := |remaining|, statuses := statuses, times := times, reasons := reasons);
  }

  /** Rebuilds keys and maps without the auto-disabled keys. */
  method WithoutAutoDisabled(c: Channel, parse: ArrayParser)
    returns (d: Channel, remaining: seq<string>, deleted: int)
    ensures d == Deleted(c, AutoDisabled(c), true, parse)
    ensures deleted == |GetKeys(c.key, parse)| - |Kept(|GetKeys(c.key, parse)|, AutoDisabled(c))|
  {
    var keys := GetKeys(c.key, parse);
    remaining, deleted := [], 0;
    var statuses: map<int, int>, times: map<int, int>, reasons: map<int, string> := map[], map[], map[];
    for i := 0 to |keys|
      invariant Partial(remaining, statuses, times, reasons) == Rebuilt(c, keys, i, AutoDisabled(c), true)
      invariant deleted == i - |remaining|
    {
      var status := if i in c.statuses then c.statuses[i] else ENABLED;
      if status == AUTO_DISABLED {
        deleted := deleted + 1;
      } else {
        if status != ENABLED {
          statuses := statuses[|remaining| := status];
          if i in c.times {
            times := times[|remaining| := c.times[i]];
          }
          if i in c.reasons {
            reasons := reasons[|remaining| := c.reasons[i]];
          }
        }
        remaining := remaining + [keys[i]];
      }
    }
    RebuiltIsDeleted(c, AutoDisabled(c), true, parse);
    d := c.(key := Join(remaining, '\n'), size := |remaining|, statuses := statuses, times := times, reasons := reasons);
  }

  class StoredChannel {
    var row: Channel

    constructor (row: Channel)
      ensures this.row == row
    {
      this.row := row;
    }

    /** Turns an enabled channel off when no key is left enabled, then saves. */
    method SaveUnlessUsable(mem: Channel, parse: ArrayParser)
      modifies this
      ensures row == Save(old(row), DisableIfUnavailable(mem, parse), parse)
    {
      var usable := HasEnabledKey(mem, parse);
      var changed := mem;
      if !usable && mem.status == ENABLED {
        changed := mem.(status := MANUALLY_DISABLED, reason := ALL_KEYS_DISABLED);
      }
      row := Save(row, changed, parse);
    }

    /** Turns a channel that ran out of keys back on when it has one again, then saves. */
    method SaveRestored(mem: Channel, parse: ArrayParser)
      modifies this
      ensures row == Save(old(row), RestoreIfAvailable(mem, parse), parse)
    {
      var usable := HasEnabledKey(mem, parse);
      var changed := mem;
      if mem.status == MANUALLY_DISABLED && usable && mem.reason == ALL_KEYS_DISABLED {
        changed := mem.(status := ENABLED, reason := "");
      }
      row := Save(row, changed, parse);
    }

    method Manage(action: Action, parse: ArrayParser) returns (ok: bool, count: int)
      modifies this
      ensures Outcome(row, ok, count) == Act(old(row), action, parse)
    {
      var c := row;
      ok, count := false, 0;
      match action
      case DisableKey(index) =>
        if InRange(c, index) {
          SaveUnlessUsable(c.(statuses := c.statuses[index.value := MANUALLY_DISABLED]), parse);
          ok, count := true, 1;
        }
      case EnableKey(index) =>
        if InRange(c, index) {
          var i := index.value;
          SaveRestored(c.(statuses := c.statuses - {i}, times := c.times - {i}, reasons := c.reasons - {i}), parse);
          ok, count := true, 1;
        }
      case EnableAllKeys =>
        SaveRestored(c.(statuses := map[], times := map[], reasons := map[]), parse);
        ok, count := true, |c.statuses|;
      case DisableAllKeys =>
        var statuses, disabled := DisableEnabledKeys(c);
        if disabled != 0 {
          SaveUnlessUsable(c.(statuses := statuses), parse);
          ok, count := true, disabled;
        }
      case DeleteKey(index) =>
        if InRange(c, index) {
          var d, remaining := WithoutKey(c, index, parse);
          if |remaining| != 0 {
            SaveUnlessUsable(d, parse);
            ok, count := true, 1;
          }
        }
      case DeleteDisabledKeys =>
        var d, remaining, deleted := WithoutAutoDisabled(c, parse);
        if deleted != 0 {
          SaveUnlessUsable(d, parse);
          ok, count := true, deleted;
        }
    }
  }
}
