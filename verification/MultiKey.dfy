/**
 A channel holding several keys in one text field, with sparse per-position
 maps for their status, and the actions that manage them. Each action works on
 a loaded copy of the row and then saves it.
 */
module MultiKey {
  import opened Basics
  import opened Text

  const ALL_KEYS_DISABLED := "All keys are disabled"

  /** Parses a JSON array into the texts of its elements. */
  type ArrayParser = string -> Option<seq<string>>

  datatype Channel = Channel(
    key: string, status: int, reason: string, size: int,
    statuses: map<int, int>, times: map<int, int>, reasons: map<int, string>)

  predicate IsNewline(c: char) { c == '\n' }

  function Lines(key: string): seq<string> { Split(TrimBy(key, IsNewline), '\n') }

  /** The text read as a JSON array, if it is one. */
  function AsArray(key: string, parse: ArrayParser): Option<seq<string>> {
    var trimmed := Trim(key);
    if trimmed != "" && trimmed[0] == '[' then parse(trimmed) else None
  }

  function GetKeys(key: string, parse: ArrayParser): seq<string> {
    if key == "" then []
    else match AsArray(key, parse) case Some(keys) => keys case None => Lines(key)
  }

  /** The key count a save recomputes: an empty array falls back to lines. */
  function SavedSize(key: string, parse: ArrayParser): int {
    if key == "" then 0
    else match AsArray(key, parse)
      case Some(keys) => if |keys| == 0 then |Lines(key)| else |keys|
      case None => |Lines(key)|
  }

  /** Saving recounts the keys, prunes statuses past the end, and never writes an empty key. */
  function Save(row: Channel, mem: Channel, parse: ArrayParser): Channel {
    var key := if mem.key != "" then mem.key else row.key;
    var size := SavedSize(key, parse);
    mem.(key := key, size := size, statuses := map i | i in mem.statuses && i < size :: mem.statuses[i])
  }

  function StatusOf(c: Channel, i: int): int {
    if i in c.statuses then c.statuses[i] else ENABLED
  }

  predicate HasEnabled(c: Channel, parse: ArrayParser) {
    exists i :: 0 <= i < |GetKeys(c.key, parse)| && StatusOf(c, i) == ENABLED
  }

  function DisableIfUnavailable(c: Channel, parse: ArrayParser): Channel {
    if HasEnabled(c, parse) || c.status != ENABLED then c
    else c.(status := MANUALLY_DISABLED, reason := ALL_KEYS_DISABLED)
  }

  function RestoreIfAvailable(c: Channel, parse: ArrayParser): Channel {
    if c.status != MANUALLY_DISABLED || !HasEnabled(c, parse) || c.reason != ALL_KEYS_DISABLED then c
    else c.(status := ENABLED, reason := "")
  }

  // ---------- Deleting by re-indexing ----------

  /** Positions below `n` that are kept, in order. */
  function Kept(n: nat, drop: nat -> bool): seq<nat> {
    if n == 0 then [] else if drop(n - 1) then Kept(n - 1, drop) else Kept(n - 1, drop) + [n - 1]
  }

  function Pick(keys: seq<string>, kept: seq<nat>): seq<string>
    requires forall n :: 0 <= n < |kept| ==> kept[n] < |keys|
  {
    seq(|kept|, n requires 0 <= n < |kept| => keys[kept[n]])
  }

  /** The values of the kept positions, under their new positions. */
  function Reindexed<T>(m: map<int, T>, kept: seq<nat>, keep: nat -> bool): map<int, T> {
    map n | 0 <= n < |kept| && kept[n] in m && keep(kept[n]) :: m[kept[n]]
  }

  function Disabled(c: Channel): nat -> bool { i => StatusOf(c, i) != ENABLED }

  function Recorded(c: Channel, onlyDisabled: bool): nat -> bool {
    i => onlyDisabled ==> StatusOf(c, i) != ENABLED
  }

  function Survivors(c: Channel, keys: seq<string>, drop: nat -> bool): seq<string> {
    KeptFacts(|keys|, drop);
    Pick(keys, Kept(|keys|, drop))
  }

  lemma {:induction false} KeptFacts(n: nat, drop: nat -> bool)
    ensures forall k :: 0 <= k < |Kept(n, drop)| ==> Kept(n, drop)[k] < n && !drop(Kept(n, drop)[k])
    ensures forall j, k :: 0 <= j < k < |Kept(n, drop)| ==> Kept(n, drop)[j] < Kept(n, drop)[k]
    ensures forall i: nat :: i < n && !drop(i) ==> i in Kept(n, drop)
    ensures |Kept(n, drop)| <= n
  {
    if n > 0 { KeptFacts(n - 1, drop); }
  }

  /** Keys dropped, maps re-indexed; `onlyDisabled` says whose times and reasons survive. */
  function Deleted(c: Channel, drop: nat -> bool, onlyDisabled: bool, parse: ArrayParser): Channel {
    var keys := GetKeys(c.key, parse);
    var kept := Kept(|keys|, drop);
    c.(key := Join(Survivors(c, keys, drop), '\n'), size := |kept|,
       statuses := Reindexed(c.statuses, kept, Disabled(c)),
       times := Reindexed(c.times, kept, Recorded(c, onlyDisabled)),
       reasons := Reindexed(c.reasons, kept, Recorded(c, onlyDisabled)))
  }

  // ---------- The actions ----------

  datatype Action =
    | DisableKey(index: Option<int>)
    | EnableKey(index: Option<int>)
    | EnableAllKeys
    | DisableAllKeys
    | DeleteKey(index: Option<int>)
    | DeleteDisabledKeys

  /** `count` is the number the reply reports. */
  datatype Outcome = Outcome(row: Channel, ok: bool, count: int)

  predicate InRange(c: Channel, index: Option<int>) {
    index.Some? && 0 <= index.value < c.size
  }

  function At(index: Option<int>): nat -> bool { i => index == Some(i) }

  function AutoDisabled(c: Channel): nat -> bool { i => StatusOf(c, i) == AUTO_DISABLED }

  /** Statuses after the positions below `n` that were enabled have been disabled. */
  function DisabledBelow(c: Channel, n: int): map<int, int>
    decreases n
  {
    if n <= 0 then c.statuses
    else if StatusOf(c, n - 1) == ENABLED then DisabledBelow(c, n - 1)[n - 1 := MANUALLY_DISABLED]
    else DisabledBelow(c, n - 1)
  }

  function EnabledBelow(c: Channel, n: int): nat
    decreases n
  {
    if n <= 0 then 0 else EnabledBelow(c, n - 1) + if StatusOf(c, n - 1) == ENABLED then 1 else 0
  }

  function Act(c: Channel, action: Action, parse: ArrayParser): Outcome {
    match action
    case DisableKey(index) =>
      if !InRange(c, index) then Outcome(c, false, 0)
      else
        var mem := c.(statuses := c.statuses[index.value := MANUALLY_DISABLED]);
        Outcome(Save(c, DisableIfUnavailable(mem, parse), parse), true, 1)
    case EnableKey(index) =>
      if !InRange(c, index) then Outcome(c, false, 0)
      else
        var i := index.value;
        var mem := c.(statuses := c.statuses - {i}, times := c.times - {i}, reasons := c.reasons - {i});
        Outcome(Save(c, RestoreIfAvailable(mem, parse), parse), true, 1)
    case EnableAllKeys =>
      var mem := c.(statuses := map[], times := map[], reasons := map[]);
      Outcome(Save(c, RestoreIfAvailable(mem, parse), parse), true, |c.statuses|)
    case DisableAllKeys =>
      var count := EnabledBelow(c, c.size);
      if count == 0 then Outcome(c, false, 0)
      else Outcome(Save(c, DisableIfUnavailable(c.(statuses := DisabledBelow(c, c.size)), parse), parse), true, count)
    case DeleteKey(index) =>
      if !InRange(c, index) then Outcome(c, false, 0)
      else
        var drop := At(index);
        if |Kept(|GetKeys(c.key, parse)|, drop)| == 0 then Outcome(c, false, 0)
        else Outcome(Save(c, DisableIfUnavailable(Deleted(c, drop, false, parse), parse), parse), true, 1)
    case DeleteDisabledKeys =>
      var keys := GetKeys(c.key, parse);
      var deleted := |keys| - |Kept(|keys|, AutoDisabled(c))|;
      if deleted == 0 then Outcome(c, false, 0)
      else Outcome(Save(c, DisableIfUnavailable(Deleted(c, AutoDisabled(c), true, parse), parse), parse), true, deleted)
  }
}
