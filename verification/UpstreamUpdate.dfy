/**
 Reconciling a channel's model list with what its upstream offers: detect the
 differences, stage them, apply a selection of them.
 */
module UpstreamUpdate {
  import opened Basics
  import opened Text
  import opened ModelNames

  /** Regular-expression matching, pattern first; never interpreted here. */
  type Matcher = (string, string) -> bool

  datatype Settings = Settings(
    ignored: seq<string>, detected: seq<string>, removed: seq<string>,
    lastCheck: int, autoSync: bool)

  datatype Channel = Channel(models: string, mapping: map<string, string>, settings: Settings)

  function IsComma(c: char): bool { c == ',' }

  /** The stored list of models, split at commas. */
  function GetModels(models: string): seq<string> {
    if models == "" then [] else Split(TrimBy(models, IsComma), ',')
  }

  function Names(c: Channel): seq<string> { Normalize(GetModels(c.models)) }

  const REGEX := "regex:"

  predicate Ignores(entry: string, name: string, matches: Matcher) {
    if REGEX <= entry then matches(Trim(entry[|REGEX|..]), name) else entry == name
  }

  predicate Ignored(entries: seq<string>, name: string, matches: Matcher) {
    exists i :: 0 <= i < |entries| && Ignores(entries[i], name, matches)
  }

  /** Offered upstream, not covered locally or by a redirect, and not ignored. */
  function PendingAdds(c: Channel, upstream: seq<string>, matches: Matcher): seq<string> {
    Normalize(Filter(Normalize(upstream), Missing(Names(c), c.mapping, Normalize(c.settings.ignored), matches)))
  }

  function Missing(names: seq<string>, mapping: map<string, string>, ignored: seq<string>, matches: Matcher): string -> bool {
    x => x !in names && x !in mapping.Values && !Ignored(ignored, x, matches)
  }

  /** Listed locally, not a redirect source, and not offered upstream. */
  function PendingRemoves(c: Channel, upstream: seq<string>): seq<string> {
    Normalize(Filter(Names(c), Withdrawn(c.mapping, Normalize(upstream))))
  }

  function Withdrawn(mapping: map<string, string>, offered: seq<string>): string -> bool {
    x => x !in mapping && x !in offered
  }

  datatype Checked = Checked(channel: Channel, modelsChanged: bool, autoAdded: int, ok: bool)

  /** One check: skipped when recent, recorded when the fetch failed, otherwise staged or auto-applied. */
  function Check(c: Channel, force: bool, allowAutoApply: bool, now: int, minInterval: int,
                 fetched: Option<seq<string>>, matches: Matcher): Checked
  {
    if !force && c.settings.lastCheck > 0 && now - c.settings.lastCheck < minInterval then
      Checked(c, false, 0, true)
    else if fetched.None? then
      Checked(c.(settings := c.settings.(lastCheck := now)), false, 0, false)
    else
      var adds, removes := PendingAdds(c, fetched.value, matches), PendingRemoves(c, fetched.value);
      Staged(c.(settings := c.settings.(lastCheck := now)), allowAutoApply, adds, removes)
  }

  /** The additions are merged into the models when that is automatic, and staged otherwise; removals are staged. */
  function Staged(c: Channel, allowAutoApply: bool, adds: seq<string>, removes: seq<string>): Checked {
    if allowAutoApply && c.settings.autoSync && |adds| > 0 then
      var origin := Names(c);
      var merged := Merge(origin, adds);
      var changed := |merged| > |origin|;
      Checked(c.(models := if changed then Join(merged, ',') else c.models,
                 settings := c.settings.(detected := [], removed := removes)),
              changed, if changed then |merged| - |origin| else 0, true)
    else
      Checked(c.(settings := c.settings.(detected := adds, removed := removes)), false, 0, true)
  }

  datatype Applied = Applied(
    channel: Channel, added: seq<string>, removed: seq<string>,
    remaining: seq<string>, remainingRemoves: seq<string>, modelsChanged: bool)

  function Apply(c: Channel, add: seq<string>, ignore: seq<string>, remove: seq<string>, now: int): Applied {
    var st := c.settings;
    var pendingAdds, pendingRemoves := Normalize(st.detected), Normalize(st.removed);
    var adds, ignores := Intersect(add, pendingAdds), Intersect(ignore, pendingAdds);
    var removes := Subtract(Intersect(remove, pendingRemoves), adds);
    var origin := Names(c);
    var next := ApplySelected(origin, adds, removes);
    var merged := Merge(st.ignored, ignores);
    var ignored := if |adds| > 0 then Subtract(merged, adds) else merged;
    var remaining := Subtract(pendingAdds, adds + ignores);
    var remainingRemoves := Subtract(pendingRemoves, removes);
    Applied(c.(models := if origin == next then c.models else Join(next, ','),
               settings := st.(ignored := ignored, detected := remaining,
                               removed := remainingRemoves, lastCheck := now)),
            adds, removes, remaining, remainingRemoves, origin != next)
  }

  // ---------- The staged lists ----------

  lemma NamesFacts(c: Channel)
    ensures IsNames(Names(c))
  {
    NormalizeFacts(GetModels(c.models));
  }

  lemma PendingAddsFacts(c: Channel, upstream: seq<string>, matches: Matcher)
    ensures IsNames(PendingAdds(c, upstream, matches))
    ensures forall x :: x in PendingAdds(c, upstream, matches) <==>
      && x in Normalize(upstream) && x !in Names(c) && x !in c.mapping.Values
      && !Ignored(Normalize(c.settings.ignored), x, matches)
  {
    var keep := Missing(Names(c), c.mapping, Normalize(c.settings.ignored), matches);
    NormalizeFacts(upstream);
    FilterNames(Normalize(upstream), keep);
    FilterFacts(Normalize(upstream), keep);
    NormalizeId(Filter(Normalize(upstream), keep));
  }

  lemma PendingRemovesFacts(c: Channel, upstream: seq<string>)
    ensures IsNames(PendingRemoves(c, upstream))
    ensures forall x :: x in PendingRemoves(c, upstream) <==>
      x in Names(c) && x !in c.mapping && x !in Normalize(upstream)
  {
    var keep := Withdrawn(c.mapping, Normalize(upstream));
    NamesFacts(c);
    FilterNames(Names(c), keep);
    FilterFacts(Names(c), keep);
    NormalizeId(Filter(Names(c), keep));
  }

  /** What an applied request selects, and where every staged name goes. */
  lemma ApplyFacts(c: Channel, add: seq<string>, ignore: seq<string>, remove: seq<string>, now: int)
    ensures var r := Apply(c, add, ignore, remove, now);
      var adds, removes := Normalize(c.settings.detected), Normalize(c.settings.removed);
      && IsNames(r.added) && IsNames(r.removed) && IsNames(r.remaining) && IsNames(r.remainingRemoves)
      && (forall x :: x in r.added <==> x in adds && x in Normalize(add))
      && (forall x :: x in r.removed <==> x in removes && x in Normalize(remove) && x !in r.added)
      && (forall x :: x in r.remaining <==> x in adds && x !in Normalize(add) && x !in Normalize(ignore))
      && (forall x :: x in r.remainingRemoves <==> x in removes && x !in r.removed)
  {
    var adds, removes := Normalize(c.settings.detected), Normalize(c.settings.removed);
    NormalizeFacts(c.settings.detected);
    NormalizeFacts(c.settings.removed);
    NormalizeId(adds);
    NormalizeId(removes);
    NormalizeFacts(add);
    NormalizeFacts(ignore);
    NormalizeFacts(remove);
    CommonFacts(Normalize(add), adds);
    CommonFacts(Normalize(ignore), adds);
    CommonFacts(Normalize(remove), removes);
    var a, i := Intersect(add, adds), Intersect(ignore, adds);
    NormalizeId(a);
    NormalizeId(Intersect(remove, removes));
    MinusFacts(Intersect(remove, removes), a);
    NormalizeId(Minus(Intersect(remove, removes), a));
    MinusFacts(removes, Minus(Intersect(remove, removes), a));
    CleanConcat(a, i);
    MinusFacts(adds, Normalize(a + i));
  }

  lemma CleanConcat(a: seq<string>, b: seq<string>)
    requires IsNames(a) && IsNames(b)
    ensures forall x :: x in Normalize(a + b) <==> x in a || x in b
  {
    var q := a + b;
    NormalizeFacts(q);
    forall x | x in q ensures Trim(x) == x && x != "" {
      var k :| 0 <= k < |q| && q[k] == x;
      assert x == if k < |a| then a[k] else b[k - |a|];
      TrimTight(x, IsSpace);
    }
    forall x | x in a || x in b ensures x in Normalize(q) { assert x in q; }
  }
}
