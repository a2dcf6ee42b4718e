/** What detecting, staging and applying guarantee together. */
module UpstreamProtocol {
  import opened Basics
  import opened Text
  import opened ModelNames
  import opened UpstreamUpdate

  // ---------- The model list after an apply ----------

  lemma SelectedFacts(origin: seq<string>, adds: seq<string>, removes: seq<string>)
    requires IsNames(origin) && IsNames(adds) && IsNames(removes)
    requires forall x :: x in removes ==> x !in adds
    ensures var next := ApplySelected(origin, adds, removes);
      && IsNames(next)
      && (forall x :: x in next <==> (x in origin || x in adds) && x !in removes)
      && (adds == [] && removes == [] ==> next == origin)
  {
    NormalizeId(origin);
    NormalizeId(adds);
    NormalizeId(removes);
    MinusFacts(removes, adds);
    MergeFacts(origin, adds);
    var merged := Merge(origin, adds);
    NormalizeId(merged);
    MinusFacts(merged, removes);
    if adds == [] { assert merged == origin; }
  }

  lemma TrimFree(s: string, drop: char -> bool, sep: char)
    requires sep !in s
    ensures sep !in TrimBy(s, drop)
  {
    TrimLeftFront(s, drop);
    TrimRightBack(TrimLeft(s, drop), drop);
  }

  /** No stored name contains the separator. */
  lemma StoredNamesFree(c: Channel)
    ensures AllFree(Names(c), ',')
  {
    var pieces := GetModels(c.models);
    NormalizeFacts(pieces);
    if c.models != "" { SplitFree(TrimBy(c.models, IsComma), ','); }
    forall i | 0 <= i < |Names(c)| ensures ',' !in Names(c)[i] {
      assert Names(c)[i] in Names(c);
      var m :| m in pieces && Trim(m) == Names(c)[i];
      TrimFree(m, IsSpace, ',');
    }
  }

  /** Names without the separator survive being stored. */
  lemma StoredRoundTrip(q: seq<string>)
    requires IsNames(q) && AllFree(q, ',')
    ensures Normalize(GetModels(Join(q, ','))) == q
  {
    if q != [] {
      JoinEnds(q, ',');
      var text := Join(q, ',');
      var last := q[|q| - 1];
      assert Clean(q[0]) && Clean(last);
      assert text[0] == q[0][0] && text[|text| - 1] == last[|last| - 1];
      TrimTight(text, IsComma);
      SplitJoin(q, ',');
    }
    NormalizeId(q);
  }

  /** The names a channel lists after an apply, when what was added can be stored. */
  lemma AppliedNames(c: Channel, add: seq<string>, ignore: seq<string>, remove: seq<string>, now: int)
    requires AllFree(Apply(c, add, ignore, remove, now).added, ',')
    ensures var r := Apply(c, add, ignore, remove, now);
      forall x :: x in Names(r.channel) <==> (x in Names(c) || x in r.added) && x !in r.removed
  {
    var r := Apply(c, add, ignore, remove, now);
    ApplyFacts(c, add, ignore, remove, now);
    NamesFacts(c);
    SelectedFacts(Names(c), r.added, r.removed);
    var next := ApplySelected(Names(c), r.added, r.removed);
    StoredNamesFree(c);
    forall i | 0 <= i < |next| ensures ',' !in next[i] { assert next[i] in next; }
    StoredRoundTrip(next);
  }

  // ---------- Convergence ----------

  function Detected(c: Channel, upstream: seq<string>, matches: Matcher): Channel {
    c.(settings := c.settings.(detected := PendingAdds(c, upstream, matches),
                               removed := PendingRemoves(c, upstream)))
  }

  /** Detect, then apply everything that was staged. */
  function Synced(c: Channel, upstream: seq<string>, matches: Matcher, now: int): Channel {
    var d := Detected(c, upstream, matches);
    Apply(d, d.settings.detected, [], d.settings.removed, now).channel
  }

  /** Detecting again stages nothing. */
  ghost predicate Settled(c: Channel, upstream: seq<string>, matches: Matcher) {
    PendingAdds(c, upstream, matches) == [] && PendingRemoves(c, upstream) == []
  }

  /** Offered names hidden only by ignore entries stay hidden when the added names leave the ignore list. */
  ghost predicate StillHidden(c: Channel, upstream: seq<string>, matches: Matcher) {
    var ignored, adds := Normalize(c.settings.ignored), PendingAdds(c, upstream, matches);
    forall x :: x in Normalize(upstream) && x !in Names(c) && x !in c.mapping.Values &&
                Ignored(ignored, x, matches) ==>
                Ignored(Minus(ignored, adds), x, matches)
  }

  lemma SyncedFacts(c: Channel, upstream: seq<string>, matches: Matcher, now: int)
    ensures var d := Detected(c, upstream, matches);
      var r := Apply(d, d.settings.detected, [], d.settings.removed, now);
      && r.added == PendingAdds(c, upstream, matches) && r.removed == PendingRemoves(c, upstream)
      && r.channel.mapping == c.mapping
      && r.channel.settings.ignored == Minus(Normalize(c.settings.ignored), r.added)
  {
    var adds, removes := PendingAdds(c, upstream, matches), PendingRemoves(c, upstream);
    PendingAddsFacts(c, upstream, matches);
    PendingRemovesFacts(c, upstream);
    NormalizeId(adds);
    NormalizeId(removes);
    CommonFacts(adds, adds);
    CommonFacts([], adds);
    CommonFacts(removes, removes);
    MinusFacts(removes, adds);
    IgnoredAfter(c.settings.ignored, adds);
  }

  lemma IgnoredAfter(ignored: seq<string>, adds: seq<string>)
    requires IsNames(adds)
    ensures var merged := Merge(ignored, []);
      (if |adds| > 0 then Subtract(merged, adds) else merged) == Minus(Normalize(ignored), adds)
  {
    var all := Normalize(ignored);
    NormalizeFacts(ignored);
    NormalizeId(all);
    NormalizeId(adds);
    MinusFacts([], all);
    MinusFacts(all, []);
    assert Merge(ignored, []) == all;
    if |adds| == 0 { assert adds == []; }
  }

  lemma IgnoredFewer(fewer: seq<string>, more: seq<string>, name: string, matches: Matcher)
    requires forall x :: x in fewer ==> x in more
    requires Ignored(fewer, name, matches)
    ensures Ignored(more, name, matches)
  {
    var i :| 0 <= i < |fewer| && Ignores(fewer[i], name, matches);
    assert fewer[i] in more;
    var j :| 0 <= j < |more| && more[j] == fewer[i];
  }

  /** A staged name with the separator in it is staged again. */
  lemma CommaComesBack(c: Channel, upstream: seq<string>, matches: Matcher, now: int, x: string)
    requires x in PendingAdds(c, upstream, matches) && ',' in x
    ensures x in PendingAdds(Synced(c, upstream, matches, now), upstream, matches)
  {
    var s := Synced(c, upstream, matches, now);
    SyncedFacts(c, upstream, matches, now);
    PendingAddsFacts(c, upstream, matches);
    PendingAddsFacts(s, upstream, matches);
    StoredNamesFree(s);
    assert x !in Names(s);
    NormalizeFacts(c.settings.ignored);
    MinusFacts(Normalize(c.settings.ignored), PendingAdds(c, upstream, matches));
    NormalizeId(s.settings.ignored);
    if Ignored(s.settings.ignored, x, matches) {
      IgnoredFewer(s.settings.ignored, Normalize(c.settings.ignored), x, matches);
    }
  }

  lemma SyncedNames(c: Channel, upstream: seq<string>, matches: Matcher, now: int)
    requires AllFree(PendingAdds(c, upstream, matches), ',')
    ensures forall x :: x in Names(Synced(c, upstream, matches, now)) <==>
      (x in Names(c) || x in PendingAdds(c, upstream, matches)) && x !in PendingRemoves(c, upstream)
  {
    var d := Detected(c, upstream, matches);
    SyncedFacts(c, upstream, matches, now);
    AppliedNames(d, d.settings.detected, [], d.settings.removed, now);
  }

  lemma NothingRemovedAgain(c: Channel, upstream: seq<string>, matches: Matcher, now: int)
    requires AllFree(PendingAdds(c, upstream, matches), ',')
    ensures PendingRemoves(Synced(c, upstream, matches, now), upstream) == []
  {
    var s := Synced(c, upstream, matches, now);
    SyncedFacts(c, upstream, matches, now);
    SyncedNames(c, upstream, matches, now);
    PendingAddsFacts(c, upstream, matches);
    PendingRemovesFacts(c, upstream);
    PendingRemovesFacts(s, upstream);
    Nonempty(PendingRemoves(s, upstream));
  }

  lemma Nonempty(q: seq<string>)
    ensures q != [] ==> exists x :: x in q
  {
    if q != [] { assert q[0] in q; }
  }

  lemma HiddenAfterSync(c: Channel, upstream: seq<string>, matches: Matcher, now: int)
    ensures var ignored, adds := Normalize(c.settings.ignored), PendingAdds(c, upstream, matches);
      && Normalize(Synced(c, upstream, matches, now).settings.ignored) == Minus(ignored, adds)
      && (forall x :: Ignored(Minus(ignored, adds), x, matches) ==> Ignored(ignored, x, matches))
  {
    var ignored, adds := Normalize(c.settings.ignored), PendingAdds(c, upstream, matches);
    SyncedFacts(c, upstream, matches, now);
    NormalizeFacts(c.settings.ignored);
    MinusFacts(ignored, adds);
    NormalizeId(Minus(ignored, adds));
    forall x | Ignored(Minus(ignored, adds), x, matches) ensures Ignored(ignored, x, matches) {
      IgnoredFewer(Minus(ignored, adds), ignored, x, matches);
    }
  }

  /** With storable additions, what is staged again is exactly what lost its ignore entry. */
  lemma SecondDetection(c: Channel, upstream: seq<string>, matches: Matcher, now: int)
    requires AllFree(PendingAdds(c, upstream, matches), ',')
    ensures var ignored, adds := Normalize(c.settings.ignored), PendingAdds(c, upstream, matches);
      forall x :: x in PendingAdds(Synced(c, upstream, matches, now), upstream, matches) <==>
        && x in Normalize(upstream) && x !in Names(c) && x !in c.mapping.Values
        && Ignored(ignored, x, matches) && !Ignored(Minus(ignored, adds), x, matches)
  {
    var s := Synced(c, upstream, matches, now);
    SyncedFacts(c, upstream, matches, now);
    SyncedNames(c, upstream, matches, now);
    HiddenAfterSync(c, upstream, matches, now);
    PendingAddsFacts(c, upstream, matches);
    PendingAddsFacts(s, upstream, matches);
    PendingRemovesFacts(c, upstream);
  }

  /**
   Detect-and-apply-all reaches a fixed point exactly when no staged addition
   contains the list separator and no ignore entry dropped with the additions
   was hiding another offered name.
   */
  lemma ConvergesIff(c: Channel, upstream: seq<string>, matches: Matcher, now: int)
    ensures Settled(Synced(c, upstream, matches, now), upstream, matches) <==>
            AllFree(PendingAdds(c, upstream, matches), ',') && StillHidden(c, upstream, matches)
  {
    var adds, s := PendingAdds(c, upstream, matches), Synced(c, upstream, matches, now);
    if AllFree(adds, ',') {
      NothingRemovedAgain(c, upstream, matches, now);
      SecondDetection(c, upstream, matches, now);
      Nonempty(PendingAdds(s, upstream, matches));
    } else {
      var i :| 0 <= i < |adds| && ',' in adds[i];
      CommaComesBack(c, upstream, matches, now, adds[i]);
    }
  }

  lemma LiteralIgnored(ignored: seq<string>, x: string, matches: Matcher)
    requires x in ignored && !(REGEX <= x)
    ensures Ignored(ignored, x, matches)
  {
    var i :| 0 <= i < |ignored| && ignored[i] == x;
    assert Ignores(ignored[i], x, matches);
  }

  /** Plain model names: neither a separator nor the pattern prefix. */
  lemma PlainNamesConverge(c: Channel, upstream: seq<string>, matches: Matcher, now: int)
    requires forall x :: x in Normalize(upstream) ==> ',' !in x && !(REGEX <= x)
    ensures Settled(Synced(c, upstream, matches, now), upstream, matches)
  {
    var adds, ignored := PendingAdds(c, upstream, matches), Normalize(c.settings.ignored);
    PendingAddsFacts(c, upstream, matches);
    NormalizeFacts(c.settings.ignored);
    MinusFacts(ignored, adds);
    forall x | x in ignored ensures x !in adds {
      if !(REGEX <= x) { LiteralIgnored(ignored, x, matches); }
    }
    forall i | 0 <= i < |adds| ensures ',' !in adds[i] { assert adds[i] in adds; }
    ConvergesIff(c, upstream, matches, now);
  }

  // ---------- Automatic additions ----------

  /** A forced check with automatic additions allowed, then the staged removals applied. */
  function AutoSynced(c: Channel, upstream: seq<string>, matches: Matcher, now: int, minInterval: int, later: int): Channel {
    var d := Check(c, true, true, now, minInterval, Some(upstream), matches).channel;
    Apply(d, [], [], d.settings.removed, later).channel
  }

  /** Adding and ignoring nothing leaves the ignore list as it is. */
  lemma NothingAdded(d: Channel, removes: seq<string>, now: int)
    ensures var r := Apply(d, [], [], removes, now);
      r.added == [] && Normalize(r.channel.settings.ignored) == Normalize(d.settings.ignored)
  {
    var all := Normalize(d.settings.ignored);
    NormalizeFacts(d.settings.detected);
    CommonFacts([], Normalize(d.settings.detected));
    NormalizeId([]);
    IgnoredAfter(d.settings.ignored, []);
    NormalizeFacts(d.settings.ignored);
    MinusFacts(all, []);
    NormalizeId(all);
  }

  /** An apply of the staged removals alone removes exactly them. */
  lemma RemovalsApplied(d: Channel, removes: seq<string>, now: int)
    requires IsNames(removes) && d.settings.removed == removes
    ensures var r := Apply(d, [], [], removes, now);
      && (forall x :: x in Names(r.channel) <==> x in Names(d) && x !in removes)
      && Normalize(r.channel.settings.ignored) == Normalize(d.settings.ignored)
      && r.channel.mapping == d.mapping
  {
    NothingAdded(d, removes, now);
    ApplyFacts(d, [], [], removes, now);
    NormalizeId(removes);
    AppliedNames(d, [], [], removes, now);
  }

  /** The names after a check that adds by itself, when they can be stored. */
  lemma AutoAddedNames(c: Channel, adds: seq<string>, removes: seq<string>)
    requires IsNames(adds) && c.settings.autoSync && AllFree(adds, ',') && forall x :: x in adds ==> x !in Names(c)
    ensures forall x :: x in Names(Staged(c, true, adds, removes).channel) <==> x in Names(c) || x in adds
  {
    var origin, merged := Names(c), Merge(Names(c), adds);
    NamesFacts(c);
    NormalizeId(origin);
    NormalizeId(adds);
    MergeFacts(origin, adds);
    MinusFacts(adds, origin);
    StoredNamesFree(c);
    forall i | 0 <= i < |merged| ensures ',' !in merged[i] { assert merged[i] in merged; }
    StoredRoundTrip(merged);
  }

  /** What a forced check leaves to the removals. */
  lemma AutoCheckFacts(c: Channel, upstream: seq<string>, matches: Matcher, now: int, minInterval: int)
    ensures var d := Check(c, true, true, now, minInterval, Some(upstream), matches).channel;
      && d.settings.removed == PendingRemoves(c, upstream) && d.mapping == c.mapping
      && d.settings.ignored == c.settings.ignored
      && (!c.settings.autoSync || PendingAdds(c, upstream, matches) == [] ==> d.models == c.models)
  {
  }

  /** A name that is not listed afterwards is offered again. */
  lemma UnlistedComesBack(c: Channel, upstream: seq<string>, matches: Matcher, now: int, minInterval: int, later: int, x: string)
    requires x in PendingAdds(c, upstream, matches) && x !in Names(AutoSynced(c, upstream, matches, now, minInterval, later))
    ensures x in PendingAdds(AutoSynced(c, upstream, matches, now, minInterval, later), upstream, matches)
  {
    var d := Check(c, true, true, now, minInterval, Some(upstream), matches).channel;
    AutoCheckFacts(c, upstream, matches, now, minInterval);
    PendingRemovesFacts(c, upstream);
    RemovalsApplied(d, PendingRemoves(c, upstream), later);
    PendingAddsFacts(c, upstream, matches);
    PendingAddsFacts(AutoSynced(c, upstream, matches, now, minInterval, later), upstream, matches);
  }

  /** With every addition listed and every removal done, nothing is left to stage. */
  lemma ListedSettles(c: Channel, s: Channel, upstream: seq<string>, matches: Matcher)
    requires s.mapping == c.mapping && Normalize(s.settings.ignored) == Normalize(c.settings.ignored)
    requires forall x :: x in Names(s) <==>
               (x in Names(c) || x in PendingAdds(c, upstream, matches)) && x !in PendingRemoves(c, upstream)
    ensures Settled(s, upstream, matches)
  {
    PendingAddsFacts(c, upstream, matches);
    PendingRemovesFacts(c, upstream);
    PendingAddsFacts(s, upstream, matches);
    PendingRemovesFacts(s, upstream);
    Nonempty(PendingAdds(s, upstream, matches));
    Nonempty(PendingRemoves(s, upstream));
  }

  lemma AutoListed(c: Channel, upstream: seq<string>, matches: Matcher, now: int, minInterval: int, later: int)
    requires var adds := PendingAdds(c, upstream, matches);
      adds == [] || (c.settings.autoSync && AllFree(adds, ','))
    ensures Settled(AutoSynced(c, upstream, matches, now, minInterval, later), upstream, matches)
  {
    var d := Check(c, true, true, now, minInterval, Some(upstream), matches).channel;
    var adds, removes := PendingAdds(c, upstream, matches), PendingRemoves(c, upstream);
    AutoCheckFacts(c, upstream, matches, now, minInterval);
    PendingAddsFacts(c, upstream, matches);
    PendingRemovesFacts(c, upstream);
    if adds != [] {
      AutoAddedNames(c.(settings := c.settings.(lastCheck := now)), adds, removes);
    }
    RemovalsApplied(d, removes, later);
    ListedSettles(c, AutoSynced(c, upstream, matches, now, minInterval, later), upstream, matches);
  }

  /**
   A check that adds automatically, followed by applying the staged removals,
   reaches a fixed point exactly when no addition contains the separator; here
   nothing leaves the ignore list. Without the setting it is one exactly when
   there was nothing to add.
   */
  lemma AutoConvergesIff(c: Channel, upstream: seq<string>, matches: Matcher, now: int, minInterval: int, later: int)
    ensures var adds := PendingAdds(c, upstream, matches);
      Settled(AutoSynced(c, upstream, matches, now, minInterval, later), upstream, matches) <==>
        if c.settings.autoSync then AllFree(adds, ',') else adds == []
  {
    var adds, s := PendingAdds(c, upstream, matches), AutoSynced(c, upstream, matches, now, minInterval, later);
    if adds == [] || (c.settings.autoSync && AllFree(adds, ',')) {
      AutoListed(c, upstream, matches, now, minInterval, later);
    } else {
      var i :| 0 <= i < |adds| && (!c.settings.autoSync || ',' in adds[i]);
      StillUnlisted(c, upstream, matches, now, minInterval, later, adds[i]);
      UnlistedComesBack(c, upstream, matches, now, minInterval, later, adds[i]);
    }
  }

  lemma StillUnlisted(c: Channel, upstream: seq<string>, matches: Matcher, now: int, minInterval: int, later: int, x: string)
    requires x in PendingAdds(c, upstream, matches) && (!c.settings.autoSync || ',' in x)
    ensures x !in Names(AutoSynced(c, upstream, matches, now, minInterval, later))
  {
    var s := AutoSynced(c, upstream, matches, now, minInterval, later);
    if c.settings.autoSync {
      StoredNamesFree(s);
    } else {
      var d := Check(c, true, true, now, minInterval, Some(upstream), matches).channel;
      AutoCheckFacts(c, upstream, matches, now, minInterval);
      PendingAddsFacts(c, upstream, matches);
      PendingRemovesFacts(c, upstream);
      RemovalsApplied(d, PendingRemoves(c, upstream), later);
    }
  }

  // ---------- Names that never settle ----------

  lemma NoNames(c: Channel)
    requires c.models == ""
    ensures Names(c) == []
  {
  }

  lemma FreshChannelStages(c: Channel, x: string, matches: Matcher)
    requires c.models == "" && c.mapping == map[] && c.settings.ignored == [] && Clean(x)
    ensures x in PendingAdds(c, [x], matches)
  {
    OneName(x);
    NoNames(c);
    NothingIgnored(x, matches);
    PendingAddsFacts(c, [x], matches);
  }

  lemma OneName(x: string)
    requires Clean(x)
    ensures Normalize([x]) == [x] && x in [x]
  {
    NormalizeId([x]);
    assert [x][0] == x;
  }

  lemma NothingIgnored(x: string, matches: Matcher)
    ensures Normalize([]) == [] && !Ignored(Normalize([]), x, matches)
  {
    NormalizeId([]);
  }

  /** One upstream name with a comma in it is offered again after every apply. */
  lemma CommaNeverSettles(c: Channel, x: string, matches: Matcher, now: int)
    requires c.models == "" && c.mapping == map[] && c.settings.ignored == [] && x == "a,b"
    ensures !Settled(Synced(c, [x], matches, now), [x], matches)
  {
    assert x[0] == 'a' && x[1] == ',' && x[2] == 'b';
    FreshChannelStages(c, x, matches);
    CommaComesBack(c, [x], matches, now, x);
  }

  /** The pattern that hides a name, spelled out. */
  lemma PatternIgnores(pattern: string, name: string, matches: Matcher)
    requires Tight(pattern, IsSpace)
    ensures Ignores(REGEX + pattern, name, matches) == matches(pattern, name)
    ensures Ignored([REGEX + pattern], name, matches) == matches(pattern, name)
  {
    var entry := REGEX + pattern;
    assert entry[|REGEX|..] == pattern && REGEX <= entry;
    TrimTight(pattern, IsSpace);
    assert [entry][0] == entry;
  }

  /** A lone ignore entry that is itself offered and staged: what it hides is hidden no longer. */
  lemma EntryUnmasks(c: Channel, p: string, f: string, upstream: seq<string>, matches: Matcher)
    requires IsNames([p]) && c.mapping == map[]
    ensures
      && Normalize(c.settings.ignored) == [p] && Names(c) == []
      && p in Normalize(upstream) && f in Normalize(upstream)
      && Ignored([p], f, matches) && !Ignored([p], p, matches)
      ==> !StillHidden(c, upstream, matches)
  {
    var adds := PendingAdds(c, upstream, matches);
    PendingAddsFacts(c, upstream, matches);
    MinusFacts([p], adds);
    if p in adds { assert Minus([p], adds) == [] && !Ignored([], f, matches); }
  }

  lemma TwoNames(p: string, f: string)
    requires Clean(p) && Clean(f) && p != f
    ensures Normalize([p, f]) == [p, f] && p in [p, f] && f in [p, f]
  {
    NormalizeId([p, f]);
    assert [p, f][0] == p && [p, f][1] == f;
  }

  lemma PatternUnmasks(c: Channel, pattern: string, f: string, matches: Matcher)
    requires c.models == "" && c.mapping == map[] && c.settings.ignored == [REGEX + pattern]
    requires Tight(pattern, IsSpace) && Clean(REGEX + pattern) && Clean(f) && f != REGEX + pattern
    requires matches(pattern, f) && !matches(pattern, REGEX + pattern)
    ensures !StillHidden(c, [REGEX + pattern, f], matches)
  {
    var p := REGEX + pattern;
    NormalizeId([p]);
    TwoNames(p, f);
    PatternIgnores(pattern, f, matches);
    PatternIgnores(pattern, p, matches);
    NoNames(c);
    EntryUnmasks(c, p, f, [p, f], matches);
  }

  /** Adding a model named like an ignore pattern drops the pattern, and the name it was hiding is offered. */
  lemma UnmaskedNameComesBack(c: Channel, matches: Matcher, now: int)
    requires c.models == "" && c.mapping == map[] && c.settings.ignored == [REGEX + "^foo"]
    requires matches("^foo", "foo") && !matches("^foo", REGEX + "^foo")
    ensures var upstream := [REGEX + "^foo", "foo"];
      !Settled(Synced(c, upstream, matches, now), upstream, matches)
  {
    var p := REGEX + "^foo";
    assert p[0] == 'r' && p[|p| - 1] == 'o' && "foo"[0] == 'f' && "foo"[2] == 'o';
    PatternUnmasks(c, "^foo", "foo", matches);
    ConvergesIff(c, [p, "foo"], matches, now);
  }

  // ---------- One apply ----------

  /** An apply's ignore list: what was ignored or is now ignored, without what was added. */
  lemma IgnoredAfterApply(c: Channel, add: seq<string>, ignore: seq<string>, remove: seq<string>, now: int)
    ensures var r := Apply(c, add, ignore, remove, now);
      && IsNames(r.channel.settings.ignored)
      && (forall x :: x in r.channel.settings.ignored <==>
            && x !in r.added
            && (x in Normalize(c.settings.ignored) ||
                (x in Normalize(ignore) && x in Normalize(c.settings.detected))))
  {
    var r := Apply(c, add, ignore, remove, now);
    var pending := Normalize(c.settings.detected);
    ApplyFacts(c, add, ignore, remove, now);
    NormalizeFacts(c.settings.detected);
    NormalizeId(pending);
    NormalizeFacts(ignore);
    CommonFacts(Normalize(ignore), pending);
    var ignores := Intersect(ignore, pending);
    NormalizeId(ignores);
    MergeFacts(c.settings.ignored, ignores);
    var merged := Merge(c.settings.ignored, ignores);
    NormalizeId(merged);
    NormalizeId(r.added);
    MinusFacts(merged, r.added);
  }

  /** Every staged addition goes to exactly one of added, ignored and remaining. */
  lemma ApplyPartitions(c: Channel, add: seq<string>, ignore: seq<string>, remove: seq<string>, now: int, x: string)
    requires x in Normalize(c.settings.detected)
    ensures var r := Apply(c, add, ignore, remove, now);
      var ignoredNow := x in Normalize(ignore) && x !in r.added;
      && (x in r.added || ignoredNow || x in r.remaining)
      && !(x in r.added && x in r.remaining) && !(ignoredNow && x in r.remaining)
      && (ignoredNow ==> x in r.channel.settings.ignored)
      && (x in r.added ==> x !in r.channel.settings.ignored)
      && (x in r.remaining ==> x in r.channel.settings.detected)
  {
    ApplyFacts(c, add, ignore, remove, now);
    IgnoredAfterApply(c, add, ignore, remove, now);
  }

  // ---------- Replaying an apply ----------

  /** Some name was selected both as an addition and as a removal. */
  ghost predicate Overlap(c: Channel, add: seq<string>, remove: seq<string>) {
    exists x :: x in Normalize(c.settings.detected) && x in Normalize(add) &&
                x in Normalize(c.settings.removed) && x in Normalize(remove)
  }

  /** Same models, ignore list and staged lists; the check time may move. */
  ghost predicate SameLists(a: Channel, b: Channel) {
    && a.models == b.models
    && a.settings.ignored == b.settings.ignored
    && a.settings.detected == b.settings.detected
    && a.settings.removed == b.settings.removed
  }

  /** The second time nothing is added or ignored; removed is what the first time had added instead. */
  lemma ReplaySelects(c: Channel, add: seq<string>, ignore: seq<string>, remove: seq<string>, now: int, later: int)
    ensures var c1 := Apply(c, add, ignore, remove, now).channel;
      var r2 := Apply(c1, add, ignore, remove, later);
      && r2.added == [] && r2.channel.settings.detected == c1.settings.detected
      && r2.channel.settings.ignored == c1.settings.ignored
      && (forall x :: x in r2.removed <==>
            && x in Normalize(c.settings.detected) && x in Normalize(add)
            && x in Normalize(c.settings.removed) && x in Normalize(remove))
  {
    var r1 := Apply(c, add, ignore, remove, now);
    var c1 := r1.channel;
    ApplyFacts(c, add, ignore, remove, now);
    ApplyFacts(c1, add, ignore, remove, later);
    NormalizeId(r1.remaining);
    NormalizeId(r1.remainingRemoves);
    var r2 := Apply(c1, add, ignore, remove, later);
    Nonempty(r2.added);
    NothingIgnoredAgain(c, add, ignore, remove, now);
    IgnoredAfterApply(c, add, ignore, remove, now);
    NormalizeId(c1.settings.ignored);
    MinusFacts([], c1.settings.ignored);
    assert Merge(c1.settings.ignored, []) == c1.settings.ignored;
    assert Normalize([]) == [] && [] + [] == Intersect(ignore, r1.remaining);
    MinusFacts(r1.remaining, []);
  }

  lemma NothingIgnoredAgain(c: Channel, add: seq<string>, ignore: seq<string>, remove: seq<string>, now: int)
    ensures Intersect(ignore, Normalize(Apply(c, add, ignore, remove, now).remaining)) == []
  {
    var r := Apply(c, add, ignore, remove, now);
    ApplyFacts(c, add, ignore, remove, now);
    NormalizeId(r.remaining);
    NormalizeFacts(ignore);
    CommonFacts(Normalize(ignore), r.remaining);
  }

  /**
   Replaying an apply changes nothing exactly when no name had been selected
   both for adding and for removing.
   */
  lemma ReplayIff(c: Channel, add: seq<string>, ignore: seq<string>, remove: seq<string>, now: int, later: int)
    ensures var c1 := Apply(c, add, ignore, remove, now).channel;
      SameLists(Apply(c1, add, ignore, remove, later).channel, c1) <==> !Overlap(c, add, remove)
  {
    var c1 := Apply(c, add, ignore, remove, now).channel;
    var r2 := Apply(c1, add, ignore, remove, later);
    ReplaySelects(c, add, ignore, remove, now, later);
    ApplyFacts(c, add, ignore, remove, now);
    ApplyFacts(c1, add, ignore, remove, later);
    NormalizeId(c1.settings.removed);
    Nonempty(r2.removed);
    if r2.removed == [] {
      NamesFacts(c1);
      SelectedFacts(Names(c1), [], []);
      MinusFacts(c1.settings.removed, []);
    } else {
      var x := r2.removed[0];
      assert x in r2.removed;
      assert x in c1.settings.removed && x !in r2.channel.settings.removed;
    }
  }

  /** A name staged both ways is added the first time and removed the second. */
  lemma OverlapReplayChanges(c: Channel, now: int, later: int)
    requires c.settings.detected == ["a"] && c.settings.removed == ["a"]
    ensures var c1 := Apply(c, ["a"], [], ["a"], now).channel;
      !SameLists(Apply(c1, ["a"], [], ["a"], later).channel, c1)
  {
    var x := "a";
    assert x[0] == 'a' && Clean(x);
    NormalizeId([x]);
    assert x in [x];
    assert Overlap(c, [x], [x]);
    ReplayIff(c, [x], [], [x], now, later);
  }

  // ---------- Whole runs ----------

  datatype Event =
    | Checking(force: bool, allowAutoApply: bool, minInterval: int, fetched: Option<seq<string>>)
    | Applying(add: seq<string>, ignore: seq<string>, remove: seq<string>)
    | Editing(models: string, mapping: map<string, string>, ignored: seq<string>, autoSync: bool)

  function Next(c: Channel, e: Event, now: int, matches: Matcher): Channel {
    match e
    case Checking(force, auto, minInterval, fetched) =>
      Check(c, force, auto, now, minInterval, fetched, matches).channel
    case Applying(add, ignore, remove) => Apply(c, add, ignore, remove, now).channel
    case Editing(models, mapping, ignored, autoSync) =>
      Channel(models, mapping, c.settings.(ignored := ignored, autoSync := autoSync))
  }

  function After(c: Channel, events: seq<Event>, clock: nat -> int, matches: Matcher): Channel {
    if events == [] then c
    else Next(After(c, events[..|events| - 1], clock, matches), events[|events| - 1], clock(|events|), matches)
  }

  ghost predicate Apart(c: Channel) {
    forall x :: x in Normalize(c.settings.detected) ==> x !in Normalize(c.settings.removed)
  }

  lemma NextApart(c: Channel, e: Event, now: int, matches: Matcher)
    requires Apart(c)
    ensures Apart(Next(c, e, now, matches))
  {
    match e
    case Checking(force, auto, minInterval, fetched) =>
      if fetched.Some? {
        PendingAddsFacts(c, fetched.value, matches);
        PendingRemovesFacts(c, fetched.value);
        NormalizeId(PendingAdds(c, fetched.value, matches));
        NormalizeId(PendingRemoves(c, fetched.value));
        assert Normalize([]) == [];
      }
    case Applying(add, ignore, remove) =>
      ApplyFacts(c, add, ignore, remove, now);
      var r := Apply(c, add, ignore, remove, now);
      NormalizeId(r.remaining);
      NormalizeId(r.remainingRemoves);
    case Editing(_, _, _, _) =>
  }

  /**
   From any channel with nothing staged, whatever the checks, applies and edits
   in between: no name is ever staged both ways, so replaying a request is
   harmless in every reachable state.
   */
  lemma {:induction false} NeverStagedBothWays(c: Channel, events: seq<Event>, clock: nat -> int, matches: Matcher)
    requires c.settings.detected == [] || c.settings.removed == []
    ensures Apart(After(c, events, clock, matches))
  {
    if events == [] {
      assert Normalize([]) == [];
    } else {
      NeverStagedBothWays(c, events[..|events| - 1], clock, matches);
      NextApart(After(c, events[..|events| - 1], clock, matches), events[|events| - 1], clock(|events|), matches);
    }
  }

  lemma ReplayIsHarmless(c: Channel, events: seq<Event>, clock: nat -> int, matches: Matcher,
                         add: seq<string>, ignore: seq<string>, remove: seq<string>, now: int, later: int)
    requires c.settings.detected == [] || c.settings.removed == []
    ensures var c1 := Apply(After(c, events, clock, matches), add, ignore, remove, now).channel;
      SameLists(Apply(c1, add, ignore, remove, later).channel, c1)
  {
    NeverStagedBothWays(c, events, clock, matches);
    ReplayIff(After(c, events, clock, matches), add, ignore, remove, now, later);
  }

  // ---------- Counting ----------

  /** A completed check counts each pending addition once, auto-applied or staged. */
  lemma CountedOnce(c: Channel, allowAutoApply: bool, now: int, minInterval: int, upstream: seq<string>, matches: Matcher)
    ensures var r := Check(c, true, allowAutoApply, now, minInterval, Some(upstream), matches);
      |Normalize(r.channel.settings.detected)| + r.autoAdded == |PendingAdds(c, upstream, matches)|
  {
    var adds, origin := PendingAdds(c, upstream, matches), Names(c);
    PendingAddsFacts(c, upstream, matches);
    NamesFacts(c);
    NormalizeId(adds);
    NormalizeId(origin);
    MinusFacts(adds, origin);
    assert Normalize([]) == [];
    assert |Merge(origin, adds)| == |origin| + |adds|;
  }
}
