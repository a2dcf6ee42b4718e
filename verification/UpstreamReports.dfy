/** What the two scans over all channels report, counter by counter, and what an ignore entry hides. */
module UpstreamReports {
  import opened Basics
  import opened Text
  import opened ModelNames
  import opened UpstreamUpdate
  import opened UpstreamProtocol
  import opened UpstreamTask
  import opened UpstreamApplyAll
  import opened UpstreamSchedule

  // ---------- Ignore entries ----------

  /** A plain entry hides its own name only; a pattern hides exactly the names it matches. */
  lemma EntryHides(entry: string, name: string, matches: Matcher)
    ensures !("regex:" <= entry) ==> (Ignores(entry, name, matches) <==> entry == name)
    ensures "regex:" <= entry ==> (Ignores(entry, name, matches) <==> matches(Trim(entry[6..]), name))
  {
    assert |REGEX| == 6;
  }

  // ---------- When an apply changes the models ----------

  lemma SameMembers(origin: seq<string>, adds: seq<string>, removes: seq<string>)
    requires IsNames(origin) && IsNames(adds) && IsNames(removes)
    requires (forall x :: x in adds ==> x in origin) && (forall x :: x in removes ==> x !in origin && x !in adds)
    ensures ApplySelected(origin, adds, removes) == origin
  {
    NormalizeId(origin);
    NormalizeId(adds);
    NormalizeId(removes);
    MinusFacts(removes, adds);
    MinusFacts(adds, origin);
    assert origin + [] == origin;
    MinusFacts(origin, removes);
  }

  /** Exactly when a name is added that was not listed, or one removed that was. */
  lemma ApplyChangesIff(c: Channel, add: seq<string>, ignore: seq<string>, remove: seq<string>, now: int)
    ensures var r := Apply(c, add, ignore, remove, now);
      r.modelsChanged <==> (exists x :: x in r.added && x !in Names(c)) || (exists x :: x in r.removed && x in Names(c))
  {
    var r, origin := Apply(c, add, ignore, remove, now), Names(c);
    ApplyFacts(c, add, ignore, remove, now);
    NamesFacts(c);
    SelectedFacts(origin, r.added, r.removed);
    var next := ApplySelected(origin, r.added, r.removed);
    if x :| x in r.added && x !in origin {
      assert x in next;
    } else if x :| x in r.removed && x in origin {
      assert x !in next;
    } else {
      SameMembers(origin, r.added, r.removed);
    }
  }

  // ---------- The detection scan ----------

  /** Nothing checked; skipped; fetch failed; completed. */
  lemma CountsMeaning(row: Row, o: Options, matches: Matcher)
    ensures var c, n := row.channel, Counts(row, o, matches);
      if !row.checkEnabled then n == Totals(0, 0, 0, 0, 0, 0)
      else if !o.force && !Due(c.settings.lastCheck, o.now, o.minInterval) then
        var adds, removes := |Normalize(c.settings.detected)|, |Normalize(c.settings.removed)|;
        n == Totals(1, if adds + removes > 0 then 1 else 0, adds, removes, 0, 0)
      else if row.fetched.None? then n == Totals(1, 0, 0, 0, 1, 0)
      else
        var adds, removes := |PendingAdds(c, row.fetched.value, matches)|, |PendingRemoves(c, row.fetched.value)|;
        n == Totals(1, if adds + removes > 0 then 1 else 0, adds, removes, 0,
                    if o.allowAutoApply && c.settings.autoSync then adds else 0)
  {
    var c := row.channel;
    CheckTakesEffectIff(c, o.force, o.allowAutoApply, o.now, o.minInterval, row.fetched, matches);
    if row.fetched.Some? { CompletedCounts(row, o, matches); }
  }

  lemma CompletedCounts(row: Row, o: Options, matches: Matcher)
    requires row.fetched.Some?
    ensures var c, upstream := row.channel, row.fetched.value;
      var r := Check(c, true, o.allowAutoApply, o.now, o.minInterval, Some(upstream), matches);
      && r.ok && r.autoAdded == (if o.allowAutoApply && c.settings.autoSync then |PendingAdds(c, upstream, matches)| else 0)
      && |Normalize(r.channel.settings.detected)| + r.autoAdded == |PendingAdds(c, upstream, matches)|
      && |Normalize(r.channel.settings.removed)| == |PendingRemoves(c, upstream)|
  {
    var c, upstream := row.channel, row.fetched.value;
    CompletedCheck(c, o.allowAutoApply, o.now, o.minInterval, upstream, matches);
    CountedOnce(c, o.allowAutoApply, o.now, o.minInterval, upstream, matches);
    PendingRemovesFacts(c, upstream);
    NormalizeId(PendingRemoves(c, upstream));
  }

  /** Each total is the sum of its own counter over the channels. */
  lemma TotalsAdd(rows: seq<Row>, row: Row, o: Options, matches: Matcher)
    ensures var before, n, after := TotalsOf(rows, o, matches), Counts(row, o, matches), TotalsOf(rows + [row], o, matches);
      && after.checked == before.checked + n.checked && after.changed == before.changed + n.changed
      && after.adds == before.adds + n.adds && after.removes == before.removes + n.removes
      && after.failed == before.failed + n.failed && after.autoAdded == before.autoAdded + n.autoAdded
    ensures TotalsOf([], o, matches) == Totals(0, 0, 0, 0, 0, 0)
  {
    assert (rows + [row])[..|rows|] == rows;
  }

  // ---------- The report of applying all ----------

  /** A channel that is kept up to date with something staged, and whose writes all succeed. */
  predicate GoesThrough(row: Row, now: int, writes: Storage) {
    && row.checkEnabled && (Normalize(row.channel.settings.detected) != [] || Normalize(row.channel.settings.removed) != [])
    && writes(row.id).row && (Everything(row.channel, now).modelsChanged ==> writes(row.id).abilities)
  }

  predicate GoesWrong(row: Row, now: int, writes: Storage) {
    && row.checkEnabled && (Normalize(row.channel.settings.detected) != [] || Normalize(row.channel.settings.removed) != [])
    && (!writes(row.id).row || (Everything(row.channel, now).modelsChanged && !writes(row.id).abilities))
  }

  /** One channel's effect on the report. */
  lemma ReportedMeaning(report: Report, row: Row, now: int, writes: Storage)
    ensures var r, a := Reported(report, row, now, writes), Everything(row.channel, now);
      && r.failed == report.failed + (if GoesWrong(row, now, writes) then [row.id] else [])
      && r.results == report.results +
           (if GoesThrough(row, now, writes)
            then [Result(row.id, a.added, a.removed, a.remaining, a.remainingRemoves)] else [])
      && r.added == report.added + (if GoesThrough(row, now, writes) then |a.added| else 0)
      && r.removed == report.removed + (if GoesThrough(row, now, writes) then |a.removed| else 0)
      && (r.refresh <==> report.refresh || (GoesThrough(row, now, writes) && a.modelsChanged))
  {
  }

  /** Sums over the channels that go through. */
  function AddedBy(rows: seq<Row>, now: int, writes: Storage): int {
    if rows == [] then 0
    else
      var row := rows[|rows| - 1];
      AddedBy(rows[..|rows| - 1], now, writes) +
      if GoesThrough(row, now, writes) then |Normalize(row.channel.settings.detected)| else 0
  }

  function RemovedBy(rows: seq<Row>, now: int, writes: Storage): int {
    if rows == [] then 0
    else
      var row := rows[|rows| - 1];
      RemovedBy(rows[..|rows| - 1], now, writes) +
      if GoesThrough(row, now, writes) then |Normalize(row.channel.settings.removed)| else 0
  }

  function IdsGoneWrong(rows: seq<Row>, now: int, writes: Storage): seq<int> {
    if rows == [] then []
    else
      IdsGoneWrong(rows[..|rows| - 1], now, writes) +
      if GoesWrong(rows[|rows| - 1], now, writes) then [rows[|rows| - 1].id] else []
  }

  lemma EverythingCountsEach(c: Channel, now: int)
    requires Apart(c)
    ensures var a := Everything(c, now);
      |a.added| == |Normalize(c.settings.detected)| && |a.removed| == |Normalize(c.settings.removed)|
  {
    var adds, removes := Normalize(c.settings.detected), Normalize(c.settings.removed);
    NormalizeFacts(c.settings.detected);
    NormalizeFacts(c.settings.removed);
    NormalizeId(adds);
    NormalizeId(removes);
    CommonFacts(adds, adds);
    CommonFacts(removes, removes);
    MinusFacts(removes, adds);
  }

  predicate Changes(row: Row, now: int) { Everything(row.channel, now).modelsChanged }

  lemma SumsSnoc(rows: seq<Row>, row: Row, now: int, writes: Storage)
    ensures AddedBy(rows + [row], now, writes) == AddedBy(rows, now, writes) +
      if GoesThrough(row, now, writes) then |Normalize(row.channel.settings.detected)| else 0
    ensures RemovedBy(rows + [row], now, writes) == RemovedBy(rows, now, writes) +
      if GoesThrough(row, now, writes) then |Normalize(row.channel.settings.removed)| else 0
    ensures IdsGoneWrong(rows + [row], now, writes) == IdsGoneWrong(rows, now, writes) +
      if GoesWrong(row, now, writes) then [row.id] else []
  {
    assert (rows + [row])[..|rows|] == rows;
  }

  ghost predicate SumsRight(r: Report, rows: seq<Row>, now: int, writes: Storage) {
    && r.added == AddedBy(rows, now, writes) && r.removed == RemovedBy(rows, now, writes)
    && r.failed == IdsGoneWrong(rows, now, writes)
  }

  lemma SumsRightSnoc(r: Report, t: Report, rows: seq<Row>, row: Row, all: seq<Row>, now: int, writes: Storage)
    requires SumsRight(r, rows, now, writes) && Apart(row.channel) && all == rows + [row]
    requires t == Reported(r, row, now, writes)
    ensures SumsRight(t, all, now, writes)
  {
    ReportedMeaning(r, row, now, writes);
    EverythingCountsEach(row.channel, now);
    SumsSnoc(rows, row, now, writes);
  }

  lemma ReportOfSnoc(rows: seq<Row>, before: seq<Row>, row: Row, now: int, writes: Storage)
    requires rows == before + [row]
    ensures ReportOf(rows, now, writes) == Reported(ReportOf(before, now, writes), row, now, writes)
  {
    assert rows[..|rows| - 1] == before;
  }

  /**
   With no name staged both ways: the reply's two counters are the additions
   and the removals staged on the channels that went through, and the failures
   are the others that wanted something, in id order.
   */
  lemma {:induction false} ReportSums(rows: seq<Row>, now: int, writes: Storage)
    requires forall i :: 0 <= i < |rows| ==> Apart(rows[i].channel)
    ensures SumsRight(ReportOf(rows, now, writes), rows, now, writes)
  {
    if rows == [] {
      assert ReportOf([], now, writes) == NO_REPORT;
    } else {
      var before, row := rows[..|rows| - 1], rows[|rows| - 1];
      assert rows == before + [row] && Apart(row.channel);
      ReportSums(before, now, writes);
      ReportOfSnoc(rows, before, row, now, writes);
      SumsRightSnoc(ReportOf(before, now, writes), ReportOf(rows, now, writes), before, row, rows, now, writes);
    }
  }

  ghost predicate SomeChange(rows: seq<Row>, now: int, writes: Storage) {
    exists i :: 0 <= i < |rows| && GoesThrough(rows[i], now, writes) && Changes(rows[i], now)
  }

  lemma SomeChangeSnoc(rows: seq<Row>, row: Row, now: int, writes: Storage)
    ensures SomeChange(rows + [row], now, writes) <==>
      SomeChange(rows, now, writes) || (GoesThrough(row, now, writes) && Changes(row, now))
  {
    var all := rows + [row];
    assert all[|rows|] == row && forall i :: 0 <= i < |rows| ==> all[i] == rows[i];
  }

  lemma RefreshSnoc(r: Report, row: Row, now: int, writes: Storage)
    ensures Reported(r, row, now, writes).refresh <==> r.refresh || (GoesThrough(row, now, writes) && Changes(row, now))
  {
    ReportedMeaning(r, row, now, writes);
  }

  /** The cache is refreshed exactly when a channel that went through changed its models. */
  lemma {:induction false} RefreshIff(rows: seq<Row>, now: int, writes: Storage)
    ensures ReportOf(rows, now, writes).refresh <==> SomeChange(rows, now, writes)
  {
    if rows != [] {
      var before, row := rows[..|rows| - 1], rows[|rows| - 1];
      assert rows == before + [row];
      RefreshIff(before, now, writes);
      ReportOfSnoc(rows, before, row, now, writes);
      RefreshSnoc(ReportOf(before, now, writes), row, now, writes);
      SomeChangeSnoc(before, row, now, writes);
    }
  }
}
