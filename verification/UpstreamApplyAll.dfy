/** Applying everything that is staged on every enabled channel, batch by batch. */
module UpstreamApplyAll {
  import opened Basics
  import opened Text
  import opened ModelNames
  import opened UpstreamUpdate
  import opened UpstreamProtocol
  import opened UpstreamTask

  /** Whether a channel's row is written, and whether its abilities are rebuilt after a change of models. */
  datatype Writes = Writes(row: bool, abilities: bool)

  /** The outcome of the writes for the channel with each id. */
  type Storage = int -> Writes

  function Everything(c: Channel, now: int): Applied {
    Apply(c, Normalize(c.settings.detected), [], Normalize(c.settings.removed), now)
  }

  predicate NothingStaged(c: Channel) {
    Normalize(c.settings.detected) == [] && Normalize(c.settings.removed) == []
  }

  predicate Wanted(row: Row) { row.checkEnabled && !NothingStaged(row.channel) }

  function Stored(row: Row, now: int, writes: Storage): Row {
    if Wanted(row) && writes(row.id).row then row.(channel := Everything(row.channel, now).channel) else row
  }

  function Storer(now: int, writes: Storage): Row -> Row { row => Stored(row, now, writes) }

  predicate Fails(row: Row, now: int, writes: Storage) {
    !writes(row.id).row || (Everything(row.channel, now).modelsChanged && !writes(row.id).abilities)
  }

  /** One channel's part of the reply. */
  datatype Result = Result(id: int, added: seq<string>, removed: seq<string>,
                           remaining: seq<string>, remainingRemoves: seq<string>)

  datatype Report = Report(results: seq<Result>, failed: seq<int>, added: int, removed: int, refresh: bool)

  const NO_REPORT := Report([], [], 0, 0, false)

  function Reported(report: Report, row: Row, now: int, writes: Storage): Report {
    if !Wanted(row) then report
    else if Fails(row, now, writes) then report.(failed := report.failed + [row.id])
    else
      var a := Everything(row.channel, now);
      Report(report.results + [Result(row.id, a.added, a.removed, a.remaining, a.remainingRemoves)], report.failed,
             report.added + |a.added|, report.removed + |a.removed|, report.refresh || a.modelsChanged)
  }

  function Reporter(now: int, writes: Storage): (Report, Row) -> Report {
    (report, row) => Reported(report, row, now, writes)
  }

  /** The report of all rows, `note` being told of each in order. */
  function Told(rows: seq<Row>, note: (Report, Row) -> Report): Report {
    if rows == [] then NO_REPORT else note(Told(rows[..|rows| - 1], note), rows[|rows| - 1])
  }

  function ReportOf(rows: seq<Row>, now: int, writes: Storage): Report { Told(rows, Reporter(now, writes)) }

  // ---------- The loop ----------

  /** The first `n` rows have been dealt with, the others not. */
  ghost predicate AppliedFirst(rows: seq<Row>, store: Row -> Row, note: (Report, Row) -> Report, n: nat,
                               after: seq<Row>, report: Report)
  {
    ChangedFirst(rows, store, n, after) && report == Told(rows[..n], note)
  }

  lemma AppliedOneMore(rows: seq<Row>, store: Row -> Row, note: (Report, Row) -> Report, n: nat,
                       after: seq<Row>, report: Report)
    requires AppliedFirst(rows, store, note, n, after, report) && n < |rows|
    ensures AppliedFirst(rows, store, note, n + 1, after[n := store(rows[n])], note(report, rows[n]))
  {
    ChangedOneMore(rows, store, n, after);
    assert rows[..n + 1][..n] == rows[..n];
  }

  /** One batch, with what is stored and what is noted for each row. */
  method ApplyBatch(ghost rows: seq<Row>, store: Row -> Row, note: (Report, Row) -> Report,
                    batch: seq<Row>, start: nat, after0: seq<Row>, report0: Report)
    returns (after: seq<Row>, report: Report)
    requires start + |batch| <= |rows| && batch == rows[start..start + |batch|]
    requires AppliedFirst(rows, store, note, start, after0, report0)
    ensures AppliedFirst(rows, store, note, start + |batch|, after, report)
  {
    after, report := after0, report0;
    for i := 0 to |batch|
      invariant AppliedFirst(rows, store, note, start + i, after, report)
    {
      assert batch[i] == rows[start + i];
      AppliedOneMore(rows, store, note, start + i, after, report);
      after := after[start + i := store(batch[i])];
      report := note(report, batch[i]);
    }
  }

  /** The next rows after the first `done`; fewer than a batch only at the end. */
  method NextBatch(rows: seq<Row>, lastID: int, ghost done: nat) returns (batch: seq<Row>, nextID: int)
    requires Indexed(rows) && done <= |rows| && lastID == if done == 0 then 0 else rows[done - 1].id
    ensures done + |batch| <= |rows| && batch == rows[done..done + |batch|]
    ensures nextID == if done + |batch| == 0 then 0 else rows[done + |batch| - 1].id
    ensures |batch| <= BATCH_SIZE && (|batch| < BATCH_SIZE ==> done + |batch| == |rows|)
  {
    QueryResumes(rows, done, BATCH_SIZE);
    batch := Query(rows, lastID, BATCH_SIZE);
    nextID := if |batch| == 0 then lastID else batch[|batch| - 1].id;
  }

  method ApplyBatches(rows: seq<Row>, store: Row -> Row, note: (Report, Row) -> Report)
    returns (after: seq<Row>, report: Report)
    requires Indexed(rows)
    ensures AppliedFirst(rows, store, note, |rows|, after, report)
  {
    after, report := rows, NO_REPORT;
    var lastID, done: nat, more := 0, 0, true;
    while more
      invariant AppliedFirst(rows, store, note, done, after, report) && (!more ==> done == |rows|)
      invariant lastID == if done == 0 then 0 else rows[done - 1].id
      decreases more, |rows| - done
    {
      var batch;
      batch, lastID := NextBatch(rows, lastID, done);
      if |batch| == 0 {
        break;
      }
      after, report := ApplyBatch(rows, store, note, batch, done, after, report);
      done := done + |batch|;
      more := |batch| == BATCH_SIZE;
    }
  }

  /** Every enabled channel is dealt with exactly once, in id order. */
  method ApplyAll(rows: seq<Row>, now: int, writes: Storage) returns (after: seq<Row>, report: Report)
    requires Indexed(rows)
    ensures ChangedFirst(rows, Storer(now, writes), |rows|, after) && report == ReportOf(rows, now, writes)
  {
    after, report := ApplyBatches(rows, Storer(now, writes), Reporter(now, writes));
    assert rows[..|rows|] == rows;
  }

  // ---------- What is left ----------

  /** Every staged addition is applied, and every staged removal that is not also an addition. */
  lemma EverythingFacts(c: Channel, now: int)
    ensures var a := Everything(c, now);
      var adds, removes := Normalize(c.settings.detected), Normalize(c.settings.removed);
      && (forall x :: x in a.added <==> x in adds) && a.channel.settings.detected == []
      && (forall x :: x in a.removed <==> x in removes && x !in adds)
      && (forall x :: x in a.channel.settings.removed <==> x in removes && x in adds)
      && IsNames(a.channel.settings.removed)
  {
    var adds, removes := Normalize(c.settings.detected), Normalize(c.settings.removed);
    NormalizeFacts(c.settings.detected);
    NormalizeFacts(c.settings.removed);
    NormalizeId(adds);
    NormalizeId(removes);
    ApplyFacts(c, adds, [], removes, now);
    Nonempty(Everything(c, now).remaining);
  }

  lemma EverythingClearsIff(c: Channel, now: int)
    ensures NothingStaged(Everything(c, now).channel) <==> Apart(c)
  {
    var r := Everything(c, now).channel.settings.removed;
    EverythingFacts(c, now);
    NormalizeId(r);
    Nonempty(r);
    assert Normalize([]) == [];
    if r != [] { assert r[0] in r; }
  }

  /**
   Afterwards a channel has nothing staged exactly when it had nothing before,
   or it is one that is kept up to date, its row could be written and no name
   was staged both ways.
   */
  lemma ApplyAllClearsIff(rows: seq<Row>, now: int, writes: Storage, after: seq<Row>, i: nat)
    requires ChangedFirst(rows, Storer(now, writes), |rows|, after) && i < |rows|
    ensures NothingStaged(after[i].channel) <==>
      NothingStaged(rows[i].channel) || (rows[i].checkEnabled && writes(rows[i].id).row && Apart(rows[i].channel))
  {
    EverythingClearsIff(rows[i].channel, now);
  }

  /** In every state that checks, applies and edits can lead to, the last condition holds. */
  lemma ReachableClears(c: Channel, events: seq<Event>, clock: nat -> int, matches: Matcher, now: int)
    requires c.settings.detected == [] || c.settings.removed == []
    ensures NothingStaged(Everything(After(c, events, clock, matches), now).channel)
  {
    NeverStagedBothWays(c, events, clock, matches);
    EverythingClearsIff(After(c, events, clock, matches), now);
  }

  // ---------- The report ----------

  predicate Succeeds(row: Row, now: int, writes: Storage) { Wanted(row) && !Fails(row, now, writes) }

  /** Names staged on the channels whose updates went through. */
  function StagedOn(rows: seq<Row>, now: int, writes: Storage): int {
    if rows == [] then 0
    else
      var row := rows[|rows| - 1];
      StagedOn(rows[..|rows| - 1], now, writes) +
      if Succeeds(row, now, writes)
      then |Normalize(row.channel.settings.detected)| + |Normalize(row.channel.settings.removed)| else 0
  }

  function WantedIn(rows: seq<Row>): int {
    if rows == [] then 0 else WantedIn(rows[..|rows| - 1]) + if Wanted(rows[|rows| - 1]) then 1 else 0
  }

  lemma EverythingCounts(c: Channel, now: int)
    requires Apart(c)
    ensures var a := Everything(c, now);
      |a.added| + |a.removed| == |Normalize(c.settings.detected)| + |Normalize(c.settings.removed)|
  {
    var adds, removes := Normalize(c.settings.detected), Normalize(c.settings.removed);
    NormalizeFacts(c.settings.detected);
    NormalizeFacts(c.settings.removed);
    NormalizeId(adds);
    NormalizeId(removes);
    CommonFacts(adds, adds);
    CommonFacts(removes, removes);
    MinusFacts(removes, adds);
  }

  lemma ReportedCounts(report: Report, row: Row, now: int, writes: Storage)
    requires Apart(row.channel)
    ensures var r := Reported(report, row, now, writes);
      var staged := |Normalize(row.channel.settings.detected)| + |Normalize(row.channel.settings.removed)|;
      && |r.results| + |r.failed| == |report.results| + |report.failed| + (if Wanted(row) then 1 else 0)
      && r.added + r.removed == report.added + report.removed + if Succeeds(row, now, writes) then staged else 0
  {
    EverythingCounts(row.channel, now);
  }

  /**
   Each channel with something staged is reported once, as applied or as
   failed, and the two counters together are exactly the names that were
   staged on the channels reported as applied.
   */
  lemma {:induction false} ReportCounts(rows: seq<Row>, now: int, writes: Storage)
    requires forall i :: 0 <= i < |rows| ==> Apart(rows[i].channel)
    ensures var r := ReportOf(rows, now, writes);
      && |r.results| + |r.failed| == WantedIn(rows)
      && r.added + r.removed == StagedOn(rows, now, writes)
  {
    if rows != [] {
      var before := rows[..|rows| - 1];
      ReportCounts(before, now, writes);
      ReportedCounts(ReportOf(before, now, writes), rows[|rows| - 1], now, writes);
    }
  }

  // ---------- Scan, then apply all ----------

  /** Whether anything is staged depends on the names, the redirects and the ignore entries alone. */
  lemma SettledSame(c: Channel, d: Channel, upstream: seq<string>, matches: Matcher)
    requires c.mapping == d.mapping && Normalize(c.settings.ignored) == Normalize(d.settings.ignored)
    requires forall x :: x in Names(c) <==> x in Names(d)
    ensures Settled(c, upstream, matches) <==> Settled(d, upstream, matches)
  {
    PendingAddsFacts(c, upstream, matches);
    PendingAddsFacts(d, upstream, matches);
    PendingRemovesFacts(c, upstream);
    PendingRemovesFacts(d, upstream);
    Nonempty(PendingAdds(c, upstream, matches));
    Nonempty(PendingAdds(d, upstream, matches));
    Nonempty(PendingRemoves(c, upstream));
    Nonempty(PendingRemoves(d, upstream));
  }

  /** Passing over a channel with nothing staged is as good as applying nothing. */
  lemma PassedOver(c: Channel, now: int)
    requires c.settings.detected == [] && c.settings.removed == []
    ensures var s := Everything(c, now).channel;
      && s.mapping == c.mapping && Normalize(s.settings.ignored) == Normalize(c.settings.ignored)
      && forall x :: x in Names(c) <==> x in Names(s)
  {
    assert Normalize([]) == [];
    RemovalsApplied(c, [], now);
  }

  /** Names staged by a forced check, then applied: the detect-and-apply-all of one channel. */
  lemma StagedThenApplied(c: Channel, upstream: seq<string>, matches: Matcher, auto: bool, now: int, minInterval: int, later: int)
    requires !(auto && c.settings.autoSync)
    ensures var d := Check(c, true, auto, now, minInterval, Some(upstream), matches).channel;
      Everything(d, later).channel == Synced(c, upstream, matches, later)
  {
    PendingAddsFacts(c, upstream, matches);
    PendingRemovesFacts(c, upstream);
    NormalizeId(PendingAdds(c, upstream, matches));
    NormalizeId(PendingRemoves(c, upstream));
  }

  /** Names added by the check itself: only the removals are left to apply. */
  lemma AddedThenApplied(c: Channel, upstream: seq<string>, matches: Matcher, now: int, minInterval: int, later: int)
    requires c.settings.autoSync
    ensures var d := Check(c, true, true, now, minInterval, Some(upstream), matches).channel;
      d.settings.detected == [] && Everything(d, later).channel == AutoSynced(c, upstream, matches, now, minInterval, later)
  {
    PendingRemovesFacts(c, upstream);
    NormalizeId(PendingRemoves(c, upstream));
    assert Normalize([]) == [];
  }

  lemma StagedAreNames(c: Channel, upstream: seq<string>, matches: Matcher, auto: bool, now: int, minInterval: int)
    ensures var d := Check(c, true, auto, now, minInterval, Some(upstream), matches).channel;
      IsNames(d.settings.detected) && IsNames(d.settings.removed)
  {
    PendingAddsFacts(c, upstream, matches);
    PendingRemovesFacts(c, upstream);
  }

  /** When a forced scan and then applying all leave nothing to stage on a channel. */
  ghost predicate Settles(c: Channel, upstream: seq<string>, matches: Matcher, auto: bool) {
    AllFree(PendingAdds(c, upstream, matches), ',') && ((auto && c.settings.autoSync) || StillHidden(c, upstream, matches))
  }

  lemma CheckThenApplyIff(c: Channel, upstream: seq<string>, matches: Matcher, auto: bool, now: int, minInterval: int, later: int)
    ensures var d := Check(c, true, auto, now, minInterval, Some(upstream), matches).channel;
      Settled(Everything(d, later).channel, upstream, matches) <==> Settles(c, upstream, matches, auto)
  {
    if auto && c.settings.autoSync {
      AddedThenApplied(c, upstream, matches, now, minInterval, later);
      AutoConvergesIff(c, upstream, matches, now, minInterval, later);
    } else {
      StagedThenApplied(c, upstream, matches, auto, now, minInterval, later);
      ConvergesIff(c, upstream, matches, later);
    }
  }

  lemma ChannelSettlesIff(c: Channel, d: Channel, upstream: seq<string>, matches: Matcher, auto: bool,
                          now: int, minInterval: int, later: int)
    requires d == Check(c, true, auto, now, minInterval, Some(upstream), matches).channel
    ensures Settled(if NothingStaged(d) then d else Everything(d, later).channel, upstream, matches) <==>
            Settles(c, upstream, matches, auto)
  {
    CheckThenApplyIff(c, upstream, matches, auto, now, minInterval, later);
    if NothingStaged(d) {
      StagedAreNames(c, upstream, matches, auto, now, minInterval);
      NormalizeId(d.settings.detected);
      NormalizeId(d.settings.removed);
      PassedOver(d, later);
      SettledSame(d, Everything(d, later).channel, upstream, matches);
    }
  }

  /**
   A forced scan of all channels and then applying all: on every channel that
   is kept up to date, answers and can be written, the next detection finds
   nothing exactly when no addition contains the separator and, unless the
   scan added the names itself, no ignore entry lost to them was hiding
   another offered name.
   */
  lemma ScanThenApplyAllIff(rows: seq<Row>, o: Options, matches: Matcher, scanned: seq<Row>,
                            later: int, writes: Storage, after: seq<Row>, i: nat)
    requires ChangedFirst(rows, Visitor(o, matches), |rows|, scanned)
    requires ChangedFirst(scanned, Storer(later, writes), |scanned|, after)
    requires i < |rows| && o.force && rows[i].checkEnabled && rows[i].fetched.Some? && writes(rows[i].id).row
    ensures Settled(after[i].channel, rows[i].fetched.value, matches) <==>
            Settles(rows[i].channel, rows[i].fetched.value, matches, o.allowAutoApply)
  {
    ChannelSettlesIff(rows[i].channel, scanned[i].channel, rows[i].fetched.value, matches, o.allowAutoApply,
                      o.now, o.minInterval, later);
  }
}
