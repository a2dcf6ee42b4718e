/** One channel record updated in place, and the batched scan over all enabled channels. */
module UpstreamTask {
  import opened Basics
  import opened ModelNames
  import opened UpstreamUpdate
  import opened UpstreamProtocol

  class ChannelRecord {
    var models: string
    var settings: Settings
    const mapping: map<string, string>

    constructor (models: string, mapping: map<string, string>, settings: Settings)
      ensures Value() == Channel(models, mapping, settings)
    {
      this.models, this.mapping, this.settings := models, mapping, settings;
    }

    function Value(): Channel
      reads this
    {
      Channel(models, mapping, settings)
    }

    method CheckAndPersist(force: bool, allowAutoApply: bool, now: int, minInterval: int,
                           fetched: Option<seq<string>>, matches: Matcher)
      returns (modelsChanged: bool, autoAdded: int, ok: bool)
      modifies this
      ensures Checked(Value(), modelsChanged, autoAdded, ok) ==
              Check(old(Value()), force, allowAutoApply, now, minInterval, fetched, matches)
    {
      if !force && settings.lastCheck > 0 && now - settings.lastCheck < minInterval {
        return false, 0, true;
      }
      settings := settings.(lastCheck := now);
      if fetched.None? {
        return false, 0, false;
      }
      var adds, removes := PendingAdds(Value(), fetched.value, matches), PendingRemoves(Value(), fetched.value);
      modelsChanged, autoAdded, ok := Stage(allowAutoApply, adds, removes);
    }

    /** The second half: merge automatically or stage. */
    method Stage(allowAutoApply: bool, adds: seq<string>, removes: seq<string>)
      returns (modelsChanged: bool, autoAdded: int, ok: bool)
      modifies this
      ensures Checked(Value(), modelsChanged, autoAdded, ok) == Staged(old(Value()), allowAutoApply, adds, removes)
    {
      modelsChanged, autoAdded := false, 0;
      if allowAutoApply && settings.autoSync && |adds| > 0 {
        var origin := Names(Value());
        var merged := MergeModelNames(origin, adds);
        if |merged| > |origin| {
          models := Text.Join(merged, ',');
          autoAdded := |merged| - |origin|;
          modelsChanged := true;
        }
        settings := settings.(detected := []);
      } else {
        settings := settings.(detected := adds);
      }
      settings := settings.(removed := removes);
      ok := true;
    }

    method ApplyUpdates(add: seq<string>, ignore: seq<string>, remove: seq<string>, now: int)
      returns (added: seq<string>, removed: seq<string>, remaining: seq<string>,
               remainingRemoves: seq<string>, modelsChanged: bool)
      modifies this
      ensures Applied(Value(), added, removed, remaining, remainingRemoves, modelsChanged) ==
              Apply(old(Value()), add, ignore, remove, now)
    {
      var pendingAdds, pendingRemoves := Normalize(settings.detected), Normalize(settings.removed);
      added := Intersect(add, pendingAdds);
      var ignores := Intersect(ignore, pendingAdds);
      removed := Subtract(Intersect(remove, pendingRemoves), added);
      var origin := Names(Value());
      var next := ApplySelected(origin, added, removed);
      modelsChanged := origin != next;
      if modelsChanged {
        models := Text.Join(next, ',');
      }
      var ignored := MergeModelNames(settings.ignored, ignores);
      if |added| > 0 {
        ignored := Subtract(ignored, added);
      }
      remaining := Subtract(pendingAdds, added + ignores);
      remainingRemoves := Subtract(pendingRemoves, removed);
      settings := settings.(ignored := ignored, detected := remaining, removed := remainingRemoves, lastCheck := now);
    }
  }

  // ---------- The scan ----------

  const BATCH_SIZE: nat := 100

  /** An enabled channel's row, and what its upstream answers when asked. */
  datatype Row = Row(id: int, channel: Channel, checkEnabled: bool, fetched: Option<seq<string>>)

  datatype Options = Options(force: bool, allowAutoApply: bool, now: int, minInterval: int)

  datatype Totals = Totals(checked: int, changed: int, adds: int, removes: int, failed: int, autoAdded: int)

  /** Rows come out in id order; ids are distinct and positive. */
  ghost predicate Indexed(rows: seq<Row>) {
    && (forall i :: 0 <= i < |rows| ==> rows[i].id > 0)
    && (forall i, j :: 0 <= i < j < |rows| ==> rows[i].id < rows[j].id)
  }

  function Where(rows: seq<Row>, lastID: int): seq<Row> {
    if rows == [] then []
    else Where(rows[..|rows| - 1], lastID) + if rows[|rows| - 1].id > lastID then [rows[|rows| - 1]] else []
  }

  /** Enabled channels after `lastID`, in id order, at most `limit` of them. */
  function Query(rows: seq<Row>, lastID: int, limit: nat): seq<Row> {
    var found := if lastID > 0 then Where(rows, lastID) else rows;
    if |found| <= limit then found else found[..limit]
  }

  function Result(row: Row, o: Options, matches: Matcher): Checked {
    Check(row.channel, o.force, o.allowAutoApply, o.now, o.minInterval, row.fetched, matches)
  }

  function Visited(row: Row, o: Options, matches: Matcher): Row {
    if row.checkEnabled then row.(channel := Result(row, o, matches).channel) else row
  }

  /** What one channel adds to the scan's totals. */
  function Counts(row: Row, o: Options, matches: Matcher): Totals {
    if !row.checkEnabled then Totals(0, 0, 0, 0, 0, 0)
    else
      var r := Result(row, o, matches);
      if !r.ok then Totals(1, 0, 0, 0, 1, 0)
      else
        var adds := |Normalize(r.channel.settings.detected)| + r.autoAdded;
        var removes := |Normalize(r.channel.settings.removed)|;
        Totals(1, if adds > 0 || removes > 0 then 1 else 0, adds, removes, 0, r.autoAdded)
  }

  function Plus(a: Totals, b: Totals): Totals {
    Totals(a.checked + b.checked, a.changed + b.changed, a.adds + b.adds, a.removes + b.removes,
           a.failed + b.failed, a.autoAdded + b.autoAdded)
  }

  function TotalsOf(rows: seq<Row>, o: Options, matches: Matcher): Totals {
    if rows == [] then Totals(0, 0, 0, 0, 0, 0)
    else Plus(TotalsOf(rows[..|rows| - 1], o, matches), Counts(rows[|rows| - 1], o, matches))
  }

  lemma {:induction false} WhereSuffix(rows: seq<Row>, k: nat)
    requires Indexed(rows) && 0 < k <= |rows|
    ensures Where(rows, rows[k - 1].id) == rows[k..]
  {
    var last := |rows| - 1;
    if k == |rows| {
      WhereNone(rows, rows[last].id);
    } else {
      WhereSuffix(rows[..last], k);
      assert rows[..last][k - 1] == rows[k - 1] && rows[..last][k..] + [rows[last]] == rows[k..];
    }
  }

  lemma {:induction false} WhereNone(rows: seq<Row>, lastID: int)
    requires forall i :: 0 <= i < |rows| ==> rows[i].id <= lastID
    ensures Where(rows, lastID) == []
  {
    if rows != [] { WhereNone(rows[..|rows| - 1], lastID); }
  }

  /** The query picks up where the last batch ended. */
  lemma QueryResumes(rows: seq<Row>, k: nat, limit: nat)
    requires Indexed(rows) && k <= |rows|
    ensures var lastID := if k == 0 then 0 else rows[k - 1].id;
      Query(rows, lastID, limit) == rows[k..if |rows| - k <= limit then |rows| else k + limit]
  {
    if k > 0 { WhereSuffix(rows, k); }
  }

  /** The first `n` rows have been changed by `f`, the others not. */
  ghost predicate ChangedFirst(rows: seq<Row>, f: Row -> Row, n: nat, after: seq<Row>) {
    && n <= |rows| == |after|
    && (forall i :: 0 <= i < n ==> after[i] == f(rows[i]))
    && (forall i :: n <= i < |rows| ==> after[i] == rows[i])
  }

  lemma ChangedOneMore(rows: seq<Row>, f: Row -> Row, n: nat, after: seq<Row>)
    requires ChangedFirst(rows, f, n, after) && n < |rows|
    ensures ChangedFirst(rows, f, n + 1, after[n := f(rows[n])])
  {
  }

  ghost predicate IdsOf(rows: seq<Row>, n: nat, visited: seq<int>) {
    n <= |rows| && |visited| == n && forall i :: 0 <= i < n ==> visited[i] == rows[i].id
  }

  lemma IdsOneMore(rows: seq<Row>, n: nat, visited: seq<int>)
    requires IdsOf(rows, n, visited) && n < |rows|
    ensures IdsOf(rows, n + 1, visited + [rows[n].id])
  {
  }

  function Visitor(o: Options, matches: Matcher): Row -> Row { row => Visited(row, o, matches) }

  /** The first `n` rows have been visited and counted, the others not. */
  ghost predicate Scanned(rows: seq<Row>, o: Options, matches: Matcher, n: nat,
                          after: seq<Row>, visited: seq<int>, totals: Totals)
  {
    && ChangedFirst(rows, Visitor(o, matches), n, after) && IdsOf(rows, n, visited)
    && totals == TotalsOf(rows[..n], o, matches)
  }

  lemma ScannedOneMore(rows: seq<Row>, o: Options, matches: Matcher, n: nat,
                       after: seq<Row>, visited: seq<int>, totals: Totals)
    requires Scanned(rows, o, matches, n, after, visited, totals) && n < |rows|
    ensures Scanned(rows, o, matches, n + 1, after[n := Visited(rows[n], o, matches)],
                    visited + [rows[n].id], Plus(totals, Counts(rows[n], o, matches)))
  {
    ChangedOneMore(rows, Visitor(o, matches), n, after);
    IdsOneMore(rows, n, visited);
    TotalsOneMore(rows, o, matches, n);
  }

  lemma TotalsOneMore(rows: seq<Row>, o: Options, matches: Matcher, n: nat)
    requires n < |rows|
    ensures TotalsOf(rows[..n + 1], o, matches) == Plus(TotalsOf(rows[..n], o, matches), Counts(rows[n], o, matches))
  {
    assert rows[..n + 1][..n] == rows[..n];
  }

  /** Visits one batch, the rows from `start` on, until the scan is cancelled. */
  method ScanBatch(ghost rows: seq<Row>, o: Options, stopAfter: nat, matches: Matcher, batch: seq<Row>, start: nat,
                   after0: seq<Row>, visited0: seq<int>, totals0: Totals)
    returns (processed: nat, after: seq<Row>, visited: seq<int>, totals: Totals)
    requires start + |batch| <= |rows| && batch == rows[start..start + |batch|] && start <= stopAfter
    requires Scanned(rows, o, matches, start, after0, visited0, totals0)
    ensures processed == if stopAfter < start + |batch| then stopAfter else start + |batch|
    ensures Scanned(rows, o, matches, processed, after, visited, totals)
  {
    processed, after, visited, totals := start, after0, visited0, totals0;
    var i := 0;
    while i < |batch| && processed < stopAfter
      invariant 0 <= i <= |batch| && processed == start + i <= stopAfter
      invariant Scanned(rows, o, matches, processed, after, visited, totals)
    {
      assert batch[i] == rows[processed];
      ScannedOneMore(rows, o, matches, processed, after, visited, totals);
      totals := Plus(totals, Counts(batch[i], o, matches));
      after := after[processed := Visited(batch[i], o, matches)];
      visited := visited + [batch[i].id];
      processed := processed + 1;
      i := i + 1;
    }
  }

  /**
   The scan visits every enabled channel exactly once, in id order, however
   many there are; a cancelled scan visits the first `stopAfter` of them.
   */
  method RunTask(rows: seq<Row>, o: Options, stopAfter: nat, matches: Matcher)
    returns (after: seq<Row>, visited: seq<int>, totals: Totals)
    requires Indexed(rows)
    ensures Scanned(rows, o, matches, if stopAfter < |rows| then stopAfter else |rows|, after, visited, totals)
  {
    after, visited, totals := rows, [], Totals(0, 0, 0, 0, 0, 0);
    var lastID, processed := 0, 0;
    while processed < stopAfter
      invariant processed <= stopAfter && Scanned(rows, o, matches, processed, after, visited, totals)
      invariant lastID == if processed == 0 then 0 else rows[processed - 1].id
      decreases |rows| - processed
    {
      QueryResumes(rows, processed, BATCH_SIZE);
      var batch := Query(rows, lastID, BATCH_SIZE);
      if |batch| == 0 {
        break;
      }
      lastID := batch[|batch| - 1].id;
      processed, after, visited, totals :=
        ScanBatch(rows, o, stopAfter, matches, batch, processed, after, visited, totals);
      if |batch| < BATCH_SIZE || processed == stopAfter {
        break;
      }
    }
  }

  /** A forced scan without fetch errors counts every pending addition exactly once. */
  lemma {:induction false} ForcedScanCounts(rows: seq<Row>, o: Options, matches: Matcher)
    requires o.force && forall i :: 0 <= i < |rows| ==> rows[i].fetched.Some?
    ensures TotalsOf(rows, o, matches).adds == PendingTotal(rows, matches)
  {
    if rows != [] {
      var row := rows[|rows| - 1];
      ForcedScanCounts(rows[..|rows| - 1], o, matches);
      CountedOnce(row.channel, o.allowAutoApply, o.now, o.minInterval, row.fetched.value, matches);
    }
  }

  /** And none of its checks fails. */
  lemma {:induction false} ForcedScanSucceeds(rows: seq<Row>, o: Options, matches: Matcher)
    requires o.force && forall i :: 0 <= i < |rows| ==> rows[i].fetched.Some?
    ensures TotalsOf(rows, o, matches).failed == 0
  {
    if rows != [] { ForcedScanSucceeds(rows[..|rows| - 1], o, matches); }
  }

  function PendingTotal(rows: seq<Row>, matches: Matcher): int {
    if rows == [] then 0
    else
      var row := rows[|rows| - 1];
      PendingTotal(rows[..|rows| - 1], matches) +
      if row.checkEnabled && row.fetched.Some? then |PendingAdds(row.channel, row.fetched.value, matches)| else 0
  }
}
