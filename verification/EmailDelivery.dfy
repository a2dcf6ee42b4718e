/**
 One email delivery: configuration, token, connection, authentication and
 submission, with one retry after a rejected token, reported stage by stage.
 What the network answers is given as an oracle per connection.
 */
module EmailDelivery {

  datatype Status = Skipped | Passed | Failed | Unknown

  datatype Code = DeliveryFailed | DeliveryUnknown | Accepted

  /** Stages: 0 configuration, 1 token, 2 connection, 3 authentication, 4 submission. */
  datatype Report = Report(stages: seq<Status>, code: Code, authDisabled: bool)

  const STAGES: nat := 5

  /** A refused authentication: whether the server replied, with which code, and saying it is disabled. */
  datatype Auth = Granted | Refused(replied: bool, code: int, disabled: bool)

  /** How closing the message body ended: accepted, refused by a reply, or with no reply at all. */
  datatype Closing = Taken | Rejected | NoReply

  datatype Connection = Connection(
    dialed: bool, auth: Auth, refreshed: bool, mail: bool, recipients: seq<bool>,
    data: bool, written: bool, closing: Closing)

  datatype Delivery = Delivery(
    validOptions: bool, validSubject: bool, validRecipients: seq<bool>,
    microsoft: bool, hasSecret: bool, hasToken: bool, hasLogin: bool,
    first: Connection, second: Connection)

  datatype Event = Dial | OpenData | FinalReply

  function Count(log: seq<Event>, e: Event): nat { multiset(log)[e] }

  // ---------- What should happen ----------

  predicate All(q: seq<bool>) { forall i :: 0 <= i < |q| ==> q[i] }

  /** A token the server no longer accepts. */
  predicate Stale(d: Delivery) {
    d.first.dialed && d.microsoft && d.first.auth.Refused?
    && d.first.auth.replied && !d.first.auth.disabled && d.first.auth.code == 535
  }

  predicate DataOpened(k: Connection) { k.mail && All(k.recipients) && k.data }

  predicate Submitted(k: Connection) { DataOpened(k) && k.written && k.closing.Taken? }

  /** The message was handed over and nobody said what became of it. */
  predicate InDoubt(k: Connection) { DataOpened(k) && (!k.written || k.closing.NoReply?) }

  /** What a submission leaves in the log. */
  function DataLog(k: Connection): seq<Event> {
    if !DataOpened(k) then [] else if InDoubt(k) then [OpenData] else [OpenData, FinalReply]
  }

  /** The stage at which a connection fails, or none. */
  function BlameConnection(d: Delivery, k: Connection): int {
    if !k.dialed then 2
    else if (d.microsoft || d.hasLogin) && !k.auth.Granted? then 3
    else if !Submitted(k) then 4
    else -1
  }

  /** The stage to blame, or none: a second connection is made exactly for a stale, refreshed token. */
  function Blame(d: Delivery): int {
    if !d.validOptions || !d.validSubject || !All(d.validRecipients) then 0
    else if d.microsoft && !(d.hasSecret && d.hasToken) then 1
    else if !Stale(d) then BlameConnection(d, d.first)
    else if !d.first.refreshed then 1
    else BlameConnection(d, d.second)
  }

  /** The connection whose outcome decides, if it comes to connecting. */
  function Deciding(d: Delivery): Connection { if Stale(d) then d.second else d.first }

  /** Configuration and token are in order. */
  predicate Ready(d: Delivery) {
    d.validOptions && d.validSubject && All(d.validRecipients) && (d.microsoft ==> d.hasSecret && d.hasToken)
  }

  /** The connection asks for a login and does not get it. */
  predicate Denied(d: Delivery, k: Connection) { (d.microsoft || d.hasLogin) && k.auth.Refused? }

  /** The server refuses because authentication is switched off for the mailbox. */
  predicate SwitchedOff(d: Delivery, k: Connection) {
    d.microsoft && k.dialed && k.auth.Refused? && k.auth.replied && k.auth.disabled
  }

  function If(applies: bool, status: Status): Status { if applies then status else Skipped }

  function PassedIf(ok: bool): Status { if ok then Passed else Failed }

  function SubmitStatus(k: Connection): Status {
    if Submitted(k) then Passed else if InDoubt(k) then Unknown else Failed
  }

  /** The report, stage by stage: what each stage depends on, whether it comes to it, and how it ends. */
  function Verdict(d: Delivery): Report {
    var k, valid := Deciding(d), d.validOptions && d.validSubject && All(d.validRecipients);
    var noToken := Stale(d) && !d.first.refreshed;
    var connects := Ready(d) && !noToken;
    Report(
      [PassedIf(valid),
       If(valid && d.microsoft, PassedIf(d.hasSecret && d.hasToken && !noToken)),
       If(Ready(d), PassedIf(noToken || k.dialed)),
       If(connects && k.dialed && (d.microsoft || d.hasLogin), PassedIf(k.auth.Granted?)),
       If(connects && k.dialed && !Denied(d, k), SubmitStatus(k))],
      if !connects || !k.dialed || Denied(d, k) then DeliveryFailed
      else if Submitted(k) then Accepted else if InDoubt(k) then DeliveryUnknown else DeliveryFailed,
      connects && SwitchedOff(d, k))
  }

  // ---------- What is done ----------

  method Submit(k: Connection, r: Report, l: seq<Event>) returns (report: Report, ok: bool, log: seq<Event>)
    requires |r.stages| == STAGES && r.stages[4] == Skipped && r.code.DeliveryFailed?
    ensures ok == Submitted(k)
    ensures report == r.(
      stages := r.stages[4 := if InDoubt(k) || ok then Unknown else if DataOpened(k) then Failed else Skipped],
      code := if InDoubt(k) || ok then DeliveryUnknown else DeliveryFailed)
    ensures log == l + DataLog(k)
  {
    report, ok, log := r, false, l;
    if !k.mail {
      return;
    }
    for i := 0 to |k.recipients|
      invariant forall j :: 0 <= j < i ==> k.recipients[j]
    {
      if !k.recipients[i] {
        return;
      }
    }
    if !k.data {
      return;
    }
    log := log + [OpenData];
    report := report.(stages := report.stages[4 := Unknown], code := DeliveryUnknown);
    if !k.written {
      return;
    }
    if !k.closing.Taken? {
      if k.closing.Rejected? {
        report := report.(stages := report.stages[4 := Failed], code := DeliveryFailed);
        log := log + [FinalReply];
      }
      return;
    }
    log := log + [FinalReply];
    ok := true;
  }

  /** The stage where an error surfaced is failed, unless it is in doubt. */
  function Blamed(r: Report, stage: nat): Report
    requires stage < |r.stages|
  {
    if r.stages[stage].Unknown? then r else r.(stages := r.stages[stage := Failed])
  }

  /** One dial, authentication and submission; `retry` asks for another round with a fresh token. */
  method Attempt(d: Delivery, k: Connection, last: bool, r: Report, l: seq<Event>)
    returns (report: Report, stage: nat, ok: bool, retry: bool, log: seq<Event>)
    requires |r.stages| == STAGES && r.stages[3] == r.stages[4] == Skipped && r.code.DeliveryFailed? && !r.authDisabled
    ensures |report.stages| == STAGES && stage < STAGES
    ensures report.stages[0] == r.stages[0] && report.stages[1] == r.stages[1]
    ensures retry <==> !last && k.dialed && d.microsoft && k.auth.Refused? &&
                       k.auth.replied && !k.auth.disabled && k.auth.code == 535
    ensures retry ==> report == r.(stages := r.stages[2 := Passed]) && log == l + [Dial] && stage == 3 && !ok
    ensures !retry ==> (ok <==> BlameConnection(d, k) == -1) && (!ok ==> stage == BlameConnection(d, k))
    ensures !retry ==> (report.code.DeliveryUnknown? <==> report.stages[4].Unknown?)
    ensures !retry ==> (report.code.Accepted? <==> ok) && (ok ==> report.stages[4].Passed?)
    ensures !retry ==> report.stages[2] == (if k.dialed then Passed else r.stages[2]) && !report.stages[3].Failed?
    ensures !retry ==> !report.stages[3].Unknown? && (report.stages[4].Failed? ==> stage == 4 && !ok)
    ensures !retry ==> (report.stages[4].Unknown? <==> !ok && stage == 4 && InDoubt(k))
    ensures !retry ==> log == l + [Dial] + (if ok || stage == 4 then DataLog(k) else [])
    ensures !retry ==> (report.authDisabled <==> SwitchedOff(d, k))
    ensures !retry ==>
      report.stages[3] == If(k.dialed && (d.microsoft || d.hasLogin) && k.auth.Granted?, Passed)
    ensures !retry && k.dialed && !Denied(d, k) && DataOpened(k) ==> report.stages[4] == SubmitStatus(k)
    ensures !retry && !(k.dialed && !Denied(d, k) && DataOpened(k)) ==> report.stages[4].Skipped?
  {
    report, ok, retry, log := r, false, false, l + [Dial];
    stage := 2;
    if !k.dialed {
      return;
    }
    report := report.(stages := report.stages[2 := Passed]);
    stage := 3;
    if d.microsoft || d.hasLogin {
      if k.auth.Refused? {
        if d.microsoft && k.auth.replied && k.auth.disabled {
          report := report.(authDisabled := true);
          return;
        }
        retry := d.microsoft && !last && k.auth.replied && k.auth.code == 535;
        return;
      }
      report := report.(stages := report.stages[3 := Passed]);
    }
    stage := 4;
    report, ok, log := Submit(k, report, log);
    if ok {
      report := report.(stages := report.stages[4 := Passed], code := Accepted);
    }
  }

  /** No stage was left failed or in doubt. */
  ghost predicate Clean(r: Report) {
    forall i :: 0 <= i < |r.stages| ==> !r.stages[i].Failed? && !r.stages[i].Unknown?
  }

  /** Exactly this stage is failed or in doubt. */
  ghost predicate OnlyBad(r: Report, stage: int) {
    forall i :: 0 <= i < |r.stages| ==> (r.stages[i].Failed? || r.stages[i].Unknown? <==> i == stage)
  }

  function Prepared(d: Delivery, dialed: bool): Report {
    Report([Passed, if d.microsoft then Passed else Skipped, if dialed then Passed else Skipped, Skipped, Skipped],
           DeliveryFailed, false)
  }

  /** The configuration and token stages. */
  method Prepare(d: Delivery) returns (report: Report, error: bool)
    ensures error <==> !Ready(d)
    ensures !error ==> report == Prepared(d, false)
    ensures error ==> report == Verdict(d)
  {
    report := Report([Skipped, Skipped, Skipped, Skipped, Skipped], DeliveryFailed, false);
    if !d.validOptions || !d.validSubject {
      return Blamed(report, 0), true;
    }
    for i := 0 to |d.validRecipients|
      invariant forall j :: 0 <= j < i ==> d.validRecipients[j]
    {
      if !d.validRecipients[i] {
        return Blamed(report, 0), true;
      }
    }
    report := report.(stages := report.stages[0 := Passed]);
    if d.microsoft {
      if !d.hasSecret || !d.hasToken {
        return Blamed(report, 1), true;
      }
      report := report.(stages := report.stages[1 := Passed]);
    }
    return report, false;
  }

  /** An error blames exactly one stage, the right one; a success leaves none bad. */
  ghost predicate BlamesRight(d: Delivery, report: Report, error: bool) {
    && |report.stages| == STAGES && (error <==> Blame(d) != -1)
    && (!error ==> report.code.Accepted? && Clean(report) && report.stages[4].Passed?)
    && (error ==> !report.code.Accepted? && OnlyBad(report, Blame(d)))
    && (report.code.DeliveryUnknown? <==> report.stages[4].Unknown?)
    && (report.code.DeliveryUnknown? <==> Blame(d) == 4 && InDoubt(Deciding(d)))
  }

  /** The two descriptions of a delivery agree: stage by stage, and by the one stage to blame. */
  lemma VerdictBlamesRight(d: Delivery)
    ensures BlamesRight(d, Verdict(d), Blame(d) != -1)
  {
  }

  /** The log of a delivery that got as far as connecting. */
  function Log(d: Delivery): seq<Event> {
    (if Stale(d) && d.first.refreshed then [Dial, Dial] else [Dial]) +
    if Blame(d) == 4 || Blame(d) == -1 then DataLog(Deciding(d)) else []
  }

  /** Up to two attempts; the loop always returns from within. */
  method Connect(d: Delivery, r: Report) returns (report: Report, error: bool, log: seq<Event>)
    requires Ready(d) && r == Prepared(d, false)
    ensures report == Verdict(d) && (error <==> Blame(d) != -1) && log == Log(d)
  {
    report, log := r, [];
    var attempt := 0;
    while attempt < 2
      invariant 0 <= attempt <= 1
      invariant report == Prepared(d, attempt == 1)
      invariant log == (if attempt == 1 then [Dial] else [])
      invariant attempt == 1 ==> Stale(d) && d.first.refreshed
      decreases 2 - attempt
    {
      var stage, ok, retry;
      report, stage, ok, retry, log :=
        Attempt(d, if attempt == 0 then d.first else d.second, attempt == 1, report, log);
      if retry {
        if !d.first.refreshed {
          return Blamed(report, 1), true, log;
        }
        attempt := attempt + 1;
        continue;
      }
      if !ok {
        return Blamed(report, stage), true, log;
      }
      return report, false, log;
    }
    assert false;
  }

  method Deliver(d: Delivery) returns (report: Report, error: bool, log: seq<Event>)
    ensures report == Verdict(d)
    ensures BlamesRight(d, report, error) && (!error ==> Count(log, FinalReply) == 1)
    // The outcome is unknown exactly when the message was handed over and no final reply was seen.
    ensures report.code.DeliveryUnknown? <==> Count(log, OpenData) > 0 && Count(log, FinalReply) == 0
    // At most one message body, at most two connections, the second only for a refreshed token.
    ensures Count(log, OpenData) <= 1 && Count(log, Dial) <= 2
    ensures Count(log, Dial) == 2 <==> Ready(d) && Stale(d) && d.first.refreshed
  {
    report, error := Prepare(d);
    log := [];
    if !error {
      report, error, log := Connect(d, report);
    }
    VerdictBlamesRight(d);
  }
}
