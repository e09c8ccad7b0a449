/**
 The monitor of the anchoring account's funding: what it reports, and when it
 raises an alert.
 */
module BalanceMonitor {
  import opened Options

  /** The alert level and the fee of one transaction, in stroops. */
  datatype Config = Config(threshold: int, fee: int)

  datatype Status = Funded | BelowThreshold | Unfundable | Unknown

  datatype AlertKind =
    | BelowThresholdAlert
    | UnfundableAlert
    | UnreadableAlert
    | AnchorAttemptAlert
    | RecoveredAlert

  datatype Alert = Alert(kind: AlertKind, forced: bool)

  /** The monitor's own state, and every alert it has handed to its alerter. */
  datatype Monitor = Monitor(
    lastAlertedKind: Option<AlertKind>,
    reportedUnderfunded: bool,
    lastStatus: Option<Status>,
    alerts: seq<Alert>)

  /** A reading is a balance, or nothing when the ledger could not be asked. */
  datatype Event = Check(reading: Option<int>) | BeforeAnchor(reading: Option<int>) | Rejection

  const NEW := Monitor(None, false, None, [])

  function Classify(c: Config, reportedUnderfunded: bool, balance: int): Status {
    if reportedUnderfunded || balance < c.fee then Unfundable
    else if balance < c.threshold then BelowThreshold
    else Funded
  }

  function Raised(m: Monitor, kind: AlertKind, forced: bool): Monitor {
    if !forced && m.lastAlertedKind == Some(kind) then m
    else m.(lastAlertedKind := Some(kind), alerts := m.alerts + [Alert(kind, forced)])
  }

  function Checked(c: Config, m: Monitor, reading: Option<int>): Monitor {
    match reading
    case None => Raised(m.(lastStatus := Some(Unknown)), UnreadableAlert, false)
    case Some(balance) =>
      var reported := m.reportedUnderfunded && balance < c.threshold;
      var status := Classify(c, reported, balance);
      var next := m.(reportedUnderfunded := reported, lastStatus := Some(status));
      (match status
       case Funded => if m.lastAlertedKind == None then next else Raised(next, RecoveredAlert, false)
       case BelowThreshold => Raised(next, BelowThresholdAlert, false)
       case _ => Raised(next, UnfundableAlert, false))
  }

  function Step(c: Config, m: Monitor, e: Event): Monitor {
    match e
    case Check(reading) => Checked(c, m, reading)
    case BeforeAnchor(reading) => Checked(c, m, reading)
    case Rejection =>
      Raised(m.(reportedUnderfunded := true), AnchorAttemptAlert, true).(lastAlertedKind := Some(UnfundableAlert))
  }

  class AnchorBalanceMonitor {
    const config: Config
    var lastAlertedKind: Option<AlertKind>
    var reportedUnderfunded: bool
    var lastStatus: Option<Status>
    var alerts: seq<Alert>

    constructor (config: Config)
      ensures this.config == config && State() == NEW
    {
      this.config := config;
      lastAlertedKind, reportedUnderfunded, lastStatus, alerts := None, false, None, [];
    }

    ghost function State(): Monitor
      reads this
    {
      Monitor(lastAlertedKind, reportedUnderfunded, lastStatus, alerts)
    }

    method Raise(kind: AlertKind, forced: bool)
      modifies this
      ensures State() == Raised(old(State()), kind, forced)
    {
      if !forced && lastAlertedKind == Some(kind) {
        return;
      }
      lastAlertedKind := Some(kind);
      alerts := alerts + [Alert(kind, forced)];
    }

    method Check(reading: Option<int>) returns (status: Status)
      modifies this
      ensures State() == Step(config, old(State()), Event.Check(reading)) && lastStatus == Some(status)
    {
      if reading == None {
        status := Unknown;
        lastStatus := Some(status);
        Raise(UnreadableAlert, false);
        return;
      }
      var balance := reading.value;
      if balance >= config.threshold {
        reportedUnderfunded := false;
      }
      status := Classify(config, reportedUnderfunded, balance);
      lastStatus := Some(status);
      if status == Funded {
        if lastAlertedKind != None {
          Raise(RecoveredAlert, false);
        }
      } else {
        Raise(if status == Unfundable then UnfundableAlert else BelowThresholdAlert, false);
      }
    }

    /** Whatever the monitor remembers, it lets an anchor through exactly on a reading that is enough for both. */
    method BeforeAnchor(reading: Option<int>) returns (ok: bool)
      modifies this
      ensures State() == Step(config, old(State()), Event.BeforeAnchor(reading))
      ensures ok <==> reading.Some? && reading.value >= config.threshold && reading.value >= config.fee
    {
      var status := Check(reading);
      ok := status == Funded;
    }

    method ReportUnderfundedRejection()
      modifies this
      ensures State() == Step(config, old(State()), Rejection)
    {
      reportedUnderfunded := true;
      Raise(AnchorAttemptAlert, true);
      lastAlertedKind := Some(UnfundableAlert);
    }
  }

  // ---- Whole runs ----------------------------------------------------------

  function Run(c: Config, events: seq<Event>): Monitor {
    if events == [] then NEW else Step(c, Run(c, events[..|events| - 1]), events[|events| - 1])
  }

  /** The condition last alerted, where a refused transaction counts as an unfundable account. */
  function LastAlerted(alerts: seq<Alert>): Option<AlertKind> {
    if alerts == [] then None
    else
      var kind := alerts[|alerts| - 1].kind;
      Some(if kind == AnchorAttemptAlert then UnfundableAlert else kind)
  }

  /** The ledger has refused a transaction, and no reading since has reached the threshold. */
  predicate RejectedSince(c: Config, events: seq<Event>) {
    events != [] &&
    var n := |events| - 1;
    match events[n]
    case Rejection => true
    case Check(reading) => RejectedSince(c, events[..n]) && !(reading.Some? && reading.value >= c.threshold)
    case BeforeAnchor(reading) => RejectedSince(c, events[..n]) && !(reading.Some? && reading.value >= c.threshold)
  }

  /**
   Forced alerts are exactly those of refused transactions, no other alert repeats
   the one before it, and a recovery is not the first.
   */
  ghost predicate Disciplined(alerts: seq<Alert>) {
    forall j | 0 <= j < |alerts| :: InOrder(alerts, j)
  }

  predicate InOrder(alerts: seq<Alert>, j: nat)
    requires j < |alerts|
  {
    (alerts[j].forced <==> alerts[j].kind == AnchorAttemptAlert) &&
    (alerts[j].forced || LastAlerted(alerts[..j]) != Some(alerts[j].kind)) &&
    (alerts[j].kind == RecoveredAlert ==> j > 0)
  }

  ghost predicate Remembers(m: Monitor) {
    m.lastAlertedKind == LastAlerted(m.alerts) && Disciplined(m.alerts)
  }

  lemma NewRemembers()
    ensures Remembers(NEW)
  {
  }

  lemma RaisedRemembers(m: Monitor, kind: AlertKind)
    requires Remembers(m) && kind != AnchorAttemptAlert && (kind == RecoveredAlert ==> m.alerts != [])
    ensures Remembers(Raised(m, kind, false))
    ensures Raised(m, kind, false).alerts ==
      m.alerts + if LastAlerted(m.alerts) == Some(kind) then [] else [Alert(kind, false)]
  {
    hide Disciplined;
    if m.lastAlertedKind != Some(kind) {
      Appended(m.alerts, Alert(kind, false));
    }
  }

  lemma Appended(alerts: seq<Alert>, a: Alert)
    requires Disciplined(alerts) && (a.forced <==> a.kind == AnchorAttemptAlert)
    requires (a.forced || LastAlerted(alerts) != Some(a.kind)) && (a.kind == RecoveredAlert ==> alerts != [])
    ensures Disciplined(alerts + [a])
  {
    var all := alerts + [a];
    assert all[..|alerts|] == alerts;
    forall j | 0 <= j < |alerts| ensures InOrder(all, j) {
      assert InOrder(alerts, j) && all[..j] == alerts[..j];
    }
  }

  /** The status of a reading: what is enough for both, for a fee but not the threshold, or not for a fee. */
  function StatusOf(c: Config, reading: Option<int>, rejected: bool): Status {
    if reading.None? then Unknown
    else if reading.value >= c.threshold && reading.value >= c.fee && !rejected then Funded
    else if reading.value >= c.fee && !rejected then BelowThreshold
    else Unfundable
  }

  /** The alert that a condition calls for. */
  function AlertFor(status: Status): AlertKind {
    match status
    case Funded => RecoveredAlert
    case BelowThreshold => BelowThresholdAlert
    case Unfundable => UnfundableAlert
    case Unknown => UnreadableAlert
  }

  /** The alerts of one check, given those before it. */
  function AlertsOf(before: seq<Alert>, status: Status): seq<Alert> {
    var kind := AlertFor(status);
    if LastAlerted(before) == Some(kind) || (kind == RecoveredAlert && before == []) then []
    else [Alert(kind, false)]
  }

  lemma CheckedRemembers(c: Config, m: Monitor, reading: Option<int>)
    requires Remembers(m)
    ensures var after := Checked(c, m, reading);
      && Remembers(after) && after.lastStatus.Some?
      && after.alerts == m.alerts + AlertsOf(m.alerts, after.lastStatus.value)
      && after.reportedUnderfunded == (m.reportedUnderfunded && !(reading.Some? && reading.value >= c.threshold))
      && after.lastStatus.value ==
         if reading == None then Unknown else Classify(c, after.reportedUnderfunded, reading.value)
  {
    hide Disciplined, Raised;
    if reading == None {
      RaisedRemembers(m.(lastStatus := Some(Unknown)), UnreadableAlert);
    } else {
      var reported := m.reportedUnderfunded && reading.value < c.threshold;
      var status := Classify(c, reported, reading.value);
      if status != Funded || m.lastAlertedKind != None {
        RaisedRemembers(m.(reportedUnderfunded := reported, lastStatus := Some(status)), AlertFor(status));
      }
      RaisedKeepsRest(m.(reportedUnderfunded := reported, lastStatus := Some(status)), AlertFor(status));
    }
    RaisedKeepsRest(m.(lastStatus := Some(Unknown)), UnreadableAlert);
  }

  lemma RaisedKeepsRest(m: Monitor, kind: AlertKind)
    ensures Raised(m, kind, false).reportedUnderfunded == m.reportedUnderfunded
    ensures Raised(m, kind, false).lastStatus == m.lastStatus
  {
  }

  /** The monitor's memory is a function of what has happened. */
  lemma {:induction false} MemoryIsHistory(c: Config, events: seq<Event>)
    ensures Remembers(Run(c, events))
    ensures Run(c, events).reportedUnderfunded == RejectedSince(c, events)
  {
    hide Disciplined, Checked;
    if events == [] {
      NewRemembers();
    } else {
      var n := |events| - 1;
      var before := Run(c, events[..n]);
      MemoryIsHistory(c, events[..n]);
      if events[n] == Rejection {
        Appended(before.alerts, Alert(AnchorAttemptAlert, true));
      } else {
        CheckedRemembers(c, before, events[n].reading);
      }
    }
  }

  /** Two consecutive alerts of one kind are both forced, and both say that a transaction was refused. */
  lemma {:induction false} RepeatsAreForced(c: Config, events: seq<Event>, i: nat)
    requires i + 1 < |Run(c, events).alerts|
    requires Run(c, events).alerts[i].kind == Run(c, events).alerts[i + 1].kind
    ensures Run(c, events).alerts[i] == Run(c, events).alerts[i + 1] == Alert(AnchorAttemptAlert, true)
  {
    hide Run;
    MemoryIsHistory(c, events);
    var alerts := Run(c, events).alerts;
    assert InOrder(alerts, i) && InOrder(alerts, i + 1);
    assert alerts[..i + 1][i] == alerts[i];
  }

  /**
   Episodes, on the alerts themselves: every recovery comes directly behind an alert
   of trouble. So the first alert is never a recovery, no two recoveries are
   adjacent, and between any two there is an alert of trouble.
   */
  lemma {:induction false} EpisodesAlternate(c: Config, events: seq<Event>, j: nat)
    requires j < |Run(c, events).alerts| && Run(c, events).alerts[j].kind == RecoveredAlert
    ensures var alerts := Run(c, events).alerts;
      && j > 0 && alerts[j - 1].kind != RecoveredAlert
      && forall i | 0 <= i < j && alerts[i].kind == RecoveredAlert ::
           exists k | i < k < j :: alerts[k].kind != RecoveredAlert
  {
    hide Run;
    MemoryIsHistory(c, events);
    var alerts := Run(c, events).alerts;
    assert InOrder(alerts, j);
    assert alerts[..j][j - 1] == alerts[j - 1];
  }

  /**
   What a check reports and when it alerts, on its own or before an anchor, in terms
   of what has happened before. It alerts exactly when the condition is not the one
   last alerted, so each episode ends with one recovery, at the first funded check;
   and an account that was never in trouble is not said to have recovered.
   */
  lemma {:induction false} CheckAlertsExactly(c: Config, events: seq<Event>, e: Event)
    requires !e.Rejection?
    ensures var before, after := Run(c, events), Run(c, events + [e]);
      var rejected := RejectedSince(c, events + [e]);
      var status := StatusOf(c, e.reading, rejected);
      after.lastStatus == Some(status) && after.alerts == before.alerts + AlertsOf(before.alerts, status)
  {
    hide Disciplined, Checked, AlertsOf;
    var all := events + [e];
    assert all[..|events|] == events;
    MemoryIsHistory(c, events);
    CheckedRemembers(c, Run(c, events), e.reading);
  }

  /** A refused transaction always alerts, whatever was alerted before, and is not a reading of the balance. */
  lemma {:induction false} RejectionAlerts(c: Config, events: seq<Event>)
    ensures var before, after := Run(c, events), Run(c, events + [Rejection]);
      && after.alerts == before.alerts + [Alert(AnchorAttemptAlert, true)]
      && after.lastStatus == before.lastStatus
  {
    var all := events + [Rejection];
    assert all[..|events|] == events;
  }

  /** What the comment on the field describes: the remembered kind is cleared by a recovery. */
  function Cleared(m: Monitor): Monitor {
    if m.lastAlertedKind == Some(RecoveredAlert) then m.(lastAlertedKind := None) else m
  }

  function ClearingRun(c: Config, events: seq<Event>): Monitor {
    if events == [] then NEW
    else Cleared(Step(c, ClearingRun(c, events[..|events| - 1]), events[|events| - 1]))
  }

  /** A monitor that cleared it would raise the same alerts and find the same conditions. */
  lemma {:induction false} ClearingChangesNoAlert(c: Config, events: seq<Event>)
    ensures ClearingRun(c, events) == Cleared(Run(c, events))
    ensures ClearingRun(c, events).alerts == Run(c, events).alerts
    ensures ClearingRun(c, events).lastStatus == Run(c, events).lastStatus
  {
    if events != [] {
      ClearingChangesNoAlert(c, events[..|events| - 1]);
    }
  }

  /** After a refused transaction every check finds the account unfundable until a reading reaches the threshold. */
  lemma {:induction false} RejectionHolds(c: Config, events: seq<Event>, later: seq<Event>, balance: int)
    requires forall i | 0 <= i < |later| && !later[i].Rejection? ::
      later[i].reading == None || later[i].reading.value < c.threshold
    ensures RejectedSince(c, events + [Rejection] + later)
    ensures balance < c.threshold ==>
      Run(c, events + [Rejection] + later + [Check(Some(balance))]).lastStatus == Some(Unfundable)
    decreases later
  {
    var all := events + [Rejection] + later;
    if later == [] {
      assert all[|all| - 1] == Rejection;
    } else {
      var n := |later| - 1;
      RejectionHolds(c, events, later[..n], balance);
      assert all[..|all| - 1] == events + [Rejection] + later[..n];
      assert all[|all| - 1] == later[n];
    }
    CheckAlertsExactly(c, all, Check(Some(balance)));
    assert (all + [Check(Some(balance))])[..|all|] == all;
  }
}
