/** The state machine alerts and incidents share: a transition table, a history
    row per move, a milestone stamped once and a closing time that follows the
    status. */
module Lifecycle {
  import opened Text

  /** What may follow what; the milestone is the status whose first entry is
      timed, the closing statuses are those that end the work. */
  datatype Table<!S(==)> = Table(allowed: S -> set<S>, initial: S, milestone: S, closing: set<S>)

  /** A history row; `from` is absent on the row written at creation. */
  datatype Move<S> = Move(from: Option<S>, to: S, at: int)

  datatype Item<S> = Item(status: S, milestoneAt: Option<int>, closedAt: Option<int>, history: seq<Move<S>>)

  function Create<S>(table: Table<S>, now: int): Item<S> {
    Item(table.initial, None, None, [Move(None, table.initial, now)])
  }

  datatype Verdict = Moved | Unchanged | InvalidTransition

  function Judge<S(==)>(table: Table<S>, item: Item<S>, target: S): Verdict {
    if target == item.status then Unchanged
    else if target !in table.allowed(item.status) then InvalidTransition
    else Moved
  }

  function Transition<S(==)>(table: Table<S>, item: Item<S>, target: S, now: int): Item<S> {
    if !Judge(table, item, target).Moved? then item
    else Item(
      target,
      if target == table.milestone && item.milestoneAt.None? then Some(now) else item.milestoneAt,
      if target in table.closing then Some(now) else None,
      item.history + [Move(Some(item.status), target, now)])
  }

  // ----- what the history says --------------------------------------------

  /** Each move starts where the last one ended and is in the table. */
  predicate LegalPath<S(==)>(table: Table<S>, history: seq<Move<S>>) {
    && history != [] && history[0].from == None && history[0].to == table.initial
    && forall i :: 0 < i < |history| ==>
         history[i].from == Some(history[i - 1].to) && history[i].to in table.allowed(history[i - 1].to)
         && history[i].to != history[i - 1].to
  }

  /** When the milestone was first entered. */
  function FirstEntry<S(==)>(s: S, history: seq<Move<S>>): Option<int> {
    if history == [] then None
    else if history[0].to == s then Some(history[0].at)
    else FirstEntry(s, history[1..])
  }

  lemma {:induction false} FirstEntryAppend<S>(s: S, history: seq<Move<S>>, m: Move<S>)
    ensures FirstEntry(s, history + [m]) ==
            if FirstEntry(s, history).Some? then FirstEntry(s, history) else if m.to == s then Some(m.at) else None
  {
    if history != [] {
      assert (history + [m])[1..] == history[1..] + [m];
      FirstEntryAppend(s, history[1..], m);
    } else {
      assert (history + [m])[1..] == [];
    }
  }

  /** Everything the row says can be read off its history. */
  predicate Derived<S(==)>(table: Table<S>, item: Item<S>) {
    && LegalPath(table, item.history)
    && item.status == item.history[|item.history| - 1].to
    && item.milestoneAt == FirstEntry(table.milestone, item.history)
    && item.closedAt == if item.status in table.closing then Some(item.history[|item.history| - 1].at) else None
  }

  predicate Sensible<S(==)>(table: Table<S>) {
    table.initial != table.milestone && table.initial !in table.closing
  }

  lemma TransitionDerived<S>(table: Table<S>, item: Item<S>, target: S, now: int)
    requires Derived(table, item)
    ensures Derived(table, Transition(table, item, target, now))
  {
    FirstEntryAppend(table.milestone, item.history, Move(Some(item.status), target, now));
  }

  /** A run of requested transitions, legal or not. */
  function Replay<S(==)>(table: Table<S>, item: Item<S>, requests: seq<(S, int)>): Item<S>
    decreases |requests|
  {
    if requests == [] then item
    else Replay(table, Transition(table, item, requests[0].0, requests[0].1), requests[1..])
  }

  /** After any run of requests, the history is a legal path from the initial
      status that ends in the current one; the closing time is set exactly in
      closing statuses; the milestone time is that of its first entry. */
  lemma {:induction false} AlwaysDerived<S>(table: Table<S>, now: int, requests: seq<(S, int)>)
    requires Sensible(table)
    ensures Derived(table, Replay(table, Create(table, now), requests))
  {
    assert Create(table, now).history[1..] == [];
    ReplayDerived(table, Create(table, now), requests);
  }

  lemma {:induction false} ReplayDerived<S>(table: Table<S>, item: Item<S>, requests: seq<(S, int)>)
    requires Derived(table, item)
    ensures Derived(table, Replay(table, item, requests))
    decreases |requests|
  {
    if requests != [] {
      TransitionDerived(table, item, requests[0].0, requests[0].1);
      ReplayDerived(table, Transition(table, item, requests[0].0, requests[0].1), requests[1..]);
    }
  }

  /** The history alone, fed back as requests, rebuilds the whole row. */
  lemma {:induction false} HistoryReplays<S>(table: Table<S>, item: Item<S>, n: nat)
    requires Derived(table, item) && Sensible(table) && n < |item.history|
    ensures var prefix := Replay(table, Create(table, item.history[0].at), Requests(item.history[1..n + 1]));
            Derived(table, prefix) && prefix.history == item.history[..n + 1] && (n == |item.history| - 1 ==> prefix == item)
  {
    var start := Create(table, item.history[0].at);
    AlwaysDerived(table, item.history[0].at, Requests(item.history[1..n + 1]));
    if n == 0 {
      assert item.history[1..1] == [] && item.history[..1] == start.history;
    } else {
      HistoryReplays(table, item, n - 1);
      var before := Replay(table, start, Requests(item.history[1..n]));
      var m := item.history[n];
      assert item.history[1..n + 1] == item.history[1..n] + [m];
      RequestsSnoc(item.history[1..n], m);
      ReplaySnoc(table, start, Requests(item.history[1..n]), (m.to, m.at));
      assert before.status == item.history[n - 1].to;
      assert item.history[..n + 1] == item.history[..n] + [m];
    }
    assert item.history[..|item.history|] == item.history;
  }

  function Requests<S>(history: seq<Move<S>>): seq<(S, int)> {
    seq(|history|, i requires 0 <= i < |history| => (history[i].to, history[i].at))
  }

  lemma RequestsSnoc<S>(history: seq<Move<S>>, m: Move<S>)
    ensures Requests(history + [m]) == Requests(history) + [(m.to, m.at)]
  {
  }

  lemma {:induction false} ReplaySnoc<S>(table: Table<S>, item: Item<S>, requests: seq<(S, int)>, last: (S, int))
    ensures Replay(table, item, requests + [last]) == Transition(table, Replay(table, item, requests), last.0, last.1)
    decreases |requests|
  {
    if requests == [] {
      assert (requests + [last])[1..] == [];
    } else {
      assert (requests + [last])[1..] == requests[1..] + [last];
      ReplaySnoc(table, Transition(table, item, requests[0].0, requests[0].1), requests[1..], last);
    }
  }

  // ----- the two tables ---------------------------------------------------

  datatype AlertStatus = New | InProgress | Escalated | FalsePositive | Resolved | Closed

  function AlertAllowed(s: AlertStatus): set<AlertStatus> {
    match s
    case New => {InProgress, Escalated, FalsePositive, Resolved, Closed}
    case InProgress => {Escalated, FalsePositive, Resolved, Closed, New}
    case Escalated => {InProgress, FalsePositive, Resolved, Closed}
    case FalsePositive => {InProgress, Closed}
    case Resolved => {InProgress, Closed}
    case Closed => {InProgress}
  }

  const ALERTS: Table<AlertStatus> := Table(AlertAllowed, New, InProgress, {FalsePositive, Resolved, Closed})

  datatype IncidentStatus = Opened | Triage | Investigation | Containment | Eradication | Recovery | Done

  function IncidentAllowed(s: IncidentStatus): set<IncidentStatus> {
    match s
    case Opened => {Triage, Investigation, Done}
    case Triage => {Investigation, Containment, Done, Opened}
    case Investigation => {Containment, Eradication, Triage, Done}
    case Containment => {Eradication, Investigation, Done}
    case Eradication => {Recovery, Containment, Investigation, Done}
    case Recovery => {Done, Eradication, Investigation}
    case Done => {Investigation, Triage}
  }

  const INCIDENTS: Table<IncidentStatus> := Table(IncidentAllowed, Opened, Containment, {Done})

  // ----- the tables read the other way, by where a move leads --------------

  /** From where each alert status can be reached. */
  lemma AlertMovesByTarget(s: AlertStatus)
    ensures AlertStatus.New in AlertAllowed(s) <==> s == AlertStatus.InProgress
    ensures AlertStatus.InProgress in AlertAllowed(s) <==> s != AlertStatus.InProgress
    ensures AlertStatus.Escalated in AlertAllowed(s) <==> s == AlertStatus.New || s == AlertStatus.InProgress
    ensures AlertStatus.FalsePositive in AlertAllowed(s) <==> s in {AlertStatus.New, AlertStatus.InProgress, AlertStatus.Escalated}
    ensures AlertStatus.Resolved in AlertAllowed(s) <==> s in {AlertStatus.New, AlertStatus.InProgress, AlertStatus.Escalated}
    ensures AlertStatus.Closed in AlertAllowed(s) <==> s != AlertStatus.Closed
  {
  }

  /** From where each incident status can be reached. */
  lemma IncidentMovesByTarget(s: IncidentStatus)
    ensures Opened in IncidentAllowed(s) <==> s == Triage
    ensures Triage in IncidentAllowed(s) <==> s in {Opened, Investigation, Done}
    ensures Investigation in IncidentAllowed(s) <==> s != Investigation
    ensures Containment in IncidentAllowed(s) <==> s in {Triage, Investigation, Eradication}
    ensures Eradication in IncidentAllowed(s) <==> s in {Investigation, Containment, Recovery}
    ensures Recovery in IncidentAllowed(s) <==> s == Eradication
    ensures Done in IncidentAllowed(s) <==> s != Done
  {
  }

  /** A request is a no-op for the status it has, refused if the table has no
      such move, and otherwise changes the status. */
  lemma RequestsAreJudged(alert: Item<AlertStatus>, target: AlertStatus, now: int)
    ensures var verdict, after := Judge(ALERTS, alert, target), Transition(ALERTS, alert, target, now);
            && (verdict.Unchanged? <==> target == alert.status)
            && (verdict.InvalidTransition? <==> target != alert.status && target !in AlertAllowed(alert.status))
            && (verdict.Moved? <==> target in AlertAllowed(alert.status))
            && (if verdict.Moved? then after.status == target && after.history == alert.history + [Move(Some(alert.status), target, now)]
                else after == alert)
  {
    AlertMovesByTarget(alert.status);
  }

  /** After any requests, an alert began NEW, is closed at the time of its last
      move exactly in the three closing statuses, and is acknowledged at its
      first move to IN_PROGRESS. */
  lemma AlertsAreDerived(now: int, requests: seq<(AlertStatus, int)>)
    ensures var alert := Replay(ALERTS, Create(ALERTS, now), requests);
            && Derived(ALERTS, alert) && alert.history[0] == Move(None, AlertStatus.New, now)
            && (alert.closedAt.Some? <==> alert.status in {AlertStatus.FalsePositive, AlertStatus.Resolved, AlertStatus.Closed})
            && (alert.closedAt.Some? ==> alert.closedAt == Some(alert.history[|alert.history| - 1].at))
            && alert.milestoneAt == FirstEntry(AlertStatus.InProgress, alert.history)
  {
    AlwaysDerived(ALERTS, now, requests);
    HistoryGrows(ALERTS, Create(ALERTS, now), requests);
  }

  /** Requests only ever add to a history. */
  lemma {:induction false} HistoryGrows<S>(table: Table<S>, item: Item<S>, requests: seq<(S, int)>)
    ensures item.history <= Replay(table, item, requests).history
    decreases |requests|
  {
    if requests != [] { HistoryGrows(table, Transition(table, item, requests[0].0, requests[0].1), requests[1..]); }
  }

  predicate EverIn<S(==)>(history: seq<Move<S>>, statuses: set<S>) {
    exists i :: 0 <= i < |history| && history[i].to in statuses
  }

  /** An alert that was closed and is open again has been acknowledged: the
      only way out of the closing statuses is through IN_PROGRESS. */
  lemma {:induction false} ReopenedIsAcknowledged(now: int, requests: seq<(AlertStatus, int)>)
    ensures var alert := Replay(ALERTS, Create(ALERTS, now), requests);
            EverIn(alert.history, ALERTS.closing) && alert.status !in ALERTS.closing ==> alert.milestoneAt.Some?
    decreases |requests|
  {
    if requests != [] {
      var n := |requests| - 1;
      ReopenedIsAcknowledged(now, requests[..n]);
      var before := Replay(ALERTS, Create(ALERTS, now), requests[..n]);
      assert requests == requests[..n] + [requests[n]];
      ReplaySnoc(ALERTS, Create(ALERTS, now), requests[..n], requests[n]);
      AlwaysDerived(ALERTS, now, requests[..n]);
      var after := Transition(ALERTS, before, requests[n].0, requests[n].1);
      if after.status !in ALERTS.closing && EverIn(after.history, ALERTS.closing) {
        var i :| 0 <= i < |after.history| && after.history[i].to in ALERTS.closing;
        assert i < |before.history| && before.history[i] == after.history[i];
      }
    }
  }

  // ----- incidents --------------------------------------------------------

  /** After any run of requests an incident's history is a legal path that ends
      in its status, the closing time is set exactly in CLOSED, and containment
      is stamped with its first entry and never again. */
  lemma IncidentsAreDerived(now: int, requests: seq<(IncidentStatus, int)>)
    ensures var incident := Replay(INCIDENTS, Create(INCIDENTS, now), requests);
            && Derived(INCIDENTS, incident) && incident.history[0] == Move(None, Opened, now)
            && (incident.closedAt.Some? <==> incident.status == Done)
            && incident.milestoneAt == FirstEntry(Containment, incident.history)
  {
    AlwaysDerived(INCIDENTS, now, requests);
    HistoryGrows(INCIDENTS, Create(INCIDENTS, now), requests);
  }

  /** Eradication is reached from investigation or containment, or back from a
      recovery that had itself come from there. */
  lemma {:induction false} EradicationNeedsWork(history: seq<Move<IncidentStatus>>, k: nat) returns (j: nat)
    requires LegalPath(INCIDENTS, history) && k < |history| && history[k].to == Eradication
    ensures j < k && (history[j].to == Investigation || history[j].to == Containment)
    decreases k
  {
    assert k > 0 && history[k].to in IncidentAllowed(history[k - 1].to);
    if history[k - 1].to == Recovery {
      assert k > 1 && history[k - 1].to in IncidentAllowed(history[k - 2].to);
      j := EradicationNeedsWork(history, k - 2);
    } else {
      j := k - 1;
    }
  }

  /** No incident recovers without having been eradicated the step before, and
      investigated or contained before that. */
  lemma RecoveryNeedsEradication(now: int, requests: seq<(IncidentStatus, int)>, k: nat)
    requires var history := Replay(INCIDENTS, Create(INCIDENTS, now), requests).history;
             k < |history| && history[k].to == Recovery
    ensures var history := Replay(INCIDENTS, Create(INCIDENTS, now), requests).history;
            && k > 1 && history[k - 1].to == Eradication
            && exists j :: 0 <= j < k - 1 && (history[j].to == Investigation || history[j].to == Containment)
  {
    var history := Replay(INCIDENTS, Create(INCIDENTS, now), requests).history;
    IncidentsAreDerived(now, requests);
    assert k > 0 && history[k].to in IncidentAllowed(history[k - 1].to);
    var j := EradicationNeedsWork(history, k - 1);
  }
}
