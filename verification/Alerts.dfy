/** Alert creation with deduplication, interleaved with lifecycle transitions. */
module Alerts {
  import opened Text
  import opened Lifecycle

  const MAX_EVENT_IDS: nat := 200

  /** What an alert is built from. */
  datatype Input = Input(
    tenant: nat, dedupKey: string, severity: string, riskScore: int, riskBucket: string,
    eventIds: seq<string>, detectionIds: seq<string>)

  datatype Alert = Alert(
    tenant: nat, dedupKey: string, severity: string, riskScore: int, riskBucket: string,
    eventIds: seq<string>, detectionIds: seq<string>,
    occurrences: nat, firstSeen: int, lastSeen: int, life: Item<AlertStatus>)

  /** An input as it was handled: the clock is read once for the lookup and once
      more for the stamp. */
  datatype Seen = Seen(input: Input, lookup: int, at: int)

  /** `_severity_rank`: an unknown severity ranks with the lowest. */
  function SeverityRank(s: string): nat {
    IndexOrZero(SEVERITY_ORDER, s, 0)
  }

  const SEVERITY_ORDER := ["informational", "low", "medium", "high", "critical"]

  function IndexOrZero(order: seq<string>, s: string, from: nat): nat
    decreases |order| - from
  {
    if from >= |order| then 0 else if order[from] == s then from else IndexOrZero(order, s, from + 1)
  }

  predicate Open(a: Alert) {
    a.life.status.New? || a.life.status.InProgress? || a.life.status.Escalated?
  }

  // ----- finding the alert to fold into -----------------------------------

  predicate Candidate(a: Alert, input: Input, cutoff: int) {
    a.tenant == input.tenant && a.dedupKey == input.dedupKey && Open(a) && a.lastSeen >= cutoff
  }

  /** An alert the input may be folded into: the tenant's, under the same key,
      not closed in any way, and seen since the cutoff. */
  predicate SameEpisode(a: Alert, input: Input, cutoff: int) {
    && a.tenant == input.tenant && a.dedupKey == input.dedupKey && cutoff <= a.lastSeen
    && a.life.status in {AlertStatus.New, AlertStatus.InProgress, AlertStatus.Escalated}
  }

  lemma CandidateExactly(a: Alert, input: Input, cutoff: int)
    ensures Candidate(a, input, cutoff) <==> SameEpisode(a, input, cutoff)
  {
  }

  predicate NoneAfter(alerts: seq<Alert>, input: Input, cutoff: int) {
    forall i :: 0 <= i < |alerts| ==> !Candidate(alerts[i], input, cutoff)
  }

  /** The open, recent alert with the same key that was seen last. */
  predicate IsDuplicate(alerts: seq<Alert>, input: Input, cutoff: int, r: Option<nat>) {
    match r
    case None => NoneAfter(alerts, input, cutoff)
    case Some(i) => i < |alerts| && Candidate(alerts[i], input, cutoff) && NoneAfter(alerts, input, alerts[i].lastSeen + 1)
  }

  /** The first of them in row order, among the first n rows. */
  function Latest(alerts: seq<Alert>, input: Input, cutoff: int, n: nat): (r: Option<nat>)
    requires n <= |alerts|
    ensures r.Some? ==> r.value < n && Candidate(alerts[r.value], input, cutoff)
  {
    if n == 0 then None
    else
      var best := Latest(alerts, input, cutoff, n - 1);
      if Candidate(alerts[n - 1], input, cutoff) && (best.None? || alerts[best.value].lastSeen < alerts[n - 1].lastSeen) then Some(n - 1)
      else best
  }

  lemma {:induction false} LatestIsLast(alerts: seq<Alert>, input: Input, cutoff: int, n: nat)
    requires n <= |alerts|
    ensures IsDuplicate(alerts[..n], input, cutoff, Latest(alerts, input, cutoff, n))
  {
    if n > 0 { LatestIsLast(alerts, input, cutoff, n - 1); }
  }

  function FindDuplicate(alerts: seq<Alert>, input: Input, cutoff: int): (r: Option<nat>)
    ensures r.Some? ==> r.value < |alerts| && Candidate(alerts[r.value], input, cutoff)
  {
    Latest(alerts, input, cutoff, |alerts|)
  }

  /** Nothing is found only when there is nothing to find, and what is found
      was seen no earlier than any other candidate. */
  lemma FindDuplicateExact(alerts: seq<Alert>, input: Input, cutoff: int)
    ensures IsDuplicate(alerts, input, cutoff, FindDuplicate(alerts, input, cutoff))
  {
    LatestIsLast(alerts, input, cutoff, |alerts|);
    assert alerts[..|alerts|] == alerts;
  }

  method SearchDuplicate(alerts: seq<Alert>, input: Input, cutoff: int) returns (r: Option<nat>)
    ensures r == FindDuplicate(alerts, input, cutoff)
  {
    r := None;
    for i := 0 to |alerts|
      invariant r == Latest(alerts, input, cutoff, i)
    {
      if Candidate(alerts[i], input, cutoff) && (r.None? || alerts[r.value].lastSeen < alerts[i].lastSeen) {
        r := Some(i);
      }
    }
  }

  // ----- creating and folding ---------------------------------------------

  function NewAlert(input: Input, now: int): Alert {
    Alert(input.tenant, input.dedupKey, input.severity, input.riskScore, input.riskBucket,
          LastN(input.eventIds, MAX_EVENT_IDS), LastN(input.detectionIds, MAX_EVENT_IDS),
          1, now, now, Create(ALERTS, now))
  }

  function Fold(a: Alert, input: Input, now: int): Alert {
    var worse := input.riskScore > a.riskScore;
    a.(occurrences := a.occurrences + 1,
       lastSeen := now,
       riskScore := if worse then input.riskScore else a.riskScore,
       riskBucket := if worse then input.riskBucket else a.riskBucket,
       severity := if SeverityRank(input.severity) > SeverityRank(a.severity) then input.severity else a.severity,
       eventIds := LastN(a.eventIds + input.eventIds, MAX_EVENT_IDS),
       detectionIds := LastN(a.detectionIds + input.detectionIds, MAX_EVENT_IDS))
  }

  /** The store, with everything that was folded into each alert. */
  datatype State = State(alerts: seq<Alert>, logs: seq<seq<Seen>>)

  const EMPTY := State([], [])

  datatype Op =
    | CreateOrUpdate(input: Input, lookup: int, at: int)
    | Transit(id: nat, target: AlertStatus, at: int)

  function Created(st: State, s: Seen): State {
    State(st.alerts + [NewAlert(s.input, s.at)], st.logs + [[s]])
  }

  function Repeated(st: State, i: nat, s: Seen): State
    requires |st.logs| == |st.alerts| && i < |st.alerts|
  {
    State(st.alerts[i := Fold(st.alerts[i], s.input, s.at)], st.logs[i := st.logs[i] + [s]])
  }

  function Place(st: State, found: Option<nat>, s: Seen): State
    requires |st.logs| == |st.alerts| && (found.Some? ==> found.value < |st.alerts|)
  {
    if found.None? then Created(st, s) else Repeated(st, found.value, s)
  }

  function Receive(st: State, s: Seen, window: nat): State
    requires |st.logs| == |st.alerts|
  {
    Place(st, FindDuplicate(st.alerts, s.input, s.lookup - window), s)
  }

  function Apply(st: State, op: Op, window: nat): State
    requires |st.logs| == |st.alerts|
  {
    match op
    case CreateOrUpdate(input, lookup, at) => Receive(st, Seen(input, lookup, at), window)
    case Transit(id, target, at) =>
      if id >= |st.alerts| then st
      else st.(alerts := st.alerts[id := st.alerts[id].(life := Transition(ALERTS, st.alerts[id].life, target, at))])
  }

  // ----- an alert summarises what was folded into it ----------------------

  function EventIds(log: seq<Seen>): seq<string> {
    if log == [] then [] else EventIds(log[..|log| - 1]) + log[|log| - 1].input.eventIds
  }

  function DetectionIds(log: seq<Seen>): seq<string> {
    if log == [] then [] else DetectionIds(log[..|log| - 1]) + log[|log| - 1].input.detectionIds
  }

  /** Position w holds the first of the highest scores. */
  predicate FirstWorst(log: seq<Seen>, w: nat) {
    && w < |log|
    && (forall i :: 0 <= i < |log| ==> log[i].input.riskScore <= log[w].input.riskScore)
    && (forall i :: 0 <= i < w ==> log[i].input.riskScore < log[w].input.riskScore)
  }

  /** Position w holds the first of the most severe inputs. */
  predicate FirstSeverest(log: seq<Seen>, w: nat) {
    && w < |log|
    && (forall i :: 0 <= i < |log| ==> SeverityRank(log[i].input.severity) <= SeverityRank(log[w].input.severity))
    && (forall i :: 0 <= i < w ==> SeverityRank(log[i].input.severity) < SeverityRank(log[w].input.severity))
  }

  predicate ScoreIsWorst(a: Alert, log: seq<Seen>) {
    exists w :: 0 <= w < |log| && FirstWorst(log, w) && a.riskScore == log[w].input.riskScore && a.riskBucket == log[w].input.riskBucket
  }

  predicate SeverityIsWorst(a: Alert, log: seq<Seen>) {
    exists w :: 0 <= w < |log| && FirstSeverest(log, w) && a.severity == log[w].input.severity
  }

  /** Each occurrence was looked up no more than one window after the last one. */
  predicate OneEpisode(log: seq<Seen>, window: nat) {
    forall i, j :: 0 <= i && j == i + 1 < |log| ==> log[j].lookup - log[i].at <= window
  }

  /** The ids kept are all there are, or the last n of them. */
  predicate LastOf(kept: seq<string>, all: seq<string>, n: nat) {
    |kept| == (if |all| < n then |all| else n) && all[|all| - |kept|..] == kept
  }

  predicate IdsAreLast(a: Alert, log: seq<Seen>) {
    && LastOf(a.eventIds, EventIds(log), 200)
    && LastOf(a.detectionIds, DetectionIds(log), 200)
  }

  predicate OneKey(a: Alert, log: seq<Seen>) {
    forall i :: 0 <= i < |log| ==> log[i].input.tenant == a.tenant && log[i].input.dedupKey == a.dedupKey
  }

  predicate Summarises(a: Alert, log: seq<Seen>, window: nat) {
    && log != [] && a.occurrences == |log|
    && OneKey(a, log)
    && a.firstSeen == log[0].at && a.lastSeen == log[|log| - 1].at
    && ScoreIsWorst(a, log) && SeverityIsWorst(a, log)
    && IdsAreLast(a, log)
    && OneEpisode(log, window)
  }

  lemma FoldScore(a: Alert, log: seq<Seen>, s: Seen)
    requires log != [] && ScoreIsWorst(a, log)
    ensures ScoreIsWorst(Fold(a, s.input, s.at), log + [s])
  {
    var w :| 0 <= w < |log| && FirstWorst(log, w) && a.riskScore == log[w].input.riskScore && a.riskBucket == log[w].input.riskBucket;
    var log' := log + [s];
    if s.input.riskScore > a.riskScore {
      assert FirstWorst(log', |log|);
    } else {
      assert log'[w] == log[w] && FirstWorst(log', w);
    }
  }

  lemma FoldSeverity(a: Alert, log: seq<Seen>, s: Seen)
    requires log != [] && SeverityIsWorst(a, log)
    ensures SeverityIsWorst(Fold(a, s.input, s.at), log + [s])
  {
    var w :| 0 <= w < |log| && FirstSeverest(log, w) && a.severity == log[w].input.severity;
    var log' := log + [s];
    if SeverityRank(s.input.severity) > SeverityRank(a.severity) {
      assert FirstSeverest(log', |log|);
    } else {
      assert log'[w] == log[w] && FirstSeverest(log', w);
    }
  }

  lemma EpisodeGrows(log: seq<Seen>, s: Seen, window: nat)
    requires log != [] && OneEpisode(log, window) && s.lookup - log[|log| - 1].at <= window
    ensures OneEpisode(log + [s], window)
  {
  }

  /** Folding one more input into an exact summary gives an exact summary. */
  lemma FoldSummarises(a: Alert, log: seq<Seen>, s: Seen, window: nat)
    requires Summarises(a, log, window) && Candidate(a, s.input, s.lookup - window)
    ensures Summarises(Fold(a, s.input, s.at), log + [s], window)
  {
    FoldScore(a, log, s);
    FoldSeverity(a, log, s);
    FoldIds(a, log, s);
    FoldKey(a, log, s);
    EpisodeGrows(log, s, window);
    assert (log + [s])[0] == log[0] && (log + [s])[|log|] == s;
  }

  lemma FoldIds(a: Alert, log: seq<Seen>, s: Seen)
    requires IdsAreLast(a, log)
    ensures IdsAreLast(Fold(a, s.input, s.at), log + [s])
  {
    assert (log + [s])[..|log|] == log;
    LastNTwice(EventIds(log), s.input.eventIds, MAX_EVENT_IDS);
    LastNTwice(DetectionIds(log), s.input.detectionIds, MAX_EVENT_IDS);
  }

  lemma FoldKey(a: Alert, log: seq<Seen>, s: Seen)
    requires OneKey(a, log) && s.input.tenant == a.tenant && s.input.dedupKey == a.dedupKey
    ensures OneKey(Fold(a, s.input, s.at), log + [s])
  {
  }

  // ----- every serial run -------------------------------------------------

  function TotalSeen(logs: seq<seq<Seen>>): nat {
    if logs == [] then 0 else TotalSeen(logs[..|logs| - 1]) + |logs[|logs| - 1]|
  }

  function TotalOccurrences(alerts: seq<Alert>): nat {
    if alerts == [] then 0 else TotalOccurrences(alerts[..|alerts| - 1]) + alerts[|alerts| - 1].occurrences
  }

  predicate EntryOk(a: Alert, log: seq<Seen>, window: nat) {
    Summarises(a, log, window) && Derived(ALERTS, a.life)
  }

  predicate EntryAt(st: State, i: nat, window: nat)
    requires i < |st.alerts| == |st.logs|
  {
    EntryOk(st.alerts[i], st.logs[i], window)
  }

  predicate Inv(st: State, window: nat) {
    && |st.logs| == |st.alerts|
    && forall i :: 0 <= i < |st.alerts| ==> EntryAt(st, i, window)
  }

  lemma AddEntry(st: State, a: Alert, log: seq<Seen>, window: nat)
    requires Inv(st, window) && EntryOk(a, log, window)
    ensures Inv(State(st.alerts + [a], st.logs + [log]), window)
  {
    var st' := State(st.alerts + [a], st.logs + [log]);
    forall i | 0 <= i < |st'.alerts| ensures EntryAt(st', i, window) {
      if i < |st.alerts| { assert EntryAt(st, i, window); }
    }
  }

  lemma SetEntry(st: State, n: nat, a: Alert, log: seq<Seen>, window: nat)
    requires Inv(st, window) && n < |st.alerts| && EntryOk(a, log, window)
    ensures Inv(State(st.alerts[n := a], st.logs[n := log]), window)
  {
    var st' := State(st.alerts[n := a], st.logs[n := log]);
    forall i | 0 <= i < |st'.alerts| ensures EntryAt(st', i, window) {
      if i != n { assert EntryAt(st, i, window); }
    }
  }

  /** Moving an alert through its lifecycle leaves the summary alone. */
  lemma TransitEntry(a: Alert, log: seq<Seen>, target: AlertStatus, at: int, window: nat)
    requires EntryOk(a, log, window)
    ensures EntryOk(a.(life := Transition(ALERTS, a.life, target, at)), log, window)
  {
    TransitionDerived(ALERTS, a.life, target, at);
    var a' := a.(life := Transition(ALERTS, a.life, target, at));
    assert ScoreIsWorst(a', log) by {
      var w :| 0 <= w < |log| && FirstWorst(log, w) && a.riskScore == log[w].input.riskScore && a.riskBucket == log[w].input.riskBucket;
    }
    assert SeverityIsWorst(a', log) by {
      var w :| 0 <= w < |log| && FirstSeverest(log, w) && a.severity == log[w].input.severity;
    }
  }

  lemma CreatedKeeps(st: State, s: Seen, window: nat)
    requires Inv(st, window)
    ensures Inv(Created(st, s), window)
  {
    AddEntry(st, NewAlert(s.input, s.at), [s], window);
  }

  lemma FoldEntry(a: Alert, log: seq<Seen>, s: Seen, window: nat)
    requires EntryOk(a, log, window) && Candidate(a, s.input, s.lookup - window)
    ensures EntryOk(Fold(a, s.input, s.at), log + [s], window)
  {
    FoldSummarises(a, log, s, window);
  }

  lemma RepeatedKeeps(st: State, i: nat, s: Seen, window: nat)
    requires Inv(st, window) && i < |st.alerts| && Candidate(st.alerts[i], s.input, s.lookup - window)
    ensures Inv(Repeated(st, i, s), window)
  {
    assert EntryAt(st, i, window);
    FoldEntry(st.alerts[i], st.logs[i], s, window);
    SetEntry(st, i, Fold(st.alerts[i], s.input, s.at), st.logs[i] + [s], window);
  }

  lemma PlaceKeeps(st: State, found: Option<nat>, s: Seen, window: nat)
    requires Inv(st, window)
    requires found.Some? ==> found.value < |st.alerts| && Candidate(st.alerts[found.value], s.input, s.lookup - window)
    ensures Inv(Place(st, found, s), window)
  {
    if found.None? { CreatedKeeps(st, s, window); } else { RepeatedKeeps(st, found.value, s, window); }
  }

  lemma ReceiveKeeps(st: State, s: Seen, window: nat)
    requires Inv(st, window)
    ensures Inv(Receive(st, s, window), window)
  {
    PlaceKeeps(st, FindDuplicate(st.alerts, s.input, s.lookup - window), s, window);
  }

  lemma TransitKeeps(st: State, id: nat, target: AlertStatus, at: int, window: nat)
    requires Inv(st, window)
    ensures Inv(Apply(st, Transit(id, target, at), window), window)
  {
    if id < |st.alerts| {
      assert EntryAt(st, id, window);
      TransitEntry(st.alerts[id], st.logs[id], target, at, window);
      assert st.logs[id := st.logs[id]] == st.logs;
      SetEntry(st, id, st.alerts[id].(life := Transition(ALERTS, st.alerts[id].life, target, at)), st.logs[id], window);
    }
  }

  lemma ApplyKeeps(st: State, op: Op, window: nat)
    requires Inv(st, window)
    ensures Inv(Apply(st, op, window), window)
  {
    match op
    case CreateOrUpdate(input, lookup, at) => ReceiveKeeps(st, Seen(input, lookup, at), window);
    case Transit(id, target, at) => TransitKeeps(st, id, target, at, window);
  }

  function Exec(st: State, ops: seq<Op>, window: nat): (st': State)
    requires Inv(st, window)
    ensures Inv(st', window)
    decreases |ops|
  {
    if ops == [] then st
    else
      ApplyKeeps(st, ops[0], window);
      Exec(Apply(st, ops[0], window), ops[1..], window)
  }

  function Inputs(ops: seq<Op>): nat {
    if ops == [] then 0 else (if ops[0].CreateOrUpdate? then 1 else 0) + Inputs(ops[1..])
  }

  lemma {:induction false} TotalUpdate(logs: seq<seq<Seen>>, i: nat, log: seq<Seen>)
    requires i < |logs|
    ensures TotalSeen(logs[i := log]) == TotalSeen(logs) - |logs[i]| + |log|
  {
    var n := |logs| - 1;
    if i < n {
      assert logs[i := log][..n] == logs[..n][i := log];
      TotalUpdate(logs[..n], i, log);
    } else {
      assert logs[i := log][..n] == logs[..n];
    }
  }

  lemma PlaceCounts(st: State, found: Option<nat>, s: Seen)
    requires |st.logs| == |st.alerts| && (found.Some? ==> found.value < |st.alerts|)
    ensures TotalSeen(Place(st, found, s).logs) == TotalSeen(st.logs) + 1
  {
    if found.None? {
      assert (st.logs + [[s]])[..|st.logs|] == st.logs;
    } else {
      TotalUpdate(st.logs, found.value, st.logs[found.value] + [s]);
    }
  }

  lemma ReceiveCounts(st: State, s: Seen, window: nat)
    requires |st.logs| == |st.alerts|
    ensures TotalSeen(Receive(st, s, window).logs) == TotalSeen(st.logs) + 1
  {
    PlaceCounts(st, FindDuplicate(st.alerts, s.input, s.lookup - window), s);
  }

  lemma ApplyCounts(st: State, op: Op, window: nat)
    requires |st.logs| == |st.alerts|
    ensures TotalSeen(Apply(st, op, window).logs) == TotalSeen(st.logs) + if op.CreateOrUpdate? then 1 else 0
  {
    if op.CreateOrUpdate? {
      ReceiveCounts(st, Seen(op.input, op.lookup, op.at), window);
    }
  }

  lemma {:induction false} ExecCounts(st: State, ops: seq<Op>, window: nat)
    requires Inv(st, window)
    ensures TotalSeen(Exec(st, ops, window).logs) == TotalSeen(st.logs) + Inputs(ops)
    decreases |ops|
  {
    if ops != [] {
      ApplyKeeps(st, ops[0], window);
      ApplyCounts(st, ops[0], window);
      ExecCounts(Apply(st, ops[0], window), ops[1..], window);
    }
  }

  lemma {:induction false} OccurrencesAreSeen(alerts: seq<Alert>, logs: seq<seq<Seen>>)
    requires |alerts| == |logs| && forall i :: 0 <= i < |alerts| ==> alerts[i].occurrences == |logs[i]|
    ensures TotalOccurrences(alerts) == TotalSeen(logs)
  {
    if alerts != [] {
      var n := |alerts| - 1;
      OccurrencesAreSeen(alerts[..n], logs[..n]);
    }
  }

  /** Deduplication keeps an exact summary, over any serial run of inputs and
      transitions: nothing is lost or counted twice, and every alert says of
      its inputs exactly what its fields claim. */
  lemma ExactSummary(ops: seq<Op>, window: nat)
    ensures var st := Exec(EMPTY, ops, window);
            && TotalOccurrences(st.alerts) == Inputs(ops)
            && |st.logs| == |st.alerts|
            && forall i :: 0 <= i < |st.alerts| ==> Summarises(st.alerts[i], st.logs[i], window)
  {
    var st := Exec(EMPTY, ops, window);
    ExecCounts(EMPTY, ops, window);
    forall i | 0 <= i < |st.alerts| ensures Summarises(st.alerts[i], st.logs[i], window) {
      assert EntryAt(st, i, window);
    }
    OccurrencesAreSeen(st.alerts, st.logs);
  }

  /** And the lifecycle fields of every alert are what its history says, however
      inputs and transitions are mixed. */
  lemma LifecyclesAreDerived(ops: seq<Op>, window: nat, i: nat)
    requires i < |Exec(EMPTY, ops, window).alerts|
    ensures Derived(ALERTS, Exec(EMPTY, ops, window).alerts[i].life)
  {
    var st := Exec(EMPTY, ops, window);
    assert EntryAt(st, i, window);
  }

  // ----- every input is in exactly one alert, in order -----------------------

  function SeenOf(ops: seq<Op>): seq<Seen> {
    if ops == [] then []
    else (if ops[0].CreateOrUpdate? then [Seen(ops[0].input, ops[0].lookup, ops[0].at)] else []) + SeenOf(ops[1..])
  }

  /** Those of `seen` that alert i owns, in order. */
  function Owned(seen: seq<Seen>, owners: seq<nat>, i: nat): seq<Seen>
    requires |owners| == |seen|
  {
    if seen == [] then []
    else
      var n := |seen| - 1;
      Owned(seen[..n], owners[..n], i) + if owners[n] == i then [seen[n]] else []
  }

  predicate Partition(logs: seq<seq<Seen>>, seen: seq<Seen>, owners: seq<nat>) {
    && |owners| == |seen|
    && (forall k :: 0 <= k < |owners| ==> owners[k] < |logs|)
    && forall i :: 0 <= i < |logs| ==> logs[i] == Owned(seen, owners, i)
  }

  lemma OwnedSnoc(seen: seq<Seen>, owners: seq<nat>, s: Seen, k: nat, i: nat)
    requires |owners| == |seen|
    ensures Owned(seen + [s], owners + [k], i) == Owned(seen, owners, i) + if k == i then [s] else []
  {
    assert (seen + [s])[..|seen|] == seen && (owners + [k])[..|seen|] == owners;
  }

  lemma {:induction false} NotOwned(seen: seq<Seen>, owners: seq<nat>, i: nat)
    requires |owners| == |seen| && forall k :: 0 <= k < |owners| ==> owners[k] < i
    ensures Owned(seen, owners, i) == []
  {
    if seen != [] { NotOwned(seen[..|seen| - 1], owners[..|seen| - 1], i); }
  }

  lemma CreatedPartition(logs: seq<seq<Seen>>, seen: seq<Seen>, owners: seq<nat>, s: Seen)
    requires Partition(logs, seen, owners)
    ensures Partition(logs + [[s]], seen + [s], owners + [|logs|])
  {
    NotOwned(seen, owners, |logs|);
    forall i | 0 <= i <= |logs| ensures (logs + [[s]])[i] == Owned(seen + [s], owners + [|logs|], i) {
      OwnedSnoc(seen, owners, s, |logs|, i);
    }
  }

  lemma RepeatedPartition(logs: seq<seq<Seen>>, seen: seq<Seen>, owners: seq<nat>, s: Seen, k: nat)
    requires Partition(logs, seen, owners) && k < |logs|
    ensures Partition(logs[k := logs[k] + [s]], seen + [s], owners + [k])
  {
    forall i | 0 <= i < |logs| ensures logs[k := logs[k] + [s]][i] == Owned(seen + [s], owners + [k], i) {
      OwnedSnoc(seen, owners, s, k, i);
    }
  }

  lemma PlacePartition(st: State, found: Option<nat>, s: Seen, seen: seq<Seen>, owners: seq<nat>) returns (owners': seq<nat>)
    requires |st.logs| == |st.alerts| && (found.Some? ==> found.value < |st.alerts|)
    requires Partition(st.logs, seen, owners)
    ensures Partition(Place(st, found, s).logs, seen + [s], owners')
  {
    if found.None? {
      CreatedPartition(st.logs, seen, owners, s);
      owners' := owners + [|st.logs|];
    } else {
      RepeatedPartition(st.logs, seen, owners, s, found.value);
      owners' := owners + [found.value];
    }
  }

  lemma ApplyPartition(st: State, op: Op, window: nat, seen: seq<Seen>, owners: seq<nat>) returns (owners': seq<nat>)
    requires |st.logs| == |st.alerts| && Partition(st.logs, seen, owners)
    ensures Partition(Apply(st, op, window).logs, seen + SeenOf([op]), owners')
  {
    assert [op][1..] == [];
    if op.Transit? {
      assert seen + SeenOf([op]) == seen;
      return owners;
    }
    var s := Seen(op.input, op.lookup, op.at);
    assert SeenOf([op]) == [s];
    owners' := PlacePartition(st, FindDuplicate(st.alerts, op.input, op.lookup - window), s, seen, owners);
  }

  lemma {:induction false} ExecPartition(st: State, ops: seq<Op>, window: nat, seen: seq<Seen>, owners: seq<nat>)
    returns (owners': seq<nat>)
    requires Inv(st, window) && Partition(st.logs, seen, owners)
    ensures Partition(Exec(st, ops, window).logs, seen + SeenOf(ops), owners')
    decreases |ops|
  {
    if ops == [] {
      assert seen + SeenOf(ops) == seen;
      return owners;
    }
    ApplyKeeps(st, ops[0], window);
    var next := ApplyPartition(st, ops[0], window, seen, owners);
    owners' := ExecPartition(Apply(st, ops[0], window), ops[1..], window, seen + SeenOf([ops[0]]), next);
    assert [ops[0]][1..] == [];
    assert seen + SeenOf([ops[0]]) + SeenOf(ops[1..]) == seen + SeenOf(ops);
  }

  /** Every input of a run belongs to exactly one alert, and the log an alert
      summarises is what it owns of the run, in the order received. */
  lemma EveryInputHasOneAlert(ops: seq<Op>, window: nat) returns (owners: seq<nat>)
    ensures Partition(Exec(EMPTY, ops, window).logs, SeenOf(ops), owners)
  {
    owners := ExecPartition(EMPTY, ops, window, [], []);
    assert [] + SeenOf(ops) == SeenOf(ops);
  }

  // ----- how far apart the stamps of one alert are --------------------------

  lemma {:induction false} OwnedMembers(seen: seq<Seen>, owners: seq<nat>, i: nat)
    requires |owners| == |seen|
    ensures forall s :: s in Owned(seen, owners, i) ==> s in seen
  {
    if seen != [] { OwnedMembers(seen[..|seen| - 1], owners[..|seen| - 1], i); }
  }

  /** The stamp is taken after the lookup. If it never trails it by more than d,
      consecutive stamps of one alert are at most a window and d apart; with
      d == 0, at most one window. */
  lemma StampsAreClose(ops: seq<Op>, window: nat, d: nat, i: nat, k: nat)
    requires forall s :: s in SeenOf(ops) ==> s.at - s.lookup <= d
    requires i < |Exec(EMPTY, ops, window).logs| && 0 < k < |Exec(EMPTY, ops, window).logs[i]|
    ensures var log := Exec(EMPTY, ops, window).logs[i]; log[k].at - log[k - 1].at <= window + d
  {
    var st := Exec(EMPTY, ops, window);
    var owners := EveryInputHasOneAlert(ops, window);
    OwnedMembers(SeenOf(ops), owners, i);
    assert EntryAt(st, i, window);
    var log := st.logs[i];
    assert log[k] in log && log[k] in SeenOf(ops);
    var j := k - 1;
    assert log[k].lookup - log[j].at <= window;
  }

  /** And that distance is reached, for every window and every delay, so with
      two readings of the clock stamps can be more than a window apart. */
  lemma StampsReachTheBound(input: Input, window: nat, d: nat)
    ensures var ops := [CreateOrUpdate(input, 0, 0), CreateOrUpdate(input, window, window + d)];
            var st := Exec(EMPTY, ops, window);
            && |st.alerts| == 1 && st.logs == [[Seen(input, 0, 0), Seen(input, window, window + d)]]
            && st.alerts[0].lastSeen == window + d
  {
    var first, second := CreateOrUpdate(input, 0, 0), CreateOrUpdate(input, window, window + d);
    var st1 := Apply(EMPTY, first, window);
    FirstIsOpened(input, window);
    ApplyKeeps(EMPTY, first, window);
    SecondIsFolded(st1, input, window, d);
    ApplyKeeps(st1, second, window);
    assert [first, second][1..] == [second] && [second][1..] == [];
    assert Exec(st1, [second], window) == Apply(st1, second, window);
  }

  lemma FirstIsOpened(input: Input, window: nat)
    ensures Apply(EMPTY, CreateOrUpdate(input, 0, 0), window) == State([NewAlert(input, 0)], [[Seen(input, 0, 0)]])
  {
  }

  lemma SecondIsFolded(st: State, input: Input, window: nat, d: nat)
    requires st == State([NewAlert(input, 0)], [[Seen(input, 0, 0)]])
    ensures Apply(st, CreateOrUpdate(input, window, window + d), window) ==
            State([Fold(NewAlert(input, 0), input, window + d)], [[Seen(input, 0, 0), Seen(input, window, window + d)]])
  {
    var s := Seen(input, window, window + d);
    assert Candidate(st.alerts[0], input, window - window);
    FindDuplicateExact(st.alerts, input, 0);
    assert FindDuplicate(st.alerts, input, 0) == Some(0);
    assert [Seen(input, 0, 0)] + [s] == [Seen(input, 0, 0), s];
    assert Receive(st, s, window) == Place(st, Some(0), s) == Repeated(st, 0, s);
  }

  /** Known severities in order; anything else ranks with the lowest. */
  lemma SeverityOrder(s: string)
    ensures SeverityRank("critical") > SeverityRank("high") > SeverityRank("medium") > SeverityRank("low") > SeverityRank("informational")
    ensures s !in ["low", "medium", "high", "critical"] ==> SeverityRank(s) == SeverityRank("informational")
  {
    Ranks("informational");
    Ranks("low");
    Ranks("medium");
    Ranks("high");
    Ranks("critical");
    Ranks(s);
    assert |"informational"| == 13 && |"low"| == 3 && |"medium"| == 6 && |"high"| == 4 && |"critical"| == 8;
  }

  lemma Ranks(s: string)
    ensures SeverityRank(s) == if s == "low" then 1 else if s == "medium" then 2 else if s == "high" then 3 else if s == "critical" then 4 else 0
  {
    var order := SEVERITY_ORDER;
    assert order[0] == "informational" && order[1] == "low" && order[2] == "medium" && order[3] == "high" && order[4] == "critical";
    assert IndexOrZero(order, s, 5) == 0;
    assert IndexOrZero(order, s, 4) == if order[4] == s then 4 else 0;
    assert IndexOrZero(order, s, 3) == if order[3] == s then 3 else IndexOrZero(order, s, 4);
    assert IndexOrZero(order, s, 2) == if order[2] == s then 2 else IndexOrZero(order, s, 3);
    assert IndexOrZero(order, s, 1) == if order[1] == s then 1 else IndexOrZero(order, s, 2);
    assert |"informational"| == 13 && |"low"| == 3 && |"medium"| == 6 && |"high"| == 4 && |"critical"| == 8;
  }

  /** A new alert is opened exactly when no open alert with the key was seen
      within the window; so what was closed is never folded into. */
  lemma CreatesExactlyWhenNew(st: State, input: Input, lookup: int, at: int, window: nat)
    requires |st.logs| == |st.alerts|
    ensures |Apply(st, CreateOrUpdate(input, lookup, at), window).alerts| == |st.alerts| + 1 <==>
            forall i :: 0 <= i < |st.alerts| ==> !SameEpisode(st.alerts[i], input, lookup - window)
  {
    FindDuplicateExact(st.alerts, input, lookup - window);
    forall i | 0 <= i < |st.alerts| ensures Candidate(st.alerts[i], input, lookup - window) <==> SameEpisode(st.alerts[i], input, lookup - window) {
    }
  }

  // ----- the service ------------------------------------------------------

  method FoldInto(existing: Alert, input: Input, now: int) returns (a: Alert)
    ensures a == Fold(existing, input, now)
  {
    a := existing.(occurrences := existing.occurrences + 1, lastSeen := now);
    if input.riskScore > a.riskScore {
      a := a.(riskScore := input.riskScore, riskBucket := input.riskBucket);
    }
    if SeverityRank(input.severity) > SeverityRank(a.severity) {
      a := a.(severity := input.severity);
    }
    var merged := a.eventIds + input.eventIds;
    a := a.(eventIds := LastN(merged, MAX_EVENT_IDS));
    a := a.(detectionIds := LastN(a.detectionIds + input.detectionIds, MAX_EVENT_IDS));
  }

  class Service {
    var alerts: seq<Alert>
    ghost var logs: seq<seq<Seen>>
    const window: nat

    ghost function St(): State
      reads this
    {
      State(alerts, logs)
    }

    ghost predicate Valid()
      reads this
    {
      Inv(St(), window)
    }

    constructor (window: nat)
      ensures Valid() && St() == EMPTY && this.window == window
    {
      this.window := window;
      alerts, logs := [], [];
    }

    method CreateOrUpdateAlert(input: Input, lookup: int, now: int) returns (id: nat, created: bool)
      requires Valid()
      modifies this
      ensures Valid()
      ensures St() == Receive(old(St()), Seen(input, lookup, now), window)
      ensures created ==> id == |old(alerts)| && |alerts| == |old(alerts)| + 1
      ensures !created ==> id < |old(alerts)| == |alerts| && SameEpisode(old(alerts)[id], input, lookup - window)
      ensures |logs| == |alerts| && id < |alerts| && logs[id] != [] && logs[id][|logs[id]| - 1] == Seen(input, lookup, now)
      ensures forall k :: 0 <= k < |old(alerts)| && k != id ==> alerts[k] == old(alerts)[k] && logs[k] == old(logs)[k]
      ensures if created then alerts[id].life.status == AlertStatus.New else alerts[id].life == old(alerts)[id].life
    {
      var existing := SearchDuplicate(alerts, input, lookup - window);
      id, created := PlaceInput(existing, input, lookup, now);
    }

    method PlaceInput(existing: Option<nat>, input: Input, ghost lookup: int, now: int) returns (id: nat, created: bool)
      requires Valid()
      requires existing.Some? ==> existing.value < |alerts| && Candidate(alerts[existing.value], input, lookup - window)
      modifies this
      ensures Valid()
      ensures St() == Place(old(St()), existing, Seen(input, lookup, now))
      ensures created ==> id == |old(alerts)| && |alerts| == |old(alerts)| + 1
      ensures !created ==> id < |old(alerts)| == |alerts| && SameEpisode(old(alerts)[id], input, lookup - window)
      ensures |logs| == |alerts| && id < |alerts| && logs[id] != [] && logs[id][|logs[id]| - 1] == Seen(input, lookup, now)
      ensures forall k :: 0 <= k < |old(alerts)| && k != id ==> alerts[k] == old(alerts)[k] && logs[k] == old(logs)[k]
      ensures if created then alerts[id].life.status == AlertStatus.New else alerts[id].life == old(alerts)[id].life
    {
      PlaceKeeps(St(), existing, Seen(input, lookup, now), window);
      if existing.Some? {
        id, created := existing.value, false;
        var a := FoldInto(alerts[id], input, now);
        alerts := alerts[id := a];
        logs := logs[id := logs[id] + [Seen(input, lookup, now)]];
      } else {
        id, created := |alerts|, true;
        alerts := alerts + [NewAlert(input, now)];
        logs := logs + [[Seen(input, lookup, now)]];
      }
    }

    method TransitionAlert(tenant: nat, id: nat, target: AlertStatus, now: int) returns (verdict: Option<Verdict>)
      requires Valid()
      modifies this
      ensures Valid()
      ensures verdict == if id < |old(alerts)| && old(alerts)[id].tenant == tenant
                         then Some(Judge(ALERTS, old(alerts)[id].life, target)) else None
      ensures St() == if verdict.Some? then Apply(old(St()), Transit(id, target, now), window) else old(St())
      ensures verdict != Some(Moved) ==> alerts == old(alerts)
      ensures verdict == Some(Moved) ==>
                && |alerts| == |old(alerts)| && alerts[id].life.status == target && alerts[id] == old(alerts)[id].(life := alerts[id].life)
                && forall k :: 0 <= k < |alerts| && k != id ==> alerts[k] == old(alerts)[k]
    {
      if id >= |alerts| || alerts[id].tenant != tenant { return None; }
      ApplyKeeps(St(), Transit(id, target, now), window);
      var life := alerts[id].life;
      verdict := Some(Judge(ALERTS, life, target));
      if target == life.status || target !in AlertAllowed(life.status) {
        assert alerts == alerts[id := alerts[id].(life := life)];
        return;
      }
      var current := life.status;
      life := life.(status := target);
      if target.InProgress? && life.milestoneAt.None? {
        life := life.(milestoneAt := Some(now));
      }
      life := life.(closedAt := if target in ALERTS.closing then Some(now) else None);
      life := life.(history := life.history + [Move(Some(current), target, now)]);
      alerts := alerts[id := alerts[id].(life := life)];
    }
  }
}
