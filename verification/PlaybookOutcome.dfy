/** What one call does, said by where a run must stop and without following the
    engine: the step it stops at, and what is then on record. */
module PlaybookOutcome {
  import opened Text
  import opened Playbooks
  import opened PlaybookRuns

  /** The first step from `from` on that needs approval or cannot be carried out. */
  function FirstStop(steps: seq<StepDef>, world: World, from: nat): (n: nat)
    requires from <= |steps|
    ensures from <= n <= |steps|
    ensures forall i :: from <= i < n ==> !steps[i].destructive && world.executes(i)
    ensures n < |steps| ==> steps[n].destructive || !world.executes(n)
    decreases |steps| - from
  {
    if from == |steps| || steps[from].destructive || !world.executes(from) then from else FirstStop(steps, world, from + 1)
  }

  function Entries(steps: seq<StepDef>, from: nat, n: nat): (es: seq<Entry>)
    requires from <= n <= |steps|
    ensures |es| == n - from && forall i :: 0 <= i < |es| ==> es[i] == Entry(from + i, steps[from + i].action, Result)
  {
    seq(n - from, i requires 0 <= i < n - from => Entry(from + i, steps[from + i].action, Result))
  }

  function Carried(r: nat, from: nat, n: nat): (es: seq<Effect>)
    requires from <= n
    ensures |es| == n - from && forall i :: 0 <= i < |es| ==> es[i] == Effect(r, from + i)
  {
    seq(n - from, i requires 0 <= i < n - from => Effect(r, from + i))
  }

  /** The run stops for a decision: the step is destructive, somebody is on
      record to ask for it, and there is something to show. */
  predicate Asks(run: Run, world: World, n: nat) {
    n < |run.steps| && run.steps[n].destructive && run.trigger.Some? && world.previews(n)
  }

  /** The run went from where it stood to step n, carried out every step before
      n once and in order, and ended there: completed, waiting with one new
      pending row for n, or failed with one error entry for n. */
  predicate Landed(st: State, st': State, r: nat, world: World, n: nat)
    requires r < |st.runs| && st.runs[r].current <= n <= |st.runs[r].steps|
  {
    var run := st.runs[r];
    var results := run.results + Entries(run.steps, run.current, n);
    && st'.effects == st.effects + Carried(r, run.current, n)
    && if n == |run.steps| then
         && st'.runs == st.runs[r := run.(status := Completed, current := n, results := results)]
         && st'.approvals == st.approvals
       else if Asks(run, world, n) then
         && st'.runs == st.runs[r := run.(status := AwaitingApproval, current := n, results := results)]
         && st'.approvals == st.approvals +
              [Approval(run.tenant, r, n, run.steps[n].action, run.trigger.value, PendingApproval, None)]
       else
         && st'.runs == st.runs[r := run.(status := Failed, current := n,
                                          results := results + [Entry(n, run.steps[n].action, Error)])]
         && st'.approvals == st.approvals
  }

  predicate NoRowsFrom(approvals: seq<Approval>, r: nat, from: nat) {
    forall k :: 0 <= k < |approvals| && approvals[k].run == r ==> approvals[k].step < from
  }

  lemma NoGrant(approvals: seq<Approval>, tenant: Tenant, r: nat, step: nat, action: string)
    requires NoRowsFrom(approvals, r, step)
    ensures RequireApproved(approvals, tenant, r, step, action).None?
  {
  }

  /** One step done, and the rest lands: the whole lands. */
  lemma LandedAfterStep(st: State, st': State, r: nat, world: World, n: nat)
    requires r < |st.runs| && st.runs[r].current < n <= |st.runs[r].steps|
    requires Landed(Advance(st, r), st', r, world, n)
    ensures Landed(st, st', r, world, n)
  {
    var run := st.runs[r];
    var c := run.current;
    assert Carried(r, c, n) == [Effect(r, c)] + Carried(r, c + 1, n);
    assert st.effects + [Effect(r, c)] + Carried(r, c + 1, n) == st.effects + Carried(r, c, n);
    assert Entries(run.steps, c, n) == [Entry(c, run.steps[c].action, Result)] + Entries(run.steps, c + 1, n);
    assert run.results + [Entry(c, run.steps[c].action, Result)] + Entries(run.steps, c + 1, n) == run.results + Entries(run.steps, c, n);
    var next := Advance(st, r);
    assert next.runs == st.runs[r := next.runs[r]];
    assert next.runs[r := st'.runs[r]] == st.runs[r := st'.runs[r]];
  }

  lemma LandedHere(st: State, r: nat, world: World)
    requires r < |st.runs| && st.runs[r].current <= |st.runs[r].steps|
    requires NoRowsFrom(st.approvals, r, st.runs[r].current)
    requires var run := st.runs[r]; FirstStop(run.steps, world, run.current) == run.current
    ensures Landed(st, RunFrom(st, r, world, st.runs[r].trigger), r, world, st.runs[r].current)
  {
    var run := st.runs[r];
    assert run.results + Entries(run.steps, run.current, run.current) == run.results;
    assert st.effects + Carried(r, run.current, run.current) == st.effects;
    if run.current < |run.steps| {
      NoGrant(st.approvals, run.tenant, r, run.current, run.steps[run.current].action);
    }
  }

  /** A call of the engine on a run without rows ahead lands at the first step
      that needs approval or cannot be carried out. */
  lemma {:induction false} EngineLands(st: State, r: nat, world: World)
    requires r < |st.runs| && st.runs[r].current <= |st.runs[r].steps|
    requires NoRowsFrom(st.approvals, r, st.runs[r].current)
    ensures var run := st.runs[r];
            Landed(st, RunFrom(st, r, world, run.trigger), r, world, FirstStop(run.steps, world, run.current))
    decreases |st.runs[r].steps| - st.runs[r].current
  {
    var run := st.runs[r];
    if FirstStop(run.steps, world, run.current) == run.current {
      LandedHere(st, r, world);
    } else {
      EngineLands(Advance(st, r), r, world);
      LandedAfterStep(st, RunFrom(st, r, world, run.trigger), r, world, FirstStop(run.steps, world, run.current));
    }
  }

  // ----- starting ---------------------------------------------------------

  /** A started real run: a new run row, which lands. */
  lemma StartLands(st: State, tenant: Tenant, steps: seq<StepDef>, actor: Option<User>, world: World)
    requires Inv(st)
    ensures var begun := st.(runs := st.runs + [Run(tenant, steps, false, actor, Running, 0, [])]);
            var started := StartRun(st, tenant, steps, actor, false, world);
            started.1.Done? && Landed(begun, started.0, |st.runs|, world, FirstStop(steps, world, 0))
  {
    EngineLands(st.(runs := st.runs + [Run(tenant, steps, false, actor, Running, 0, [])]), |st.runs|, world);
  }

  /** A dry run previews everything or raises; it touches nothing else. */
  lemma DryRunPreviews(st: State, tenant: Tenant, steps: seq<StepDef>, actor: Option<User>, world: World)
    ensures var started := StartRun(st, tenant, steps, actor, true, world);
            if exists i :: 0 <= i < |steps| && !world.previews(i) then started == (st, Raised)
            else
              && started.1.Done? && started.0.approvals == st.approvals && started.0.effects == st.effects
              && |started.0.runs| == |st.runs| + 1 && started.0.runs[..|st.runs|] == st.runs
              && started.0.runs[|st.runs|].status.Completed? && |started.0.runs[|st.runs|].results| == |steps|
              && forall i :: 0 <= i < |steps| ==> started.0.runs[|st.runs|].results[i] == Entry(i, steps[i].action, Preview)
  {
  }

  // ----- deciding ---------------------------------------------------------

  /** The approved step is carried out and its row used up, or the run fails there. */
  function AfterDecision(st: State, id: nat, approver: User, done: bool): State
    requires id < |st.approvals| && st.approvals[id].run < |st.runs|
  {
    var a := st.approvals[id];
    var run := st.runs[a.run];
    if done then
      State(st.runs[a.run := run.(status := Running, current := a.step + 1, results := run.results + [Entry(a.step, a.action, Result)])],
            st.approvals[id := a.(status := Executed, decidedBy := Some(approver))],
            st.effects + [Effect(a.run, a.step)])
    else
      State(st.runs[a.run := run.(status := Failed, results := run.results + [Entry(a.step, a.action, Error)])],
            st.approvals[id := a.(status := Approved, decidedBy := Some(approver))],
            st.effects)
  }

  /** The grant found for an approved step is the row just decided. */
  lemma GrantIsTheRow(st: State, tenant: Tenant, id: nat, approver: User)
    requires Inv(st) && AtRest(st) && Refusal(st, tenant, id, approver).Done?
    ensures var a := st.approvals[id];
            && a.run < |st.runs| && st.runs[a.run].current == a.step < |st.runs[a.run].steps|
            && st.runs[a.run].steps[a.step] == StepDef(a.action, true)
            && RequireApproved(Decide(st, id, approver, Approved, Running).approvals, st.runs[a.run].tenant, a.run, a.step, a.action) == Some(id)
  {
    var a := st.approvals[id];
    assert RowOk(st.runs[a.run], a);
    DecideKeeps(st, tenant, id, approver, true);
    var decided := Decide(st, id, approver, Approved, Running).approvals;
    assert UniqueRows(decided);
    var k := RequireApproved(decided, st.runs[a.run].tenant, a.run, a.step, a.action);
    assert Grants(decided[id], st.runs[a.run].tenant, a.run, a.step, a.action);
  }

  lemma DecidedThenDone(st: State, tenant: Tenant, id: nat, approver: User)
    requires Inv(st) && AtRest(st) && Refusal(st, tenant, id, approver).Done?
    ensures var r := st.approvals[id].run;
            var going := Decide(st, id, approver, Approved, Running);
            && r < |going.runs| && going.runs[r].current < |going.runs[r].steps|
            && Advance(MarkExecuted(going, id), r) == AfterDecision(st, id, approver, true)
            && Fail(going, r) == AfterDecision(st, id, approver, false)
  {
    GrantIsTheRow(st, tenant, id, approver);
  }

  lemma NoRowsAhead(st: State, tenant: Tenant, id: nat, approver: User)
    requires Inv(st) && AtRest(st) && Refusal(st, tenant, id, approver).Done?
    ensures NoRowsFrom(AfterDecision(st, id, approver, true).approvals, st.approvals[id].run, st.approvals[id].step + 1)
  {
    var after, r := AfterDecision(st, id, approver, true).approvals, st.approvals[id].run;
    assert RowOk(st.runs[r], st.approvals[id]);
    GrantIsTheRow(st, tenant, id, approver);
    forall k | 0 <= k < |after| && after[k].run == r ensures after[k].step < st.approvals[id].step + 1 {
      assert RowOk(st.runs[r], st.approvals[k]);
    }
  }

  /** An approval: if the step cannot be carried out the run fails there, with
      the row approved and unused. Otherwise the step is done, its row executed,
      and the run goes on from the next step and lands. */
  lemma ApprovalLands(st: State, tenant: Tenant, id: nat, approver: User, world: World)
    requires Inv(st) && AtRest(st) && Refusal(st, tenant, id, approver).Done?
    ensures var a := st.approvals[id];
            var decided := ApproveAction(st, tenant, id, approver, world);
            && a.run < |st.runs| && a.step + 1 <= |st.runs[a.run].steps| && decided.1.Done?
            && if !world.executes(a.step) then decided.0 == AfterDecision(st, id, approver, false)
               else
                 Landed(AfterDecision(st, id, approver, true), decided.0, a.run, world,
                        FirstStop(st.runs[a.run].steps, world, a.step + 1))
  {
    GrantIsTheRow(st, tenant, id, approver);
    DecidedThenDone(st, tenant, id, approver);
    if world.executes(st.approvals[id].step) {
      NoRowsAhead(st, tenant, id, approver);
      EngineLands(AfterDecision(st, id, approver, true), st.approvals[id].run, world);
    }
  }

  /** A rejection ends the run, and a refused decision of either kind changes
      nothing. */
  lemma RejectionEnds(st: State, tenant: Tenant, id: nat, approver: User, world: World)
    requires Inv(st) && AtRest(st)
    ensures var refusal := Refusal(st, tenant, id, approver);
            if refusal.Done? then
              var a := st.approvals[id];
              && a.run < |st.runs|
              && RejectAction(st, tenant, id, approver) ==
                 (State(st.runs[a.run := st.runs[a.run].(status := RunStatus.Rejected)],
                        st.approvals[id := a.(status := Refused, decidedBy := Some(approver))], st.effects), Done)
            else RejectAction(st, tenant, id, approver) == (st, refusal) && ApproveAction(st, tenant, id, approver, world) == (st, refusal)
  {
    if Refusal(st, tenant, id, approver).Done? { DecideKeeps(st, tenant, id, approver, false); }
  }

  // ----- the gate ---------------------------------------------------------

  /** The gate opens exactly for an approved row of this tenant, run, step and
      action, and the action's own check asks for the same tenant and action. */
  lemma GateExactly(approvals: seq<Approval>, tenant: Tenant, run: nat, step: nat, action: string, grant: nat, found: bool)
    ensures RequireApproved(approvals, tenant, run, step, action).Some? <==>
            exists k :: 0 <= k < |approvals| && approvals[k].tenant == tenant && approvals[k].run == run
              && approvals[k].step == step && approvals[k].action == action && approvals[k].status == Approved
    ensures ExecuteDestructive(approvals, tenant, action, grant, found) <==>
            && found && grant < |approvals| && approvals[grant].tenant == tenant
            && approvals[grant].action == action && approvals[grant].status == Approved
  {
    var gate := RequireApproved(approvals, tenant, run, step, action);
    if gate.Some? { assert approvals[gate.value].status == Approved; }
    forall k | 0 <= k < |approvals| ensures
      Grants(approvals[k], tenant, run, step, action) <==>
      && approvals[k].tenant == tenant && approvals[k].run == run
      && approvals[k].step == step && approvals[k].action == action && approvals[k].status == Approved
    {
    }
  }
}
