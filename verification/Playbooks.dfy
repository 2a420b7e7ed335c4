/** The playbook engine and its approval workflow, as serial transactions over
    run rows and approval rows. */
module Playbooks {
  import opened Text

  type User = nat
  type Tenant = nat

  datatype RunStatus = Running | AwaitingApproval | Completed | Failed | Rejected

  datatype ApprovalStatus = PendingApproval | Approved | Refused | Executed

  datatype StepDef = StepDef(action: string, destructive: bool)

  datatype Kind = Preview | Result | Error

  datatype Entry = Entry(step: nat, action: string, kind: Kind)

  datatype Run = Run(
    tenant: Tenant, steps: seq<StepDef>, dryRun: bool, trigger: Option<User>,
    status: RunStatus, current: nat, results: seq<Entry>)

  datatype Approval = Approval(
    tenant: Tenant, run: nat, step: nat, action: string, requestedBy: User,
    status: ApprovalStatus, decidedBy: Option<User>)

  /** An action that was really carried out. */
  datatype Effect = Effect(run: nat, step: nat)

  /** The database: rows are named by their position. `effects` is what the
      actions have done to users and assets, in order. */
  datatype State = State(runs: seq<Run>, approvals: seq<Approval>, effects: seq<Effect>)

  const EMPTY := State([], [], [])

  /** What a call finds outside: which steps have a target to act on, and which
      can be previewed. */
  datatype World = World(executes: nat -> bool, previews: nat -> bool)

  // ----- the approval gate ------------------------------------------------

  predicate Grants(a: Approval, tenant: Tenant, run: nat, step: nat, action: string) {
    a.tenant == tenant && a.run == run && a.step == step && a.action == action && a.status.Approved?
  }

  /** `require_approved`: an approved row for this exact run, step and action. */
  function RequireApproved(approvals: seq<Approval>, tenant: Tenant, run: nat, step: nat, action: string): (r: Option<nat>)
    ensures r.Some? ==> r.value < |approvals| && Grants(approvals[r.value], tenant, run, step, action)
    ensures r.None? ==> forall k :: 0 <= k < |approvals| ==> !Grants(approvals[k], tenant, run, step, action)
  {
    if approvals == [] then None
    else
      var n := |approvals| - 1;
      var front := RequireApproved(approvals[..n], tenant, run, step, action);
      if front.Some? then front
      else if Grants(approvals[n], tenant, run, step, action) then Some(n)
      else None
  }

  /** `_verify_grant`: the check a destructive action makes for itself. */
  predicate VerifyGrant(approvals: seq<Approval>, tenant: Tenant, action: string, grant: nat) {
    && grant < |approvals|
    && approvals[grant].tenant == tenant && approvals[grant].action == action && approvals[grant].status.Approved?
  }

  /** `execute` of a destructive action: whatever grant it is handed, nothing
      happens unless that grant names an approved row for this action. */
  function ExecuteDestructive(approvals: seq<Approval>, tenant: Tenant, action: string, grant: nat, targetFound: bool): (done: bool)
    ensures done ==> VerifyGrant(approvals, tenant, action, grant) && targetFound
  {
    VerifyGrant(approvals, tenant, action, grant) && targetFound
  }

  // ----- the engine -------------------------------------------------------

  function SetRun(st: State, r: nat, run: Run): State
    requires r < |st.runs|
  {
    st.(runs := st.runs[r := run])
  }

  function Fail(st: State, r: nat): State
    requires r < |st.runs| && st.runs[r].current < |st.runs[r].steps|
  {
    var run := st.runs[r];
    SetRun(st, r, run.(status := Failed,
      results := run.results + [Entry(run.current, run.steps[run.current].action, Error)]))
  }

  /** Record a step that ran, and move past it. */
  function Advance(st: State, r: nat): State
    requires r < |st.runs| && st.runs[r].current < |st.runs[r].steps|
  {
    var run := st.runs[r];
    SetRun(st, r, run.(current := run.current + 1,
      results := run.results + [Entry(run.current, run.steps[run.current].action, Result)]))
    .(effects := st.effects + [Effect(r, run.current)])
  }

  /** Ask for approval of the current step, and halt. */
  function Halt(st: State, r: nat, actor: User): State
    requires r < |st.runs| && st.runs[r].current < |st.runs[r].steps|
  {
    var run := st.runs[r];
    SetRun(st, r, run.(status := AwaitingApproval))
    .(approvals := st.approvals + [Approval(run.tenant, r, run.current, run.steps[run.current].action, actor, PendingApproval, None)])
  }

  function MarkExecuted(st: State, k: nat): State
    requires k < |st.approvals|
  {
    st.(approvals := st.approvals[k := st.approvals[k].(status := Executed)])
  }

  /** `run_playbook` for a real run, from its current step on. */
  function RunFrom(st: State, r: nat, world: World, actor: Option<User>): (st': State)
    requires r < |st.runs| && st.runs[r].current <= |st.runs[r].steps|
    ensures |st'.runs| == |st.runs|
    decreases |st.runs[r].steps| - st.runs[r].current
  {
    var run := st.runs[r];
    if run.current == |run.steps| then SetRun(st, r, run.(status := Completed))
    else
      var step := run.steps[run.current];
      if !step.destructive then
        if world.executes(run.current) then RunFrom(Advance(st, r), r, world, actor) else Fail(st, r)
      else
        var grant := RequireApproved(st.approvals, run.tenant, r, run.current, step.action);
        if grant.None? then
          if actor.None? || !world.previews(run.current) then Fail(st, r) else Halt(st, r, actor.value)
        else if ExecuteDestructive(st.approvals, run.tenant, step.action, grant.value, world.executes(run.current)) then
          RunFrom(Advance(MarkExecuted(st, grant.value), r), r, world, actor)
        else Fail(st, r)
  }

  function Previews(steps: seq<StepDef>, n: nat): seq<Entry>
    requires n <= |steps|
  {
    seq(n, i requires 0 <= i < n => Entry(i, steps[i].action, Preview))
  }

  function Results(steps: seq<StepDef>, n: nat): seq<Entry>
    requires n <= |steps|
  {
    seq(n, i requires 0 <= i < n => Entry(i, steps[i].action, Result))
  }

  // ----- the three transactions -------------------------------------------

  datatype Outcome = Done | NotFound | InvalidState | SelfApproval | Raised

  /** A preview that finds no target raises out of a dry run, and the
      transaction is rolled back. */
  function StartRun(st: State, tenant: Tenant, steps: seq<StepDef>, actor: Option<User>, dryRun: bool, world: World): (State, Outcome)
  {
    var run := Run(tenant, steps, dryRun, actor, Running, 0, []);
    var r := |st.runs|;
    if dryRun then
      if forall i :: 0 <= i < |steps| ==> world.previews(i) then
        (st.(runs := st.runs + [run.(status := Completed, results := Previews(steps, |steps|))]), Done)
      else (st, Raised)
    else (RunFrom(st.(runs := st.runs + [run]), r, world, actor), Done)
  }

  /** Why a decision on an approval is refused, if it is. */
  function Refusal(st: State, tenant: Tenant, id: nat, approver: User): Outcome {
    if id >= |st.approvals| || st.approvals[id].tenant != tenant then NotFound
    else if !st.approvals[id].status.PendingApproval? then InvalidState
    else if approver == st.approvals[id].requestedBy then SelfApproval
    else Done
  }

  function Decide(st: State, id: nat, approver: User, status: ApprovalStatus, runStatus: RunStatus): State
    requires id < |st.approvals| && st.approvals[id].run < |st.runs|
  {
    var a := st.approvals[id];
    SetRun(st.(approvals := st.approvals[id := a.(status := status, decidedBy := Some(approver))]),
           a.run, st.runs[a.run].(status := runStatus))
  }

  function ApproveAction(st: State, tenant: Tenant, id: nat, approver: User, world: World): (State, Outcome)
    requires Inv(st)
  {
    var refusal := Refusal(st, tenant, id, approver);
    if !refusal.Done? then (st, refusal)
    else
      var r := st.approvals[id].run;
      assert RowOk(st.runs[r], st.approvals[id]);
      (RunFrom(Decide(st, id, approver, Approved, Running), r, world, st.runs[r].trigger), Done)
  }

  function RejectAction(st: State, tenant: Tenant, id: nat, approver: User): (State, Outcome)
    requires Inv(st)
  {
    var refusal := Refusal(st, tenant, id, approver);
    if !refusal.Done? then (st, refusal) else (Decide(st, id, approver, Refused, RunStatus.Rejected), Done)
  }

  // ----- what every transaction keeps -------------------------------------

  /** The steps of one run that were carried out, in order. */
  function EffectsOf(effects: seq<Effect>, r: nat): seq<nat> {
    if effects == [] then []
    else
      var n := |effects| - 1;
      EffectsOf(effects[..n], r) + if effects[n].run == r then [effects[n].step] else []
  }

  function UpTo(n: nat): seq<nat> {
    seq(n, i => i)
  }

  /** A run row and what was carried out for it. */
  predicate RunOk(run: Run, done: seq<nat>) {
    && run.current <= |run.steps|
    && (run.dryRun ==>
          run.status.Completed? && run.current == 0 && done == [] && run.results == Previews(run.steps, |run.steps|))
    && (!run.dryRun ==>
          && done == UpTo(run.current)
          && (run.status.Completed? <==> run.current == |run.steps| && !run.status.Running?)
          && (run.status.AwaitingApproval? || run.status.Rejected? ==> run.steps[run.current].destructive)
          && run.results == Results(run.steps, run.current) +
             (if run.status.Failed? then [Entry(run.current, run.steps[run.current].action, Error)] else []))
  }

  /** An approval row against the run it belongs to. */
  predicate RowOk(run: Run, a: Approval) {
    && !run.dryRun && a.tenant == run.tenant && run.trigger == Some(a.requestedBy)
    && a.step <= run.current && a.step < |run.steps|
    && run.steps[a.step] == StepDef(a.action, true)
    && (a.decidedBy.None? <==> a.status.PendingApproval?)
    && a.decidedBy != Some(a.requestedBy)
    && (a.step < run.current ==> a.status.Executed?)
    && (a.step == run.current ==>
          && !a.status.Executed?
          && (a.status.PendingApproval? <==> run.status.AwaitingApproval?)
          && (a.status.Refused? <==> run.status.Rejected?))
  }

  predicate HasRow(approvals: seq<Approval>, r: nat, s: nat) {
    exists k :: 0 <= k < |approvals| && approvals[k].run == r && approvals[k].step == s
  }

  predicate Inv(st: State) {
    && (forall r :: 0 <= r < |st.runs| ==> RunOk(st.runs[r], EffectsOf(st.effects, r)))
    && (forall k :: 0 <= k < |st.approvals| ==> st.approvals[k].run < |st.runs| && RowOk(st.runs[st.approvals[k].run], st.approvals[k]))
    && UniqueRows(st.approvals)
    && (forall r :: 0 <= r < |st.runs| ==> RowsPresent(st, r))
    && (forall e :: e in st.effects ==> e.run < |st.runs|)
  }

  /** At most one approval row per run and step. */
  predicate UniqueRows(approvals: seq<Approval>) {
    forall i, j :: 0 <= i < j < |approvals| ==> approvals[i].run != approvals[j].run || approvals[i].step != approvals[j].step
  }

  /** Every destructive step passed has its row, and so has the step a halted
      or rejected run stands at. */
  predicate RowsPresent(st: State, r: nat)
    requires r < |st.runs|
  {
    var run := st.runs[r];
    && (forall s :: 0 <= s < run.current && s < |run.steps| && run.steps[s].destructive ==> HasRow(st.approvals, r, s))
    && (run.status.AwaitingApproval? || run.status.Rejected? ==> HasRow(st.approvals, r, run.current))
  }

  predicate AtRest(st: State) {
    forall r :: 0 <= r < |st.runs| ==> !st.runs[r].status.Running?
  }
}
