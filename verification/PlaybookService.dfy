/** The engine and the service in the form they are written in: rows updated in
    place, a loop over steps, errors that leave nothing behind. */
module PlaybookService {
  import opened Text
  import opened Playbooks
  import opened PlaybookRuns

  class Service {
    var runs: seq<Run>
    var approvals: seq<Approval>
    var effects: seq<Effect>

    ghost function St(): State
      reads this
    {
      State(runs, approvals, effects)
    }

    ghost predicate Valid()
      reads this
    {
      Inv(St()) && AtRest(St())
    }

    constructor ()
      ensures Valid() && St() == EMPTY
    {
      runs, approvals, effects := [], [], [];
    }

    method Fail(r: nat)
      requires r < |runs| && runs[r].current < |runs[r].steps|
      modifies this
      ensures St() == Playbooks.Fail(old(St()), r)
    {
      var run := runs[r];
      var entry := Entry(run.current, run.steps[run.current].action, Error);
      runs := runs[r := run.(status := Failed, results := run.results + [entry])];
    }

    /** The step's own effect, then its entry, then the next step. */
    method Advance(r: nat)
      requires r < |runs| && runs[r].current < |runs[r].steps|
      modifies this
      ensures St() == Playbooks.Advance(old(St()), r)
    {
      var run := runs[r];
      effects := effects + [Effect(r, run.current)];
      var entry := Entry(run.current, run.steps[run.current].action, Result);
      runs := runs[r := run.(current := run.current + 1, results := run.results + [entry])];
    }

    method CreatePendingApproval(r: nat, actor: User)
      requires r < |runs| && runs[r].current < |runs[r].steps|
      modifies this
      ensures St() == Playbooks.Halt(old(St()), r, actor)
    {
      var run := runs[r];
      approvals := approvals +
        [Approval(run.tenant, r, run.current, run.steps[run.current].action, actor, PendingApproval, None)];
      runs := runs[r := run.(status := AwaitingApproval)];
    }

    /** `run_playbook` on a real run. */
    method RunPlaybook(r: nat, world: World, actor: Option<User>)
      requires r < |runs| && runs[r].current <= |runs[r].steps|
      modifies this
      ensures St() == RunFrom(old(St()), r, world, actor)
    {
      while runs[r].current < |runs[r].steps|
        invariant r < |runs| && runs[r].current <= |runs[r].steps|
        invariant RunFrom(St(), r, world, actor) == RunFrom(old(St()), r, world, actor)
        decreases |runs[r].steps| - runs[r].current
      {
        var index := runs[r].current;
        var step := runs[r].steps[index];
        if step.destructive {
          var grant := RequireApproved(approvals, runs[r].tenant, r, index, step.action);
          if grant.None? {
            if actor.None? || !world.previews(index) {
              Fail(r);
            } else {
              CreatePendingApproval(r, actor.value);
            }
            return;
          }
          if !ExecuteDestructive(approvals, runs[r].tenant, step.action, grant.value, world.executes(index)) {
            Fail(r);
            return;
          }
          approvals := approvals[grant.value := approvals[grant.value].(status := Executed)];
        } else if !world.executes(index) {
          Fail(r);
          return;
        }
        Advance(r);
      }
      runs := runs[r := runs[r].(status := Completed)];
    }

    method StartRun(tenant: Tenant, steps: seq<StepDef>, actor: Option<User>, dryRun: bool, world: World)
      returns (outcome: Outcome)
      requires Valid()
      modifies this
      ensures Valid()
      ensures (St(), outcome) == Playbooks.StartRun(old(St()), tenant, steps, actor, dryRun, world)
    {
      StartKeeps(St(), tenant, steps, actor, dryRun, world);
      var r := |runs|;
      var run := Run(tenant, steps, dryRun, actor, Running, 0, []);
      if dryRun {
        var previewed, entries := PreviewAll(steps, world);
        if !previewed { return Raised; }
        runs := runs + [run.(status := Completed, results := entries)];
      } else {
        runs := runs + [run];
        RunPlaybook(r, world, actor);
      }
      outcome := Done;
    }

    method CheckDecision(tenant: Tenant, id: nat, approver: User) returns (outcome: Outcome)
      requires Valid()
      ensures outcome == Refusal(St(), tenant, id, approver)
      ensures outcome.Done? <==> MayDecide(St(), tenant, id, approver)
      ensures outcome.NotFound? <==> id >= |approvals| || runs[approvals[id].run].tenant != tenant
      ensures outcome.SelfApproval? <==>
                && id < |approvals| && Awaits(runs[approvals[id].run], approvals[id].step)
                && runs[approvals[id].run].tenant == tenant && runs[approvals[id].run].trigger == Some(approver)
    {
      RefusalMeans(St(), tenant, id, approver);
      if id >= |approvals| || approvals[id].tenant != tenant { return NotFound; }
      if !approvals[id].status.PendingApproval? { return InvalidState; }
      if approver == approvals[id].requestedBy { return SelfApproval; }
      return Done;
    }

    method ApproveAction(tenant: Tenant, id: nat, approver: User, world: World) returns (outcome: Outcome)
      requires Valid()
      modifies this
      ensures Valid()
      ensures (St(), outcome) == Playbooks.ApproveAction(old(St()), tenant, id, approver, world)
    {
      ApproveKeeps(St(), tenant, id, approver, world);
      outcome := CheckDecision(tenant, id, approver);
      if !outcome.Done? { return; }
      DecideKeeps(St(), tenant, id, approver, true);
      var r := approvals[id].run;
      var actor := runs[r].trigger;
      approvals := approvals[id := approvals[id].(status := Approved, decidedBy := Some(approver))];
      runs := runs[r := runs[r].(status := Running)];
      RunPlaybook(r, world, actor);
    }

    method RejectAction(tenant: Tenant, id: nat, approver: User) returns (outcome: Outcome)
      requires Valid()
      modifies this
      ensures Valid()
      ensures (St(), outcome) == Playbooks.RejectAction(old(St()), tenant, id, approver)
    {
      RejectKeeps(St(), tenant, id, approver);
      outcome := CheckDecision(tenant, id, approver);
      if !outcome.Done? { return; }
      DecideKeeps(St(), tenant, id, approver, false);
      var r := approvals[id].run;
      approvals := approvals[id := approvals[id].(status := Refused, decidedBy := Some(approver))];
      runs := runs[r := runs[r].(status := RunStatus.Rejected)];
    }
  }

  /** The dry-run branch: every step is previewed, destructive or not; the
      first one with nothing to act on raises. */
  method PreviewAll(steps: seq<StepDef>, world: World) returns (previewed: bool, entries: seq<Entry>)
    ensures previewed <==> forall i :: 0 <= i < |steps| ==> world.previews(i)
    ensures previewed ==> entries == Previews(steps, |steps|)
  {
    entries := [];
    for i := 0 to |steps|
      invariant entries == Previews(steps, i)
      invariant forall j :: 0 <= j < i ==> world.previews(j)
    {
      if !world.previews(i) { return false, entries; }
      entries := entries + [Entry(i, steps[i].action, Preview)];
    }
    previewed := true;
  }
}
