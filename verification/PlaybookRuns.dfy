/** What holds in every run of the approval protocol. */
module PlaybookRuns {
  import opened Text
  import opened Playbooks

  // ----- one engine step --------------------------------------------------

  /** Rows keep their run and step; there may be more of them. */
  predicate RowsKept(a: seq<Approval>, b: seq<Approval>) {
    |a| <= |b| && forall k :: 0 <= k < |a| ==> a[k].run == b[k].run && a[k].step == b[k].step
  }

  lemma HasRowKept(a: seq<Approval>, b: seq<Approval>, r: nat, s: nat)
    requires RowsKept(a, b) && HasRow(a, r, s)
    ensures HasRow(b, r, s)
  {
    var k :| 0 <= k < |a| && a[k].run == r && a[k].step == s;
    assert b[k].run == r && b[k].step == s;
  }

  /** Only run r changes, and it stays the same run. */
  predicate OnlyRun(st: State, st': State, r: nat)
    requires r < |st.runs|
  {
    && |st'.runs| == |st.runs|
    && (forall q :: 0 <= q < |st.runs| && q != r ==> st'.runs[q] == st.runs[q] && EffectsOf(st'.effects, q) == EffectsOf(st.effects, q))
    && st'.runs[r].tenant == st.runs[r].tenant && st'.runs[r].steps == st.runs[r].steps
    && st'.runs[r].dryRun == st.runs[r].dryRun && st'.runs[r].trigger == st.runs[r].trigger
    && st.runs[r].current <= st'.runs[r].current
  }

  /** The rows of other runs are untouched. */
  predicate OnlyRowsOf(st: State, st': State, r: nat) {
    && RowsKept(st.approvals, st'.approvals)
    && (forall k :: 0 <= k < |st.approvals| && st.approvals[k].run != r ==> st'.approvals[k] == st.approvals[k])
    && (forall k :: |st.approvals| <= k < |st'.approvals| ==> st'.approvals[k].run == r)
  }

  lemma OthersPresent(st: State, st': State, r: nat, q: nat)
    requires r < |st.runs| && OnlyRun(st, st', r) && OnlyRowsOf(st, st', r)
    requires q < |st.runs| && q != r && RowsPresent(st, q)
    ensures RowsPresent(st', q)
  {
    var run := st.runs[q];
    forall s | 0 <= s < run.current && s < |run.steps| && run.steps[s].destructive ensures HasRow(st'.approvals, q, s) {
      HasRowKept(st.approvals, st'.approvals, q, s);
    }
    if run.status.AwaitingApproval? || run.status.Rejected? {
      HasRowKept(st.approvals, st'.approvals, q, run.current);
    }
  }

  /** If only run r and its rows change, only run r has to be looked at again. */
  lemma LocalChange(st: State, st': State, r: nat)
    requires r < |st.runs| && Inv(st) && OnlyRun(st, st', r) && OnlyRowsOf(st, st', r)
    requires RunOk(st'.runs[r], EffectsOf(st'.effects, r)) && RowsPresent(st', r)
    requires UniqueRows(st'.approvals) && forall e :: e in st'.effects ==> e.run < |st.runs|
    requires forall k :: 0 <= k < |st'.approvals| && st'.approvals[k].run == r ==> RowOk(st'.runs[r], st'.approvals[k])
    ensures Inv(st')
  {
    forall q | 0 <= q < |st'.runs| ensures RowsPresent(st', q) && RunOk(st'.runs[q], EffectsOf(st'.effects, q)) {
      if q != r {
        OthersPresent(st, st', r, q);
        assert RunOk(st.runs[q], EffectsOf(st.effects, q));
      }
    }
    forall k | 0 <= k < |st'.approvals|
      ensures st'.approvals[k].run < |st'.runs| && RowOk(st'.runs[st'.approvals[k].run], st'.approvals[k])
    {
      if st'.approvals[k].run != r { assert st'.approvals[k] == st.approvals[k]; }
    }
  }

  predicate Going(st: State, r: nat) {
    && Inv(st) && r < |st.runs| && st.runs[r].status.Running? && !st.runs[r].dryRun
  }

  predicate Stepping(st: State, r: nat) {
    Going(st, r) && st.runs[r].current < |st.runs[r].steps|
  }

  lemma FailKeeps(st: State, r: nat)
    requires Stepping(st, r)
    ensures Inv(Fail(st, r)) && OnlyRun(st, Fail(st, r), r) && OnlyRowsOf(st, Fail(st, r), r)
  {
    var st' := Fail(st, r);
    var run := st.runs[r];
    assert RunOk(run, EffectsOf(st.effects, r)) && RowsPresent(st, r);
    assert run.results + [] == run.results;
    assert Results(run.steps, run.current) + [] == Results(run.steps, run.current);
    forall k | 0 <= k < |st.approvals| && st.approvals[k].run == r ensures RowOk(st'.runs[r], st.approvals[k]) {
      assert RowOk(run, st.approvals[k]);
    }
    LocalChange(st, st', r);
  }

  lemma CompleteKeeps(st: State, r: nat)
    requires Going(st, r) && st.runs[r].current == |st.runs[r].steps|
    ensures var st' := SetRun(st, r, st.runs[r].(status := Completed));
            Inv(st') && OnlyRun(st, st', r) && OnlyRowsOf(st, st', r)
  {
    var run := st.runs[r];
    var st' := SetRun(st, r, run.(status := Completed));
    assert RunOk(run, EffectsOf(st.effects, r)) && RowsPresent(st, r);
    forall k | 0 <= k < |st.approvals| && st.approvals[k].run == r ensures RowOk(st'.runs[r], st.approvals[k]) {
      assert RowOk(run, st.approvals[k]);
    }
    LocalChange(st, st', r);
  }

  lemma HaltKeeps(st: State, r: nat, actor: User)
    requires Stepping(st, r) && st.runs[r].steps[st.runs[r].current].destructive && st.runs[r].trigger == Some(actor)
    requires !HasRow(st.approvals, r, st.runs[r].current)
    ensures Inv(Halt(st, r, actor)) && OnlyRun(st, Halt(st, r, actor), r) && OnlyRowsOf(st, Halt(st, r, actor), r)
  {
    var st' := Halt(st, r, actor);
    var run := st.runs[r];
    assert RunOk(run, EffectsOf(st.effects, r)) && RowsPresent(st, r);
    var n := |st.approvals|;
    assert st'.approvals[n].run == r && st'.approvals[n].step == run.current;
    forall s | 0 <= s < run.current && run.steps[s].destructive ensures HasRow(st'.approvals, r, s) {
      HasRowKept(st.approvals, st'.approvals, r, s);
    }
    assert HasRow(st'.approvals, r, run.current);
    forall k | 0 <= k < |st'.approvals| && st'.approvals[k].run == r ensures RowOk(st'.runs[r], st'.approvals[k]) {
      if k < n {
        assert RowOk(run, st.approvals[k]);
        assert st.approvals[k].step != run.current;
      }
    }
    LocalChange(st, st', r);
  }

  lemma AdvanceKeeps(st: State, r: nat)
    requires Stepping(st, r) && !st.runs[r].steps[st.runs[r].current].destructive
    ensures Going(Advance(st, r), r) && OnlyRun(st, Advance(st, r), r) && OnlyRowsOf(st, Advance(st, r), r)
  {
    var st' := Advance(st, r);
    var run := st.runs[r];
    assert RunOk(run, EffectsOf(st.effects, r)) && RowsPresent(st, r);
    forall q ensures EffectsOf(st'.effects, q) == EffectsOf(st.effects, q) + if r == q then [run.current] else [] {
    }
    forall k | 0 <= k < |st.approvals| && st.approvals[k].run == r ensures RowOk(st'.runs[r], st.approvals[k]) {
      assert RowOk(run, st.approvals[k]);
    }
    LocalChange(st, st', r);
  }

  /** Carrying out an approved destructive step uses up its approval. */
  lemma GrantedAdvanceKeeps(st: State, r: nat, k: nat)
    requires Stepping(st, r) && k < |st.approvals| && st.runs[r].steps[st.runs[r].current].destructive
    requires Grants(st.approvals[k], st.runs[r].tenant, r, st.runs[r].current, st.runs[r].steps[st.runs[r].current].action)
    ensures var st' := Advance(MarkExecuted(st, k), r);
            Going(st', r) && OnlyRun(st, st', r) && OnlyRowsOf(st, st', r)
  {
    var st' := Advance(MarkExecuted(st, k), r);
    var run := st.runs[r];
    assert RunOk(run, EffectsOf(st.effects, r)) && RowsPresent(st, r);
    forall q ensures EffectsOf(st'.effects, q) == EffectsOf(st.effects, q) + if r == q then [run.current] else [] {
    }
    assert RowsKept(st.approvals, st'.approvals);
    forall s | 0 <= s < run.current + 1 && run.steps[s].destructive ensures HasRow(st'.approvals, r, s) {
      if s == run.current { assert st'.approvals[k].run == r && st'.approvals[k].step == s; }
      else { HasRowKept(st.approvals, st'.approvals, r, s); }
    }
    forall j | 0 <= j < |st'.approvals| && st'.approvals[j].run == r ensures RowOk(st'.runs[r], st'.approvals[j]) {
      assert RowOk(run, st.approvals[j]) && RowOk(run, st.approvals[k]);
      if j != k { assert st.approvals[j].step != run.current; }
    }
    LocalChange(st, st', r);
  }

  /** While a run is going, a row at its current step is an approved one: the
      gate opens exactly when there is a row at all. */
  lemma RowMeansGrant(st: State, r: nat)
    requires Stepping(st, r)
    ensures var run := st.runs[r];
            HasRow(st.approvals, r, run.current) <==>
            RequireApproved(st.approvals, run.tenant, r, run.current, run.steps[run.current].action).Some?
  {
    var run := st.runs[r];
    forall k | 0 <= k < |st.approvals| && st.approvals[k].run == r && st.approvals[k].step == run.current
      ensures Grants(st.approvals[k], run.tenant, r, run.current, run.steps[run.current].action)
    {
      assert RowOk(run, st.approvals[k]);
    }
  }

  // ----- one call of the engine -------------------------------------------

  /** Whatever the world answers, a call of the engine keeps the invariant,
      leaves its run at rest, and touches no other run. */
  lemma {:induction false} RunFromKeeps(st: State, r: nat, world: World, actor: Option<User>)
    requires Going(st, r) && st.runs[r].trigger == actor
    ensures var st' := RunFrom(st, r, world, actor);
            Inv(st') && !st'.runs[r].status.Running? && OnlyRun(st, st', r) && OnlyRowsOf(st, st', r)
    decreases |st.runs[r].steps| - st.runs[r].current
  {
    var run := st.runs[r];
    if run.current == |run.steps| {
      CompleteKeeps(st, r);
    } else if !run.steps[run.current].destructive {
      if world.executes(run.current) {
        AdvanceKeeps(st, r);
        var next := Advance(st, r);
        RunFromKeeps(next, r, world, actor);
      } else {
        FailKeeps(st, r);
      }
    } else {
      DestructiveKeeps(st, r, world, actor);
    }
  }

  lemma {:induction false} DestructiveKeeps(st: State, r: nat, world: World, actor: Option<User>)
    requires Stepping(st, r) && st.runs[r].trigger == actor && st.runs[r].steps[st.runs[r].current].destructive
    ensures var st' := RunFrom(st, r, world, actor);
            Inv(st') && !st'.runs[r].status.Running? && OnlyRun(st, st', r) && OnlyRowsOf(st, st', r)
    decreases |st.runs[r].steps| - st.runs[r].current, 0
  {
    var run := st.runs[r];
    var action := run.steps[run.current].action;
    var grant := RequireApproved(st.approvals, run.tenant, r, run.current, action);
    if grant.None? {
      RowMeansGrant(st, r);
      if actor.None? || !world.previews(run.current) { FailKeeps(st, r); } else { HaltKeeps(st, r, actor.value); }
    } else if world.executes(run.current) {
      GrantedAdvanceKeeps(st, r, grant.value);
      var next := Advance(MarkExecuted(st, grant.value), r);
      RunFromKeeps(next, r, world, actor);
    } else {
      FailKeeps(st, r);
    }
  }

  // ----- the transactions -------------------------------------------------

  datatype Op =
    | Start(tenant: Tenant, steps: seq<StepDef>, actor: Option<User>, dryRun: bool, world: World)
    | Approve(tenant: Tenant, id: nat, approver: User, world: World)
    | Reject(tenant: Tenant, id: nat, approver: User)

  function Apply(st: State, op: Op): State
    requires Inv(st)
  {
    match op
    case Start(tenant, steps, actor, dryRun, world) => StartRun(st, tenant, steps, actor, dryRun, world).0
    case Approve(tenant, id, approver, world) => ApproveAction(st, tenant, id, approver, world).0
    case Reject(tenant, id, approver) => RejectAction(st, tenant, id, approver).0
  }

  predicate Terminal(run: Run) {
    run.status.Completed? || run.status.Failed? || run.status.Rejected?
  }

  /** No run is lost, and finished runs and their rows are never touched again. */
  predicate Continues(st: State, st': State) {
    && |st.runs| <= |st'.runs| && |st.approvals| <= |st'.approvals|
    && (forall r :: 0 <= r < |st.runs| && Terminal(st.runs[r]) ==> st'.runs[r] == st.runs[r])
    && (forall k :: 0 <= k < |st.approvals| && st.approvals[k].run < |st.runs| && Terminal(st.runs[st.approvals[k].run]) ==>
          st'.approvals[k] == st.approvals[k])
  }

  lemma {:induction false} NoEffectsYet(effects: seq<Effect>, r: nat)
    requires forall e :: e in effects ==> e.run < r
    ensures EffectsOf(effects, r) == []
  {
    if effects != [] {
      var n := |effects| - 1;
      assert effects[n] in effects;
      NoEffectsYet(effects[..n], r);
    }
  }

  /** A new run row, finished or about to go, disturbs nothing. */
  lemma NewRunKeeps(st: State, run: Run)
    requires Inv(st) && RunOk(run, []) && run.current == 0 && (run.status.Running? || run.status.Completed?)
    ensures Inv(st.(runs := st.runs + [run]))
  {
    var st' := st.(runs := st.runs + [run]);
    var n := |st.runs|;
    NoEffectsYet(st.effects, n);
    forall r | 0 <= r < |st'.runs| ensures RunOk(st'.runs[r], EffectsOf(st'.effects, r)) && RowsPresent(st', r) {
      if r < n { assert RunOk(st.runs[r], EffectsOf(st.effects, r)) && RowsPresent(st, r); }
    }
    forall k | 0 <= k < |st'.approvals|
      ensures st'.approvals[k].run < |st'.runs| && RowOk(st'.runs[st'.approvals[k].run], st'.approvals[k])
    {
      assert RowOk(st.runs[st.approvals[k].run], st.approvals[k]);
    }
  }

  lemma StartKeeps(st: State, tenant: Tenant, steps: seq<StepDef>, actor: Option<User>, dryRun: bool, world: World)
    requires Inv(st) && AtRest(st)
    ensures var st' := StartRun(st, tenant, steps, actor, dryRun, world).0;
            Inv(st') && AtRest(st') && Continues(st, st')
  {
    var run := Run(tenant, steps, dryRun, actor, Running, 0, []);
    if dryRun {
      if forall i :: 0 <= i < |steps| ==> world.previews(i) {
        NewRunKeeps(st, run.(status := Completed, results := Previews(steps, |steps|)));
      }
    } else {
      var begun, r := st.(runs := st.runs + [run]), |st.runs|;
      assert Results(steps, 0) + [] == [] && UpTo(0) == [];
      NewRunKeeps(st, run);
      RunFromKeeps(begun, r, world, actor);
      var st' := RunFrom(begun, r, world, actor);
      forall q | 0 <= q < r ensures st'.runs[q] == st.runs[q] { assert begun.runs[q] == st.runs[q]; }
      forall k | 0 <= k < |st.approvals| ensures st'.approvals[k] == st.approvals[k] {
        assert st.approvals[k].run < r;
      }
    }
  }

  /** Deciding a pending row makes its run either go on or stop for good. */
  lemma DecideKeeps(st: State, tenant: Tenant, id: nat, approver: User, approve: bool)
    requires Inv(st) && AtRest(st) && Refusal(st, tenant, id, approver).Done?
    ensures var r := st.approvals[id].run;
            var st' := Decide(st, id, approver, if approve then Approved else Refused, if approve then Running else RunStatus.Rejected);
            && r < |st.runs| && st.runs[r].status.AwaitingApproval? && !st.runs[r].dryRun
            && Inv(st') && OnlyRun(st, st', r) && OnlyRowsOf(st, st', r)
            && (approve ==> Going(st', r) && Grants(st'.approvals[id], st.runs[r].tenant, r, st.runs[r].current,
                                                    st.runs[r].steps[st.runs[r].current].action))
  {
    var r := st.approvals[id].run;
    var run := st.runs[r];
    var st' := Decide(st, id, approver, if approve then Approved else Refused, if approve then Running else RunStatus.Rejected);
    assert RowOk(run, st.approvals[id]) && RunOk(run, EffectsOf(st.effects, r)) && RowsPresent(st, r);
    assert RowsKept(st.approvals, st'.approvals);
    forall s | 0 <= s <= run.current && HasRow(st.approvals, r, s) ensures HasRow(st'.approvals, r, s) {
      HasRowKept(st.approvals, st'.approvals, r, s);
    }
    forall k | 0 <= k < |st'.approvals| && st'.approvals[k].run == r ensures RowOk(st'.runs[r], st'.approvals[k]) {
      assert RowOk(run, st.approvals[k]);
      if k != id { assert st.approvals[k].step != st.approvals[id].step; }
    }
    LocalChange(st, st', r);
  }

  lemma ApproveKeeps(st: State, tenant: Tenant, id: nat, approver: User, world: World)
    requires Inv(st) && AtRest(st)
    ensures var st' := ApproveAction(st, tenant, id, approver, world).0;
            Inv(st') && AtRest(st') && Continues(st, st')
  {
    if Refusal(st, tenant, id, approver).Done? {
      var r := st.approvals[id].run;
      DecideKeeps(st, tenant, id, approver, true);
      var going := Decide(st, id, approver, Approved, Running);
      RunFromKeeps(going, r, world, st.runs[r].trigger);
    }
  }

  lemma RejectKeeps(st: State, tenant: Tenant, id: nat, approver: User)
    requires Inv(st) && AtRest(st)
    ensures var st' := RejectAction(st, tenant, id, approver).0;
            Inv(st') && AtRest(st') && Continues(st, st')
  {
    if Refusal(st, tenant, id, approver).Done? {
      DecideKeeps(st, tenant, id, approver, false);
    }
  }

  lemma ApplyKeeps(st: State, op: Op)
    requires Inv(st) && AtRest(st)
    ensures Inv(Apply(st, op)) && AtRest(Apply(st, op)) && Continues(st, Apply(st, op))
  {
    match op
    case Start(tenant, steps, actor, dryRun, world) => StartKeeps(st, tenant, steps, actor, dryRun, world);
    case Approve(tenant, id, approver, world) => ApproveKeeps(st, tenant, id, approver, world);
    case Reject(tenant, id, approver) => RejectKeeps(st, tenant, id, approver);
  }

  // ----- who may decide ---------------------------------------------------

  predicate Awaits(run: Run, step: nat) {
    run.status.AwaitingApproval? && run.current == step
  }

  /** The row is about the tenant's own run, that run stands at the row's step
      waiting, and whoever decides did not trigger it. */
  predicate MayDecide(st: State, tenant: Tenant, id: nat, approver: User)
    requires Inv(st)
  {
    && id < |st.approvals|
    && var run := st.runs[st.approvals[id].run];
       run.tenant == tenant && Awaits(run, st.approvals[id].step) && run.trigger != Some(approver)
  }

  /** The three tests on the approval row are a question about the run: they
      pass exactly when the run waits for this decision and its trigger is
      somebody else. */
  lemma RefusalMeans(st: State, tenant: Tenant, id: nat, approver: User)
    requires Inv(st)
    ensures var outcome := Refusal(st, tenant, id, approver);
            && (outcome.Done? <==> MayDecide(st, tenant, id, approver))
            && (outcome.NotFound? <==> id >= |st.approvals| || st.runs[st.approvals[id].run].tenant != tenant)
            && (outcome.SelfApproval? <==>
                  && id < |st.approvals| && Awaits(st.runs[st.approvals[id].run], st.approvals[id].step)
                  && st.runs[st.approvals[id].run].tenant == tenant && st.runs[st.approvals[id].run].trigger == Some(approver))
  {
    if id < |st.approvals| {
      var a := st.approvals[id];
      assert RowOk(st.runs[a.run], a);
    }
  }

  // ----- every serial run -------------------------------------------------

  function Exec(st: State, ops: seq<Op>): (st': State)
    requires Inv(st) && AtRest(st)
    ensures Inv(st') && AtRest(st')
    decreases |ops|
  {
    if ops == [] then st
    else
      ApplyKeeps(st, ops[0]);
      Exec(Apply(st, ops[0]), ops[1..])
  }

  /** The database after any serial run of starts, approvals and rejections. */
  function After(ops: seq<Op>): (st: State)
    ensures Inv(st) && AtRest(st)
  {
    Exec(EMPTY, ops)
  }

  /** Completed, failed and rejected runs are never left, and the rows of such
      a run are never changed, whatever follows. */
  lemma {:induction false} TerminalForever(st: State, ops: seq<Op>)
    requires Inv(st) && AtRest(st)
    ensures Continues(st, Exec(st, ops))
    decreases |ops|
  {
    if ops != [] {
      ApplyKeeps(st, ops[0]);
      var next := Apply(st, ops[0]);
      TerminalForever(next, ops[1..]);
      ContinuesTransitive(st, next, Exec(next, ops[1..]));
    }
  }

  lemma ContinuesTransitive(a: State, b: State, c: State)
    requires Continues(a, b) && Continues(b, c)
    requires forall k :: 0 <= k < |a.approvals| ==> a.approvals[k].run < |a.runs|
    ensures Continues(a, c)
  {
  }

  /** A real run awaits approval exactly when it has a pending row; then it has
      exactly one, and that row is for the step the run stands at. */
  lemma AwaitingExactlyWhenPending(ops: seq<Op>, r: nat)
    requires r < |After(ops).runs|
    ensures var st := After(ops);
            && (st.runs[r].status.AwaitingApproval? <==>
                exists k :: 0 <= k < |st.approvals| && st.approvals[k].run == r && st.approvals[k].status.PendingApproval?)
            && (forall k :: 0 <= k < |st.approvals| && st.approvals[k].run == r && st.approvals[k].status.PendingApproval? ==>
                  st.approvals[k].step == st.runs[r].current)
            && (forall j, k :: 0 <= j < |st.approvals| && 0 <= k < |st.approvals| && st.approvals[j].run == r
                  && st.approvals[k].run == r && st.approvals[j].status.PendingApproval? && st.approvals[k].status.PendingApproval?
                  ==> j == k)
  {
    var st := After(ops);
    assert RowsPresent(st, r);
    forall k | 0 <= k < |st.approvals| && st.approvals[k].run == r && st.approvals[k].status.PendingApproval?
      ensures st.approvals[k].step == st.runs[r].current && st.runs[r].status.AwaitingApproval?
    {
      assert RowOk(st.runs[r], st.approvals[k]);
    }
    if st.runs[r].status.AwaitingApproval? {
      var k :| 0 <= k < |st.approvals| && st.approvals[k].run == r && st.approvals[k].step == st.runs[r].current;
      assert RowOk(st.runs[r], st.approvals[k]);
    }
  }

  /** Results list the steps passed, once each and in order, plus one error
      entry in a failed run; a dry run lists previews and did nothing. */
  lemma ResultsAreTheSteps(ops: seq<Op>, r: nat)
    requires r < |After(ops).runs|
    ensures var st := After(ops);
            var run := st.runs[r];
            if run.dryRun then run.results == Previews(run.steps, |run.steps|) && EffectsOf(st.effects, r) == []
            else
              && run.current <= |run.steps|
              && EffectsOf(st.effects, r) == UpTo(run.current)
              && run.results == Results(run.steps, run.current) +
                 (if run.status.Failed? then [Entry(run.current, run.steps[run.current].action, Error)] else [])
  {
    var st := After(ops);
    assert RunOk(st.runs[r], EffectsOf(st.effects, r));
  }

  lemma {:induction false} EffectListed(effects: seq<Effect>, e: Effect)
    requires e in effects
    ensures e.step in EffectsOf(effects, e.run)
  {
    var n := |effects| - 1;
    if effects[n] != e { EffectListed(effects[..n], e); }
  }

  /** Every destructive step that was carried out had exactly one approval row
      for that run and step; it is now executed, and was decided by someone
      other than whoever triggered the run. */
  lemma DestructiveStepsWereApproved(ops: seq<Op>, e: Effect)
    requires e in After(ops).effects
    ensures var st := After(ops);
            && e.run < |st.runs| && e.step < st.runs[e.run].current <= |st.runs[e.run].steps|
            && (st.runs[e.run].steps[e.step].destructive ==>
                  exists k :: 0 <= k < |st.approvals| && st.approvals[k].run == e.run && st.approvals[k].step == e.step
                    && st.approvals[k].status.Executed? && st.approvals[k].decidedBy.Some?
                    && st.runs[e.run].trigger.Some? && st.approvals[k].decidedBy != st.runs[e.run].trigger
                    && forall j :: 0 <= j < |st.approvals| && st.approvals[j].run == e.run && st.approvals[j].step == e.step ==> j == k)
  {
    var st := After(ops);
    var run := st.runs[e.run];
    EffectListed(st.effects, e);
    assert RunOk(run, EffectsOf(st.effects, e.run)) && RowsPresent(st, e.run);
    if run.steps[e.step].destructive {
      assert HasRow(st.approvals, e.run, e.step);
      var k :| 0 <= k < |st.approvals| && st.approvals[k].run == e.run && st.approvals[k].step == e.step;
      assert RowOk(run, st.approvals[k]);
    }
  }

  /** No step of any run is ever carried out twice. */
  lemma StepsRunOnce(ops: seq<Op>)
    ensures var effects := After(ops).effects;
            forall i, j :: 0 <= i < j < |effects| ==> effects[i] != effects[j]
  {
    var st := After(ops);
    forall r: nat ensures NoRepeats(EffectsOf(st.effects, r)) {
      if r < |st.runs| {
        assert RunOk(st.runs[r], EffectsOf(st.effects, r));
      } else {
        NoEffectsYet(st.effects, r);
      }
    }
    DistinctEffects(st.effects);
  }

  predicate NoRepeats(s: seq<nat>) {
    forall i, j :: 0 <= i < j < |s| ==> s[i] != s[j]
  }

  lemma {:induction false} DistinctEffects(effects: seq<Effect>)
    requires forall r: nat :: NoRepeats(EffectsOf(effects, r))
    ensures forall i, j :: 0 <= i < j < |effects| ==> effects[i] != effects[j]
  {
    if effects != [] {
      var n := |effects| - 1;
      var front, e := effects[..n], effects[n];
      forall r: nat ensures NoRepeats(EffectsOf(front, r)) {
        assert EffectsOf(front, r) <= EffectsOf(effects, r);
        assert NoRepeats(EffectsOf(effects, r));
      }
      DistinctEffects(front);
      var done := EffectsOf(effects, e.run);
      assert NoRepeats(done) && done == EffectsOf(front, e.run) + [e.step];
      assert e.step !in EffectsOf(front, e.run) by {
        assert forall i :: 0 <= i < |done| - 1 ==> EffectsOf(front, e.run)[i] == done[i] != done[|done| - 1];
      }
      if e in front { EffectListed(front, e); }
      forall i, j | 0 <= i < j < |effects| ensures effects[i] != effects[j] {
        if j == n { assert effects[i] in front; } else { assert front[i] != front[j]; }
      }
    }
  }

  // ----- how many approvals a run can take --------------------------------

  /** Approving a step either moves the run past it or ends the run. */
  lemma ApprovalsMakeProgress(ops: seq<Op>, tenant: Tenant, id: nat, approver: User, world: World)
    requires Refusal(After(ops), tenant, id, approver).Done?
    ensures var st := After(ops);
            var st' := ApproveAction(st, tenant, id, approver, world).0;
            var r := st.approvals[id].run;
            r < |st.runs| <= |st'.runs| && (st'.runs[r].current > st.runs[r].current || st'.runs[r].status.Failed?)
  {
    var st := After(ops);
    var r := st.approvals[id].run;
    DecideKeeps(st, tenant, id, approver, true);
    var going := Decide(st, id, approver, Approved, Running);
    var run := going.runs[r];
    var actor := st.runs[r].trigger;
    RunFromKeeps(going, r, world, actor);
    var grant := RequireApproved(going.approvals, run.tenant, r, run.current, run.steps[run.current].action);
    assert grant.Some?;
    if world.executes(run.current) {
      GrantedAdvanceKeeps(going, r, grant.value);
      RunFromKeeps(Advance(MarkExecuted(going, grant.value), r), r, world, actor);
    }
  }

  function RowsOf(st: State, r: nat): set<nat> {
    set k | 0 <= k < |st.approvals| && st.approvals[k].run == r
  }

  function DestructiveSteps(run: Run): set<nat> {
    set s | 0 <= s < |run.steps| && run.steps[s].destructive
  }

  /** A run never has more approval rows than destructive steps; a dry run has none. */
  lemma ApprovalsAreBounded(ops: seq<Op>, r: nat)
    requires r < |After(ops).runs|
    ensures var st := After(ops);
            && |RowsOf(st, r)| <= |DestructiveSteps(st.runs[r])|
            && (st.runs[r].dryRun ==> RowsOf(st, r) == {})
  {
    var st := After(ops);
    forall k | k in RowsOf(st, r) ensures st.approvals[k].step in DestructiveSteps(st.runs[r]) && !st.runs[r].dryRun {
      assert RowOk(st.runs[r], st.approvals[k]);
    }
    InjectionSize(st.approvals, RowsOf(st, r), DestructiveSteps(st.runs[r]));
  }

  /** Different rows of one run are for different steps. */
  lemma {:induction false} InjectionSize(approvals: seq<Approval>, rows: set<nat>, steps: set<nat>)
    requires UniqueRows(approvals)
    requires forall k :: k in rows ==> k < |approvals| && approvals[k].step in steps
    requires forall j, k :: j in rows && k in rows ==> approvals[j].run == approvals[k].run
    ensures |rows| <= |steps|
    decreases |rows|
  {
    if rows != {} {
      var k :| k in rows;
      var s := approvals[k].step;
      InjectionSize(approvals, rows - {k}, steps - {s});
    }
  }
}
