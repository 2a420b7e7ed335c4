/** Completion of a correlation rule over the hits held for one entity. */
module Correlation {
  import opened Text

  /** One input that matched one stage; `at` is its effective time in milliseconds. */
  datatype StageHit = StageHit(stage: string, at: int, event: string)

  datatype Stage = Stage(name: string, minCount: nat)

  /** `required` are the required stages in rule order. */
  datatype Rule = Rule(required: seq<Stage>, ordered: bool, windowSeconds: nat)

  /** The rule schema: stage names are unique and every count is at least one. */
  predicate WellFormed(stages: seq<Stage>) {
    && (forall i :: 0 <= i < |stages| ==> stages[i].minCount >= 1)
    && (forall i, j :: 0 <= i < j < |stages| ==> stages[i].name != stages[j].name)
  }

  datatype TimeSource = EventClock | IngestionClock

  /** The clock a chain is judged on. Whatever a source claims, the result is
      within the tolerance of the ingestion time, and the claim is used
      exactly when it is within the tolerance itself. */
  function EffectiveTime(claimed: int, ingested: int, maxSkewSeconds: nat): (r: (int, TimeSource))
    ensures -1000 * maxSkewSeconds <= r.0 - ingested <= 1000 * maxSkewSeconds
    ensures r.1.EventClock? <==> -1000 * maxSkewSeconds <= claimed - ingested <= 1000 * maxSkewSeconds
    ensures r.0 == if r.1.EventClock? then claimed else ingested
  {
    var skew := claimed - ingested;
    if (if skew < 0 then -skew else skew) <= maxSkewSeconds * 1000 then (claimed, EventClock)
    else (ingested, IngestionClock)
  }

  // ----- hits by stage and time -------------------------------------------

  function ByStage(hits: seq<StageHit>, name: string): seq<StageHit> {
    if hits == [] then []
    else (if hits[0].stage == name then [hits[0]] else []) + ByStage(hits[1..], name)
  }

  function From(hits: seq<StageHit>, cursor: int): seq<StageHit> {
    if hits == [] then []
    else (if hits[0].at >= cursor then [hits[0]] else []) + From(hits[1..], cursor)
  }

  /** How many hits lie in a stretch of time, both ends included. */
  function Count(hits: seq<StageHit>, lo: int, hi: int): nat {
    if hits == [] then 0
    else (if lo <= hits[0].at <= hi then 1 else 0) + Count(hits[1..], lo, hi)
  }

  predicate Sorted(hits: seq<StageHit>) {
    forall i, j :: 0 <= i < j < |hits| ==> hits[i].at <= hits[j].at
  }

  /** Stable insertion, so that `Sort` is the stable sort the engine relies on. */
  function Insert(h: StageHit, hits: seq<StageHit>): seq<StageHit> {
    if hits == [] || h.at <= hits[0].at then [h] + hits else [hits[0]] + Insert(h, hits[1..])
  }

  function Sort(hits: seq<StageHit>): seq<StageHit> {
    if hits == [] then [] else Insert(hits[0], Sort(hits[1..]))
  }

  // ----- ordered completion -----------------------------------------------

  /** For each stage in order, the earliest `minCount` hits at or after the
      last hit taken for the stage before it. */
  function Greedy(stages: seq<Stage>, hits: seq<StageHit>, cursor: int): (r: Option<seq<seq<StageHit>>>)
    requires forall i :: 0 <= i < |stages| ==> stages[i].minCount >= 1
    ensures r.Some? ==> |r.value| == |stages| && forall i :: 0 <= i < |stages| ==> |r.value[i]| == stages[i].minCount
  {
    if stages == [] then Some([])
    else
      var candidates := From(ByStage(hits, stages[0].name), cursor);
      if |candidates| < stages[0].minCount then None
      else
        var taken := candidates[..stages[0].minCount];
        var rest := Greedy(stages[1..], hits, taken[|taken| - 1].at);
        if rest.None? then None else Some([taken] + rest.value)
  }

  function Flatten(groups: seq<seq<StageHit>>): seq<StageHit> {
    if groups == [] then [] else groups[0] + Flatten(groups[1..])
  }

  /** The search starts with a cursor of -1. */
  const START := -1

  /** What a partly finished search returns, given what it has selected so far. */
  function Finish(selected: seq<StageHit>, g: Option<seq<seq<StageHit>>>): Option<seq<StageHit>> {
    if g.None? then None else Some(selected + Flatten(g.value))
  }

  lemma FinishStep(selected: seq<StageHit>, taken: seq<StageHit>, rest: Option<seq<seq<StageHit>>>)
    ensures Finish(selected, if rest.None? then None else Some([taken] + rest.value)) == Finish(selected + taken, rest)
  {
    if rest.Some? {
      assert ([taken] + rest.value)[1..] == rest.value;
      assert selected + (taken + Flatten(rest.value)) == selected + taken + Flatten(rest.value);
    }
  }

  function OrderedSpec(stages: seq<Stage>, hits: seq<StageHit>): Option<seq<StageHit>>
    requires WellFormed(stages)
  {
    Finish([], Greedy(stages, hits, START))
  }

  function UnorderedSpec(stages: seq<Stage>, hits: seq<StageHit>): Option<seq<StageHit>> {
    if stages == [] then Some([])
    else
      var mine := ByStage(hits, stages[0].name);
      var rest := UnorderedSpec(stages[1..], hits);
      if |mine| < stages[0].minCount then None else Prepend(mine[..stages[0].minCount], rest)
  }

  function Prepend(selected: seq<StageHit>, rest: Option<seq<StageHit>>): Option<seq<StageHit>> {
    if rest.None? then None else Some(selected + rest.value)
  }

  lemma PrependStep(a: seq<StageHit>, b: seq<StageHit>, rest: Option<seq<StageHit>>)
    ensures Prepend(a, Prepend(b, rest)) == Prepend(a + b, rest)
    ensures Prepend([], rest) == rest
  {
    if rest.Some? {
      assert a + (b + rest.value) == a + b + rest.value && [] + rest.value == rest.value;
    }
  }

  // ----- the code ---------------------------------------------------------

  function Lookup(groups: map<string, seq<StageHit>>, name: string): seq<StageHit> {
    if name in groups then groups[name] else []
  }

  ghost predicate GroupsOf(groups: map<string, seq<StageHit>>, hits: seq<StageHit>) {
    forall name :: Lookup(groups, name) == ByStage(hits, name)
  }

  lemma {:induction false} ByStageConcat(a: seq<StageHit>, b: seq<StageHit>, name: string)
    ensures ByStage(a + b, name) == ByStage(a, name) + ByStage(b, name)
    decreases |a|
  {
    if a == [] {
      assert a + b == b;
    } else {
      assert (a + b)[1..] == a[1..] + b && (a + b)[0] == a[0];
      ByStageConcat(a[1..], b, name);
      var first := if a[0].stage == name then [a[0]] else [];
      assert first + (ByStage(a[1..], name) + ByStage(b, name)) == first + ByStage(a[1..], name) + ByStage(b, name);
    }
  }

  method GroupByStage(hits: seq<StageHit>) returns (groups: map<string, seq<StageHit>>)
    ensures GroupsOf(groups, hits)
  {
    groups := map[];
    for i := 0 to |hits|
      invariant GroupsOf(groups, hits[..i])
    {
      var h := hits[i];
      forall name ensures ByStage(hits[..i + 1], name) == ByStage(hits[..i], name) + ByStage([h], name) {
        assert hits[..i + 1] == hits[..i] + [h];
        ByStageConcat(hits[..i], [h], name);
      }
      var held := if h.stage in groups then groups[h.stage] else [];
      groups := groups[h.stage := held + [h]];
      forall name ensures Lookup(groups, name) == ByStage(hits[..i + 1], name) {
        assert ByStage([h], name) == if h.stage == name then [h] else [];
      }
    }
    assert hits[..|hits|] == hits;
  }

  method Candidates(hits: seq<StageHit>, cursor: int) returns (r: seq<StageHit>)
    ensures r == From(hits, cursor)
  {
    r := [];
    for i := 0 to |hits|
      invariant r + From(hits[i..], cursor) == From(hits, cursor)
    {
      if hits[i].at >= cursor { r := r + [hits[i]]; }
    }
  }

  method OrderedCompletion(rule: Rule, groups: map<string, seq<StageHit>>, ghost hits: seq<StageHit>)
    returns (r: Option<seq<StageHit>>)
    requires WellFormed(rule.required) && GroupsOf(groups, hits)
    ensures r == OrderedSpec(rule.required, hits)
  {
    var stages := rule.required;
    var selected: seq<StageHit> := [];
    var cursor := START;
    assert stages[0..] == stages;
    for i := 0 to |stages|
      invariant OrderedSpec(stages, hits) == Finish(selected, Greedy(stages[i..], hits, cursor))
    {
      assert stages[i..][1..] == stages[i + 1..];
      var candidates := Candidates(if stages[i].name in groups then groups[stages[i].name] else [], cursor);
      assert Lookup(groups, stages[i].name) == ByStage(hits, stages[i].name);
      if |candidates| < stages[i].minCount { return None; }
      var taken := candidates[..stages[i].minCount];
      FinishStep(selected, taken, Greedy(stages[i + 1..], hits, taken[|taken| - 1].at));
      selected := selected + taken;
      cursor := taken[|taken| - 1].at;
    }
    assert selected + [] == selected;
    return Some(selected);
  }

  method UnorderedCompletion(rule: Rule, groups: map<string, seq<StageHit>>, ghost hits: seq<StageHit>)
    returns (r: Option<seq<StageHit>>)
    requires GroupsOf(groups, hits)
    ensures r == UnorderedSpec(rule.required, hits)
  {
    var stages := rule.required;
    var selected: seq<StageHit> := [];
    assert stages[0..] == stages;
    PrependStep([], [], UnorderedSpec(stages, hits));
    for i := 0 to |stages|
      invariant UnorderedSpec(stages, hits) == Prepend(selected, UnorderedSpec(stages[i..], hits))
    {
      assert stages[i..][1..] == stages[i + 1..];
      var mine := if stages[i].name in groups then groups[stages[i].name] else [];
      assert mine == Lookup(groups, stages[i].name) == ByStage(hits, stages[i].name);
      if |mine| < stages[i].minCount { return None; }
      PrependStep(selected, mine[..stages[i].minCount], UnorderedSpec(stages[i + 1..], hits));
      selected := selected + mine[..stages[i].minCount];
    }
    assert selected + [] == selected;
    return Some(selected);
  }

  function Newest(held: seq<StageHit>): (t: int)
    requires held != []
    ensures forall h :: h in held ==> h.at <= t
    ensures exists h :: h in held && h.at == t
  {
    if |held| == 1 then held[0].at
    else
      var rest := Newest(held[1..]);
      assert forall h :: h in held ==> h == held[0] || h in held[1..];
      if held[0].at >= rest then held[0].at else rest
  }

  /** The held hits no older than one window before the newest, oldest first. */
  function InWindow(rule: Rule, held: seq<StageHit>): seq<StageHit>
    requires held != []
  {
    Sort(From(held, Newest(held) - rule.windowSeconds * 1000))
  }

  function EvaluateSpec(rule: Rule, held: seq<StageHit>): Option<seq<StageHit>>
    requires WellFormed(rule.required)
  {
    if held == [] then None
    else if rule.ordered then OrderedSpec(rule.required, InWindow(rule, held))
    else UnorderedSpec(rule.required, InWindow(rule, held))
  }

  method Evaluate(rule: Rule, held: seq<StageHit>) returns (selected: Option<seq<StageHit>>)
    requires WellFormed(rule.required)
    ensures selected == EvaluateSpec(rule, held)
  {
    if held == [] { return None; }
    var recent := Candidates(held, Newest(held) - rule.windowSeconds * 1000);
    var inWindow := Sort(recent);
    var groups := GroupByStage(inWindow);
    if rule.ordered {
      selected := OrderedCompletion(rule, groups, inWindow);
    } else {
      selected := UnorderedCompletion(rule, groups, inWindow);
    }
  }
}
