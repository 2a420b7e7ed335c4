/** The bounded state store, the engine that feeds it, and what a whole run of
    arrivals decides. */
module CorrelationRuns {
  import opened Text
  import opened Correlation
  import opened CorrelationGreedy
  import opened CorrelationWindow

  const DEFAULT_MAX_HITS: nat := 500

  // ----- the store --------------------------------------------------------

  /** The in-process store. `log` remembers everything ever appended to a key. */
  class StateStore {
    var hits: map<string, seq<StageHit>>
    ghost var log: map<string, seq<StageHit>>

    /** Each key holds exactly the last `cap` hits appended to it, in order. */
    ghost predicate Valid(cap: nat)
      reads this
    {
      hits.Keys == log.Keys && forall key :: key in hits ==> hits[key] == LastN(log[key], cap)
    }

    ghost function Held(key: string): seq<StageHit>
      reads this
    {
      if key in hits then hits[key] else []
    }

    ghost function Logged(key: string): seq<StageHit>
      reads this
    {
      if key in log then log[key] else []
    }

    constructor (ghost cap: nat)
      ensures Valid(cap) && hits == map[]
    {
      hits, log := map[], map[];
    }

    method Append(key: string, hit: StageHit, maxHits: nat) returns (held: seq<StageHit>)
      requires Valid(maxHits)
      modifies this
      ensures Valid(maxHits)
      ensures log == old(log)[key := old(Logged(key)) + [hit]]
      ensures hits == old(hits)[key := LastN(old(Held(key)) + [hit], maxHits)]
      ensures held == Held(key)
    {
      held := (if key in hits then hits[key] else []) + [hit];
      if |held| > maxHits {
        held := held[|held| - maxHits..];
      }
      LastNTwice(Logged(key), [hit], maxHits);
      assert held == LastN(Logged(key) + [hit], maxHits);
      log := log[key := Logged(key) + [hit]];
      hits := hits[key := held];
    }
  }

  /** The append script run inside Redis: push, measure, trim. It leaves the
      same list, and as long as no list starts out over the cap it drops at
      most one hit, so counting drops or counting trims is the same. */
  method AppendScript(list: seq<StageHit>, hit: StageHit, maxHits: nat) returns (trimmed: nat, list': seq<StageHit>)
    ensures list' == LastN(list + [hit], maxHits)
    ensures trimmed + |list'| == |list| + 1
    ensures |list| <= maxHits ==> trimmed <= 1
  {
    list' := list + [hit];
    var length := |list'|;
    trimmed := 0;
    if length > maxHits {
      list' := list'[length - maxHits..];
      trimmed := length - maxHits;
    }
  }

  function AppendAll(list: seq<StageHit>, more: seq<StageHit>, cap: nat): seq<StageHit>
    decreases |more|
  {
    if more == [] then list else AppendAll(LastN(list + [more[0]], cap), more[1..], cap)
  }

  /** After any sequence of appends, exactly the last `cap` hits are held, in order. */
  lemma {:induction false} AppendAllKeepsLast(all: seq<StageHit>, more: seq<StageHit>, cap: nat)
    ensures AppendAll(LastN(all, cap), more, cap) == LastN(all + more, cap)
    decreases |more|
  {
    if more == [] {
      assert all + more == all;
    } else {
      LastNTwice(all, [more[0]], cap);
      AppendAllKeepsLast(all + [more[0]], more[1..], cap);
      assert all + [more[0]] + more[1..] == all + more;
    }
  }

  /** How many hits a sequence of appends trims. */
  function Trimmed(list: seq<StageHit>, more: seq<StageHit>, cap: nat): nat
    decreases |more|
  {
    if more == [] then 0
    else
      var kept := LastN(list + [more[0]], cap);
      |list| + 1 - |kept| + Trimmed(kept, more[1..], cap)
  }

  /** Over any sequence of appends, what was appended is what is held and what
      was trimmed. */
  lemma {:induction false} AppendedIsHeldAndTrimmed(list: seq<StageHit>, more: seq<StageHit>, cap: nat)
    ensures |list| + |more| == |AppendAll(list, more, cap)| + Trimmed(list, more, cap)
    decreases |more|
  {
    if more != [] { AppendedIsHeldAndTrimmed(LastN(list + [more[0]], cap), more[1..], cap); }
  }

  /** The script over a sequence of appends: its list and its running total of
      trimmed hits. */
  method AppendScripts(list: seq<StageHit>, more: seq<StageHit>, maxHits: nat) returns (trimmed: nat, list': seq<StageHit>)
    ensures list' == AppendAll(list, more, maxHits)
    ensures trimmed == Trimmed(list, more, maxHits)
    ensures |list| + |more| == |list'| + trimmed
  {
    trimmed, list' := 0, list;
    for i := 0 to |more|
      invariant AppendAll(list', more[i..], maxHits) == AppendAll(list, more, maxHits)
      invariant trimmed + Trimmed(list', more[i..], maxHits) == Trimmed(list, more, maxHits)
    {
      assert more[i..][1..] == more[i + 1..];
      var n;
      n, list' := AppendScript(list', more[i], maxHits);
      trimmed := trimmed + n;
    }
    AppendedIsHeldAndTrimmed(list, more, maxHits);
  }

  // ----- the engine, for one rule and one entity --------------------------

  /** An input, with the names of the stages it satisfies. */
  datatype Input = Input(stages: seq<string>, at: int, event: string)

  function HitsOfInput(i: Input): (r: seq<StageHit>)
    ensures |r| == |i.stages|
  {
    seq(|i.stages|, k requires 0 <= k < |i.stages| => StageHit(i.stages[k], i.at, i.event))
  }

  /** Every hit the inputs give rise to, in arrival order. */
  function HitsOf(inputs: seq<Input>): seq<StageHit> {
    if inputs == [] then [] else HitsOf(inputs[..|inputs| - 1]) + HitsOfInput(inputs[|inputs| - 1])
  }

  predicate GivesRise(i: Input, h: StageHit) {
    h.stage in i.stages && h.at == i.at && h.event == i.event
  }

  /** A hit stands for an input and a stage it satisfies. */
  lemma {:induction false} HitsMean(inputs: seq<Input>, h: StageHit)
    ensures h in HitsOf(inputs) <==> exists k :: 0 <= k < |inputs| && GivesRise(inputs[k], h)
  {
    if inputs != [] {
      var n := |inputs| - 1;
      HitsMean(inputs[..n], h);
      InputMeans(inputs[n], h);
      if k :| 0 <= k < n && GivesRise(inputs[..n][k], h) { assert GivesRise(inputs[k], h); }
      if k :| 0 <= k < |inputs| && GivesRise(inputs[k], h) { assert k < n ==> GivesRise(inputs[..n][k], h); }
    }
  }

  lemma InputMeans(i: Input, h: StageHit)
    ensures h in HitsOfInput(i) <==> GivesRise(i, h)
  {
    if GivesRise(i, h) {
      var k :| 0 <= k < |i.stages| && i.stages[k] == h.stage;
      assert HitsOfInput(i)[k] == h;
    }
  }

  function HeldAfter(inputs: seq<Input>, cap: nat): seq<StageHit> {
    if inputs == [] then []
    else AppendAll(HeldAfter(inputs[..|inputs| - 1], cap), HitsOfInput(inputs[|inputs| - 1]), cap)
  }

  method ProcessRule(rule: Rule, store: StateStore, key: string, input: Input, cap: nat)
    returns (selected: Option<seq<StageHit>>)
    requires WellFormed(rule.required) && store.Valid(cap)
    modifies store
    ensures store.Valid(cap)
    ensures store.Held(key) == AppendAll(old(store.Held(key)), HitsOfInput(input), cap)
    ensures forall other :: other != key ==> store.Held(other) == old(store.Held(other))
    ensures selected == if input.stages == [] then None else EvaluateSpec(rule, store.Held(key))
  {
    if input.stages == [] { return None; }
    var held: seq<StageHit> := [];
    ghost var more := HitsOfInput(input);
    for i := 0 to |input.stages|
      invariant store.Valid(cap)
      invariant AppendAll(store.Held(key), more[i..], cap) == AppendAll(old(store.Held(key)), more, cap)
      invariant forall other :: other != key ==> store.Held(other) == old(store.Held(other))
      invariant i > 0 ==> held == store.Held(key)
    {
      assert more[i..][0] == StageHit(input.stages[i], input.at, input.event) && more[i..][1..] == more[i + 1..];
      held := store.Append(key, StageHit(input.stages[i], input.at, input.event), cap);
    }
    selected := Evaluate(rule, held);
  }

  lemma {:induction false} HeldIsLast(inputs: seq<Input>, cap: nat)
    ensures HeldAfter(inputs, cap) == LastN(HitsOf(inputs), cap)
  {
    if inputs != [] {
      var n := |inputs| - 1;
      HeldIsLast(inputs[..n], cap);
      AppendAllKeepsLast(HitsOf(inputs[..n]), HitsOfInput(inputs[n]), cap);
    }
  }

  // ----- whole runs -------------------------------------------------------

  /** The n-th input of the run completes the rule. */
  predicate FiresAt(rule: Rule, inputs: seq<Input>, cap: nat, n: nat)
    requires WellFormed(rule.required)
  {
    && n < |inputs| && inputs[n].stages != []
    && EvaluateSpec(rule, HeldAfter(inputs[..n + 1], cap)).Some?
  }

  predicate Fires(rule: Rule, inputs: seq<Input>, cap: nat)
    requires WellFormed(rule.required)
  {
    exists n :: 0 <= n < |inputs| && FiresAt(rule, inputs, cap, n)
  }

  predicate OneWindow(rule: Rule, hits: seq<StageHit>) {
    forall i, j :: 0 <= i < |hits| && 0 <= j < |hits| ==> hits[i].at - hits[j].at <= rule.windowSeconds * 1000
  }

  /** Whether the hits, taken all together, complete the rule. */
  ghost predicate HasChain(rule: Rule, hits: seq<StageHit>) {
    if rule.ordered then exists picks, finish :: Chain(rule.required, hits, picks, START, finish)
    else forall i :: 0 <= i < |rule.required| ==> |ByStage(hits, rule.required[i].name)| >= rule.required[i].minCount
  }

  /** While everything fits in one window, an evaluation sees everything. */
  lemma EvaluateInOneWindow(rule: Rule, hits: seq<StageHit>)
    requires WellFormed(rule.required) && hits != [] && OneWindow(rule, hits)
    ensures EvaluateSpec(rule, hits).Some? <==> HasChain(rule, hits)
  {
    var w := WindowStart(rule, hits);
    assert forall i :: 0 <= i < |hits| ==> w <= hits[i].at <= Newest(hits) by {
      var newest :| newest in hits && newest.at == Newest(hits);
    }
    if rule.ordered {
      OrderedExact(rule, hits);
      forall picks, finish
        ensures Chain(rule.required, hits, picks, START, finish) <==> Chain(rule.required, hits, picks, Max(START, w), finish)
      {
        ChainStartsLater(rule.required, hits, picks, START, Max(START, w), finish);
      }
    } else {
      UnorderedExact(rule, hits);
      forall i | 0 <= i < |rule.required|
        ensures |ByStage(hits, rule.required[i].name)| == CountStage(hits, rule.required[i].name, w, Newest(hits))
      {
        AllCounted(hits, rule.required[i].name, w, Newest(hits));
      }
    }
  }

  lemma {:induction false} AllCounted(hits: seq<StageHit>, name: string, lo: int, hi: int)
    requires forall i :: 0 <= i < |hits| ==> lo <= hits[i].at <= hi
    ensures |ByStage(hits, name)| == CountStage(hits, name, lo, hi)
  {
    if hits != [] { AllCounted(hits[1..], name, lo, hi); }
  }

  /** More hits never destroy a chain. */
  lemma HasChainExtends(rule: Rule, hits: seq<StageHit>, more: seq<StageHit>)
    requires HasChain(rule, hits)
    ensures HasChain(rule, hits + more)
  {
    if rule.ordered {
      var picks, finish :| Chain(rule.required, hits, picks, START, finish);
      ChainExtends(rule.required, hits, more, picks, START, finish);
    } else {
      forall i | 0 <= i < |rule.required| ensures |ByStage(hits + more, rule.required[i].name)| >= rule.required[i].minCount {
        ByStageConcat(hits, more, rule.required[i].name);
      }
    }
  }

  lemma ChainExtends(stages: seq<Stage>, hits: seq<StageHit>, more: seq<StageHit>, picks: seq<set<nat>>, start: int, finish: int)
    requires Chain(stages, hits, picks, start, finish)
    ensures Chain(stages, hits + more, picks, start, finish)
  {
    forall i | 0 <= i < |stages| ensures Picked(hits + more, stages[i], picks[i], start, finish) {
      assert Picked(hits, stages[i], picks[i], start, finish);
    }
    forall i, j | 0 <= i < j < |stages| ensures Precedes(hits + more, picks[i], picks[j]) {
      assert Precedes(hits, picks[i], picks[j]);
    }
  }

  lemma {:induction false} HitsOfPrefix(inputs: seq<Input>, n: nat)
    requires n <= |inputs|
    ensures HitsOf(inputs[..n]) <= HitsOf(inputs)
    decreases |inputs| - n
  {
    if n == |inputs| {
      assert inputs[..n] == inputs;
    } else {
      HitsOfPrefix(inputs, n + 1);
      assert inputs[..n + 1][..n] == inputs[..n];
    }
  }

  /** Some input carries the last hit, and after it nothing is added. */
  lemma {:induction false} LastEvaluation(inputs: seq<Input>) returns (n: nat)
    requires HitsOf(inputs) != []
    ensures n < |inputs| && inputs[n].stages != [] && HitsOf(inputs[..n + 1]) == HitsOf(inputs)
  {
    var last := |inputs| - 1;
    if inputs[last].stages != [] {
      n := last;
      assert inputs[..n + 1] == inputs;
    } else {
      assert HitsOf(inputs) == HitsOf(inputs[..last]);
      n := LastEvaluation(inputs[..last]);
      assert inputs[..last][..n + 1] == inputs[..n + 1];
    }
  }

  /** Within one window and without trimming, a run fires at least once exactly
      when its hits, in whatever order they arrived, hold a chain. */
  lemma FiresExactly(rule: Rule, inputs: seq<Input>, cap: nat)
    requires WellFormed(rule.required) && rule.required != []
    requires |HitsOf(inputs)| <= cap && OneWindow(rule, HitsOf(inputs))
    ensures Fires(rule, inputs, cap) <==> HasChain(rule, HitsOf(inputs))
  {
    forall n | 0 <= n < |inputs| && FiresAt(rule, inputs, cap, n) ensures HasChain(rule, HitsOf(inputs)) {
      FiringShowsChain(rule, inputs, cap, n);
    }
    if HasChain(rule, HitsOf(inputs)) {
      var n := ChainFires(rule, inputs, cap);
    }
  }

  lemma FiringShowsChain(rule: Rule, inputs: seq<Input>, cap: nat, n: nat)
    requires WellFormed(rule.required) && FiresAt(rule, inputs, cap, n)
    requires |HitsOf(inputs)| <= cap && OneWindow(rule, HitsOf(inputs))
    ensures HasChain(rule, HitsOf(inputs))
  {
    HeldIsLast(inputs[..n + 1], cap);
    HitsOfPrefix(inputs, n + 1);
    CompletedPrefix(rule, HitsOf(inputs[..n + 1]), HitsOf(inputs));
  }

  lemma CompletedPrefix(rule: Rule, part: seq<StageHit>, all: seq<StageHit>)
    requires WellFormed(rule.required) && part <= all && OneWindow(rule, all) && EvaluateSpec(rule, part).Some?
    ensures HasChain(rule, all)
  {
    assert all == part + all[|part|..];
    EvaluateInOneWindow(rule, part);
    HasChainExtends(rule, part, all[|part|..]);
  }

  lemma ChainFires(rule: Rule, inputs: seq<Input>, cap: nat) returns (n: nat)
    requires WellFormed(rule.required) && rule.required != []
    requires |HitsOf(inputs)| <= cap && OneWindow(rule, HitsOf(inputs)) && HasChain(rule, HitsOf(inputs))
    ensures n < |inputs| && FiresAt(rule, inputs, cap, n)
  {
    ChainNeedsHits(rule, HitsOf(inputs));
    n := LastEvaluation(inputs);
    HeldIsLast(inputs[..n + 1], cap);
    EvaluateInOneWindow(rule, HitsOf(inputs));
  }

  lemma ChainNeedsHits(rule: Rule, hits: seq<StageHit>)
    requires WellFormed(rule.required) && rule.required != [] && HasChain(rule, hits)
    ensures hits != []
  {
    if rule.ordered {
      var picks, finish :| Chain(rule.required, hits, picks, START, finish);
      assert Picked(hits, rule.required[0], picks[0], START, finish);
      var p :| p in picks[0];
    } else {
      assert |ByStage(hits, rule.required[0].name)| >= rule.required[0].minCount;
    }
  }

  // ----- arrival order ----------------------------------------------------

  lemma {:induction false} HitsOfConcat(a: seq<Input>, b: seq<Input>)
    ensures HitsOf(a + b) == HitsOf(a) + HitsOf(b)
    decreases |b|
  {
    if b == [] {
      assert a + b == a;
    } else {
      var n := |b| - 1;
      assert (a + b)[..|a + b| - 1] == a + b[..n];
      HitsOfConcat(a, b[..n]);
    }
  }

  lemma {:induction false} HitsOfPermuted(a: seq<Input>, b: seq<Input>)
    requires multiset(a) == multiset(b)
    ensures multiset(HitsOf(a)) == multiset(HitsOf(b))
    decreases |a|
  {
    if a == [] {
      assert |multiset(b)| == 0;
      assert b == [];
    } else {
      var j, b' := RemoveFrom(a, b);
      HitsOfPermuted(a[1..], b');
      var x := HitsOf([b[j]]);
      assert b == b[..j] + ([b[j]] + b[j + 1..]);
      HitsOfConcat(b[..j], [b[j]] + b[j + 1..]);
      HitsOfConcat([b[j]], b[j + 1..]);
      HitsOfConcat(b[..j], b[j + 1..]);
      assert a == [a[0]] + a[1..];
      HitsOfConcat([a[0]], a[1..]);
      assert multiset(HitsOf(b)) == multiset(HitsOf(b')) + multiset(x);
    }
  }

  lemma SameCounts(a: seq<StageHit>, b: seq<StageHit>)
    requires multiset(a) == multiset(b)
    ensures SameCountsIn(a, b)
  {
    forall name, lo, hi ensures CountStage(a, name, lo, hi) == CountStage(b, name, lo, hi) {
      CountStagePermuted(a, b, name, lo, hi);
    }
  }

  lemma SameNewest(a: seq<StageHit>, b: seq<StageHit>)
    requires multiset(a) == multiset(b) && a != [] && b != []
    ensures Newest(a) == Newest(b)
  {
    SameElements(a, b);
    SameElements(b, a);
  }

  lemma WindowSameCounts(rule: Rule, a: seq<StageHit>, b: seq<StageHit>)
    requires multiset(a) == multiset(b) && a != [] && b != []
    ensures SameCountsIn(InWindow(rule, a), InWindow(rule, b))
  {
    var w := WindowStart(rule, a);
    SameNewest(a, b);
    SameCounts(a, b);
    SortSameCounts(From(a, w));
    SortSameCounts(From(b, w));
    forall name, lo, hi ensures CountStage(InWindow(rule, a), name, lo, hi) == CountStage(InWindow(rule, b), name, lo, hi) {
      CountFrom(a, w, name, lo, hi);
      CountFrom(b, w, name, lo, hi);
    }
  }

  lemma {:induction false} UnorderedSameTimes(stages: seq<Stage>, a: seq<StageHit>, b: seq<StageHit>, w: int)
    requires Sorted(a) && Sorted(b)
    requires (forall h :: h in a ==> h.at >= w) && (forall h :: h in b ==> h.at >= w)
    requires SameCountsIn(a, b)
    ensures var ua, ub := UnorderedSpec(stages, a), UnorderedSpec(stages, b);
            && (ua.Some? <==> ub.Some?)
            && (ua.Some? ==> Signature(ua.value) == Signature(ub.value))
    decreases |stages|
  {
    if stages != [] {
      UnorderedSameTimes(stages[1..], a, b, w);
      StageSameTimes(a, b, stages[0].name, w);
    }
  }

  lemma StageSameTimes(a: seq<StageHit>, b: seq<StageHit>, name: string, w: int)
    requires Sorted(a) && Sorted(b)
    requires (forall h :: h in a ==> h.at >= w) && (forall h :: h in b ==> h.at >= w)
    requires SameCountsIn(a, b)
    ensures Signature(ByStage(a, name)) == Signature(ByStage(b, name))
  {
    ByStageSorted(a, name);
    ByStageSorted(b, name);
    FromEverything(ByStage(a, name), w);
    FromEverything(ByStage(b, name), w);
    SameCandidates(a, b, name, w);
  }

  lemma {:induction false} FromEverything(hits: seq<StageHit>, c: int)
    requires forall h :: h in hits ==> h.at >= c
    ensures From(hits, c) == hits
  {
    if hits != [] {
      FromEverything(hits[1..], c);
      assert hits == [hits[0]] + hits[1..];
    }
  }

  /** The selection does not depend on the order in which hits are held: same
      decision, same stages, same times. Windows need not coincide with runs. */
  lemma SelectionIgnoresOrder(rule: Rule, a: seq<StageHit>, b: seq<StageHit>)
    requires WellFormed(rule.required) && multiset(a) == multiset(b)
    ensures var ea, eb := EvaluateSpec(rule, a), EvaluateSpec(rule, b);
            && (ea.Some? <==> eb.Some?)
            && (ea.Some? ==> Signature(ea.value) == Signature(eb.value))
  {
    SameElements(a, b);
    if a != [] {
      WindowSameCounts(rule, a, b);
      InWindowMembers(rule, a);
      InWindowMembers(rule, b);
      SameNewest(a, b);
      if rule.ordered {
        GreedySameTimes(rule.required, InWindow(rule, a), InWindow(rule, b), START);
        var ga, gb := Greedy(rule.required, InWindow(rule, a), START), Greedy(rule.required, InWindow(rule, b), START);
        if ga.Some? {
          assert [] + Flatten(ga.value) == Flatten(ga.value) && [] + Flatten(gb.value) == Flatten(gb.value);
        }
      } else {
        UnorderedSameTimes(rule.required, InWindow(rule, a), InWindow(rule, b), WindowStart(rule, a));
      }
    }
  }

  /** Arrival order does not matter: two runs of the same inputs in different
      orders end with the same selection, and within one window one of them
      fires if and only if the other does. */
  lemma ArrivalOrderIrrelevant(rule: Rule, a: seq<Input>, b: seq<Input>, cap: nat)
    requires WellFormed(rule.required) && rule.required != []
    requires multiset(a) == multiset(b) && |HitsOf(a)| <= cap
    ensures var ea, eb := EvaluateSpec(rule, HeldAfter(a, cap)), EvaluateSpec(rule, HeldAfter(b, cap));
            && (ea.Some? <==> eb.Some?)
            && (ea.Some? ==> Signature(ea.value) == Signature(eb.value))
    ensures OneWindow(rule, HitsOf(a)) ==> (Fires(rule, a, cap) <==> Fires(rule, b, cap))
  {
    HitsOfPermuted(a, b);
    SameElements(HitsOf(a), HitsOf(b));
    SameElements(HitsOf(b), HitsOf(a));
    HeldIsLast(a, cap);
    HeldIsLast(b, cap);
    SelectionIgnoresOrder(rule, HitsOf(a), HitsOf(b));
    if OneWindow(rule, HitsOf(a)) {
      OneWindowPermuted(rule, HitsOf(a), HitsOf(b));
      FiresExactly(rule, a, cap);
      FiresExactly(rule, b, cap);
      ChainPermuted(rule, HitsOf(a), HitsOf(b));
    }
  }

  lemma OneWindowPermuted(rule: Rule, a: seq<StageHit>, b: seq<StageHit>)
    requires OneWindow(rule, a) && forall h :: h in b ==> h in a
    ensures OneWindow(rule, b)
  {
    forall i, j | 0 <= i < |b| && 0 <= j < |b| ensures b[i].at - b[j].at <= rule.windowSeconds * 1000 {
      assert b[i] in a && b[j] in a;
    }
  }

  lemma ChainPermuted(rule: Rule, a: seq<StageHit>, b: seq<StageHit>)
    requires WellFormed(rule.required) && rule.required != [] && multiset(a) == multiset(b)
    requires OneWindow(rule, a) && OneWindow(rule, b)
    ensures HasChain(rule, a) <==> HasChain(rule, b)
  {
    SameElements(a, b);
    if a != [] {
      EvaluateInOneWindow(rule, a);
      EvaluateInOneWindow(rule, b);
      SelectionIgnoresOrder(rule, a, b);
    }
  }

  // ----- beyond one window ------------------------------------------------

  lemma FirstStageTooOld(rule: Rule, held: seq<StageHit>)
    requires WellFormed(rule.required) && rule.ordered && rule.required != [] && held != []
    requires forall h :: h in held && h.stage == rule.required[0].name ==> h.at < WindowStart(rule, held)
    ensures EvaluateSpec(rule, held) == None
  {
    InWindowMembers(rule, held);
    var inWindow, name := InWindow(rule, held), rule.required[0].name;
    ByStageSorted(inWindow, name);
    FromShorter(ByStage(inWindow, name), START);
    NoSuchStage(inWindow, name);
  }

  lemma {:induction false} NoSuchStage(hits: seq<StageHit>, name: string)
    requires forall h :: h in hits ==> h.stage != name
    ensures ByStage(hits, name) == []
  {
    if hits != [] { NoSuchStage(hits[1..], name); }
  }

  function LateRule(): Rule { Rule([Stage("a", 1), Stage("b", 1)], true, 10) }

  function LateInputs(): seq<Input> {
    [Input(["a"], 0, "e1"), Input(["b"], 10000, "e2"), Input(["c"], 100000, "e3")]
  }

  function EarlyInputs(): seq<Input> {
    [LateInputs()[2], LateInputs()[0], LateInputs()[1]]
  }

  /** The window is anchored on the newest hit, so one later hit that happens
      to arrive first pushes a whole chain out: outside one window, arrival
      order decides whether anything ever fires. */
  lemma OrderMattersBeyondOneWindow()
    ensures WellFormed(LateRule().required) && multiset(LateInputs()) == multiset(EarlyInputs())
    ensures Fires(LateRule(), LateInputs(), DEFAULT_MAX_HITS)
    ensures !Fires(LateRule(), EarlyInputs(), DEFAULT_MAX_HITS)
  {
    assert WellFormed(LateRule().required) by { assert "a"[0] != "b"[0]; }
    LateFires();
    Rotated(LateInputs()[0], LateInputs()[1], LateInputs()[2]);
    forall n | 0 <= n < 3 ensures !FiresAt(LateRule(), EarlyInputs(), DEFAULT_MAX_HITS, n) {
      EarlyNeverFires(n);
    }
  }

  lemma Rotated<T>(x: T, y: T, z: T)
    ensures multiset([x, y, z]) == multiset([z, x, y])
  {
  }

  lemma LateFires()
    requires WellFormed(LateRule().required)
    ensures Fires(LateRule(), LateInputs(), DEFAULT_MAX_HITS)
  {
    var rule, two := LateRule(), LateInputs()[..2];
    var held := [StageHit("a", 0, "e1"), StageHit("b", 10000, "e2")];
    assert HitsOf(two) == held by {
      assert two[..1] == [LateInputs()[0]] && two[..1][..0] == [];
      assert HitsOf(two[..1]) == [StageHit("a", 0, "e1")];
    }
    HeldIsLast(two, DEFAULT_MAX_HITS);
    TwoInOrder("e1", "e2");
    EvaluateInOneWindow(rule, held);
    assert LateInputs()[..1 + 1] == two;
    assert FiresAt(rule, LateInputs(), DEFAULT_MAX_HITS, 1);
  }

  lemma TwoInOrder(x: string, y: string)
    ensures HasChain(LateRule(), [StageHit("a", 0, x), StageHit("b", 10000, y)])
  {
    var rule, held := LateRule(), [StageHit("a", 0, x), StageHit("b", 10000, y)];
    assert Picked(held, rule.required[0], {0}, START, 10000) && Picked(held, rule.required[1], {1}, START, 10000);
    assert Chain(rule.required, held, [{0}, {1}], START, 10000);
  }

  lemma EarlyStartsLate(n: nat)
    requires n < 3
    ensures StageHit("c", 100000, "e3") in HitsOf(EarlyInputs()[..n + 1])
  {
    var some := EarlyInputs()[..n + 1];
    HitsOfConcat(some[..1], some[1..]);
    assert some == some[..1] + some[1..] && some[..1] == [LateInputs()[2]];
    assert HitsOf(some[..1]) == [StageHit("c", 100000, "e3")] by { assert some[..1][..0] == []; }
    assert HitsOf(some)[0] == StageHit("c", 100000, "e3");
  }

  lemma EarlyNeverFires(n: nat)
    requires n < 3 && WellFormed(LateRule().required)
    ensures !FiresAt(LateRule(), EarlyInputs(), DEFAULT_MAX_HITS, n)
  {
    var some := EarlyInputs()[..n + 1];
    var h := HitsOf(some);
    EarlyStartsLate(n);
    HitTimes(some, 0, 100000);
    HeldIsLast(some, DEFAULT_MAX_HITS);
    HitsCount(some);
    assert Newest(h) >= 100000;
    forall x | x in h && x.stage == "a" ensures x.at < WindowStart(LateRule(), h) {
      FromSomeInput(some, x);
      assert "a"[0] != "c"[0];
    }
    FirstStageTooOld(LateRule(), h);
  }

  lemma {:induction false} HitTimes(inputs: seq<Input>, lo: int, hi: int)
    requires forall i :: 0 <= i < |inputs| ==> lo <= inputs[i].at <= hi
    ensures forall h :: h in HitsOf(inputs) ==> lo <= h.at <= hi
  {
    if inputs != [] { HitTimes(inputs[..|inputs| - 1], lo, hi); }
  }

  lemma {:induction false} FromSomeInput(inputs: seq<Input>, h: StageHit)
    requires h in HitsOf(inputs)
    ensures exists i :: 0 <= i < |inputs| && h in HitsOfInput(inputs[i])
  {
    var n := |inputs| - 1;
    if h !in HitsOfInput(inputs[n]) {
      FromSomeInput(inputs[..n], h);
      var i :| 0 <= i < n && h in HitsOfInput(inputs[..n][i]);
      assert h in HitsOfInput(inputs[i]);
    }
  }

  lemma {:induction false} HitsCount(inputs: seq<Input>)
    requires forall i :: 0 <= i < |inputs| ==> |inputs[i].stages| == 1
    ensures |HitsOf(inputs)| == |inputs|
  {
    if inputs != [] { HitsCount(inputs[..|inputs| - 1]); }
  }
}
