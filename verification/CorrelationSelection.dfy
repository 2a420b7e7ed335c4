/** What is selected when a rule completes: hits that are held, each under its
    own stage, none twice, all in one window and, for an ordered rule, in order. */
module CorrelationSelection {
  import opened Text
  import opened Correlation
  import opened CorrelationGreedy
  import opened CorrelationWindow

  /** One stage's share of the selection. */
  predicate Serves(stage: Stage, group: seq<StageHit>, hits: seq<StageHit>, start: int) {
    && |group| == stage.minCount
    && forall h :: h in group ==> h in hits && h.stage == stage.name && h.at >= start
  }

  predicate ServesAll(stages: seq<Stage>, groups: seq<seq<StageHit>>, hits: seq<StageHit>, start: int) {
    && |groups| == |stages|
    && forall i :: 0 <= i < |stages| ==> Serves(stages[i], groups[i], hits, start)
  }

  predicate NotAfter(a: seq<StageHit>, b: seq<StageHit>) {
    forall x, y :: x in a && y in b ==> x.at <= y.at
  }

  predicate InStageOrder(groups: seq<seq<StageHit>>) {
    forall i, j :: 0 <= i < j < |groups| ==> NotAfter(groups[i], groups[j])
  }

  // ----- no hit is used twice ---------------------------------------------

  lemma {:induction false} ByStageWithin(hits: seq<StageHit>, name: string)
    ensures multiset(ByStage(hits, name)) <= multiset(hits)
    ensures forall h :: h in ByStage(hits, name) ==> h in hits && h.stage == name
  {
    if hits != [] {
      ByStageWithin(hits[1..], name);
      assert hits == [hits[0]] + hits[1..];
    }
  }

  lemma {:induction false} FromWithin(hits: seq<StageHit>, c: int)
    ensures multiset(From(hits, c)) <= multiset(hits)
  {
    if hits != [] {
      FromWithin(hits[1..], c);
      assert hits == [hits[0]] + hits[1..];
    }
  }

  lemma PrefixWithin<T>(s: seq<T>, m: nat)
    requires m <= |s|
    ensures multiset(s[..m]) <= multiset(s)
  {
    assert s == s[..m] + s[m..];
  }

  /** Groups of different stages share no hit, so together they are within the
      hits if each is. */
  lemma JoinWithin(a: seq<StageHit>, b: seq<StageHit>, hits: seq<StageHit>, name: string)
    requires multiset(a) <= multiset(hits) && multiset(b) <= multiset(hits)
    requires (forall h :: h in a ==> h.stage == name) && (forall h :: h in b ==> h.stage != name)
    ensures multiset(a + b) <= multiset(hits)
  {
    forall h ensures multiset(a + b)[h] <= multiset(hits)[h] {
      assert multiset(a + b)[h] == multiset(a)[h] + multiset(b)[h];
      if h.stage == name { assert h !in b && multiset(b)[h] == 0; } else { assert h !in a && multiset(a)[h] == 0; }
    }
  }

  lemma {:induction false} FlattenStages(stages: seq<Stage>, groups: seq<seq<StageHit>>, hits: seq<StageHit>, start: int, name: string)
    requires ServesAll(stages, groups, hits, start) && forall i :: 0 <= i < |stages| ==> stages[i].name != name
    ensures forall h :: h in Flatten(groups) ==> h.stage != name
    decreases |stages|
  {
    if stages != [] {
      assert Serves(stages[0], groups[0], hits, start);
      forall i | 0 <= i < |stages| - 1 ensures Serves(stages[1..][i], groups[1..][i], hits, start) {
        assert Serves(stages[i + 1], groups[i + 1], hits, start);
      }
      FlattenStages(stages[1..], groups[1..], hits, start, name);
    }
  }

  /** How many hits a completed chain selects. */
  function Total(stages: seq<Stage>): nat {
    if stages == [] then 0 else stages[0].minCount + Total(stages[1..])
  }

  lemma {:induction false} FlattenMembers(stages: seq<Stage>, groups: seq<seq<StageHit>>, hits: seq<StageHit>, start: int)
    requires ServesAll(stages, groups, hits, start)
    ensures |Flatten(groups)| == Total(stages) && forall h :: h in Flatten(groups) ==> h in hits
    decreases |stages|
  {
    if stages != [] {
      assert Serves(stages[0], groups[0], hits, start);
      forall i | 0 <= i < |stages| - 1 ensures Serves(stages[1..][i], groups[1..][i], hits, start) {
        assert Serves(stages[i + 1], groups[i + 1], hits, start);
      }
      FlattenMembers(stages[1..], groups[1..], hits, start);
    }
  }

  // ----- ordered ----------------------------------------------------------

  lemma ServesEarlier(stages: seq<Stage>, groups: seq<seq<StageHit>>, hits: seq<StageHit>, start: int, earlier: int)
    requires ServesAll(stages, groups, hits, start) && earlier <= start
    ensures ServesAll(stages, groups, hits, earlier)
  {
    forall i | 0 <= i < |stages| ensures Serves(stages[i], groups[i], hits, earlier) {
      assert Serves(stages[i], groups[i], hits, start);
    }
  }

  lemma OrderCons(stages: seq<Stage>, group: seq<StageHit>, rest: seq<seq<StageHit>>, hits: seq<StageHit>, last: int)
    requires ServesAll(stages, rest, hits, last) && InStageOrder(rest) && forall h :: h in group ==> h.at <= last
    ensures InStageOrder([group] + rest)
  {
    var groups := [group] + rest;
    forall i, j | 0 <= i < j < |groups| ensures NotAfter(groups[i], groups[j]) {
      assert Serves(stages[j - 1], rest[j - 1], hits, last);
      if i > 0 { assert NotAfter(rest[i - 1], rest[j - 1]); }
    }
  }

  /** What the greedy search selects is a chain: the right number of held hits
      for every stage, of that stage, in stage order, and no hit twice. */
  lemma {:induction false} GreedyIsChain(stages: seq<Stage>, hits: seq<StageHit>, cursor: int)
    requires WellFormed(stages) && Sorted(hits) && Greedy(stages, hits, cursor).Some?
    ensures var g := Greedy(stages, hits, cursor).value;
            ServesAll(stages, g, hits, cursor) && InStageOrder(g) && multiset(Flatten(g)) <= multiset(hits)
    decreases |stages|
  {
    if stages != [] {
      var taken, last, rest := GreedySplits(stages, hits, cursor);
      GreedyIsChain(stages[1..], hits, last);
      TakenWithin(hits, stages[0].name, cursor, stages[0].minCount);
      ChainStep(stages, taken, rest, hits, cursor, last);
    }
  }

  lemma ChainStep(stages: seq<Stage>, taken: seq<StageHit>, rest: seq<seq<StageHit>>, hits: seq<StageHit>, cursor: int, last: int)
    requires WellFormed(stages) && stages != [] && cursor <= last
    requires Serves(stages[0], taken, hits, cursor) && multiset(taken) <= multiset(hits) && forall h :: h in taken ==> h.at <= last
    requires ServesAll(stages[1..], rest, hits, last) && InStageOrder(rest) && multiset(Flatten(rest)) <= multiset(hits)
    ensures var g := [taken] + rest;
            ServesAll(stages, g, hits, cursor) && InStageOrder(g) && multiset(Flatten(g)) <= multiset(hits)
  {
    OrderCons(stages[1..], taken, rest, hits, last);
    FlattenStages(stages[1..], rest, hits, last, stages[0].name);
    ServesEarlier(stages[1..], rest, hits, last, cursor);
    JoinWithin(taken, Flatten(rest), hits, stages[0].name);
    FlattenCons(taken, rest);
  }

  lemma TakenWithin(hits: seq<StageHit>, name: string, cursor: int, m: nat)
    requires m <= |From(ByStage(hits, name), cursor)|
    ensures multiset(From(ByStage(hits, name), cursor)[..m]) <= multiset(hits)
  {
    ByStageWithin(hits, name);
    FromWithin(ByStage(hits, name), cursor);
    PrefixWithin(From(ByStage(hits, name), cursor), m);
  }

  // ----- the earliest hits are taken ----------------------------------------

  predicate AllAtOrBefore(group: seq<StageHit>, h: StageHit) {
    forall x :: x in group ==> x.at <= h.at
  }

  /** A hit of the stage, at or after `start`, that is among the hits more often
      than in the group. */
  predicate LeftOut(stage: Stage, group: seq<StageHit>, hits: seq<StageHit>, start: int, h: StageHit) {
    h.stage == stage.name && start <= h.at && multiset(hits)[h] > multiset(group)[h]
  }

  /** Whatever hit of the stage at or after `start` is left out, counting
      repetitions, comes at or after every hit taken. */
  ghost predicate TakesEarliest(stage: Stage, group: seq<StageHit>, hits: seq<StageHit>, start: int) {
    forall h :: LeftOut(stage, group, hits, start, h) ==> AllAtOrBefore(group, h)
  }

  lemma {:induction false} ByStageCount(hits: seq<StageHit>, name: string, h: StageHit)
    requires h.stage == name
    ensures multiset(ByStage(hits, name))[h] == multiset(hits)[h]
  {
    if hits != [] {
      ByStageCount(hits[1..], name, h);
      assert hits == [hits[0]] + hits[1..];
    }
  }

  lemma {:induction false} FromCount(hits: seq<StageHit>, c: int, h: StageHit)
    requires h.at >= c
    ensures multiset(From(hits, c))[h] == multiset(hits)[h]
  {
    if hits != [] {
      FromCount(hits[1..], c, h);
      assert hits == [hits[0]] + hits[1..];
    }
  }

  lemma PrefixIsEarliest(mine: seq<StageHit>, m: nat, h: StageHit)
    requires Sorted(mine) && m <= |mine| && multiset(mine)[h] > multiset(mine[..m])[h]
    ensures AllAtOrBefore(mine[..m], h)
  {
    assert mine == mine[..m] + mine[m..];
    assert multiset(mine)[h] == multiset(mine[..m])[h] + multiset(mine[m..])[h];
    assert h in mine[m..];
  }

  /** The first candidates at or after the cursor are the earliest. */
  lemma TakenIsEarliest(stage: Stage, hits: seq<StageHit>, cursor: int)
    requires Sorted(hits) && stage.minCount <= |From(ByStage(hits, stage.name), cursor)|
    ensures TakesEarliest(stage, From(ByStage(hits, stage.name), cursor)[..stage.minCount], hits, cursor)
  {
    var mine := From(ByStage(hits, stage.name), cursor);
    ByStageSorted(hits, stage.name);
    FromSorted(ByStage(hits, stage.name), cursor);
    forall h | LeftOut(stage, mine[..stage.minCount], hits, cursor, h)
      ensures AllAtOrBefore(mine[..stage.minCount], h)
    {
      ByStageCount(hits, stage.name, h);
      FromCount(ByStage(hits, stage.name), cursor, h);
      PrefixIsEarliest(mine, stage.minCount, h);
    }
  }

  lemma PrefixTakesEarliest(stage: Stage, hits: seq<StageHit>)
    requires Sorted(hits) && stage.minCount <= |ByStage(hits, stage.name)|
    ensures forall start :: TakesEarliest(stage, ByStage(hits, stage.name)[..stage.minCount], hits, start)
  {
    var mine := ByStage(hits, stage.name);
    ByStageSorted(hits, stage.name);
    forall start, h | LeftOut(stage, mine[..stage.minCount], hits, start, h) ensures AllAtOrBefore(mine[..stage.minCount], h) {
      ByStageCount(hits, stage.name, h);
      PrefixIsEarliest(mine, stage.minCount, h);
    }
  }

  /** Where the search for stage i begins: at the cursor, or at the latest hit
      taken for the stage before. */
  ghost function Reached(g: seq<seq<StageHit>>, cursor: int, i: nat): int
    requires i <= |g|
  {
    if i == 0 || g[i - 1] == [] then cursor else LatestOf(g[i - 1])
  }

  predicate IsLatest(group: seq<StageHit>, t: int) {
    (forall h :: h in group ==> h.at <= t) && exists h :: h in group && h.at == t
  }

  ghost function LatestOf(group: seq<StageHit>): (t: int)
    requires group != []
    ensures IsLatest(group, t)
  {
    assert IsLatest(group, Newest(group));
    var t :| IsLatest(group, t);
    t
  }

  ghost predicate AllTakeEarliest(stages: seq<Stage>, g: seq<seq<StageHit>>, hits: seq<StageHit>, cursor: int) {
    && |g| == |stages|
    && forall i :: 0 <= i < |stages| ==> TakesEarliest(stages[i], g[i], hits, Reached(g, cursor, i))
  }

  /** Every group of a greedy answer takes the earliest hits of its stage at or
      after the latest hit of the group before. */
  lemma {:induction false} GreedyTakesEarliest(stages: seq<Stage>, hits: seq<StageHit>, cursor: int)
    requires Positive(stages) && Sorted(hits) && Greedy(stages, hits, cursor).Some?
    ensures AllTakeEarliest(stages, Greedy(stages, hits, cursor).value, hits, cursor)
    decreases |stages|
  {
    if stages != [] {
      var taken, last, rest := GreedySplits(stages, hits, cursor);
      TakenIsEarliest(stages[0], hits, cursor);
      LatestIs(taken, last);
      NoneEmpty(stages[1..], hits, last, rest);
      GreedyTakesEarliest(stages[1..], hits, last);
      EarliestCons(stages, taken, rest, hits, cursor);
    }
  }

  lemma NoneEmpty(stages: seq<Stage>, hits: seq<StageHit>, cursor: int, g: seq<seq<StageHit>>)
    requires Positive(stages) && Greedy(stages, hits, cursor) == Some(g)
    ensures |g| == |stages| && forall j :: 0 <= j < |g| ==> g[j] != []
  {
    assert forall j :: 0 <= j < |g| ==> |g[j]| == stages[j].minCount;
  }

  lemma EarliestCons(stages: seq<Stage>, taken: seq<StageHit>, rest: seq<seq<StageHit>>, hits: seq<StageHit>, cursor: int)
    requires stages != [] && taken != [] && forall j :: 0 <= j < |rest| ==> rest[j] != []
    requires TakesEarliest(stages[0], taken, hits, cursor) && AllTakeEarliest(stages[1..], rest, hits, LatestOf(taken))
    ensures AllTakeEarliest(stages, [taken] + rest, hits, cursor)
  {
    var g := [taken] + rest;
    forall i | 0 <= i < |stages| ensures TakesEarliest(stages[i], g[i], hits, Reached(g, cursor, i)) {
      if i == 0 {
        SameTask(stages[0], taken, cursor, stages[i], g[i], Reached(g, cursor, i), hits);
      } else {
        ReachedCons(taken, rest, cursor, i);
        SameTask(stages[1..][i - 1], rest[i - 1], Reached(rest, LatestOf(taken), i - 1), stages[i], g[i], Reached(g, cursor, i), hits);
      }
    }
  }

  lemma SameTask(s: Stage, a: seq<StageHit>, x: int, s': Stage, a': seq<StageHit>, x': int, hits: seq<StageHit>)
    requires s == s' && a == a' && x == x' && TakesEarliest(s, a, hits, x)
    ensures TakesEarliest(s', a', hits, x')
  {
  }

  lemma LatestIs(group: seq<StageHit>, t: int)
    requires (forall h :: h in group ==> h.at <= t) && exists h :: h in group && h.at == t
    ensures group != [] && LatestOf(group) == t
  {
  }

  lemma ReachedCons(taken: seq<StageHit>, rest: seq<seq<StageHit>>, cursor: int, i: nat)
    requires taken != [] && 0 < i <= |rest| + 1 && forall j :: 0 <= j < |rest| ==> rest[j] != []
    ensures Reached([taken] + rest, cursor, i) == Reached(rest, LatestOf(taken), i - 1)
  {
  }

  // ----- unordered --------------------------------------------------------

  /** The groups behind an unordered selection: the first hits of each stage. */
  lemma {:induction false} UnorderedIsSelection(stages: seq<Stage>, hits: seq<StageHit>, start: int) returns (g: seq<seq<StageHit>>)
    requires WellFormed(stages) && UnorderedSpec(stages, hits).Some? && forall h :: h in hits ==> h.at >= start
    ensures UnorderedSpec(stages, hits).value == Flatten(g)
    ensures ServesAll(stages, g, hits, start) && multiset(Flatten(g)) <= multiset(hits)
    ensures forall i :: 0 <= i < |stages| ==> IsFirst(stages[i], g[i], hits)
    decreases |stages|
  {
    if stages == [] {
      g := [];
    } else {
      var taken := ByStage(hits, stages[0].name)[..stages[0].minCount];
      var rest := UnorderedIsSelection(stages[1..], hits, start);
      FirstServes(stages[0], taken, hits, start);
      UnorderedStep(stages, taken, rest, hits, start);
      FlattenCons(taken, rest);
      g := [taken] + rest;
    }
  }

  lemma FirstServes(stage: Stage, group: seq<StageHit>, hits: seq<StageHit>, start: int)
    requires IsFirst(stage, group, hits) && forall h :: h in hits ==> h.at >= start
    ensures Serves(stage, group, hits, start) && multiset(group) <= multiset(hits)
  {
    ByStageWithin(hits, stage.name);
    assert group == ByStage(hits, stage.name)[..|group|];
    PrefixWithin(ByStage(hits, stage.name), |group|);
  }

  lemma UnorderedStep(stages: seq<Stage>, taken: seq<StageHit>, rest: seq<seq<StageHit>>, hits: seq<StageHit>, start: int)
    requires WellFormed(stages) && stages != []
    requires Serves(stages[0], taken, hits, start) && multiset(taken) <= multiset(hits) && IsFirst(stages[0], taken, hits)
    requires ServesAll(stages[1..], rest, hits, start) && multiset(Flatten(rest)) <= multiset(hits)
    requires forall i :: 0 <= i < |stages| - 1 ==> IsFirst(stages[1..][i], rest[i], hits)
    ensures var g := [taken] + rest;
            && ServesAll(stages, g, hits, start) && multiset(Flatten(g)) <= multiset(hits)
            && forall i :: 0 <= i < |stages| ==> IsFirst(stages[i], g[i], hits)
  {
    var g := [taken] + rest;
    forall i | 0 <= i < |stages| ensures Serves(stages[i], g[i], hits, start) && IsFirst(stages[i], g[i], hits) {
      if i > 0 { assert Serves(stages[1..][i - 1], rest[i - 1], hits, start) && IsFirst(stages[1..][i - 1], rest[i - 1], hits); }
    }
    FlattenStages(stages[1..], rest, hits, start, stages[0].name);
    JoinWithin(taken, Flatten(rest), hits, stages[0].name);
    FlattenCons(taken, rest);
  }

  /** The group is the first of the stage's hits. */
  predicate IsFirst(stage: Stage, group: seq<StageHit>, hits: seq<StageHit>) {
    group <= ByStage(hits, stage.name) && |group| == stage.minCount
  }

  lemma FirstIsEarliest(stage: Stage, group: seq<StageHit>, hits: seq<StageHit>, start: int)
    requires Sorted(hits) && IsFirst(stage, group, hits)
    ensures TakesEarliest(stage, group, hits, start)
  {
    assert group == ByStage(hits, stage.name)[..stage.minCount];
    PrefixTakesEarliest(stage, hits);
  }

  // ----- one evaluation ---------------------------------------------------

  /** The window holds no hit more often than the store does. */
  lemma WindowWithin(rule: Rule, held: seq<StageHit>)
    requires held != []
    ensures multiset(InWindow(rule, held)) <= multiset(held)
  {
    var w := WindowStart(rule, held);
    assert InWindow(rule, held) == Sort(From(held, w));
    RecentWithin(held, w);
  }

  lemma RecentWithin(held: seq<StageHit>, w: int)
    ensures multiset(Sort(From(held, w))) <= multiset(held)
  {
    FromWithin(held, w);
    SortSorts(From(held, w));
  }

  lemma Widened(stages: seq<Stage>, g: seq<seq<StageHit>>, hits: seq<StageHit>, more: seq<StageHit>, start: int, start': int)
    requires ServesAll(stages, g, hits, start) && forall h :: h in hits ==> h in more && h.at >= start'
    ensures ServesAll(stages, g, more, start')
  {
    forall i | 0 <= i < |stages| ensures Serves(stages[i], g[i], more, start') {
      assert Serves(stages[i], g[i], hits, start);
    }
  }

  /** The instant from which stage i may take hits: the start of the window and,
      under an ordered rule, not before -1 nor before the stage before is done. */
  ghost function SearchedFrom(rule: Rule, held: seq<StageHit>, g: seq<seq<StageHit>>, i: nat): int
    requires held != [] && i <= |g|
  {
    if rule.ordered then Max(Reached(g, -1, i), WindowStart(rule, held)) else WindowStart(rule, held)
  }

  lemma WindowCount(rule: Rule, held: seq<StageHit>, h: StageHit)
    requires held != [] && h.at >= WindowStart(rule, held)
    ensures multiset(InWindow(rule, held))[h] == multiset(held)[h]
  {
    var w := WindowStart(rule, held);
    assert InWindow(rule, held) == Sort(From(held, w));
    SortSorts(From(held, w));
    FromCount(held, w, h);
  }

  /** What is earliest among the hits of the window is so among the held hits
      from its start on. */
  lemma EarliestOfHeld(rule: Rule, held: seq<StageHit>, stage: Stage, group: seq<StageHit>, start: int)
    requires held != [] && TakesEarliest(stage, group, InWindow(rule, held), start)
    ensures TakesEarliest(stage, group, held, Max(start, WindowStart(rule, held)))
  {
    var from := Max(start, WindowStart(rule, held));
    forall h | LeftOut(stage, group, held, from, h) ensures AllAtOrBefore(group, h) {
      WindowCount(rule, held, h);
      assert LeftOut(stage, group, InWindow(rule, held), start, h);
    }
  }

  /** A completed rule has selected a valid chain: for each required stage, in
      rule order, exactly `minCount` held hits of that stage from the last
      window; no hit twice; at every stage the earliest hits there were; and
      under an ordered rule no hit of a stage later
      than a hit of a stage after it. */
  lemma SelectionIsChain(rule: Rule, held: seq<StageHit>) returns (g: seq<seq<StageHit>>)
    requires WellFormed(rule.required) && EvaluateSpec(rule, held).Some?
    ensures EvaluateSpec(rule, held).value == Flatten(g) && held != []
    ensures ServesAll(rule.required, g, held, WindowStart(rule, held))
    ensures rule.ordered ==> InStageOrder(g)
    ensures multiset(Flatten(g)) <= multiset(held)
    ensures |Flatten(g)| == Total(rule.required) <= |held| && forall h :: h in Flatten(g) ==> h.at <= Newest(held)
    ensures forall i :: 0 <= i < |rule.required| ==>
              TakesEarliest(rule.required[i], g[i], held, SearchedFrom(rule, held, g, i))
  {
    g := if rule.ordered then Greedy(rule.required, InWindow(rule, held), START).value else [];
    if rule.ordered {
      OrderedIsChain(rule, held, g);
    } else {
      g := UnorderedIsChain(rule, held);
    }
    FlattenMembers(rule.required, g, held, WindowStart(rule, held));
    NoMoreThanHeld(Flatten(g), held);
  }

  lemma OrderedIsChain(rule: Rule, held: seq<StageHit>, g: seq<seq<StageHit>>)
    requires WellFormed(rule.required) && rule.ordered && held != [] && Greedy(rule.required, InWindow(rule, held), START) == Some(g)
    ensures EvaluateSpec(rule, held).value == Flatten(g) && InStageOrder(g)
    ensures ServesAll(rule.required, g, held, WindowStart(rule, held)) && multiset(Flatten(g)) <= multiset(held)
    ensures forall i :: 0 <= i < |rule.required| ==> TakesEarliest(rule.required[i], g[i], held, SearchedFrom(rule, held, g, i))
  {
    var inWindow := InWindow(rule, held);
    InWindowMembers(rule, held);
    WindowWithin(rule, held);
    GreedyIsChain(rule.required, inWindow, START);
    assert [] + Flatten(g) == Flatten(g);
    Widened(rule.required, g, inWindow, held, START, WindowStart(rule, held));
    GreedyTakesEarliest(rule.required, inWindow, START);
    forall i | 0 <= i < |rule.required| ensures TakesEarliest(rule.required[i], g[i], held, SearchedFrom(rule, held, g, i)) {
      EarliestOfHeld(rule, held, rule.required[i], g[i], Reached(g, START, i));
    }
  }

  lemma UnorderedIsChain(rule: Rule, held: seq<StageHit>) returns (g: seq<seq<StageHit>>)
    requires WellFormed(rule.required) && !rule.ordered && EvaluateSpec(rule, held).Some?
    ensures EvaluateSpec(rule, held).value == Flatten(g) && held != []
    ensures ServesAll(rule.required, g, held, WindowStart(rule, held)) && multiset(Flatten(g)) <= multiset(held)
    ensures forall i :: 0 <= i < |rule.required| ==> TakesEarliest(rule.required[i], g[i], held, SearchedFrom(rule, held, g, i))
  {
    var inWindow, w := InWindow(rule, held), WindowStart(rule, held);
    InWindowMembers(rule, held);
    WindowWithin(rule, held);
    g := UnorderedIsSelection(rule.required, inWindow, w);
    Widened(rule.required, g, inWindow, held, w, w);
    forall i | 0 <= i < |rule.required| ensures TakesEarliest(rule.required[i], g[i], held, SearchedFrom(rule, held, g, i)) {
      FirstIsEarliest(rule.required[i], g[i], inWindow, w);
      EarliestOfHeld(rule, held, rule.required[i], g[i], w);
    }
  }

  lemma NoMoreThanHeld<T>(a: seq<T>, b: seq<T>)
    requires multiset(a) <= multiset(b)
    ensures |a| <= |b|
  {
    assert multiset(b) == multiset(a) + (multiset(b) - multiset(a));
    assert |multiset(a)| == |a| && |multiset(b)| == |b|;
  }

  /** A rule that asks for more hits than the store keeps never completes. */
  lemma CapBoundsRules(rule: Rule, held: seq<StageHit>, cap: nat)
    requires WellFormed(rule.required) && |held| <= cap < Total(rule.required)
    ensures EvaluateSpec(rule, held).None?
  {
    if EvaluateSpec(rule, held).Some? {
      var g := SelectionIsChain(rule, held);
    }
  }
}
