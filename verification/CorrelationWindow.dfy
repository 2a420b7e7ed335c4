/** What one evaluation decides, for any hits the store may hold. */
module CorrelationWindow {
  import opened Text
  import opened Correlation
  import opened CorrelationGreedy

  function WindowStart(rule: Rule, held: seq<StageHit>): int
    requires held != []
  {
    Newest(held) - rule.windowSeconds * 1000
  }

  function Max(a: int, b: int): int { if a > b then a else b }

  lemma {:induction false} CountFrom(held: seq<StageHit>, w: int, name: string, lo: int, hi: int)
    ensures CountStage(From(held, w), name, lo, hi) == CountStage(held, name, Max(lo, w), hi)
  {
    if held != [] {
      CountFrom(held[1..], w, name, lo, hi);
      var rest := From(held[1..], w);
      assert held[0].at >= w ==> ([held[0]] + rest)[1..] == rest;
      assert held[0].at < w ==> [] + rest == rest;
    }
  }

  lemma {:induction false} CountNeedsRoom(held: seq<StageHit>, name: string, lo: int, hi: int)
    ensures lo > hi ==> CountStage(held, name, lo, hi) == 0
  {
    if held != [] { CountNeedsRoom(held[1..], name, lo, hi); }
  }

  /** Dropping what is older than the window is the same as starting there. */
  lemma {:induction false} IntervalsFrom(stages: seq<Stage>, held: seq<StageHit>, w: int, lo: int, ends: seq<int>)
    requires Positive(stages)
    ensures Intervals(stages, From(held, w), lo, ends) <==> Intervals(stages, held, Max(lo, w), ends)
    decreases |stages|
  {
    if stages != [] && |ends| == |stages| {
      CountFrom(held, w, stages[0].name, lo, ends[0]);
      CountNeedsRoom(held, stages[0].name, Max(lo, w), ends[0]);
      IntervalsFrom(stages[1..], held, w, ends[0], ends[1..]);
    }
  }

  /** An ordered rule completes exactly when the hits of the last window, as
      far as the search looks at them, hold a chain; and then the selection
      finishes no later than any such chain. */
  lemma OrderedExact(rule: Rule, held: seq<StageHit>)
    requires WellFormed(rule.required) && rule.ordered && held != []
    ensures EvaluateSpec(rule, held).Some? <==>
            exists picks, finish :: Chain(rule.required, held, picks, Max(START, WindowStart(rule, held)), finish)
    ensures forall picks, finish :: Chain(rule.required, held, picks, Max(START, WindowStart(rule, held)), finish) ==>
            forall h :: h in EvaluateSpec(rule, held).value ==> WindowStart(rule, held) <= h.at <= finish
  {
    var w := WindowStart(rule, held);
    var recent := From(held, w);
    GreedyExact(rule.required, recent, START);
    forall picks, finish | Chain(rule.required, held, picks, Max(START, w), finish)
      ensures exists picks :: Chain(rule.required, recent, picks, START, finish)
    {
      var ends := ChainGivesIntervals(rule.required, held, picks, Max(START, w), finish);
      IntervalsFrom(rule.required, held, w, START, ends);
      var picks' := IntervalsGiveChain(rule.required, recent, START, ends, finish);
    }
    forall picks, finish | Chain(rule.required, recent, picks, START, finish)
      ensures exists picks :: Chain(rule.required, held, picks, Max(START, w), finish)
      ensures EvaluateSpec(rule, held).Some?
      ensures forall h :: h in EvaluateSpec(rule, held).value ==> w <= h.at <= finish
    {
      var ends := ChainGivesIntervals(rule.required, recent, picks, START, finish);
      IntervalsFrom(rule.required, held, w, START, ends);
      var picks' := IntervalsGiveChain(rule.required, held, Max(START, w), ends, finish);
      GreedyEarliest(rule.required, recent, picks, START, finish);
      SelectedRecent(rule, held);
    }
  }

  // ----- what is selected -------------------------------------------------

  lemma SelectedRecent(rule: Rule, held: seq<StageHit>)
    requires WellFormed(rule.required) && rule.ordered && held != [] && EvaluateSpec(rule, held).Some?
    ensures forall h :: h in EvaluateSpec(rule, held).value ==> h.at >= WindowStart(rule, held)
  {
    InWindowMembers(rule, held);
    GreedyMembers(rule.required, InWindow(rule, held), START);
    var g := Greedy(rule.required, InWindow(rule, held), START).value;
    assert [] + Flatten(g) == Flatten(g);
  }

  lemma {:induction false} GreedyMembers(stages: seq<Stage>, hits: seq<StageHit>, cursor: int)
    requires Positive(stages) && Sorted(hits) && Greedy(stages, hits, cursor).Some?
    ensures forall h :: h in Flatten(Greedy(stages, hits, cursor).value) ==> h in hits
    decreases |stages|
  {
    if stages != [] {
      var taken, last, rest := GreedySplits(stages, hits, cursor);
      GreedyMembers(stages[1..], hits, last);
      MembersCons(taken, rest, hits);
    }
  }

  lemma MembersCons(taken: seq<StageHit>, rest: seq<seq<StageHit>>, all: seq<StageHit>)
    requires (forall x :: x in taken ==> x in all) && forall x :: x in Flatten(rest) ==> x in all
    ensures forall x :: x in Flatten([taken] + rest) ==> x in all
  {
    FlattenCons(taken, rest);
  }

  lemma {:induction false} FromShorter(hits: seq<StageHit>, c: int)
    ensures |From(hits, c)| <= |hits|
    ensures forall h :: h in From(hits, c) ==> h in hits && h.at >= c
  {
    if hits != [] { FromShorter(hits[1..], c); }
  }

  lemma {:induction false} UnorderedMembers(stages: seq<Stage>, hits: seq<StageHit>)
    requires Sorted(hits)
    ensures UnorderedSpec(stages, hits).Some? <==>
            forall i :: 0 <= i < |stages| ==> |ByStage(hits, stages[i].name)| >= stages[i].minCount
    ensures UnorderedSpec(stages, hits).Some? ==>
            forall h :: h in UnorderedSpec(stages, hits).value ==> h in hits
  {
    if stages != [] {
      UnorderedMembers(stages[1..], hits);
      ByStageSorted(hits, stages[0].name);
      assert forall i :: 0 < i < |stages| ==> stages[1..][i - 1] == stages[i];
      assert forall i :: 0 <= i < |stages[1..]| ==> stages[1..][i] == stages[i + 1];
    }
  }

  lemma InWindowMembers(rule: Rule, held: seq<StageHit>)
    requires held != []
    ensures var inWindow := InWindow(rule, held);
            && Sorted(inWindow) && |inWindow| <= |held|
            && forall h :: h in inWindow ==> h in held && WindowStart(rule, held) <= h.at <= Newest(held)
  {
    RecentMembers(held, WindowStart(rule, held), Newest(held));
  }

  lemma RecentMembers(held: seq<StageHit>, w: int, newest: int)
    requires forall h :: h in held ==> h.at <= newest
    ensures var recent := Sort(From(held, w));
            Sorted(recent) && |recent| <= |held| && forall h :: h in recent ==> h in held && w <= h.at <= newest
  {
    FromShorter(held, w);
    SortMembers(From(held, w));
  }

  lemma SortMembers(hits: seq<StageHit>)
    ensures Sorted(Sort(hits)) && |Sort(hits)| == |hits| && forall h :: h in Sort(hits) ==> h in hits
  {
    SortSorts(hits);
    SameElements(Sort(hits), hits);
  }

  lemma SameElements<T>(a: seq<T>, b: seq<T>)
    requires multiset(a) == multiset(b)
    ensures |a| == |b| && forall x :: x in a ==> x in b
  {
    assert |a| == |multiset(a)| && |b| == |multiset(b)|;
    forall x | x in a ensures x in b { assert x in multiset(a); }
  }

  /** Enough hits of every stage in a stretch of time. */
  predicate EnoughOfEach(stages: seq<Stage>, hits: seq<StageHit>, lo: int, hi: int) {
    forall i :: 0 <= i < |stages| ==> CountStage(hits, stages[i].name, lo, hi) >= stages[i].minCount
  }

  /** An unordered rule completes exactly when every required stage has enough
      hits in the window. */
  lemma UnorderedExact(rule: Rule, held: seq<StageHit>)
    requires WellFormed(rule.required) && !rule.ordered && held != []
    ensures EvaluateSpec(rule, held).Some? <==> EnoughOfEach(rule.required, held, WindowStart(rule, held), Newest(held))
  {
    RecentEnough(rule.required, held, WindowStart(rule, held), Newest(held));
  }

  lemma RecentEnough(stages: seq<Stage>, held: seq<StageHit>, w: int, newest: int)
    requires forall h :: h in held ==> h.at <= newest
    ensures UnorderedSpec(stages, Sort(From(held, w))).Some? <==> EnoughOfEach(stages, held, w, newest)
  {
    var recent := Sort(From(held, w));
    SortSorts(From(held, w));
    UnorderedMembers(stages, recent);
    forall i | 0 <= i < |stages|
      ensures |ByStage(recent, stages[i].name)| == CountStage(held, stages[i].name, w, newest)
    {
      RecentStage(held, stages[i].name, w, newest);
    }
  }

  lemma RecentStage(held: seq<StageHit>, name: string, w: int, newest: int)
    requires forall h :: h in held ==> h.at <= newest
    ensures |ByStage(Sort(From(held, w)), name)| == CountStage(held, name, w, newest)
  {
    var recent := Sort(From(held, w));
    SortSorts(From(held, w));
    RecentMembers(held, w, newest);
    CountStagePermuted(recent, From(held, w), name, w, newest);
    CountFrom(held, w, name, w, newest);
    CountStageIsCount(recent, name, w, newest);
    ByStageSorted(recent, name);
    CountAll(ByStage(recent, name), w, newest);
  }

  lemma {:induction false} CountAll(hits: seq<StageHit>, lo: int, hi: int)
    requires forall h :: h in hits ==> lo <= h.at <= hi
    ensures Count(hits, lo, hi) == |hits|
  {
    if hits != [] { CountAll(hits[1..], lo, hi); }
  }

  // ----- limits of the claim ----------------------------------------------

  /** The cursor starts at -1, so an ordered rule never completes on hits
      before that instant, whatever chain they form. */
  lemma EarlierHitsAreIgnored(rule: Rule, held: seq<StageHit>)
    requires WellFormed(rule.required) && rule.ordered && rule.required != [] && held != []
    requires forall h :: h in held ==> h.at < -1
    ensures EvaluateSpec(rule, held) == None
  {
    InWindowMembers(rule, held);
    var inWindow, name := InWindow(rule, held), rule.required[0].name;
    ByStageSorted(inWindow, name);
    FromShorter(ByStage(inWindow, name), START);
    FromNothing(ByStage(inWindow, name), START);
  }

  lemma {:induction false} FromNothing(hits: seq<StageHit>, c: int)
    requires forall h :: h in hits ==> h.at < c
    ensures From(hits, c) == []
  {
    if hits != [] { FromNothing(hits[1..], c); }
  }

  function EarlyRule(): Rule { Rule([Stage("a", 1), Stage("b", 1)], true, 60) }

  function EarlyHits(): seq<StageHit> { [StageHit("a", -5, "e1"), StageHit("b", -4, "e2")] }

  /** Two hits in stage order within one window, at times -5 and -4: a chain, and no completion. */
  lemma IgnoredChain()
    ensures WellFormed(EarlyRule().required)
    ensures Chain(EarlyRule().required, EarlyHits(), [{0}, {1}], WindowStart(EarlyRule(), EarlyHits()), -4)
    ensures EvaluateSpec(EarlyRule(), EarlyHits()) == None
  {
    assert WellFormed(EarlyRule().required) by { assert "a"[0] != "b"[0]; }
    EarlierHitsAreIgnored(EarlyRule(), EarlyHits());
    EarlyChain(WindowStart(EarlyRule(), EarlyHits()));
  }

  lemma EarlyChain(lo: int)
    requires lo <= -5
    ensures Chain(EarlyRule().required, EarlyHits(), [{0}, {1}], lo, -4)
  {
    var stages, hits := EarlyRule().required, EarlyHits();
    assert Picked(hits, stages[0], {0}, lo, -4) && Picked(hits, stages[1], {1}, lo, -4);
  }

  lemma ChainStartsLater(stages: seq<Stage>, hits: seq<StageHit>, picks: seq<set<nat>>, start: int, later: int, finish: int)
    requires start <= later && forall i :: 0 <= i < |hits| ==> hits[i].at >= start ==> hits[i].at >= later
    ensures Chain(stages, hits, picks, start, finish) <==> Chain(stages, hits, picks, later, finish)
  {
    if |picks| == |stages| {
      forall i | 0 <= i < |stages|
        ensures Picked(hits, stages[i], picks[i], start, finish) <==> Picked(hits, stages[i], picks[i], later, finish)
      {
      }
    }
  }

  /** The last window holds a chain, wherever the search may start. */
  ghost predicate WindowHolds(rule: Rule, held: seq<StageHit>)
    requires held != []
  {
    exists picks, finish :: Chain(rule.required, held, picks, WindowStart(rule, held), finish)
  }

  lemma {:induction false} CountStageFewer(hits: seq<StageHit>, name: string, h: StageHit, lo: int, lo': int, hi: int)
    requires h in hits && h.stage == name && lo' <= h.at < lo && h.at <= hi
    ensures CountStage(hits, name, lo, hi) < CountStage(hits, name, lo', hi)
  {
    if hits[0] == h {
      CountStageWider(hits[1..], name, lo, lo', hi);
    } else {
      CountStageFewer(hits[1..], name, h, lo, lo', hi);
    }
  }

  lemma {:induction false} CountStageUpTo(hits: seq<StageHit>, name: string, lo: int, hi: int, newest: int)
    requires forall h :: h in hits ==> h.at <= newest
    ensures CountStage(hits, name, lo, hi) <= CountStage(hits, name, lo, newest)
  {
    if hits != [] { CountStageUpTo(hits[1..], name, lo, hi, newest); }
  }

  /** If a hit of the last window lies before the initial cursor, the rule that
      asks for all hits of its stage has a chain there and is not completed. */
  lemma MissedChain(held: seq<StageHit>, windowSeconds: nat, h: StageHit) returns (rule: Rule)
    requires h in held && Newest(held) - windowSeconds * 1000 <= h.at < START
    ensures WellFormed(rule.required) && rule.ordered && rule.windowSeconds == windowSeconds
    ensures WindowHolds(rule, held) && EvaluateSpec(rule, held).None?
  {
    var w, newest := Newest(held) - windowSeconds * 1000, Newest(held);
    CountStageFewer(held, h.stage, h, START, w, newest);
    var n := CountStage(held, h.stage, w, newest);
    rule := Rule([Stage(h.stage, n)], true, windowSeconds);
    OneStageHolds(rule, held);
    NotFromStart(rule, held, n);
    OrderedExact(rule, held);
  }

  lemma OneStageHolds(rule: Rule, held: seq<StageHit>)
    requires held != [] && |rule.required| == 1
    requires CountStage(held, rule.required[0].name, WindowStart(rule, held), Newest(held)) >= rule.required[0].minCount
    ensures WindowHolds(rule, held)
  {
    var w, newest := WindowStart(rule, held), Newest(held);
    assert [newest][1..] == [] && rule.required[1..] == [];
    assert Intervals(rule.required, held, w, [newest]);
    var picks := IntervalsGiveChain(rule.required, held, w, [newest], newest);
  }

  lemma NotFromStart(rule: Rule, held: seq<StageHit>, n: nat)
    requires held != [] && WindowStart(rule, held) <= START
    requires |rule.required| == 1 && rule.required[0].minCount == n >= 1
    requires CountStage(held, rule.required[0].name, START, Newest(held)) < n
    ensures !exists picks, finish :: Chain(rule.required, held, picks, Max(START, WindowStart(rule, held)), finish)
  {
    forall picks, finish ensures !Chain(rule.required, held, picks, START, finish) {
      if Chain(rule.required, held, picks, START, finish) {
        var ends := ChainGivesIntervals(rule.required, held, picks, START, finish);
        CountStageUpTo(held, rule.required[0].name, START, ends[0], Newest(held));
      }
    }
  }

  /** What the initial cursor costs: for given hits and window length, every
      ordered rule completes exactly when the last window holds a chain, if and
      only if no hit of that window lies before the cursor. */
  lemma CursorCostsNothingExactly(held: seq<StageHit>, windowSeconds: nat)
    requires held != []
    ensures (forall rule: Rule :: WellFormed(rule.required) && rule.ordered && rule.windowSeconds == windowSeconds ==>
               (EvaluateSpec(rule, held).Some? <==> WindowHolds(rule, held)))
            <==> forall h :: h in held && h.at >= Newest(held) - windowSeconds * 1000 ==> h.at >= -1
  {
    if forall h :: h in held && h.at >= Newest(held) - windowSeconds * 1000 ==> h.at >= START {
      forall rule: Rule | WellFormed(rule.required) && rule.ordered && rule.windowSeconds == windowSeconds
        ensures EvaluateSpec(rule, held).Some? <==> WindowHolds(rule, held)
      {
        var w := WindowStart(rule, held);
        OrderedExact(rule, held);
        forall picks, finish
          ensures Chain(rule.required, held, picks, w, finish) <==> Chain(rule.required, held, picks, Max(START, w), finish)
        {
          ChainStartsLater(rule.required, held, picks, w, Max(START, w), finish);
        }
      }
    } else {
      var h :| h in held && h.at >= Newest(held) - windowSeconds * 1000 && h.at < START;
      var rule := MissedChain(held, windowSeconds, h);
    }
  }
}
