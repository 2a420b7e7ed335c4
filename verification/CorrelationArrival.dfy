/** How much arrival order decides. The window is anchored on the newest hit, so
    which orders of the same inputs ever fire depends on where their chains lie. */
module CorrelationArrival {
  import opened Correlation
  import opened CorrelationGreedy
  import opened CorrelationWindow
  import opened CorrelationRuns
  import opened CorrelationSelection

  function Length(rule: Rule): nat { rule.windowSeconds * 1000 }

  /** Where a search anchored on t begins. */
  function Start(rule: Rule, t: int): int { Max(START, t - Length(rule)) }

  /** The hits hold a chain that ends by t and lies within one window of it. */
  ghost predicate ChainBy(rule: Rule, hits: seq<StageHit>, t: int) {
    if rule.ordered then exists picks :: Chain(rule.required, hits, picks, Start(rule, t), t)
    else EnoughOfEach(rule.required, hits, t - Length(rule), t)
  }

  /** A chain fits in some window. */
  ghost predicate ChainInSomeWindow(rule: Rule, hits: seq<StageHit>) {
    exists t :: ChainBy(rule, hits, t)
  }

  // ----- chains under more hits, and other anchors ------------------------

  lemma ChainWiden(stages: seq<Stage>, hits: seq<StageHit>, picks: seq<set<nat>>, start: int, finish: int, start': int, finish': int)
    requires Chain(stages, hits, picks, start, finish) && start' <= start && forall h :: h in hits ==> h.at <= finish'
    ensures Chain(stages, hits, picks, start', finish')
  {
    forall i | 0 <= i < |stages| ensures Picked(hits, stages[i], picks[i], start', finish') {
      assert Picked(hits, stages[i], picks[i], start, finish);
    }
  }

  /** At least as many hits of every stage in every stretch that ends by t. */
  ghost predicate Covers(a: seq<StageHit>, b: seq<StageHit>, t: int) {
    forall name, lo, hi :: hi <= t ==> CountStage(a, name, lo, hi) <= CountStage(b, name, lo, hi)
  }

  lemma {:induction false} IntervalsCovered(stages: seq<Stage>, a: seq<StageHit>, b: seq<StageHit>, lo: int, ends: seq<int>, t: int)
    requires Intervals(stages, a, lo, ends) && Covers(a, b, t) && forall e :: e in ends ==> e <= t
    ensures Intervals(stages, b, lo, ends)
    decreases |stages|
  {
    if stages != [] {
      assert ends[0] in ends && CountStage(a, stages[0].name, lo, ends[0]) <= CountStage(b, stages[0].name, lo, ends[0]);
      assert forall e :: e in ends[1..] ==> e in ends;
      IntervalsCovered(stages[1..], a, b, ends[0], ends[1..], t);
    }
  }

  lemma ChainByCovered(rule: Rule, a: seq<StageHit>, b: seq<StageHit>, t: int)
    requires WellFormed(rule.required) && ChainBy(rule, a, t) && Covers(a, b, t)
    ensures ChainBy(rule, b, t)
  {
    var lo := Start(rule, t);
    if rule.ordered {
      var picks :| Chain(rule.required, a, picks, lo, t);
      var ends := ChainGivesIntervals(rule.required, a, picks, lo, t);
      IntervalsCovered(rule.required, a, b, lo, ends, t);
      var picks' := IntervalsGiveChain(rule.required, b, lo, ends, t);
    }
  }

  /** Anchored on the newest hit, a chain that ends by t is still in the window. */
  lemma ChainByNewest(rule: Rule, hits: seq<StageHit>, t: int)
    requires ChainBy(rule, hits, t) && hits != [] && forall h :: h in hits ==> h.at <= t
    ensures ChainBy(rule, hits, Newest(hits))
  {
    var newest := Newest(hits);
    if rule.ordered {
      var picks :| Chain(rule.required, hits, picks, Start(rule, t), t);
      ChainWiden(rule.required, hits, picks, Start(rule, t), t, Start(rule, newest), newest);
    } else {
      forall i | 0 <= i < |rule.required|
        ensures CountStage(hits, rule.required[i].name, newest - Length(rule), newest) >= rule.required[i].minCount
      {
        CountStageWider(hits, rule.required[i].name, t - Length(rule), newest - Length(rule), t);
        CountStageUpTo(hits, rule.required[i].name, newest - Length(rule), t, newest);
      }
    }
  }

  lemma ChainByNeedsHits(rule: Rule, hits: seq<StageHit>, t: int)
    requires WellFormed(rule.required) && rule.required != [] && ChainBy(rule, hits, t)
    ensures hits != []
  {
    if rule.ordered {
      var picks :| Chain(rule.required, hits, picks, Start(rule, t), t);
      assert Picked(hits, rule.required[0], picks[0], Start(rule, t), t);
      var p :| p in picks[0];
    } else {
      assert CountStage(hits, rule.required[0].name, t - Length(rule), t) >= rule.required[0].minCount;
    }
  }

  /** An evaluation completes exactly when the held hits hold a chain within one
      window of the newest. */
  lemma EvaluatesExactly(rule: Rule, held: seq<StageHit>)
    requires WellFormed(rule.required) && held != []
    ensures EvaluateSpec(rule, held).Some? <==> ChainBy(rule, held, Newest(held))
  {
    if rule.ordered { OrderedEvaluates(rule, held, Newest(held)); } else { UnorderedEvaluates(rule, held, Newest(held)); }
  }

  lemma UnorderedEvaluates(rule: Rule, held: seq<StageHit>, newest: int)
    requires WellFormed(rule.required) && held != [] && !rule.ordered && newest == Newest(held)
    ensures EvaluateSpec(rule, held).Some? <==> ChainBy(rule, held, newest)
  {
    UnorderedExact(rule, held);
    assert WindowStart(rule, held) == newest - Length(rule);
  }

  lemma OrderedEvaluates(rule: Rule, held: seq<StageHit>, newest: int)
    requires WellFormed(rule.required) && held != [] && rule.ordered && newest == Newest(held)
    ensures EvaluateSpec(rule, held).Some? <==> ChainBy(rule, held, newest)
  {
    OrderedExact(rule, held);
    assert Start(rule, newest) == Max(START, WindowStart(rule, held));
    AnyFinish(rule.required, held, Start(rule, newest), newest);
  }

  /** Every chain has finished by the newest hit. */
  lemma AnyFinish(stages: seq<Stage>, held: seq<StageHit>, lo: int, newest: int)
    requires forall h :: h in held ==> h.at <= newest
    ensures (exists picks, finish :: Chain(stages, held, picks, lo, finish)) <==> exists picks :: Chain(stages, held, picks, lo, newest)
  {
    if picks, finish :| Chain(stages, held, picks, lo, finish) {
      ChainWiden(stages, held, picks, lo, finish, lo, newest);
      assert Chain(stages, held, picks, lo, newest);
    }
    if picks :| Chain(stages, held, picks, lo, newest) {
      assert exists p, finish :: Chain(stages, held, p, lo, finish);
    }
  }

  // ----- counts -----------------------------------------------------------

  lemma PrefixCovered(part: seq<StageHit>, all: seq<StageHit>, t: int)
    requires part <= all
    ensures Covers(part, all, t)
  {
    assert all == part + all[|part|..];
    forall name, lo, hi | hi <= t ensures CountStage(part, name, lo, hi) <= CountStage(all, name, lo, hi) {
      CountStageConcat(part, all[|part|..], name, lo, hi);
    }
  }

  lemma PermutedCovers(a: seq<StageHit>, b: seq<StageHit>, t: int)
    requires multiset(a) == multiset(b)
    ensures Covers(a, b, t)
  {
    SameCounts(a, b);
  }

  lemma {:induction false} NoneUpTo(hits: seq<StageHit>, name: string, lo: int, hi: int)
    requires forall h :: h in hits ==> h.at > hi
    ensures CountStage(hits, name, lo, hi) == 0
  {
    if hits != [] { NoneUpTo(hits[1..], name, lo, hi); }
  }

  lemma EarlyCovers(early: seq<StageHit>, late: seq<StageHit>, t: int)
    requires forall h :: h in late ==> h.at > t
    ensures Covers(early + late, early, t)
  {
    forall name, lo, hi | hi <= t ensures CountStage(early + late, name, lo, hi) <= CountStage(early, name, lo, hi) {
      CountStageConcat(early, late, name, lo, hi);
      NoneUpTo(late, name, lo, hi);
    }
  }

  // ----- some order -------------------------------------------------------

  function Early(inputs: seq<Input>, t: int): (r: seq<Input>)
    ensures forall i :: i in r ==> i.at <= t
  {
    if inputs == [] then [] else (if inputs[0].at <= t then [inputs[0]] else []) + Early(inputs[1..], t)
  }

  function Late(inputs: seq<Input>, t: int): (r: seq<Input>)
    ensures forall i :: i in r ==> i.at > t
  {
    if inputs == [] then [] else (if inputs[0].at > t then [inputs[0]] else []) + Late(inputs[1..], t)
  }

  lemma {:induction false} EarlyAndLate(inputs: seq<Input>, t: int)
    ensures multiset(Early(inputs, t)) + multiset(Late(inputs, t)) == multiset(inputs)
  {
    if inputs != [] {
      EarlyAndLate(inputs[1..], t);
      assert inputs == [inputs[0]] + inputs[1..];
    }
  }

  lemma {:induction false} TimesOf(inputs: seq<Input>, h: StageHit) returns (i: Input)
    requires h in HitsOf(inputs)
    ensures i in inputs && h.at == i.at && i.stages != []
  {
    FromSomeInput(inputs, h);
    var k :| 0 <= k < |inputs| && h in HitsOfInput(inputs[k]);
    i := inputs[k];
  }

  /** What fires is a chain in the hits so far, close to the newest of them. */
  lemma FiringPart(rule: Rule, inputs: seq<Input>, cap: nat, n: nat) returns (part: seq<StageHit>)
    requires WellFormed(rule.required) && |HitsOf(inputs)| <= cap && FiresAt(rule, inputs, cap, n)
    ensures part == HitsOf(inputs[..n + 1]) && part <= HitsOf(inputs) && part != [] && ChainBy(rule, part, Newest(part))
  {
    part := HitsOf(inputs[..n + 1]);
    HeldIsLast(inputs[..n + 1], cap);
    HitsOfPrefix(inputs, n + 1);
    EvaluatesExactly(rule, part);
  }

  ghost predicate SomeOrderFires(rule: Rule, a: seq<Input>, cap: nat)
    requires WellFormed(rule.required)
  {
    exists b :: multiset(b) == multiset(a) && Fires(rule, b, cap)
  }

  ghost predicate EveryOrderFires(rule: Rule, a: seq<Input>, cap: nat)
    requires WellFormed(rule.required)
  {
    forall b :: multiset(b) == multiset(a) ==> Fires(rule, b, cap)
  }

  lemma FiringShowsWindow(rule: Rule, a: seq<Input>, b: seq<Input>, cap: nat)
    requires WellFormed(rule.required) && multiset(b) == multiset(a) && |HitsOf(a)| <= cap && Fires(rule, b, cap)
    ensures ChainInSomeWindow(rule, HitsOf(a))
  {
    HitsOfPermuted(b, a);
    SameElements(HitsOf(a), HitsOf(b));
    var n :| 0 <= n < |b| && FiresAt(rule, b, cap, n);
    var part := FiringPart(rule, b, cap, n);
    var t := Newest(part);
    PrefixCovered(part, HitsOf(b), t);
    PermutedCovers(HitsOf(b), HitsOf(a), t);
    ChainByCovered(rule, part, HitsOf(a), t);
  }

  lemma EarlyHolds(rule: Rule, a: seq<Input>, t: int)
    requires WellFormed(rule.required) && rule.required != [] && ChainBy(rule, HitsOf(a), t)
    ensures var early := HitsOf(Early(a, t)); early != [] && ChainBy(rule, early, Newest(early))
  {
    var early, late := HitsOf(Early(a, t)), HitsOf(Late(a, t));
    EarlyAndLate(a, t);
    HitsOfPermuted(a, Early(a, t) + Late(a, t));
    HitsOfConcat(Early(a, t), Late(a, t));
    forall h | h in late ensures h.at > t { var i := TimesOf(Late(a, t), h); }
    forall h | h in early ensures h.at <= t { var i := TimesOf(Early(a, t), h); }
    PermutedCovers(HitsOf(a), early + late, t);
    EarlyCovers(early, late, t);
    ChainByCovered(rule, HitsOf(a), early, t);
    ChainByNeedsHits(rule, early, t);
    ChainByNewest(rule, early, t);
  }

  /** The order that takes everything up to the end of a chain first, fires. */
  lemma EarlyFirstFires(rule: Rule, a: seq<Input>, cap: nat, t: int) returns (b: seq<Input>)
    requires WellFormed(rule.required) && rule.required != [] && |HitsOf(a)| <= cap && ChainBy(rule, HitsOf(a), t)
    ensures multiset(b) == multiset(a) && Fires(rule, b, cap)
  {
    var early := Early(a, t);
    b := early + Late(a, t);
    EarlyAndLate(a, t);
    HitsOfPermuted(a, b);
    SameElements(HitsOf(a), HitsOf(b));
    EarlyHolds(rule, a, t);
    EvaluatesExactly(rule, HitsOf(early));
    PrefixFires(rule, early, Late(a, t), cap);
  }

  lemma {:induction false} PrefixFires(rule: Rule, early: seq<Input>, late: seq<Input>, cap: nat)
    requires WellFormed(rule.required) && |HitsOf(early + late)| <= cap && EvaluateSpec(rule, HitsOf(early)).Some?
    ensures Fires(rule, early + late, cap)
  {
    var b := early + late;
    var n := LastEvaluation(early);
    assert b[..n + 1] == early[..n + 1] && b[n] == early[n];
    HitsOfPrefix(b, n + 1);
    HeldIsLast(b[..n + 1], cap);
    assert FiresAt(rule, b, cap, n);
  }

  /** Some order of the inputs fires exactly when their hits hold a chain that
      fits in one window. */
  lemma SomeOrderFiresExactly(rule: Rule, a: seq<Input>, cap: nat)
    requires WellFormed(rule.required) && rule.required != [] && |HitsOf(a)| <= cap
    ensures SomeOrderFires(rule, a, cap) <==> ChainInSomeWindow(rule, HitsOf(a))
  {
    if SomeOrderFires(rule, a, cap) {
      var b :| multiset(b) == multiset(a) && Fires(rule, b, cap);
      FiringShowsWindow(rule, a, b, cap);
    }
    if ChainInSomeWindow(rule, HitsOf(a)) {
      var t :| ChainBy(rule, HitsOf(a), t);
      var b := EarlyFirstFires(rule, a, cap, t);
    }
  }

  // ----- every order ------------------------------------------------------

  /** If all hits together complete the rule, every order fires at its last hit. */
  lemma LastEvaluationFires(rule: Rule, a: seq<Input>, b: seq<Input>, cap: nat)
    requires WellFormed(rule.required) && multiset(b) == multiset(a) && |HitsOf(a)| <= cap
    requires EvaluateSpec(rule, HitsOf(a)).Some?
    ensures Fires(rule, b, cap)
  {
    HitsOfPermuted(a, b);
    SameElements(HitsOf(a), HitsOf(b));
    SelectionIgnoresOrder(rule, HitsOf(a), HitsOf(b));
    var n := LastEvaluation(b);
    HeldIsLast(b[..n + 1], cap);
    assert FiresAt(rule, b, cap, n);
  }

  /** An order in which the newest hit comes first: every evaluation is anchored
      on it. */
  lemma {:induction false} NewestFirst(a: seq<Input>) returns (b: seq<Input>)
    requires HitsOf(a) != []
    ensures multiset(b) == multiset(a) && b != [] && b[0].stages != [] && b[0].at == Newest(HitsOf(a))
  {
    var hits := HitsOf(a);
    var newest := Newest(hits);
    var h :| h in hits && h.at == newest;
    var x := TimesOf(a, h);
    b := ToFront(a, x);
  }

  lemma ToFront<T>(a: seq<T>, x: T) returns (b: seq<T>)
    requires x in a
    ensures multiset(b) == multiset(a) && b != [] && b[0] == x
  {
    var i :| 0 <= i < |a| && a[i] == x;
    b := [x] + (a[..i] + a[i + 1..]);
    assert a == a[..i] + [x] + a[i + 1..];
  }

  lemma FirstHit(inputs: seq<Input>, n: nat)
    requires n < |inputs| && inputs[0].stages != []
    ensures exists h :: h in HitsOf(inputs[..n + 1]) && h.at == inputs[0].at
  {
    HitsOfPrefix(inputs[..n + 1], 1);
    assert inputs[..n + 1][..1] == [inputs[0]] && [inputs[0]][..0] == [];
    assert HitsOf([inputs[0]]) == HitsOfInput(inputs[0]);
    assert HitsOf(inputs[..n + 1])[0] == HitsOfInput(inputs[0])[0];
  }

  /** An evaluation anchored on the newest hit of all sees no chain that all
      hits together do not show. */
  lemma AnchoredFiring(rule: Rule, b: seq<Input>, cap: nat, n: nat)
    requires WellFormed(rule.required) && |HitsOf(b)| <= cap && FiresAt(rule, b, cap, n)
    requires b[0].stages != [] && forall h :: h in HitsOf(b) ==> h.at <= b[0].at
    ensures EvaluateSpec(rule, HitsOf(b)).Some?
  {
    var part := FiringPart(rule, b, cap, n);
    var all := HitsOf(b);
    FirstHit(b, n);
    SameNewestOf(part, all, b[0].at);
    PrefixCovered(part, all, Newest(all));
    ChainByCovered(rule, part, all, Newest(all));
    EvaluatesExactly(rule, all);
  }

  lemma SameNewestOf(part: seq<StageHit>, all: seq<StageHit>, t: int)
    requires part != [] && part <= all && forall h :: h in all ==> h.at <= t
    requires exists h :: h in part && h.at == t
    ensures Newest(part) == t == Newest(all)
  {
    var h :| h in part && h.at == t;
    assert forall x :: x in part ==> x in all;
  }

  /** Every order of the inputs fires exactly when all their hits, evaluated at
      once, complete the rule. */
  lemma EveryOrderFiresExactly(rule: Rule, a: seq<Input>, cap: nat)
    requires WellFormed(rule.required) && rule.required != [] && |HitsOf(a)| <= cap
    ensures EveryOrderFires(rule, a, cap) <==> EvaluateSpec(rule, HitsOf(a)).Some?
  {
    if EvaluateSpec(rule, HitsOf(a)).Some? {
      forall b | multiset(b) == multiset(a) ensures Fires(rule, b, cap) { LastEvaluationFires(rule, a, b, cap); }
    }
    if EveryOrderFires(rule, a, cap) {
      FiresNeedsHits(rule, a, cap);
      var b := NewestFirst(a);
      NewestFirstShows(rule, a, b, cap);
    }
  }

  lemma NewestFirstShows(rule: Rule, a: seq<Input>, b: seq<Input>, cap: nat)
    requires WellFormed(rule.required) && |HitsOf(a)| <= cap && multiset(b) == multiset(a)
    requires HitsOf(a) != [] && b != [] && b[0].stages != [] && b[0].at == Newest(HitsOf(a))
    requires Fires(rule, b, cap)
    ensures EvaluateSpec(rule, HitsOf(a)).Some?
  {
    HitsOfPermuted(b, a);
    SameElements(HitsOf(b), HitsOf(a));
    var n :| 0 <= n < |b| && FiresAt(rule, b, cap, n);
    AnchoredFiring(rule, b, cap, n);
    SelectionIgnoresOrder(rule, HitsOf(b), HitsOf(a));
  }

  lemma FiresNeedsHits(rule: Rule, a: seq<Input>, cap: nat)
    requires WellFormed(rule.required) && |HitsOf(a)| <= cap && Fires(rule, a, cap)
    ensures HitsOf(a) != []
  {
    var n :| 0 <= n < |a| && FiresAt(rule, a, cap, n);
    var part := FiringPart(rule, a, cap, n);
  }

  // ----- when order decides -----------------------------------------------

  /** All orders of the same inputs agree. */
  ghost predicate OrdersAgree(rule: Rule, a: seq<Input>, cap: nat)
    requires WellFormed(rule.required)
  {
    forall b, c :: multiset(b) == multiset(a) && multiset(c) == multiset(a) ==> (Fires(rule, b, cap) <==> Fires(rule, c, cap))
  }

  /** Arrival order decides nothing if and only if, whenever a chain fits in
      some window, one lies in the window of the newest hit. */
  lemma OrderIrrelevantExactly(rule: Rule, a: seq<Input>, cap: nat)
    requires WellFormed(rule.required) && rule.required != [] && |HitsOf(a)| <= cap
    ensures OrdersAgree(rule, a, cap) <==>
            (ChainInSomeWindow(rule, HitsOf(a)) ==> HitsOf(a) != [] && ChainBy(rule, HitsOf(a), Newest(HitsOf(a))))
  {
    SomeOrderFiresExactly(rule, a, cap);
    EveryOrderFiresExactly(rule, a, cap);
    if HitsOf(a) != [] { EvaluatesExactly(rule, HitsOf(a)); }
    if OrdersAgree(rule, a, cap) && SomeOrderFires(rule, a, cap) {
      var b :| multiset(b) == multiset(a) && Fires(rule, b, cap);
      assert EveryOrderFires(rule, a, cap);
    }
  }

  /** The store keeps 500 hits unless told otherwise, so a rule that asks for
      more never fires on it. */
  lemma MoreThanKeptNeverFires(rule: Rule, inputs: seq<Input>, n: nat)
    requires WellFormed(rule.required) && Total(rule.required) > 500
    ensures !FiresAt(rule, inputs, DEFAULT_MAX_HITS, n)
  {
    if n < |inputs| {
      HeldIsLast(inputs[..n + 1], DEFAULT_MAX_HITS);
      CapBoundsRules(rule, HeldAfter(inputs[..n + 1], DEFAULT_MAX_HITS), 500);
    }
  }
}
