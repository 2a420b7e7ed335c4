/** The optimality claim made for ordered completion: taking the earliest
    feasible hits never rules out a chain, and finishes as early as any. */
module CorrelationGreedy {
  import opened Text
  import opened Correlation

  // ----- chains, said without any search ----------------------------------

  /** `minCount` hits of one stage, none before `start` and none after `finish`. */
  predicate Picked(hits: seq<StageHit>, stage: Stage, s: set<nat>, start: int, finish: int) {
    && |s| == stage.minCount
    && forall p :: p in s ==> p < |hits| && hits[p].stage == stage.name && start <= hits[p].at <= finish
  }

  /** No hit of a is later than any hit of b. */
  predicate Precedes(hits: seq<StageHit>, a: set<nat>, b: set<nat>) {
    forall p, q :: p in a && q in b ==> p < |hits| && q < |hits| && hits[p].at <= hits[q].at
  }

  /** One set of positions per required stage, each stage before all later
      ones. The hits may be held in any order. */
  predicate Chain(stages: seq<Stage>, hits: seq<StageHit>, picks: seq<set<nat>>, start: int, finish: int) {
    && |picks| == |stages|
    && (forall i :: 0 <= i < |stages| ==> Picked(hits, stages[i], picks[i], start, finish))
    && (forall i, j :: 0 <= i < j < |stages| ==> Precedes(hits, picks[i], picks[j]))
  }

  /** Hits of one stage in a stretch of time. */
  function CountStage(hits: seq<StageHit>, name: string, lo: int, hi: int): nat {
    if hits == [] then 0
    else (if hits[0].stage == name && lo <= hits[0].at <= hi then 1 else 0) + CountStage(hits[1..], name, lo, hi)
  }

  /** The same thing as a chain, with only the instants at which stages end:
      each stage has enough hits between the end of the stage before and its own. */
  predicate Intervals(stages: seq<Stage>, hits: seq<StageHit>, lo: int, ends: seq<int>)
    decreases |stages|
  {
    && |ends| == |stages|
    && (stages != [] ==>
          && lo <= ends[0]
          && CountStage(hits, stages[0].name, lo, ends[0]) >= stages[0].minCount
          && Intervals(stages[1..], hits, ends[0], ends[1..]))
  }

  // ----- counting ---------------------------------------------------------

  lemma {:induction false} CountStageIsCount(hits: seq<StageHit>, name: string, lo: int, hi: int)
    ensures CountStage(hits, name, lo, hi) == Count(ByStage(hits, name), lo, hi)
  {
    if hits != [] {
      CountStageIsCount(hits[1..], name, lo, hi);
      var rest := ByStage(hits[1..], name);
      assert hits[0].stage == name ==> ([hits[0]] + rest)[1..] == rest;
      assert hits[0].stage != name ==> [] + rest == rest;
    }
  }

  lemma {:induction false} CountStageConcat(a: seq<StageHit>, b: seq<StageHit>, name: string, lo: int, hi: int)
    ensures CountStage(a + b, name, lo, hi) == CountStage(a, name, lo, hi) + CountStage(b, name, lo, hi)
    decreases |a|
  {
    if a == [] {
      assert a + b == b;
    } else {
      assert (a + b)[1..] == a[1..] + b && (a + b)[0] == a[0];
      CountStageConcat(a[1..], b, name, lo, hi);
    }
  }

  lemma {:induction false} CountStageWider(hits: seq<StageHit>, name: string, lo: int, lo': int, hi: int)
    requires lo' <= lo
    ensures CountStage(hits, name, lo, hi) <= CountStage(hits, name, lo', hi)
  {
    if hits != [] { CountStageWider(hits[1..], name, lo, lo', hi); }
  }

  /** Counts do not depend on the order in which hits are held. */
  lemma {:induction false} CountStagePermuted(a: seq<StageHit>, b: seq<StageHit>, name: string, lo: int, hi: int)
    requires multiset(a) == multiset(b)
    ensures CountStage(a, name, lo, hi) == CountStage(b, name, lo, hi)
    decreases |a|
  {
    if a == [] {
      assert |multiset(b)| == 0;
      assert b == [];
    } else {
      var j, b' := RemoveFrom(a, b);
      CountStagePermuted(a[1..], b', name, lo, hi);
      assert b == b[..j] + ([b[j]] + b[j + 1..]);
      CountStageConcat(b[..j], [b[j]] + b[j + 1..], name, lo, hi);
      CountStageConcat([b[j]], b[j + 1..], name, lo, hi);
      CountStageConcat(b[..j], b[j + 1..], name, lo, hi);
      assert a == [a[0]] + a[1..];
      CountStageConcat([a[0]], a[1..], name, lo, hi);
    }
  }

  /** Where the first element of a sits in a permutation of it, and what is left without it. */
  lemma RemoveFrom<T>(a: seq<T>, b: seq<T>) returns (j: nat, b': seq<T>)
    requires a != [] && multiset(a) == multiset(b)
    ensures j < |b| && b[j] == a[0] && b' == b[..j] + b[j + 1..]
    ensures multiset(a[1..]) == multiset(b')
  {
    assert a[0] in multiset(b);
    j :| 0 <= j < |b| && b[j] == a[0];
    b' := b[..j] + b[j + 1..];
    WithoutOne(b, j, b');
    WithoutOne(a, 0, a[1..]);
  }

  lemma WithoutOne<T>(s: seq<T>, j: nat, rest: seq<T>)
    requires j < |s| && rest == s[..j] + s[j + 1..]
    ensures multiset(rest) == multiset(s) - multiset{s[j]}
  {
    assert s == s[..j] + [s[j]] + s[j + 1..];
  }

  // ----- sorting ----------------------------------------------------------

  lemma {:induction false} InsertPermutes(h: StageHit, hits: seq<StageHit>)
    ensures multiset(Insert(h, hits)) == multiset(hits) + multiset{h}
  {
    if !(hits == [] || h.at <= hits[0].at) {
      InsertPermutes(h, hits[1..]);
      assert hits == [hits[0]] + hits[1..];
    }
  }

  lemma {:induction false} InsertSorts(h: StageHit, hits: seq<StageHit>)
    requires Sorted(hits)
    ensures Sorted(Insert(h, hits))
    ensures forall x :: x in Insert(h, hits) ==> x == h || x in hits
  {
    if !(hits == [] || h.at <= hits[0].at) {
      InsertSorts(h, hits[1..]);
      var rest := Insert(h, hits[1..]);
      forall k | 0 <= k < |rest| ensures hits[0].at <= rest[k].at {
        assert rest[k] == h || rest[k] in hits[1..];
      }
    }
  }

  lemma {:induction false} SortSorts(hits: seq<StageHit>)
    ensures Sorted(Sort(hits)) && multiset(Sort(hits)) == multiset(hits)
  {
    if hits != [] {
      SortSorts(hits[1..]);
      InsertSorts(hits[0], Sort(hits[1..]));
      InsertPermutes(hits[0], Sort(hits[1..]));
      assert hits == [hits[0]] + hits[1..];
    }
  }

  /** The hits at one instant, in order. */
  function AtTime(hits: seq<StageHit>, t: int): seq<StageHit> {
    if hits == [] then []
    else (if hits[0].at == t then [hits[0]] else []) + AtTime(hits[1..], t)
  }

  lemma {:induction false} InsertIsStable(h: StageHit, hits: seq<StageHit>, t: int)
    requires Sorted(hits)
    ensures AtTime(Insert(h, hits), t) == (if h.at == t then [h] else []) + AtTime(hits, t)
  {
    if hits == [] || h.at <= hits[0].at {
      AtTimeCons(h, hits, t);
    } else {
      InsertIsStable(h, hits[1..], t);
      AtTimeCons(hits[0], Insert(h, hits[1..]), t);
      var mine, rest := if h.at == t then [h] else [], AtTime(hits[1..], t);
      assert (if hits[0].at == t then [hits[0]] else []) + (mine + rest) == mine + ((if hits[0].at == t then [hits[0]] else []) + rest);
    }
  }

  lemma AtTimeCons(h: StageHit, hits: seq<StageHit>, t: int)
    ensures AtTime([h] + hits, t) == (if h.at == t then [h] else []) + AtTime(hits, t)
  {
    assert ([h] + hits)[1..] == hits;
  }

  /** Hits at the same instant stay in the order they were held in. */
  lemma {:induction false} SortIsStable(hits: seq<StageHit>, t: int)
    ensures AtTime(Sort(hits), t) == AtTime(hits, t)
  {
    if hits != [] {
      SortIsStable(hits[1..], t);
      SortSorts(hits[1..]);
      InsertIsStable(hits[0], Sort(hits[1..]), t);
    }
  }

  lemma {:induction false} ByStageSorted(hits: seq<StageHit>, name: string)
    requires Sorted(hits)
    ensures Sorted(ByStage(hits, name))
    ensures forall h :: h in ByStage(hits, name) ==> h in hits && h.stage == name
  {
    if hits != [] {
      ByStageSorted(hits[1..], name);
    }
  }

  // ----- the n-th candidate, by counting ----------------------------------

  /** On hits sorted by time, the i-th one at or after c comes no later than e
      exactly when more than i hits lie between c and e. */
  lemma {:induction false} NthCandidate(hits: seq<StageHit>, c: int, e: int, i: nat)
    requires Sorted(hits)
    ensures (i < |From(hits, c)| && From(hits, c)[i].at <= e) <==> Count(hits, c, e) > i
  {
    if hits != [] {
      var rest := hits[1..];
      if hits[0].at < c || hits[0].at <= e {
        NthCandidate(rest, c, e, if hits[0].at >= c && i > 0 then i - 1 else i);
      } else {
        CountPast(rest, c, e);
        CandidateMember(hits, c, i);
      }
    }
  }

  lemma {:induction false} CountPast(hits: seq<StageHit>, c: int, e: int)
    requires forall k :: 0 <= k < |hits| ==> hits[k].at > e
    ensures Count(hits, c, e) == 0
  {
    if hits != [] { CountPast(hits[1..], c, e); }
  }

  lemma {:induction false} CandidateMember(hits: seq<StageHit>, c: int, i: nat)
    ensures i < |From(hits, c)| ==> From(hits, c)[i] in hits && From(hits, c)[i].at >= c
  {
    if hits != [] {
      CandidateMember(hits[1..], c, if hits[0].at >= c && i > 0 then i - 1 else i);
    }
  }

  // ----- greedy against intervals -----------------------------------------

  predicate Positive(stages: seq<Stage>) {
    forall i :: 0 <= i < |stages| ==> stages[i].minCount >= 1
  }

  lemma {:induction false} FromSorted(hits: seq<StageHit>, c: int)
    requires Sorted(hits)
    ensures Sorted(From(hits, c)) && forall h :: h in From(hits, c) ==> h in hits && h.at >= c
  {
    if hits != [] { FromSorted(hits[1..], c); }
  }

  /** The hits taken for one stage: the first m candidates, all of that stage,
      none before the cursor and none after the last of them. */
  lemma Taken(hits: seq<StageHit>, name: string, cursor: int, m: nat)
    requires Sorted(hits) && 1 <= m <= |From(ByStage(hits, name), cursor)|
    ensures var taken := From(ByStage(hits, name), cursor)[..m];
            forall h :: h in taken ==> h in hits && h.stage == name && cursor <= h.at <= taken[m - 1].at
  {
    ByStageSorted(hits, name);
    FromSorted(ByStage(hits, name), cursor);
    LastIsLatest(From(ByStage(hits, name), cursor), m);
  }

  lemma LastIsLatest(hits: seq<StageHit>, m: nat)
    requires Sorted(hits) && 1 <= m <= |hits|
    ensures forall h :: h in hits[..m] ==> h in hits && h.at <= hits[m - 1].at
  {
  }

  /** Any chain, even one starting later, is met: greedy succeeds, and takes
      no hit after the chain has finished. */
  lemma {:induction false} GreedyMeets(stages: seq<Stage>, hits: seq<StageHit>, cursor: int, lo: int, ends: seq<int>, finish: int)
    requires Positive(stages) && Sorted(hits) && cursor <= lo
    requires Intervals(stages, hits, lo, ends) && forall e :: e in ends ==> e <= finish
    ensures var g := Greedy(stages, hits, cursor);
            g.Some? && forall h :: h in Flatten(g.value) ==> cursor <= h.at <= finish
    decreases |stages|
  {
    if stages != [] {
      var taken, last := FirstTaken(stages[0], hits, cursor, lo, ends[0]);
      assert ends[0] in ends && forall e :: e in ends[1..] ==> e in ends;
      GreedyMeets(stages[1..], hits, last, ends[0], ends[1..], finish);
      WithinCons(taken, Greedy(stages[1..], hits, last).value, cursor, last, finish);
    }
  }

  /** What is taken for a stage that has enough hits between lo and e. */
  lemma FirstTaken(stage: Stage, hits: seq<StageHit>, cursor: int, lo: int, e: int) returns (taken: seq<StageHit>, last: int)
    requires Sorted(hits) && cursor <= lo && stage.minCount >= 1 && CountStage(hits, stage.name, lo, e) >= stage.minCount
    ensures stage.minCount <= |From(ByStage(hits, stage.name), cursor)|
    ensures taken == From(ByStage(hits, stage.name), cursor)[..stage.minCount] && last == taken[|taken| - 1].at
    ensures cursor <= last <= e && forall h :: h in taken ==> cursor <= h.at <= last
  {
    EnoughCandidates(hits, stage.name, cursor, lo, e, stage.minCount);
    Taken(hits, stage.name, cursor, stage.minCount);
    taken := From(ByStage(hits, stage.name), cursor)[..stage.minCount];
    last := taken[stage.minCount - 1].at;
    assert taken[stage.minCount - 1] in taken;
  }

  lemma WithinCons(taken: seq<StageHit>, rest: seq<seq<StageHit>>, cursor: int, last: int, finish: int)
    requires cursor <= last <= finish && (forall h :: h in taken ==> cursor <= h.at <= last)
    requires forall h :: h in Flatten(rest) ==> last <= h.at <= finish
    ensures forall h :: h in Flatten([taken] + rest) ==> cursor <= h.at <= finish
  {
    FlattenCons(taken, rest);
  }

  lemma EnoughCandidates(hits: seq<StageHit>, name: string, cursor: int, lo: int, e: int, m: nat)
    requires Sorted(hits) && cursor <= lo && m >= 1 && CountStage(hits, name, lo, e) >= m
    ensures |From(ByStage(hits, name), cursor)| >= m && From(ByStage(hits, name), cursor)[m - 1].at <= e
  {
    CountStageWider(hits, name, lo, cursor, e);
    CountStageIsCount(hits, name, cursor, e);
    ByStageSorted(hits, name);
    NthCandidate(ByStage(hits, name), cursor, e, m - 1);
  }

  lemma CandidatesCounted(hits: seq<StageHit>, name: string, cursor: int, m: nat)
    requires Sorted(hits) && 1 <= m <= |From(ByStage(hits, name), cursor)|
    ensures var last := From(ByStage(hits, name), cursor)[m - 1].at;
            cursor <= last && CountStage(hits, name, cursor, last) >= m
  {
    var last := From(ByStage(hits, name), cursor)[m - 1].at;
    ByStageSorted(hits, name);
    NthCandidate(ByStage(hits, name), cursor, last, m - 1);
    CandidateMember(ByStage(hits, name), cursor, m - 1);
    CountStageIsCount(hits, name, cursor, last);
  }

  /** A greedy answer is the hits taken for the first stage, and a greedy answer
      for the rest from the last of them on. */
  lemma GreedySplits(stages: seq<Stage>, hits: seq<StageHit>, cursor: int)
    returns (taken: seq<StageHit>, last: int, rest: seq<seq<StageHit>>)
    requires Positive(stages) && Sorted(hits) && stages != [] && Greedy(stages, hits, cursor).Some?
    ensures Greedy(stages, hits, cursor).value == [taken] + rest && Greedy(stages[1..], hits, last) == Some(rest)
    ensures stages[0].minCount <= |From(ByStage(hits, stages[0].name), cursor)|
    ensures taken == From(ByStage(hits, stages[0].name), cursor)[..stages[0].minCount]
    ensures cursor <= last && forall h :: h in taken ==> h in hits && h.stage == stages[0].name && cursor <= h.at <= last
    ensures exists h :: h in taken && h.at == last
  {
    var m := stages[0].minCount;
    Taken(hits, stages[0].name, cursor, m);
    taken := From(ByStage(hits, stages[0].name), cursor)[..m];
    last := taken[m - 1].at;
    assert taken[m - 1] in taken;
    rest := Greedy(stages[1..], hits, last).value;
  }

  /** Where a greedy answer ends its stages, enough hits lie in between. */
  lemma {:induction false} GreedyGivesIntervals(stages: seq<Stage>, hits: seq<StageHit>, cursor: int) returns (ends: seq<int>)
    requires Positive(stages) && Sorted(hits) && Greedy(stages, hits, cursor).Some?
    ensures Intervals(stages, hits, cursor, ends)
    decreases |stages|
  {
    if stages == [] {
      ends := [];
    } else {
      var name, m := stages[0].name, stages[0].minCount;
      CandidatesCounted(hits, name, cursor, m);
      var last := From(ByStage(hits, name), cursor)[m - 1].at;
      var rest := GreedyGivesIntervals(stages[1..], hits, last);
      ends := [last] + rest;
      assert ends[1..] == rest;
    }
  }

  /** As many hits of every stage in every stretch of time. */
  ghost predicate SameCountsIn(a: seq<StageHit>, b: seq<StageHit>) {
    forall name, lo, hi :: CountStage(a, name, lo, hi) == CountStage(b, name, lo, hi)
  }

  /** What is reported of a greedy answer. */
  function Reported(g: Option<seq<seq<StageHit>>>): Option<seq<(string, int)>> {
    if g.None? then None else Some(Signature(Flatten(g.value)))
  }

  function Prefixed(taken: seq<StageHit>, rest: Option<seq<seq<StageHit>>>): Option<seq<seq<StageHit>>> {
    if rest.None? then None else Some([taken] + rest.value)
  }

  /** Two time-sorted sequences with the same counts give greedy answers with the same times. */
  lemma {:induction false} GreedySameTimes(stages: seq<Stage>, a: seq<StageHit>, b: seq<StageHit>, cursor: int)
    requires Positive(stages) && Sorted(a) && Sorted(b) && SameCountsIn(a, b)
    ensures Reported(Greedy(stages, a, cursor)) == Reported(Greedy(stages, b, cursor))
    decreases |stages|
  {
    if stages != [] {
      var name, m := stages[0].name, stages[0].minCount;
      var ca, cb := From(ByStage(a, name), cursor), From(ByStage(b, name), cursor);
      SameCandidates(a, b, name, cursor);
      SameFirst(ca, cb, m);
      GreedyUnfolds(stages, a, cursor, ca);
      GreedyUnfolds(stages, b, cursor, cb);
      if |ca| >= m {
        GreedySameTimes(stages[1..], a, b, ca[m - 1].at);
        ReportedCons(ca[..m], cb[..m], Greedy(stages[1..], a, ca[m - 1].at), Greedy(stages[1..], b, ca[m - 1].at));
      }
    }
  }

  lemma GreedyUnfolds(stages: seq<Stage>, hits: seq<StageHit>, cursor: int, candidates: seq<StageHit>)
    requires Positive(stages) && stages != [] && candidates == From(ByStage(hits, stages[0].name), cursor)
    ensures Greedy(stages, hits, cursor) ==
            if |candidates| < stages[0].minCount then None
            else Prefixed(candidates[..stages[0].minCount], Greedy(stages[1..], hits, candidates[stages[0].minCount - 1].at))
  {
  }

  lemma SameFirst(a: seq<StageHit>, b: seq<StageHit>, m: nat)
    requires Signature(a) == Signature(b) && m >= 1
    ensures |a| == |b| && (|a| >= m ==> a[m - 1].at == b[m - 1].at && Signature(a[..m]) == Signature(b[..m]))
  {
    assert |a| == |Signature(a)| == |b|;
    if |a| >= m {
      assert Signature(a)[m - 1] == Signature(b)[m - 1];
      assert Signature(a[..m]) == Signature(a)[..m] == Signature(b)[..m] == Signature(b[..m]);
    }
  }

  lemma ReportedCons(x: seq<StageHit>, y: seq<StageHit>, ra: Option<seq<seq<StageHit>>>, rb: Option<seq<seq<StageHit>>>)
    requires Signature(x) == Signature(y) && Reported(ra) == Reported(rb)
    ensures Reported(Prefixed(x, ra)) == Reported(Prefixed(y, rb))
  {
    if ra.Some? {
      FlattenCons(x, ra.value);
      FlattenCons(y, rb.value);
    }
  }

  /** What the engine reports of a selection: stage names, and the times behind them. */
  function Signature(hits: seq<StageHit>): (r: seq<(string, int)>)
    ensures |r| == |hits| && forall i :: 0 <= i < |hits| ==> r[i] == (hits[i].stage, hits[i].at)
  {
    seq(|hits|, i requires 0 <= i < |hits| => (hits[i].stage, hits[i].at))
  }

  lemma FlattenCons(g: seq<StageHit>, rest: seq<seq<StageHit>>)
    ensures Flatten([g] + rest) == g + Flatten(rest)
    ensures Signature(g + Flatten(rest)) == Signature(g) + Signature(Flatten(rest))
  {
    assert ([g] + rest)[1..] == rest;
  }

  lemma SameCandidates(a: seq<StageHit>, b: seq<StageHit>, name: string, cursor: int)
    requires Sorted(a) && Sorted(b)
    requires SameCountsIn(a, b)
    ensures Signature(From(ByStage(a, name), cursor)) == Signature(From(ByStage(b, name), cursor))
  {
    var ca, cb := From(ByStage(a, name), cursor), From(ByStage(b, name), cursor);
    forall i: nat | i < |ca| ensures i < |cb| && ca[i].stage == name && cb[i].stage == name && cb[i].at <= ca[i].at {
      SameCandidate(a, b, name, cursor, i);
    }
    forall i: nat | i < |cb| ensures i < |ca| && ca[i].at <= cb[i].at {
      SameCandidate(b, a, name, cursor, i);
    }
    if |ca| > 0 { SameCandidate(a, b, name, cursor, |ca| - 1); }
    if |cb| > 0 { SameCandidate(b, a, name, cursor, |cb| - 1); }
  }

  lemma SameCandidate(a: seq<StageHit>, b: seq<StageHit>, name: string, cursor: int, i: nat)
    requires Sorted(a) && Sorted(b)
    requires SameCountsIn(a, b)
    ensures var ca, cb := From(ByStage(a, name), cursor), From(ByStage(b, name), cursor);
            i < |ca| ==> i < |cb| && ca[i].stage == name && cb[i].stage == name && cb[i].at <= ca[i].at
  {
    var ca := From(ByStage(a, name), cursor);
    if i < |ca| {
      var e := ca[i].at;
      ByStageSorted(a, name);
      ByStageSorted(b, name);
      NthCandidate(ByStage(a, name), cursor, e, i);
      CountStageIsCount(a, name, cursor, e);
      CountStageIsCount(b, name, cursor, e);
      NthCandidate(ByStage(b, name), cursor, e, i);
      CandidateMember(ByStage(a, name), cursor, i);
      CandidateMember(ByStage(b, name), cursor, i);
    }
  }

  // ----- chains against intervals -----------------------------------------

  /** The positions of one stage's hits in a stretch of time. */
  function Positions(hits: seq<StageHit>, name: string, lo: int, hi: int): set<nat> {
    set p: nat | p < |hits| && hits[p].stage == name && lo <= hits[p].at <= hi
  }

  lemma {:induction false} PositionsCounted(hits: seq<StageHit>, name: string, lo: int, hi: int)
    ensures |Positions(hits, name, lo, hi)| == CountStage(hits, name, lo, hi)
  {
    if hits == [] {
      assert Positions(hits, name, lo, hi) == {};
    } else {
      var n := |hits| - 1;
      PositionsCounted(hits[..n], name, lo, hi);
      assert hits == hits[..n] + [hits[n]];
      CountStageConcat(hits[..n], [hits[n]], name, lo, hi);
      LastPosition(hits, name, lo, hi);
    }
  }

  lemma LastPosition(hits: seq<StageHit>, name: string, lo: int, hi: int)
    requires hits != []
    ensures var n := |hits| - 1;
            var before := Positions(hits[..n], name, lo, hi);
            && n !in before
            && Positions(hits, name, lo, hi) ==
               if hits[n].stage == name && lo <= hits[n].at <= hi then before + {n} else before
  {
    var n := |hits| - 1;
    assert forall p :: 0 <= p < n ==> hits[..n][p] == hits[p];
  }

  lemma SubsetSize(a: set<nat>, b: set<nat>)
    requires a <= b
    ensures |a| <= |b|
  {
    assert b == a + (b - a);
  }

  /** Some subset of a given size. */
  ghost function Choose(s: set<nat>, n: nat): (r: set<nat>)
    requires n <= |s|
    ensures r <= s && |r| == n
  {
    if n == 0 then {} else
      var x :| x in s;
      Choose(s - {x}, n - 1) + {x}
  }

  /** The time of the latest of some hits. */
  ghost function Latest(hits: seq<StageHit>, s: set<nat>): (t: int)
    requires s != {} && forall p :: p in s ==> p < |hits|
    ensures (forall p :: p in s ==> hits[p].at <= t) && exists p :: p in s && hits[p].at == t
  {
    var x :| x in s;
    if s == {x} then hits[x].at
    else
      var rest := Latest(hits, s - {x});
      if rest <= hits[x].at then hits[x].at else rest
  }

  lemma {:induction false} ChainGivesIntervals(stages: seq<Stage>, hits: seq<StageHit>, picks: seq<set<nat>>, start: int, finish: int)
    returns (ends: seq<int>)
    requires Positive(stages) && Chain(stages, hits, picks, start, finish)
    ensures Intervals(stages, hits, start, ends) && forall e :: e in ends ==> e <= finish
    decreases |stages|
  {
    if stages == [] {
      ends := [];
    } else {
      assert Picked(hits, stages[0], picks[0], start, finish) && picks[0] != {};
      var last := Latest(hits, picks[0]);
      var name := stages[0].name;
      assert picks[0] <= Positions(hits, name, start, last);
      SubsetSize(picks[0], Positions(hits, name, start, last));
      PositionsCounted(hits, name, start, last);
      TailChain(stages, hits, picks, start, finish, last);
      var rest := ChainGivesIntervals(stages[1..], hits, picks[1..], last, finish);
      ends := [last] + rest;
      assert ends[1..] == rest;
    }
  }

  /** Without its first stage, a chain is a chain starting where that stage ended. */
  lemma TailChain(stages: seq<Stage>, hits: seq<StageHit>, picks: seq<set<nat>>, start: int, finish: int, last: int)
    requires Positive(stages) && stages != [] && Chain(stages, hits, picks, start, finish)
    requires exists p :: p in picks[0] && p < |hits| && hits[p].at == last
    ensures Chain(stages[1..], hits, picks[1..], last, finish)
  {
    forall i | 0 <= i < |stages| - 1 ensures Picked(hits, stages[1..][i], picks[1..][i], last, finish) {
      assert Picked(hits, stages[i + 1], picks[i + 1], start, finish);
      assert Precedes(hits, picks[0], picks[i + 1]);
    }
    forall i, j | 0 <= i < j < |stages| - 1 ensures Precedes(hits, picks[1..][i], picks[1..][j]) {
      assert Precedes(hits, picks[i + 1], picks[j + 1]);
    }
  }

  lemma {:induction false} IntervalsGiveChain(stages: seq<Stage>, hits: seq<StageHit>, lo: int, ends: seq<int>, finish: int)
    returns (picks: seq<set<nat>>)
    requires Intervals(stages, hits, lo, ends) && forall e :: e in ends ==> e <= finish
    ensures Chain(stages, hits, picks, lo, finish)
    decreases |stages|
  {
    if stages == [] {
      picks := [];
    } else {
      var here := Positions(hits, stages[0].name, lo, ends[0]);
      PositionsCounted(hits, stages[0].name, lo, ends[0]);
      assert ends[0] in ends && forall e :: e in ends[1..] ==> e in ends;
      var rest := IntervalsGiveChain(stages[1..], hits, ends[0], ends[1..], finish);
      picks := [Choose(here, stages[0].minCount)] + rest;
      ChainCons(stages, hits, picks, lo, ends[0], finish);
    }
  }

  lemma ChainCons(stages: seq<Stage>, hits: seq<StageHit>, picks: seq<set<nat>>, lo: int, e: int, finish: int)
    requires stages != [] && picks != [] && lo <= e <= finish && |picks[0]| == stages[0].minCount
    requires picks[0] <= Positions(hits, stages[0].name, lo, e)
    requires Chain(stages[1..], hits, picks[1..], e, finish)
    ensures Chain(stages, hits, picks, lo, finish)
  {
    forall i | 0 < i < |stages| ensures Picked(hits, stages[i], picks[i], e, finish) {
      assert Picked(hits, stages[1..][i - 1], picks[1..][i - 1], e, finish);
    }
    assert Picked(hits, stages[0], picks[0], lo, e);
    forall i, j | 0 <= i < j < |stages| ensures Precedes(hits, picks[i], picks[j]) {
      assert Picked(hits, stages[j], picks[j], e, finish);
      if i > 0 { assert Precedes(hits, picks[1..][i - 1], picks[1..][j - 1]); }
    }
  }

  // ----- the claim --------------------------------------------------------

  lemma IntervalsSameCounts(stages: seq<Stage>, a: seq<StageHit>, b: seq<StageHit>, lo: int, ends: seq<int>)
    requires Intervals(stages, a, lo, ends)
    requires SameCountsIn(a, b)
    ensures Intervals(stages, b, lo, ends)
    decreases |stages|
  {
    if stages != [] { IntervalsSameCounts(stages[1..], a, b, ends[0], ends[1..]); }
  }

  lemma SortSameCounts(hits: seq<StageHit>)
    ensures SameCountsIn(Sort(hits), hits)
  {
    SortSorts(hits);
    forall name, lo, hi ensures CountStage(Sort(hits), name, lo, hi) == CountStage(hits, name, lo, hi) {
      CountStagePermuted(Sort(hits), hits, name, lo, hi);
    }
  }

  /** If any choice of hits respects the stage order, greedy selection
      succeeds, and it takes no hit later than that choice does: its finishing
      time is the earliest of all. */
  lemma GreedyEarliest(stages: seq<Stage>, hits: seq<StageHit>, picks: seq<set<nat>>, start: int, finish: int)
    requires Positive(stages) && Chain(stages, hits, picks, start, finish)
    ensures var g := Greedy(stages, Sort(hits), start);
            g.Some? && forall h :: h in Flatten(g.value) ==> start <= h.at <= finish
  {
    var ends := ChainGivesIntervals(stages, hits, picks, start, finish);
    SortSorts(hits);
    SortSameCounts(hits);
    IntervalsSameCounts(stages, hits, Sort(hits), start, ends);
    GreedyMeets(stages, Sort(hits), start, start, ends, finish);
  }

  /** Greedy selection succeeds exactly when some choice respects the stage order. */
  lemma GreedyExact(stages: seq<Stage>, hits: seq<StageHit>, start: int)
    requires Positive(stages)
    ensures Greedy(stages, Sort(hits), start).Some? <==>
            exists picks, finish :: Chain(stages, hits, picks, start, finish)
  {
    if Greedy(stages, Sort(hits), start).Some? {
      SortSorts(hits);
      SortSameCounts(hits);
      var ends := GreedyGivesIntervals(stages, Sort(hits), start);
      IntervalsSameCounts(stages, Sort(hits), hits, start, ends);
      var finish := MaxOf(ends);
      var picks := IntervalsGiveChain(stages, hits, start, ends, finish);
    } else if exists picks, finish :: Chain(stages, hits, picks, start, finish) {
      var picks, finish :| Chain(stages, hits, picks, start, finish);
      GreedyEarliest(stages, hits, picks, start, finish);
      assert false;
    }
  }

  function MaxOf(xs: seq<int>): (m: int)
    ensures forall x :: x in xs ==> x <= m
  {
    if xs == [] then 0
    else
      var rest := MaxOf(xs[1..]);
      assert forall x :: x in xs ==> x == xs[0] || x in xs[1..];
      if xs[0] > rest then xs[0] else rest
  }
}
