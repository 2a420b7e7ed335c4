/** The risk score: a weighted mean over whatever factors have data, with a
    floor under the denominator so that thin evidence cannot score high. */
module Risk {
  import opened Text

  /** Severity, confidence, asset criticality, user risk, threat intelligence,
      ATT&CK context, behavioural anomaly. */
  const WEIGHTS: seq<nat> := [30, 15, 20, 10, 15, 7, 3]
  const ANOMALY: nat := 6
  const MINIMUM_DENOMINATOR: nat := 60

  /** A factor's value before clamping, absent when there is no data for it. */
  type Values = seq<Option<real>>

  datatype Bucket = Low | Medium | High | Critical

  function BucketFor(score: int): Bucket {
    if score >= 75 then Critical else if score >= 50 then High else if score >= 25 then Medium else Low
  }

  function Clamp(v: real): real {
    if v < 0.0 then 0.0 else if v > 1.0 then 1.0 else v
  }

  /** Rounding to the nearest integer, a tie going to the even one. */
  function Round(x: real): int {
    var f := x.Floor;
    var rest := x - f as real;
    if rest < 0.5 || (rest == 0.5 && f % 2 == 0) then f else f + 1
  }

  /** Rounding to four decimals. */
  function Round4(x: real): real {
    Round(x * 10000.0) as real / 10000.0
  }

  function Points(weight: nat, v: Option<real>): real {
    if v.None? then 0.0 else Share(weight as real, Clamp(v.value))
  }

  function Share(weight: real, value: real): real {
    Round4(weight * value)
  }

  function Available(weight: nat, v: Option<real>): nat {
    if v.None? then 0 else weight
  }

  function TotalPoints(weights: seq<nat>, vs: Values): real
    requires |vs| == |weights|
  {
    if vs == [] then 0.0
    else
      var n := |vs| - 1;
      TotalPoints(weights[..n], vs[..n]) + Points(weights[n], vs[n])
  }

  function TotalWeight(weights: seq<nat>, vs: Values): nat
    requires |vs| == |weights|
  {
    if vs == [] then 0
    else
      var n := |vs| - 1;
      TotalWeight(weights[..n], vs[..n]) + Available(weights[n], vs[n])
  }

  function Denominator(weight: nat): nat {
    if weight > MINIMUM_DENOMINATOR then weight else MINIMUM_DENOMINATOR
  }

  /** The mean before rounding, as a percentage. */
  function Mean(points: real, weight: nat): real {
    100.0 * points / Denominator(weight) as real
  }

  function Score(weights: seq<nat>, vs: Values): int
    requires |vs| == |weights|
  {
    var weight := TotalWeight(weights, vs);
    var score := if weight == 0 then 0 else Round(Mean(TotalPoints(weights, vs), weight));
    if score < 0 then 0 else if score > 100 then 100 else score
  }

  // ----- rounding ---------------------------------------------------------

  lemma RoundNear(x: real)
    ensures x - 0.5 <= Round(x) as real <= x + 0.5
  {
  }

  lemma RoundMonotone(x: real, y: real)
    requires x <= y
    ensures Round(x) <= Round(y)
  {
    if x.Floor < y.Floor {
      assert Round(x) <= x.Floor + 1 <= y.Floor <= Round(y);
    }
  }

  lemma Round4Monotone(x: real, y: real)
    requires x <= y
    ensures Round4(x) <= Round4(y)
  {
    RoundMonotone(x * 10000.0, y * 10000.0);
    assert Round(x * 10000.0) as real <= Round(y * 10000.0) as real;
  }

  lemma Round4Exact(n: nat)
    ensures Round4(n as real) == n as real
  {
    assert n as real * 10000.0 == (n * 10000) as real;
  }

  lemma ScaledMonotone(w: real, u: real, v: real)
    requires w >= 0.0 && u <= v
    ensures w * u <= w * v
  {
  }

  lemma ShareMonotone(full: real, u: real, v: real)
    requires full >= 0.0 && u <= v
    ensures Share(full, u) <= Share(full, v)
  {
    ScaledMonotone(full, u, v);
    Round4Monotone(full * u, full * v);
  }

  lemma ShareEnds(weight: nat)
    ensures Share(weight as real, 0.0) == 0.0 && Share(weight as real, 1.0) == weight as real
  {
    Round4Exact(0);
    Round4Exact(weight);
    assert weight as real * 0.0 == 0.0 && weight as real * 1.0 == weight as real;
  }

  lemma PointsBounds(weight: nat, v: Option<real>)
    ensures 0.0 <= Points(weight, v) <= Available(weight, v) as real
  {
    if v.Some? {
      ShareEnds(weight);
      ShareMonotone(weight as real, 0.0, Clamp(v.value));
      ShareMonotone(weight as real, Clamp(v.value), 1.0);
    }
  }

  lemma PointsMonotone(weight: nat, u: real, v: real)
    requires u <= v
    ensures Points(weight, Some(u)) <= Points(weight, Some(v))
  {
    ShareMonotone(weight as real, Clamp(u), Clamp(v));
  }

  // ----- totals -----------------------------------------------------------

  lemma {:induction false} TotalBounds(weights: seq<nat>, vs: Values)
    requires |vs| == |weights|
    ensures 0.0 <= TotalPoints(weights, vs) <= TotalWeight(weights, vs) as real
  {
    if vs != [] {
      var n := |vs| - 1;
      TotalBounds(weights[..n], vs[..n]);
      PointsBounds(weights[n], vs[n]);
    }
  }

  lemma {:induction false} TotalUpdate(weights: seq<nat>, vs: Values, i: nat, v: Option<real>)
    requires |vs| == |weights| && i < |vs|
    ensures TotalPoints(weights, vs[i := v]) == TotalPoints(weights, vs) - Points(weights[i], vs[i]) + Points(weights[i], v)
    ensures TotalWeight(weights, vs[i := v]) == TotalWeight(weights, vs) - Available(weights[i], vs[i]) + Available(weights[i], v)
  {
    var n := |vs| - 1;
    if i < n {
      assert vs[i := v][..n] == vs[..n][i := v];
      TotalUpdate(weights[..n], vs[..n], i, v);
    } else {
      assert vs[i := v][..n] == vs[..n];
    }
  }

  lemma Divided(a: real, b: real, d: real)
    requires a <= b && d > 0.0
    ensures 100.0 * a / d <= 100.0 * b / d
  {
    assert (100.0 * b) / d - (100.0 * a) / d == (100.0 * (b - a)) / d;
    assert (100.0 * (b - a)) / d >= 0.0;
  }

  lemma MeanBounds(points: real, weight: nat)
    requires 0.0 <= points <= weight as real
    ensures 0.0 <= Mean(points, weight) <= 100.0
  {
    var d := Denominator(weight) as real;
    Divided(0.0, points, d);
    Divided(points, d, d);
    assert 100.0 * d / d == 100.0;
  }

  /** The final clamp never changes anything: the score is the rounded mean. */
  lemma ScoreIsMean(weights: seq<nat>, vs: Values)
    requires |vs| == |weights|
    ensures Score(weights, vs) == Round(Mean(TotalPoints(weights, vs), TotalWeight(weights, vs)))
    ensures 0 <= Score(weights, vs) <= 100
  {
    var points, weight := TotalPoints(weights, vs), TotalWeight(weights, vs);
    TotalBounds(weights, vs);
    MeanBounds(points, weight);
    RoundMonotone(0.0, Mean(points, weight));
    RoundMonotone(Mean(points, weight), 100.0);
    if weight == 0 { assert points == 0.0 && Mean(points, weight) == 0.0; }
  }

  // ----- what changing one factor does ------------------------------------

  /** Raising a factor that has data never lowers the score. */
  lemma Monotone(weights: seq<nat>, vs: Values, i: nat, v: real)
    requires |vs| == |weights| && i < |vs| && vs[i].Some? && vs[i].value <= v
    ensures Score(weights, vs) <= Score(weights, vs[i := Some(v)])
  {
    var vs' := vs[i := Some(v)];
    TotalUpdate(weights, vs, i, Some(v));
    PointsMonotone(weights[i], vs[i].value, v);
    ScoreIsMean(weights, vs);
    ScoreIsMean(weights, vs');
    var weight := TotalWeight(weights, vs);
    Divided(TotalPoints(weights, vs), TotalPoints(weights, vs'), Denominator(weight) as real);
    RoundMonotone(Mean(TotalPoints(weights, vs), weight), Mean(TotalPoints(weights, vs'), weight));
  }

  lemma Cross(a: real, d: real, b: real, e: real)
    requires d > 0.0 && e > 0.0
    ensures 100.0 * a / d <= 100.0 * b / e <==> a * e <= b * d
  {
    var x, y := 100.0 * a / d, 100.0 * b / e;
    assert x * d == 100.0 * a && y * e == 100.0 * b;
    var k := d * e;
    assert k > 0.0;
    assert x * k == 100.0 * (a * e) by { assert x * k == (x * d) * e; }
    assert y * k == 100.0 * (b * d) by { assert y * k == (y * e) * d; }
    if x <= y { ScaledMonotone(k, x, y); } else { StrictlyScaled(k, y, x); }
  }

  lemma StrictlyScaled(k: real, x: real, y: real)
    requires k > 0.0 && x < y
    ensures x * k < y * k
  {
  }

  /** Adding p to a mean over d, which then is over e, leaves it at least where
      it was exactly when p makes up for what is added to the denominator. */
  lemma MakesUp(a: real, p: real, d: real, e: real)
    requires d > 0.0 && e > 0.0
    ensures 100.0 * a / d <= 100.0 * (a + p) / e <==> a * (e - d) <= p * d
  {
    Cross(a, d, a + p, e);
    assert a * (e - d) == a * e - a * d && (a + p) * d == a * d + p * d;
  }

  /** The points a factor brings make up for what its weight adds beyond the
      floor. */
  predicate Pays(points: real, weight: nat, p: real, w: nat) {
    points * (Denominator(weight + w) - Denominator(weight)) as real <= p * Denominator(weight) as real
  }

  lemma MeanAdds(points: real, weight: nat, p: real, w: nat)
    ensures Mean(points, weight) <= Mean(points + p, weight + w) <==> Pays(points, weight, p, w)
  {
    var d, e := Denominator(weight), Denominator(weight + w);
    MakesUp(points, p, d as real, e as real);
    assert (e - d) as real == e as real - d as real;
  }

  /** Data for one more factor lowers the mean exactly when the factor does not
      pay for itself. */
  lemma AddingExactly(weights: seq<nat>, vs: Values, i: nat, v: real)
    requires |vs| == |weights| && i < |vs| && vs[i].None?
    ensures var points, weight, vs' := TotalPoints(weights, vs), TotalWeight(weights, vs), vs[i := Some(v)];
            Mean(points, weight) <= Mean(TotalPoints(weights, vs'), TotalWeight(weights, vs')) <==>
            Pays(points, weight, Points(weights[i], Some(v)), weights[i])
  {
    TotalUpdate(weights, vs, i, Some(v));
    MeanAdds(TotalPoints(weights, vs), TotalWeight(weights, vs), Points(weights[i], Some(v)), weights[i]);
  }

  /** While the weight with data stays within the floor, data for one more
      factor never lowers the score. */
  lemma AddingUnderFloor(weights: seq<nat>, vs: Values, i: nat, v: real)
    requires |vs| == |weights| && i < |vs| && vs[i].None?
    requires TotalWeight(weights, vs) + weights[i] <= MINIMUM_DENOMINATOR
    ensures Score(weights, vs) <= Score(weights, vs[i := Some(v)])
  {
    var points, weight, p := TotalPoints(weights, vs), TotalWeight(weights, vs), Points(weights[i], Some(v));
    TotalUpdate(weights, vs, i, Some(v));
    PointsBounds(weights[i], Some(v));
    ScoreIsMean(weights, vs);
    ScoreIsMean(weights, vs[i := Some(v)]);
    Divided(points, points + p, MINIMUM_DENOMINATOR as real);
    RoundMonotone(Mean(points, weight), Mean(points + p, weight + weights[i]));
  }

  /** Past the floor, a factor that says there is no risk always lowers a mean
      that was not already zero. */
  lemma NoRiskLowers(weights: seq<nat>, vs: Values, i: nat, v: real)
    requires |vs| == |weights| && i < |vs| && vs[i].None? && weights[i] > 0 && v <= 0.0
    requires TotalWeight(weights, vs) >= MINIMUM_DENOMINATOR && TotalPoints(weights, vs) > 0.0
    ensures var vs' := vs[i := Some(v)];
            Mean(TotalPoints(weights, vs'), TotalWeight(weights, vs')) < Mean(TotalPoints(weights, vs), TotalWeight(weights, vs))
  {
    AddingExactly(weights, vs, i, v);
    NoPoints(weights[i], v);
    NothingPaid(TotalPoints(weights, vs), TotalWeight(weights, vs), weights[i]);
  }

  lemma NoPoints(weight: nat, v: real)
    requires v <= 0.0
    ensures Points(weight, Some(v)) == 0.0
  {
    ShareEnds(weight);
  }

  lemma NothingPaid(points: real, weight: nat, w: nat)
    requires points > 0.0 && weight >= MINIMUM_DENOMINATOR && w > 0
    ensures !Pays(points, weight, 0.0, w)
  {
    StrictlyScaled(points, 0.0, w as real);
  }

  // ----- the rounded score ------------------------------------------------

  /** A number rounds below n exactly when it is under n - 1/2, or on it with n
      odd, where the tie goes down to the even number. */
  lemma RoundsBelow(x: real, n: int)
    ensures Round(x) < n <==> x < n as real - 0.5 || (x == n as real - 0.5 && n % 2 == 1)
  {
    if x == n as real - 0.5 { assert x.Floor == n - 1; }
  }

  lemma FromMean(points: real, weight: nat, bound: real)
    ensures Mean(points, weight) < bound <==> 100.0 * points < bound * Denominator(weight) as real
    ensures Mean(points, weight) == bound <==> 100.0 * points == bound * Denominator(weight) as real
  {
    var d := Denominator(weight) as real;
    var m := Mean(points, weight);
    assert m * d == 100.0 * points;
    if m < bound { StrictlyScaled(d, m, bound); } else if m > bound { StrictlyScaled(d, bound, m); }
  }

  /** The points are fewer than a score of s needs over this weight; on the
      boundary itself an odd s is missed and an even one is not. */
  predicate FallsShort(points: real, weight: nat, s: int) {
    var needed := (s as real - 0.5) * Denominator(weight) as real;
    100.0 * points < needed || (100.0 * points == needed && s % 2 == 1)
  }

  lemma RoundedMeanBelow(points: real, weight: nat, s: int)
    ensures Round(Mean(points, weight)) < s <==> FallsShort(points, weight, s)
  {
    RoundsBelow(Mean(points, weight), s);
    FromMean(points, weight, s as real - 0.5);
  }

  /** Data for one more factor lowers the score, as an integer, exactly when the
      points then fall short of what the score it had needs over the new weight. */
  lemma ScoreFallsExactly(weights: seq<nat>, vs: Values, i: nat, v: real)
    requires |vs| == |weights| && i < |vs| && vs[i].None?
    ensures Score(weights, vs[i := Some(v)]) < Score(weights, vs) <==>
            FallsShort(TotalPoints(weights, vs) + Points(weights[i], Some(v)), TotalWeight(weights, vs) + weights[i], Score(weights, vs))
  {
    var points, weight := TotalPoints(weights, vs) + Points(weights[i], Some(v)), TotalWeight(weights, vs) + weights[i];
    TotalUpdate(weights, vs, i, Some(v));
    ScoreIsMean(weights, vs[i := Some(v)]);
    RoundedMeanBelow(points, weight, Score(weights, vs));
  }

  /** Severity, confidence and asset criticality at their highest and nothing
      else known: 100. A user risk of zero added to that: 87. */
  lemma ScoreCanFall()
    ensures var vs: Values := [Some(1.0), Some(1.0), Some(1.0), None, None, None, None];
            Score(WEIGHTS, vs) == 100 && Score(WEIGHTS, vs[3 := Some(0.0)]) == 87
  {
    var vs: Values := [Some(1.0), Some(1.0), Some(1.0), None, None, None, None];
    Totals(vs);
    TotalUpdate(WEIGHTS, vs, 3, Some(0.0));
    NoPoints(10, 0.0);
    ScoreIsMean(WEIGHTS, vs);
    ScoreIsMean(WEIGHTS, vs[3 := Some(0.0)]);
    assert Mean(65.0, 65) == 100.0 && Round(100.0) == 100;
    FromMean(65.0, 75, 87.5);
    FromMean(65.0, 75, 86.5);
    RoundsBelow(Mean(65.0, 75), 88);
    RoundsBelow(Mean(65.0, 75), 87);
  }

  lemma Totals(vs: Values)
    requires |vs| == 7 && (forall i :: 0 <= i < 3 ==> vs[i] == Some(1.0)) && forall i :: 3 <= i < 7 ==> vs[i] == None
    ensures TotalPoints(WEIGHTS, vs) == 65.0 && TotalWeight(WEIGHTS, vs) == 65
  {
    NoMore(vs, 7);
    assert WEIGHTS[..7] == WEIGHTS && vs[..7] == vs;
    FullPoints(vs, 0, 0);
    FullPoints(vs, 1, 30);
    FullPoints(vs, 2, 45);
  }

  /** One more factor at its full weight. */
  lemma FullPoints(vs: Values, n: nat, before: nat)
    requires |vs| == 7 && n < 7 && vs[n] == Some(1.0)
    requires TotalPoints(WEIGHTS[..n], vs[..n]) == before as real && TotalWeight(WEIGHTS[..n], vs[..n]) == before
    ensures TotalPoints(WEIGHTS[..n + 1], vs[..n + 1]) == (before + WEIGHTS[n]) as real
    ensures TotalWeight(WEIGHTS[..n + 1], vs[..n + 1]) == before + WEIGHTS[n]
  {
    assert WEIGHTS[..n + 1][..n] == WEIGHTS[..n] && vs[..n + 1][..n] == vs[..n];
    ShareEnds(WEIGHTS[n]);
    assert Points(WEIGHTS[n], Some(1.0)) == WEIGHTS[n] as real;
  }

  lemma {:induction false} NoMore(vs: Values, n: nat)
    requires |vs| == 7 && 3 <= n <= 7 && forall i :: 3 <= i < 7 ==> vs[i] == None
    ensures TotalPoints(WEIGHTS[..n], vs[..n]) == TotalPoints(WEIGHTS[..3], vs[..3])
    ensures TotalWeight(WEIGHTS[..n], vs[..n]) == TotalWeight(WEIGHTS[..3], vs[..3])
  {
    if n > 3 {
      assert WEIGHTS[..n][..n - 1] == WEIGHTS[..n - 1] && vs[..n][..n - 1] == vs[..n - 1];
      NoMore(vs, n - 1);
    }
  }

  // ----- how far one factor moves the mean --------------------------------

  /** Adding or changing one factor of weight w moves the mean by at most
      100 w / 60 either way. */
  lemma OneFactorBound(points: real, weight: nat, w: nat, p: real, q: real)
    requires 0.0 <= points <= weight as real && 0.0 <= p <= w as real && 0.0 <= q <= w as real
    ensures Mean(points + q, weight + w) - Mean(points + p, weight + w) <= 100.0 * w as real / MINIMUM_DENOMINATOR as real
    ensures Mean(points + q, weight + w) - Mean(points, weight) <= 100.0 * w as real / MINIMUM_DENOMINATOR as real
    ensures Mean(points, weight) - Mean(points + q, weight + w) <= 100.0 * w as real / MINIMUM_DENOMINATOR as real
  {
    var d, e := Denominator(weight) as real, Denominator(weight + w) as real;
    MeanDifference(points + p, q - p, e, w as real);
    Fewer(w as real, e);
    MeanDifference(points, q, e, w as real);
    MeanShrinks(points, d, e, w as real);
    Divided(points, points + q, e);
  }

  lemma Fewer(w: real, e: real)
    requires w >= 0.0 && e >= 60.0
    ensures 100.0 * w / e <= 100.0 * w / 60.0
  {
    Cross(w, e, w, 60.0);
    ScaledMonotone(w, 60.0, e);
  }

  lemma MeanDifference(a: real, step: real, e: real, w: real)
    requires e > 0.0 && step <= w
    ensures 100.0 * (a + step) / e - 100.0 * a / e <= 100.0 * w / e
  {
    assert 100.0 * (a + step) / e == 100.0 * a / e + 100.0 * step / e;
    Divided(step, w, e);
  }

  /** Dividing by e instead of d takes away at most w in e. */
  lemma MeanShrinks(a: real, d: real, e: real, w: real)
    requires 60.0 <= d <= e <= d + w && 0.0 <= a <= d
    ensures 100.0 * a / e <= 100.0 * a / d
    ensures 100.0 * a / d - 100.0 * a / e <= 100.0 * w / e
  {
    Cross(a, e, a, d);
    ScaledMonotone(a, d, e);
    // a / d <= (a + w) / e, because a * e <= a * d + a * w <= a * d + d * w
    ScaledMonotone(a, e, d + w);
    assert a * (d + w) == a * d + a * w;
    ScaledMonotone(w, a, d);
    assert (a + w) * d == a * d + w * d;
    Cross(a, d, a + w, e);
    assert 100.0 * (a + w) / e == 100.0 * a / e + 100.0 * w / e;
  }

  /** The anomaly factor, whether it appears or changes, moves the mean by at
      most five points. */
  lemma AnomalyMovesLittle(vs: Values, v: real)
    requires |vs| == |WEIGHTS|
    ensures var vs' := vs[ANOMALY := Some(v)];
            var m, m' := Mean(TotalPoints(WEIGHTS, vs), TotalWeight(WEIGHTS, vs)), Mean(TotalPoints(WEIGHTS, vs'), TotalWeight(WEIGHTS, vs'));
            -5.0 <= m' - m <= 5.0
  {
    var bare := vs[ANOMALY := None];
    var points, weight := TotalPoints(WEIGHTS, bare), TotalWeight(WEIGHTS, bare);
    TotalBounds(WEIGHTS, bare);
    TotalUpdate(WEIGHTS, bare, ANOMALY, Some(v));
    TotalUpdate(WEIGHTS, bare, ANOMALY, vs[ANOMALY]);
    assert bare[ANOMALY := Some(v)] == vs[ANOMALY := Some(v)] && bare[ANOMALY := vs[ANOMALY]] == vs;
    PointsBounds(3, Some(v));
    PointsBounds(3, vs[ANOMALY]);
    var p, q := Points(3, vs[ANOMALY]), Points(3, Some(v));
    OneFactorBound(points, weight, 3, p, q);
    OneFactorBound(points, weight, 3, q, p);
  }

  // ----- how much must be known for a CRITICAL ------------------------------

  lemma MeanNeedsWeight(points: real, weight: nat)
    requires 0.0 <= points <= weight as real && Mean(points, weight) >= 74.5
    ensures weight >= 45
  {
    var d := Denominator(weight) as real;
    assert Mean(points, weight) * d == 100.0 * points;
    ScaledMonotone(d, 74.5, Mean(points, weight));
  }

  /** A CRITICAL score needs at least 45 points of weight with data. */
  lemma CriticalNeedsWeight(weights: seq<nat>, vs: Values)
    requires |vs| == |weights| && BucketFor(Score(weights, vs)).Critical?
    ensures TotalWeight(weights, vs) >= 45
  {
    ScoreIsMean(weights, vs);
    TotalBounds(weights, vs);
    var m := Mean(TotalPoints(weights, vs), TotalWeight(weights, vs));
    RoundNear(m);
    MeanNeedsWeight(TotalPoints(weights, vs), TotalWeight(weights, vs));
  }

  // ----- the constants ----------------------------------------------------

  /** Bucket boundaries are inclusive at the lower end. */
  lemma BucketBoundaries(score: int)
    ensures BucketFor(score).Low? <==> score <= 24
    ensures BucketFor(score).Medium? <==> 25 <= score <= 49
    ensures BucketFor(score).High? <==> 50 <= score <= 74
    ensures BucketFor(score).Critical? <==> 75 <= score
  {
  }

  /** A value within range counts as its share of the weight, to four decimals;
      one outside counts as the nearest end of the range. */
  lemma PointsAreShares(weight: nat, v: real)
    ensures v >= 1.0 ==> Points(weight, Some(v)) == weight as real
    ensures v <= 0.0 ==> Points(weight, Some(v)) == 0.0
    ensures 0.0 <= v <= 1.0 ==> -0.00005 <= Points(weight, Some(v)) - weight as real * v <= 0.00005
  {
    ShareEnds(weight);
    if 0.0 <= v <= 1.0 { ShareIsNear(weight as real, v); }
  }

  lemma ShareIsNear(weight: real, v: real)
    ensures -0.00005 <= Share(weight, v) - weight * v <= 0.00005
  {
    RoundedIsNear(weight * v);
  }

  lemma RoundedIsNear(x: real)
    ensures -0.00005 <= Round4(x) - x <= 0.00005
  {
    var y := x * 10000.0;
    RoundNear(y);
    assert Round4(x) - x == (Round(y) as real - y) / 10000.0;
  }

  lemma {:induction false} OnlyOne(vs: Values, i: nat, n: nat)
    requires |vs| == 7 && i < 7 && n <= 7 && vs[i] == Some(1.0) && forall j :: 0 <= j < 7 && j != i ==> vs[j] == None
    ensures TotalPoints(WEIGHTS[..n], vs[..n]) == if i < n then WEIGHTS[i] as real else 0.0
    ensures TotalWeight(WEIGHTS[..n], vs[..n]) == if i < n then WEIGHTS[i] else 0
  {
    if n > 0 {
      assert WEIGHTS[..n][..n - 1] == WEIGHTS[..n - 1] && vs[..n][..n - 1] == vs[..n - 1];
      OnlyOne(vs, i, n - 1);
      ShareEnds(WEIGHTS[n - 1]);
    }
  }

  /** The mean of each factor alone at its highest: its weight in sixtieths. */
  lemma EachFactorAlone(vs: Values, i: nat)
    requires |vs| == 7 && i < 7 && vs[i] == Some(1.0) && forall j :: 0 <= j < 7 && j != i ==> vs[j] == None
    ensures 60.0 * Mean(TotalPoints(WEIGHTS, vs), TotalWeight(WEIGHTS, vs)) == 100.0 * [30.0, 15.0, 20.0, 10.0, 15.0, 7.0, 3.0][i]
  {
    OnlyOne(vs, i, 7);
    assert WEIGHTS[..7] == WEIGHTS && vs[..7] == vs;
    AloneUnderFloor(WEIGHTS[i]);
    assert WEIGHTS[i] as real == [30.0, 15.0, 20.0, 10.0, 15.0, 7.0, 3.0][i];
  }

  lemma AloneUnderFloor(w: nat)
    requires w <= 60
    ensures 60.0 * Mean(w as real, w) == 100.0 * w as real
  {
  }
}
