/**
 The three percentile functions of the benchmark harnesses and the median summary, over exact reals.
 Quantiles outside their range are kept: they index the sorted list as Python does.
 */
module Percentiles {
  import opened Samples

  datatype Answer = Nothing | IndexError | Value(x: real)

  /** Indexing a list: negative indices count from the end. */
  function At(s: seq<real>, i: int): Answer {
    if 0 <= i < |s| then Value(s[i])
    else if -|s| <= i < 0 then Value(s[|s| + i])
    else IndexError
  }

  function Floor(x: real): int {
    x.Floor
  }

  function Ceil(x: real): int {
    -(-x).Floor
  }

  function Truncated(x: real): int {
    if x >= 0.0 then x.Floor else Ceil(x)
  }

  // ---------------------------------------------------------------- interpolated percentiles

  function Mix(a: real, b: real, fraction: real): real {
    a * (1.0 - fraction) + b * fraction
  }

  function Interpolate(ordered: seq<real>, position: real): Answer {
    var lower, upper := Floor(position), Ceil(position);
    if lower == upper then At(ordered, lower) else
    match (At(ordered, lower), At(ordered, upper))
    case (Value(a), Value(b)) => Value(Mix(a, b, position - lower as real))
    case _ => IndexError
  }

  function Position(last: nat, quantile: real): real {
    last as real * quantile
  }

  /** `percentile` of the index benchmark, for a quantile. */
  function IndexPercentile(values: seq<real>, quantile: real): Answer {
    if values == [] then Value(0.0)
    else Interpolate(Sort(values), Position(|values| - 1, quantile))
  }

  function Shift(a: real, b: real, weight: real): real {
    a + (b - a) * weight
  }

  function InterpolateShift(ordered: seq<real>, rank: real): Answer {
    var lower, upper := Floor(rank), Ceil(rank);
    if lower == upper then At(ordered, Truncated(rank)) else
    match (At(ordered, lower), At(ordered, upper))
    case (Value(a), Value(b)) => Value(Shift(a, b, rank - lower as real))
    case _ => IndexError
  }

  function Rank(last: nat, pct: real): real {
    (pct / 100.0) * last as real
  }

  /** `percentile` of the session benchmark, for a percentage. */
  function SessionPercentile(values: seq<real>, pct: real): Answer {
    var ordered := Sort(values);
    if values == [] then Nothing
    else if |ordered| == 1 then Value(ordered[0])
    else InterpolateShift(ordered, Rank(|values| - 1, pct))
  }

  lemma MixIsShift(a: real, b: real, f: real)
    ensures Mix(a, b, f) == Shift(a, b, f)
  {
  }

  lemma InterpolationsAgree(s: seq<real>, p: real)
    ensures InterpolateShift(s, p) == Interpolate(s, p)
  {
    if At(s, Floor(p)).Value? && At(s, Ceil(p)).Value? {
      MixIsShift(At(s, Floor(p)).x, At(s, Ceil(p)).x, p - Floor(p) as real);
    }
  }

  lemma PositionsAgree(n: nat, q: real)
    ensures Rank(n, 100.0 * q) == Position(n, q)
  {
  }

  /** The harnesses compute the same percentile, at every quantile, in range or not. */
  lemma FormsAgree(values: seq<real>, q: real)
    requires values != []
    ensures SessionPercentile(values, 100.0 * q) == IndexPercentile(values, q)
  {
    SortSorts(values);
    PositionsAgree(|values| - 1, q);
    InterpolationsAgree(Sort(values), Position(|values| - 1, q));
    if |values| == 1 {
      PositionAtStart(q);
    }
  }

  lemma PositionAtStart(q: real)
    ensures Position(0, q) == 0.0
  {
  }

  lemma PercentileIgnoresOrder(values: seq<real>, values': seq<real>, q: real)
    requires multiset(values) == multiset(values')
    ensures IndexPercentile(values, q) == IndexPercentile(values', q)
    ensures SessionPercentile(values, q) == SessionPercentile(values', q)
    ensures NearestRank(values, q) == NearestRank(values', q)
  {
    SameSize(values, values');
    SortIgnoresOrder(values, values');
  }

  lemma MixEnds(a: real, b: real)
    ensures Mix(a, b, 0.0) == a && Mix(a, b, 1.0) == b
  {
  }

  lemma MixGrows(a: real, b: real, f: real, f': real)
    requires a <= b && f <= f'
    ensures Mix(a, b, f) <= Mix(a, b, f')
  {
    assert Mix(a, b, f') - Mix(a, b, f) == (b - a) * (f' - f);
    assert (b - a) * (f' - f) >= 0.0;
  }

  /** The segment a position lies on. */
  function Cell(n: nat, p: real): (k: nat)
    requires n >= 2 && 0.0 <= p <= (n - 1) as real
    ensures k + 1 < n && k as real <= p <= (k + 1) as real
  {
    if Floor(p) < n - 1 then Floor(p) else n - 2
  }

  /** Between two neighbouring samples the percentile is the straight line through them. */
  lemma InterpolateIsLine(s: seq<real>, p: real, k: nat)
    requires k + 1 < |s| && k as real <= p <= (k + 1) as real
    ensures Interpolate(s, p) == Value(Mix(s[k], s[k + 1], p - k as real))
  {
    MixEnds(s[k], s[k + 1]);
    if p == k as real {
      assert Floor(p) == Ceil(p) == k;
    } else if p == (k + 1) as real {
      assert Floor(p) == Ceil(p) == k + 1;
    } else {
      assert Floor(p) == k && Ceil(p) == k + 1;
    }
  }

  lemma InterpolateGrows(s: seq<real>, p: real, p': real)
    requires Ordered(s) && |s| > 1 && 0.0 <= p <= p' <= (|s| - 1) as real
    ensures Interpolate(s, p).Value? && Interpolate(s, p').Value?
    ensures Interpolate(s, p).x <= Interpolate(s, p').x
  {
    var k, k' := Cell(|s|, p), Cell(|s|, p');
    InterpolateIsLine(s, p, k);
    InterpolateIsLine(s, p', k');
    if k == k' {
      MixGrows(s[k], s[k + 1], p - k as real, p' - k as real);
    } else {
      assert k < k';
      MixGrows(s[k], s[k + 1], p - k as real, 1.0);
      MixGrows(s[k'], s[k' + 1], 0.0, p' - k' as real);
      MixEnds(s[k], s[k + 1]);
      MixEnds(s[k'], s[k' + 1]);
      assert s[k + 1] <= s[k'];
    }
  }

  lemma PositionGrows(n: nat, q: real, q': real)
    requires 0.0 <= q <= q' <= 1.0
    ensures 0.0 <= Position(n, q) <= Position(n, q') <= n as real
  {
    assert n as real * (q' - q) >= 0.0;
    assert n as real * (1.0 - q') >= 0.0;
  }

  /** Larger quantiles give percentiles at least as large. */
  lemma PercentileMonotone(values: seq<real>, q: real, q': real)
    requires values != [] && 0.0 <= q <= q' <= 1.0
    ensures IndexPercentile(values, q).Value? && IndexPercentile(values, q').Value?
    ensures IndexPercentile(values, q).x <= IndexPercentile(values, q').x
  {
    SortSorts(values);
    PositionGrows(|values| - 1, q, q');
    if |values| == 1 {
      PositionAtStart(q);
      PositionAtStart(q');
    } else {
      InterpolateGrows(Sort(values), Position(|values| - 1, q), Position(|values| - 1, q'));
    }
  }

  lemma PositionsAtEnds(n: nat)
    ensures Position(n, 0.0) == 0.0 && Position(n, 1.0) == n as real
    ensures Floor(n as real) == Ceil(n as real) == n
  {
  }

  /** At quantile k / (n - 1) the percentile is the k-th smallest sample. */
  lemma PercentileHitsSamples(values: seq<real>, k: nat, q: real)
    requires k < |values| && Position(|values| - 1, q) == k as real
    ensures |Sort(values)| == |values| && IndexPercentile(values, q) == Value(Sort(values)[k])
  {
    SortSorts(values);
    PositionsAtEnds(k);
  }

  /** The percentile at 0 is the least sample, at 1 the greatest, and in between it stays between. */
  lemma PercentileBounds(values: seq<real>, q: real, v: real)
    requires v in values && 0.0 <= q <= 1.0
    ensures exists least :: IndexPercentile(values, 0.0) == Value(least) && least in values && least <= v
    ensures exists greatest :: IndexPercentile(values, 1.0) == Value(greatest) && greatest in values && v <= greatest
    ensures IndexPercentile(values, q).Value?
    ensures IndexPercentile(values, 0.0).x <= IndexPercentile(values, q).x <= IndexPercentile(values, 1.0).x
  {
    SortSorts(values);
    var s := Sort(values);
    SortMembers(values, s[0]);
    SortMembers(values, s[|s| - 1]);
    SortMembers(values, v);
    var i :| 0 <= i < |s| && s[i] == v;
    PositionsAtEnds(|s| - 1);
    PercentileHitsSamples(values, 0, 0.0);
    PercentileHitsSamples(values, |s| - 1, 1.0);
    PercentileMonotone(values, 0.0, q);
    PercentileMonotone(values, q, 1.0);
  }

  // ---------------------------------------------------------------- nearest rank

  /** How many samples make pct percent of n. */
  function Share(n: nat, pct: real): real {
    (pct / 100.0) * n as real
  }

  function RankIndex(n: nat, share: real): (i: int)
    requires n > 0
    ensures 0 <= i < n
  {
    var i := Ceil(share) - 1;
    var atLeastZero := if i > 0 then i else 0;
    if n - 1 < atLeastZero then n - 1 else atLeastZero
  }

  /** `percentile` of the vector-database benchmark. */
  function NearestRank(values: seq<real>, pct: real): real {
    if values == [] then 0.0 else
    SortSorts(values);
    Sort(values)[RankIndex(|values|, Share(|values|, pct))]
  }

  /** At least pct percent of the samples are at or below x. */
  ghost predicate Covers(values: seq<real>, pct: real, x: real) {
    Count(values, x) as real >= Share(|values|, pct)
  }

  lemma ShareBounds(n: nat, pct: real)
    requires n > 0
    ensures 0.0 < pct <= 100.0 ==> 0.0 < Share(n, pct) <= n as real
    ensures pct <= 0.0 ==> Share(n, pct) <= 0.0
    ensures pct >= 100.0 ==> Share(n, pct) >= n as real
  {
    var part, size := pct / 100.0, n as real;
    assert part * size - size == (part - 1.0) * size;
    if pct <= 0.0 {
      assert part * size <= 0.0;
    } else {
      assert part * size > 0.0;
      assert part >= 1.0 ==> (part - 1.0) * size >= 0.0;
      assert part <= 1.0 ==> (part - 1.0) * size <= 0.0;
    }
  }

  lemma RankBounds(n: nat, share: real)
    requires n > 0 && 0.0 < share <= n as real
    ensures RankIndex(n, share) as real < share <= (RankIndex(n, share) + 1) as real
  {
  }

  lemma OrderedCounts(s: seq<real>, i: nat, y: real)
    requires Ordered(s) && i < |s|
    ensures Count(s, s[i]) >= i + 1
    ensures y < s[i] ==> Count(s, y) <= i
  {
    CountAtLeast(s, s[i], i + 1);
    if y < s[i] {
      CountAtMost(s, y, i);
    }
  }

  /** The least sample with at least pct percent of the samples at or below it. */
  lemma NearestRankIsLeast(values: seq<real>, pct: real, y: real)
    requires values != [] && 0.0 < pct <= 100.0
    ensures NearestRank(values, pct) in values
    ensures Covers(values, pct, NearestRank(values, pct))
    ensures Covers(values, pct, y) ==> NearestRank(values, pct) <= y
  {
    SortSorts(values);
    var s := Sort(values);
    ShareBounds(|values|, pct);
    RankBounds(|values|, Share(|values|, pct));
    var i := RankIndex(|values|, Share(|values|, pct));
    SortMembers(values, s[i]);
    CountSorted(values, s[i]);
    CountSorted(values, y);
    OrderedCounts(s, i, y);
  }

  /** Outside that range it is the least or the greatest sample. */
  lemma NearestRankClamps(values: seq<real>, pct: real, v: real)
    requires v in values
    ensures pct <= 0.0 ==> NearestRank(values, pct) in values && NearestRank(values, pct) <= v
    ensures pct >= 100.0 ==> NearestRank(values, pct) in values && v <= NearestRank(values, pct)
  {
    SortSorts(values);
    var s := Sort(values);
    ShareBounds(|values|, pct);
    SortMembers(values, v);
    SortMembers(values, s[0]);
    SortMembers(values, s[|s| - 1]);
    var i :| 0 <= i < |s| && s[i] == v;
  }

  // ---------------------------------------------------------------- median and deviation

  /** `statistics.median` of a non-empty list. */
  function Median(values: seq<real>): real
    requires values != []
  {
    SortSorts(values);
    var s, n := Sort(values), |values|;
    if n % 2 == 1 then s[n / 2] else (s[n / 2 - 1] + s[n / 2]) / 2.0
  }

  function Distance(x: real, y: real): real {
    if x < y then y - x else x - y
  }

  function Deviations(values: seq<real>, m: real): (r: seq<real>)
    ensures |r| == |values|
  {
    if values == [] then [] else [Distance(values[0], m)] + Deviations(values[1..], m)
  }

  /** How many values lie within d of m. */
  function Near(values: seq<real>, m: real, d: real): nat {
    if values == [] then 0 else (if Distance(values[0], m) <= d then 1 else 0) + Near(values[1..], m, d)
  }

  /** At least half of the values are at or below the median, and at most half at or below less. */
  lemma MedianHalves(values: seq<real>, y: real)
    requires values != []
    ensures 2 * Count(values, Median(values)) >= |values|
    ensures y < Median(values) ==> 2 * Count(values, y) <= |values|
  {
    SortSorts(values);
    var s, n, m := Sort(values), |values|, Median(values);
    assert n % 2 == 0 ==> s[n / 2 - 1] <= m <= s[n / 2];
    CountSorted(values, m);
    CountSorted(values, y);
    CountAtLeast(s, m, (n + 1) / 2);
    if y < m {
      CountAtMost(s, y, n / 2);
    }
  }

  /** The median of the mirrored values is the mirrored median. */
  lemma MedianMirrors(values: seq<real>)
    requires values != []
    ensures Median(Negated(values)) == -Median(values)
  {
    SortSorts(values);
    SortSorts(Negated(values));
    SortNegated(values);
  }

  lemma {:induction false} NearIsCount(values: seq<real>, m: real, d: real)
    ensures Near(values, m, d) == Count(Deviations(values, m), d)
  {
    if values != [] {
      NearIsCount(values[1..], m, d);
      assert Deviations(values, m)[1..] == Deviations(values[1..], m);
    }
  }

  /** The median absolute deviation. */
  function Mad(values: seq<real>): real
    requires values != []
  {
    Median(Deviations(values, Median(values)))
  }

  /** At least half of the values lie within one deviation of the median, at most half within less. */
  lemma MadHoldsHalf(values: seq<real>, d: real)
    requires values != []
    ensures 2 * Near(values, Median(values), Mad(values)) >= |values|
    ensures d < Mad(values) ==> 2 * Near(values, Median(values), d) <= |values|
  {
    var m := Median(values);
    NearIsCount(values, m, Mad(values));
    NearIsCount(values, m, d);
    MedianHalves(Deviations(values, m), d);
  }
}
