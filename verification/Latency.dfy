/** Latency statistics of a set of round-trip samples, over exact reals. */
module Latency {
  import opened Lists
  import opened Sorting

  datatype Stats = Stats(samples: nat, min: real, avg: real, p50: real, p95: real, max: real, jitter: real)

  function Ascending(): (real, real) -> bool {
    (a: real, b: real) => a <= b
  }

  function Sum(values: seq<real>): real {
    if values == [] then 0.0 else Sum(values[..|values|-1]) + values[|values|-1]
  }

  function Abs(x: real): (r: real)
    ensures r >= 0.0 && (r == x || r == -x)
  {
    if x < 0.0 then -x else x
  }

  /** The sum of the changes between consecutive samples. */
  function Travel(values: seq<real>): real {
    if |values| <= 1 then 0.0
    else Travel(values[..|values|-1]) + Abs(values[|values|-1] - values[|values|-2])
  }

  /** The index of a percentile given as num/den: the ceiling of length * num / den, less one, clamped. */
  function PercentileIndex(length: nat, num: int, den: nat): (i: nat)
    requires den > 0
    ensures length > 0 ==> i < length
  {
    if length <= 1 then 0
    else
      var index := (length * num + den - 1) / den - 1;
      if index < 0 then 0 else if index >= length then length - 1 else index
  }

  function StatsOf(values: seq<real>): Stats {
    if values == [] then Stats(0, 0.0, 0.0, 0.0, 0.0, 0.0, 0.0)
    else
      var ordered := Sort(values, Ascending());
      SortKeepsLength(values);
      var n := |values|;
      Stats(n, ordered[0], Sum(values) / n as real,
            ordered[PercentileIndex(n, 1, 2)], ordered[PercentileIndex(n, 19, 20)], ordered[n-1],
            if n > 1 then Travel(values) / (n - 1) as real else 0.0)
  }

  lemma SortKeepsLength(values: seq<real>)
    ensures |Sort(values, Ascending())| == |values|
  {
    SortSorts(values, Ascending());
  }

  method CalculateRouteLatency(values: seq<real>) returns (s: Stats)
    ensures s == StatsOf(values)
  {
    if |values| == 0 {
      return Stats(0, 0.0, 0.0, 0.0, 0.0, 0.0, 0.0);
    }
    SortKeepsLength(values);
    var ordered := Sort(values, Ascending());
    var total := 0.0;
    for i := 0 to |values|
      invariant total == Sum(values[..i])
    {
      assert values[..i+1][..i] == values[..i];
      total := total + values[i];
    }
    assert values[..|values|] == values;
    var jitter := 0.0;
    if |values| > 1 {
      for index := 1 to |values|
        invariant jitter == Travel(values[..index])
      {
        assert values[..index+1][..index] == values[..index];
        var delta := values[index] - values[index-1];
        if delta < 0.0 {
          delta := -delta;
        }
        jitter := jitter + delta;
      }
      jitter := jitter / (|values| - 1) as real;
    }
    s := Stats(|values|, ordered[0], total / |values| as real,
               ordered[PercentileIndex(|ordered|, 1, 2)], ordered[PercentileIndex(|ordered|, 19, 20)],
               ordered[|ordered|-1], jitter);
  }

  // ----- order of the fields -----

  ghost predicate Within(values: seq<real>, lo: real, hi: real) {
    forall i :: 0 <= i < |values| ==> lo <= values[i] <= hi
  }

  function Times(n: int, x: real): real {
    n as real * x
  }

  lemma OneMore(n: int, x: real)
    ensures Times(0, x) == 0.0 && Times(n + 1, x) == Times(n, x) + x
  {
    assert (n + 1) as real == n as real + 1.0;
  }

  lemma {:induction false} SumWithin(values: seq<real>, lo: real, hi: real)
    requires Within(values, lo, hi)
    ensures Times(|values|, lo) <= Sum(values) <= Times(|values|, hi)
  {
    hide Times;
    if values == [] {
      OneMore(0, lo);
      OneMore(0, hi);
    } else {
      var front := values[..|values|-1];
      SumWithin(front, lo, hi);
      OneMore(|front|, lo);
      OneMore(|front|, hi);
    }
  }

  /** No change between consecutive samples exceeds d. */
  ghost predicate Steps(values: seq<real>, d: real) {
    forall i :: 0 < i < |values| ==> Abs(values[i] - values[i-1]) <= d
  }

  lemma LastStep(values: seq<real>, d: real)
    requires |values| > 1 && Steps(values, d)
    ensures Steps(values[..|values|-1], d)
    ensures 0.0 <= Travel(values) - Travel(values[..|values|-1]) <= d
  {
    hide Abs;
  }

  lemma {:induction false} TravelBelow(values: seq<real>, d: real)
    requires values != [] && Steps(values, d)
    ensures 0.0 <= Travel(values) <= Times(|values| - 1, d)
  {
    OneMore(|values| - 2, d);
    hide Times;
    if |values| > 1 {
      LastStep(values, d);
      hide Steps, Travel;
      TravelBelow(values[..|values|-1], d);
    }
  }

  lemma StepsWithin(values: seq<real>, lo: real, hi: real)
    requires Within(values, lo, hi)
    ensures Steps(values, hi - lo)
  {
  }

  lemma QuotientWithin(x: real, n: nat, lo: real, hi: real)
    requires n > 0 && Times(n, lo) <= x <= Times(n, hi)
    ensures lo <= x / n as real <= hi
  {
    var d := n as real;
    assert x / d - lo == (x - d * lo) / d;
    assert hi - x / d == (d * hi - x) / d;
    assert (x - d * lo) / d >= 0.0 && (d * hi - x) / d >= 0.0;
  }

  lemma OrderedAt(ordered: seq<real>, i: nat, j: nat)
    requires Ordered(ordered, Ascending()) && i <= j < |ordered|
    ensures ordered[i] <= ordered[j]
  {
    assert i < j ==> Ascending()(ordered[i], ordered[j]);
  }

  lemma MemberWithin(o: seq<real>, v: real)
    requires Ordered(o, Ascending()) && v in o
    ensures o[0] <= v <= o[|o|-1]
  {
    var i :| 0 <= i < |o| && o[i] == v;
    OrderedAt(o, 0, i);
    OrderedAt(o, i, |o|-1);
  }

  lemma SamplesWithin(values: seq<real>)
    requires values != []
    ensures var o := Sort(values, Ascending());
            |o| == |values| && Ordered(o, Ascending()) && Within(values, o[0], o[|o|-1])
  {
    SortSorts(values, Ascending());
    hide Sort, Ascending, Ordered;
    var o := Sort(values, Ascending());
    forall k | 0 <= k < |values| ensures o[0] <= values[k] <= o[|o|-1] {
      MemberWithin(o, values[k]);
    }
  }

  lemma PercentilesOrdered(n: nat)
    requires n > 0
    ensures PercentileIndex(n, 1, 2) <= PercentileIndex(n, 19, 20) < n
  {
  }

  lemma MeanWithin(values: seq<real>, lo: real, hi: real)
    requires values != [] && Within(values, lo, hi)
    ensures lo <= Sum(values) / |values| as real <= hi
  {
    SumWithin(values, lo, hi);
    hide Sum, Within, Times;
    QuotientWithin(Sum(values), |values|, lo, hi);
  }

  lemma JitterWithin(values: seq<real>, lo: real, hi: real)
    requires |values| > 1 && Within(values, lo, hi)
    ensures 0.0 <= Travel(values) / (|values| - 1) as real <= hi - lo
  {
    StepsWithin(values, lo, hi);
    TravelBelow(values, hi - lo);
    assert Times(|values| - 1, 0.0) == 0.0;
    hide Travel, Within, Steps, Times;
    QuotientWithin(Travel(values), |values| - 1, 0.0, hi - lo);
  }

  lemma OrderStatistics(values: seq<real>)
    requires values != []
    ensures var s := StatsOf(values);
            s.min <= s.p50 <= s.p95 <= s.max && Within(values, s.min, s.max)
  {
    SamplesWithin(values);
    var o, n := Sort(values, Ascending()), |values|;
    var i, j := PercentileIndex(n, 1, 2), PercentileIndex(n, 19, 20);
    PercentilesOrdered(n);
    OrderedAt(o, 0, i);
    OrderedAt(o, i, j);
    OrderedAt(o, j, n - 1);
    hide Sort, Travel, Sum, PercentileIndex, Ordered, Within, Ascending;
  }

  /** Min <= P50 <= P95 <= Max, Min <= Avg <= Max, and 0 <= Jitter <= Max - Min. */
  lemma FieldsOrdered(values: seq<real>)
    ensures var s := StatsOf(values);
            s.min <= s.p50 <= s.p95 <= s.max && s.min <= s.avg <= s.max && 0.0 <= s.jitter <= s.max - s.min
  {
    hide Sort, Travel, Sum, PercentileIndex, Within;
    if values != [] {
      OrderStatistics(values);
      SortKeepsLength(values);
      MeanWithin(values, StatsOf(values).min, StatsOf(values).max);
      if |values| > 1 { JitterWithin(values, StatsOf(values).min, StatsOf(values).max); }
    }
  }

  // ----- coverage of the percentiles -----

  function AtMost(values: seq<real>, bound: real): nat {
    |Filter(values, v => v <= bound)|
  }

  function Below(values: seq<real>, bound: real): nat {
    |Filter(values, v => v < bound)|
  }

  lemma PrefixAtMost(ordered: seq<real>, i: nat)
    requires Ordered(ordered, Ascending()) && i < |ordered|
    ensures AtMost(ordered, ordered[i]) >= i + 1
  {
    var keep := v => v <= ordered[i];
    var prefix := ordered[..i+1];
    assert ordered == prefix + ordered[i+1..];
    FilterConcat(prefix, ordered[i+1..], keep);
    forall k | 0 <= k < |prefix| ensures keep(prefix[k]) {
      assert k < i ==> Ascending()(ordered[k], ordered[i]);
    }
    FilterAll(prefix, keep);
  }

  lemma PrefixBelow(ordered: seq<real>, i: nat)
    requires Ordered(ordered, Ascending()) && i < |ordered|
    ensures Below(ordered, ordered[i]) <= i
  {
    var keep := v => v < ordered[i];
    var suffix := ordered[i..];
    assert ordered == ordered[..i] + suffix;
    FilterConcat(ordered[..i], suffix, keep);
    forall k | 0 <= k < |suffix| ensures !keep(suffix[k]) {
      assert k > 0 ==> Ascending()(ordered[i], ordered[i + k]);
    }
    FilterNone(suffix, keep);
  }

  lemma SplitCounts(values: seq<real>, ordered: seq<real>, i: nat)
    requires Ordered(ordered, Ascending()) && i < |ordered| && multiset(ordered) == multiset(values)
    ensures Below(values, ordered[i]) <= i < AtMost(values, ordered[i]) && ordered[i] in values
  {
    PrefixAtMost(ordered, i);
    PrefixBelow(ordered, i);
    FilterPermuted(ordered, values, v => v <= ordered[i]);
    FilterPermuted(ordered, values, v => v < ordered[i]);
    assert ordered[i] in multiset(ordered);
  }

  /** Each percentile is a sample; at least the stated fraction of the samples is at or below it, and less than that
      fraction strictly below. */
  lemma PercentilesCover(values: seq<real>)
    requires values != []
    ensures var s := StatsOf(values);
            && s.p50 in values && 2 * Below(values, s.p50) < |values| <= 2 * AtMost(values, s.p50)
            && s.p95 in values && 20 * Below(values, s.p95) < 19 * |values| <= 20 * AtMost(values, s.p95)
  {
    SortSorts(values, Ascending());
    var ordered, n := Sort(values, Ascending()), |values|;
    var i, j := PercentileIndex(n, 1, 2), PercentileIndex(n, 19, 20);
    SplitCounts(values, ordered, i);
    SplitCounts(values, ordered, j);
  }

  /** The changes between consecutive samples. */
  ghost function Changes(values: seq<real>): (c: seq<real>)
    requires values != []
  {
    seq(|values| - 1, i requires 0 <= i < |values| - 1 => Abs(values[i+1] - values[i]))
  }

  lemma {:induction false} TravelIsChanges(values: seq<real>)
    requires values != []
    ensures Travel(values) == Sum(Changes(values))
  {
    hide Abs;
    if |values| > 1 {
      var front, last := values[..|values|-1], Abs(values[|values|-1] - values[|values|-2]);
      TravelIsChanges(front);
      assert Changes(values) == Changes(front) + [last];
      assert (Changes(front) + [last])[..|front|-1] == Changes(front);
    }
  }

  /** The count, the least and the greatest sample, the mean, and the mean change between consecutive samples. */
  lemma StatsExactly(values: seq<real>)
    requires values != []
    ensures var s := StatsOf(values);
            && s.samples == |values|
            && s.min in values && s.max in values && Within(values, s.min, s.max)
            && Times(|values|, s.avg) == Sum(values)
            && Times(|values| - 1, s.jitter) == Sum(Changes(values))
  {
    SortSorts(values, Ascending());
    var o := Sort(values, Ascending());
    assert o[0] in o && o[|o|-1] in o;
    OrderStatistics(values);
    TravelIsChanges(values);
    TravelOfOne(values);
    hide Sort, Sum, Travel, Ascending, Ordered, Changes, PercentileIndex, Within, Times;
    Quotient(Sum(values), |values|);
    Quotient(Travel(values), |values| - 1);
    assert |values| == 1 ==> Times(0, StatsOf(values).jitter) == 0.0 by { Quotient(StatsOf(values).jitter, 1); }
  }

  lemma TravelOfOne(values: seq<real>)
    ensures |values| == 1 ==> Travel(values) == 0.0
  {
  }

  lemma Quotient(x: real, n: int)
    ensures n != 0 ==> Times(n, x / n as real) == x
    ensures Times(0, x) == 0.0
  {
  }

  lemma SumDrop(s: seq<real>, j: nat)
    requires j < |s|
    ensures Sum(s) == Sum(s[..j] + s[j+1..]) + s[j]
  {
    var l, x, r := s[..j], s[j], s[j+1..];
    assert s == l + ([x] + r);
    SumConcat(l, [x] + r);
    SumConcat([x], r);
    SumConcat(l, r);
    assert [x][..0] == [];
  }

  lemma {:induction false} SumPermuted(a: seq<real>, b: seq<real>)
    requires multiset(a) == multiset(b)
    ensures Sum(a) == Sum(b)
    decreases |a|
  {
    hide Sum;
    if a == [] {
      EmptyBag(b);
    } else {
      var j := SameWithout(a, b);
      SumDrop(a, |a|-1);
      SumDrop(b, j);
      assert a[..|a|-1] + a[|a|..] == a[..|a|-1];
      SumPermuted(a[..|a|-1], b[..j] + b[j+1..]);
    }
  }

  lemma {:induction false} SumConcat(a: seq<real>, b: seq<real>)
    ensures Sum(a + b) == Sum(a) + Sum(b)
  {
    if b == [] {
      assert a + b == a;
    } else {
      SumConcat(a, b[..|b|-1]);
      assert (a + b)[..|a + b|-1] == a + b[..|b|-1];
    }
  }

  /** Every field but jitter depends only on which samples there are, not on their order. */
  lemma OrderOnlyMovesJitter(a: seq<real>, b: seq<real>)
    requires multiset(a) == multiset(b)
    ensures StatsOf(a).(jitter := 0.0) == StatsOf(b).(jitter := 0.0)
  {
    assert |multiset(a)| == |a| && |multiset(b)| == |b|;
    SortSorts(a, Ascending());
    SortSorts(b, Ascending());
    OrderedUnique(Sort(a, Ascending()), Sort(b, Ascending()), Ascending());
    SumPermuted(a, b);
  }
}
