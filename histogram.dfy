/**
 * Per-endpoint histogram data: the stable sort by bucket boundary and the
 * percentile estimate read off cumulative buckets by linear interpolation.
 */
module Histogram {
  import opened Wrappers
  import opened PyFloat

  /** One `(boundary, cumulative count)` pair, as the bucket lines give it. */
  type Bucket = (Float, real)

  // ---------------------------------------------------------------------
  // `sorted(buckets, key=lambda x: x[0])`

  /** Inserts `b` before the first entry whose boundary is not below its own. */
  function Insert(b: Bucket, s: seq<Bucket>): (r: seq<Bucket>)
    ensures multiset(r) == multiset(s) + multiset{b}
    ensures |r| == |s| + 1
    decreases |s|
  {
    if s == [] then [b]
    else if Less(s[0].0, b.0) then
      assert s == [s[0]] + s[1..];
      [s[0]] + Insert(b, s[1..])
    else [b] + s
  }

  /** A stable sort on the boundary (insertion sort). */
  function SortByBound(s: seq<Bucket>): (r: seq<Bucket>)
    ensures multiset(r) == multiset(s)
    ensures |r| == |s|
    decreases |s|
  {
    if s == [] then []
    else
      assert s == [s[0]] + s[1..];
      Insert(s[0], SortByBound(s[1..]))
  }

  predicate NoNaN(s: seq<Bucket>) {
    forall i :: 0 <= i < |s| ==> !s[i].0.NaN?
  }

  predicate SortedByBound(s: seq<Bucket>) {
    forall i, j :: 0 <= i < j < |s| ==> AtMost(s[i].0, s[j].0)
  }

  /** The entries of `s` whose boundary is `k`, in their order in `s`. */
  function WithBound(s: seq<Bucket>, k: Float): seq<Bucket>
    decreases |s|
  {
    if s == [] then []
    else (if s[0].0 == k then [s[0]] else []) + WithBound(s[1..], k)
  }

  lemma AtMostTransitive(a: Float, b: Float, c: Float)
    requires AtMost(a, b) && AtMost(b, c)
    ensures AtMost(a, c)
  {
  }

  /** For boundaries that are not NaN, `<` is a total order. */
  lemma LessTotal(a: Float, b: Float)
    requires !a.NaN? && !b.NaN?
    ensures Less(a, b) || a == b || Less(b, a)
  {
  }

  lemma {:induction false} InsertSorted(b: Bucket, s: seq<Bucket>)
    requires SortedByBound(s) && NoNaN(s) && !b.0.NaN?
    ensures SortedByBound(Insert(b, s))
    decreases |s|
  {
    if s != [] && Less(s[0].0, b.0) {
      InsertSorted(b, s[1..]);
      var t := Insert(b, s[1..]);
      forall j | 0 <= j < |t| ensures AtMost(s[0].0, t[j].0) {
        assert t[j] in multiset(t);
        if t[j] != b {
          assert t[j] in multiset(s[1..]);
          var k :| 0 <= k < |s[1..]| && s[1..][k] == t[j];
          assert s[k + 1] == t[j];
        }
      }
    } else if s != [] {
      LessTotal(s[0].0, b.0);
      forall j | 0 <= j < |s| ensures AtMost(b.0, s[j].0) {
        if j > 0 {
          AtMostTransitive(b.0, s[0].0, s[j].0);
        }
      }
    }
  }

  lemma {:induction false} SortNoNaN(s: seq<Bucket>)
    requires NoNaN(s)
    ensures NoNaN(SortByBound(s))
  {
    var r := SortByBound(s);
    forall i | 0 <= i < |r| ensures !r[i].0.NaN? {
      assert r[i] in multiset(s);
    }
  }

  lemma {:induction false} InsertWithBound(b: Bucket, s: seq<Bucket>, k: Float)
    ensures WithBound(Insert(b, s), k) == (if b.0 == k then [b] else []) + WithBound(s, k)
    decreases |s|
  {
    if s == [] {
    } else if Less(s[0].0, b.0) {
      InsertWithBound(b, s[1..], k);
      assert !(s[0].0 == k && b.0 == k);
      assert [s[0]] + Insert(b, s[1..]) == Insert(b, s);
      assert ([s[0]] + Insert(b, s[1..]))[1..] == Insert(b, s[1..]);
    } else {
      assert ([b] + s)[1..] == s;
    }
  }

  /**
   * The sort is Python's `sorted(..., key=boundary)`: its output is ordered by
   * boundary, is a permutation of the input, and keeps the input order among
   * entries with the same boundary (stability).
   */
  lemma {:induction false} SortByBoundCorrect(s: seq<Bucket>)
    requires NoNaN(s)
    ensures SortedByBound(SortByBound(s))
    ensures multiset(SortByBound(s)) == multiset(s)
    ensures forall k :: WithBound(SortByBound(s), k) == WithBound(s, k)
    decreases |s|
  {
    if s != [] {
      SortByBoundCorrect(s[1..]);
      SortNoNaN(s[1..]);
      InsertSorted(s[0], SortByBound(s[1..]));
      forall k ensures WithBound(SortByBound(s), k) == WithBound(s, k) {
        InsertWithBound(s[0], SortByBound(s[1..]), k);
      }
    }
  }

  // ---------------------------------------------------------------------
  // `_calculate_percentile(sorted_buckets, percentile)`

  /** The total observation count: the count of a final `+Inf` bucket, and 0 without one. */
  function Total(sb: seq<Bucket>): real
    requires sb != []
  {
    if sb[|sb| - 1].0 == PosInf then sb[|sb| - 1].1 else 0.0
  }

  /** The count the estimate aims at: `percentile * total`. */
  function Target(sb: seq<Bucket>, p: real): real
    requires sb != []
  {
    p * Total(sb)
  }

  /** The estimate returned from the first bucket whose count reaches the target. */
  function EstimateAt(sb: seq<Bucket>, target: real, i: nat): Float
    requires i < |sb|
  {
    if i == 0 then RoundFloat(sb[0].0)
    else
      var (prevBound, prevCount) := sb[i - 1];
      var (bound, count) := sb[i];
      if count == prevCount then RoundFloat(bound)
      else
        var fraction := (target - prevCount) / (count - prevCount);
        RoundFloat(Add(prevBound, Scale(fraction, Sub(bound, prevBound))))
  }

  /** The scan for the first bucket whose count reaches the target, from index `i` on. */
  function ScanFrom(sb: seq<Bucket>, target: real, i: nat): Option<Float>
    requires sb != [] && i <= |sb|
    decreases |sb| - i
  {
    if i == |sb| then
      if sb[|sb| - 1].0 != PosInf then Some(RoundFloat(sb[|sb| - 1].0)) else None
    else if sb[i].1 >= target then Some(EstimateAt(sb, target, i))
    else ScanFrom(sb, target, i + 1)
  }

  /** The `p`-quantile estimate of a list of cumulative buckets, or None for insufficient data. */
  function Percentile(sb: seq<Bucket>, p: real): Option<Float> {
    if sb == [] then None
    else if Total(sb) == 0.0 then None
    else ScanFrom(sb, Target(sb, p), 0)
  }

  /** Bucket `i` is the first whose cumulative count reaches `target`. */
  predicate FirstReaching(sb: seq<Bucket>, target: real, i: nat) {
    i < |sb| && sb[i].1 >= target && forall j :: 0 <= j < i ==> sb[j].1 < target
  }

  lemma {:induction false} ScanFromSelects(sb: seq<Bucket>, target: real, i: nat)
    requires sb != [] && i <= |sb| && sb[|sb| - 1].0 == PosInf
    requires forall j :: 0 <= j < i ==> sb[j].1 < target
    ensures ScanFrom(sb, target, i).None? <==> forall j :: 0 <= j < |sb| ==> sb[j].1 < target
    ensures ScanFrom(sb, target, i).Some? ==>
      exists k :: FirstReaching(sb, target, k) && ScanFrom(sb, target, i) == Some(EstimateAt(sb, target, k))
    decreases |sb| - i
  {
    if i < |sb| {
      if sb[i].1 >= target {
        assert FirstReaching(sb, target, i);
      } else {
        ScanFromSelects(sb, target, i + 1);
      }
    }
  }

  /**
   * The estimate is None exactly when the list is empty, has no final `+Inf`
   * bucket, has a zero total, or no bucket reaches the target; otherwise it is
   * the estimate at the first bucket that reaches the target. In particular the
   * "beyond all buckets" fallback never returns a finite boundary.
   */
  lemma PercentileSelects(sb: seq<Bucket>, p: real)
    ensures Percentile(sb, p).None? <==>
      sb == [] || Total(sb) == 0.0 || forall j :: 0 <= j < |sb| ==> sb[j].1 < Target(sb, p)
    ensures Percentile(sb, p).Some? ==>
      sb[|sb| - 1].0 == PosInf && Total(sb) != 0.0 &&
      exists k :: FirstReaching(sb, Target(sb, p), k) && Percentile(sb, p) == Some(EstimateAt(sb, Target(sb, p), k))
  {
    if sb != [] && Total(sb) != 0.0 {
      ScanFromSelects(sb, Target(sb, p), 0);
    }
  }

  /** With a positive total in a final `+Inf` bucket, every percentile up to 1 is defined. */
  lemma PercentileDefined(sb: seq<Bucket>, p: real)
    requires sb != [] && sb[|sb| - 1].0 == PosInf && sb[|sb| - 1].1 > 0.0
    requires p <= 1.0
    ensures Percentile(sb, p).Some?
  {
    ScaleMonotone(p, 1.0, Total(sb));
    assert sb[|sb| - 1].1 >= Target(sb, p);
    PercentileSelects(sb, p);
  }

  /** A histogram without a `+Inf` bucket at the end has no percentiles at all. */
  lemma PercentileWithoutTotal(sb: seq<Bucket>, p: real)
    requires sb == [] || sb[|sb| - 1].0 != PosInf
    ensures Percentile(sb, p).None?
  {
  }

  /**
   * The bucket that holds the target is never empty: the previous bucket's
   * count is below the target and this one's reaches it. So the source's
   * `count == prev_count` branch is unreachable and the interpolation
   * fraction lies in (0, 1].
   */
  lemma FirstReachingIsNonEmpty(sb: seq<Bucket>, target: real, i: nat)
    requires FirstReaching(sb, target, i) && i > 0
    ensures sb[i - 1].1 < target <= sb[i].1
    ensures sb[i].1 != sb[i - 1].1
    ensures 0.0 < (target - sb[i - 1].1) / (sb[i].1 - sb[i - 1].1) <= 1.0
  {
    var d := sb[i].1 - sb[i - 1].1;
    var f := (target - sb[i - 1].1) / d;
    assert f * d == target - sb[i - 1].1;
  }

  // ---------------------------------------------------------------------
  // Well-formed histograms: ordering and bounds of the estimate.

  /**
   * Strictly increasing boundaries, none of them -inf or NaN, and cumulative
   * (non-decreasing, non-negative) counts.
   */
  predicate WellFormed(sb: seq<Bucket>) {
    && (forall i, j :: 0 <= i < j < |sb| ==> Less(sb[i].0, sb[j].0))
    && (forall i, j :: 0 <= i < j < |sb| ==> sb[i].1 <= sb[j].1)
    && (forall i :: 0 <= i < |sb| ==> sb[i].0 != NegInf && !sb[i].0.NaN? && sb[i].1 >= 0.0)
  }

  lemma ScaleBelow(f: real, d: real)
    requires 0.0 < f <= 1.0 && d > 0.0
    ensures 0.0 < f * d <= d
  {
  }

  lemma ScaleMonotone(f: real, g: real, d: real)
    requires f <= g && d > 0.0
    ensures f * d <= g * d
  {
  }

  lemma DivMonotone(a: real, b: real, d: real)
    requires a <= b && d > 0.0
    ensures a / d <= b / d
  {
  }

  /**
   * Linear interpolation in a bucket with a finite lower boundary, by a fraction
   * in (0, 1], lands above the lower boundary and at most at the upper one
   * (at +inf when the upper boundary is +inf).
   */
  lemma InterpolationBetween(prev: real, bound: Float, f: real)
    requires 0.0 < f <= 1.0 && Less(Num(prev), bound)
    ensures var r := Add(Num(prev), Scale(f, Sub(bound, Num(prev))));
      Less(Num(prev), r) && AtMost(r, bound) && (bound == PosInf ==> r == PosInf)
  {
    if bound.Num? {
      ScaleBelow(f, bound.x - prev);
    }
  }

  /**
   * In a well-formed histogram the estimate lies in the bucket that holds the
   * target: the first bucket's boundary, or between the rounded boundaries of
   * the bucket's two ends. It is never NaN.
   */
  lemma EstimateBracketed(sb: seq<Bucket>, target: real, i: nat)
    requires WellFormed(sb) && FirstReaching(sb, target, i)
    ensures i == 0 ==> EstimateAt(sb, target, i) == RoundFloat(sb[0].0)
    ensures i > 0 ==> AtMost(RoundFloat(sb[i - 1].0), EstimateAt(sb, target, i))
    ensures AtMost(EstimateAt(sb, target, i), RoundFloat(sb[i].0))
  {
    if i > 0 {
      FirstReachingIsNonEmpty(sb, target, i);
      var prev := sb[i - 1].0;
      assert Less(prev, sb[i].0);
      var f := (target - sb[i - 1].1) / (sb[i].1 - sb[i - 1].1);
      InterpolationBetween(prev.x, sb[i].0, f);
      var r := Add(prev, Scale(f, Sub(sb[i].0, prev)));
      RoundFloatMonotone(prev, r);
      RoundFloatMonotone(r, sb[i].0);
    }
  }

  /** A target that lands in the `+Inf` bucket of a well-formed histogram gives +inf. */
  lemma EstimateInInfiniteBucket(sb: seq<Bucket>, target: real, i: nat)
    requires WellFormed(sb) && FirstReaching(sb, target, i) && sb[i].0 == PosInf
    ensures EstimateAt(sb, target, i) == PosInf
  {
    if i > 0 {
      FirstReachingIsNonEmpty(sb, target, i);
      assert Less(sb[i - 1].0, sb[i].0);
      var f := (target - sb[i - 1].1) / (sb[i].1 - sb[i - 1].1);
      InterpolationBetween(sb[i - 1].0.x, sb[i].0, f);
    }
  }

  /**
   * A worked example: with 2 observations up to 0.1s, 8 up to 0.5s and 10 in
   * all, the median interpolates to 0.3s and the 95th percentile falls in the
   * `+Inf` bucket.
   */
  lemma ExampleEstimates()
    ensures var sb := [(Num(0.1), 2.0), (Num(0.5), 8.0), (PosInf, 10.0)];
      Percentile(sb, 0.5) == Some(Num(0.3)) && Percentile(sb, 0.95) == Some(PosInf)
  {
    var sb := [(Num(0.1), 2.0), (Num(0.5), 8.0), (PosInf, 10.0)];
    assert Target(sb, 0.5) == 5.0;
    assert ScanFrom(sb, 5.0, 0) == ScanFrom(sb, 5.0, 1);
    assert EstimateAt(sb, 5.0, 1) == RoundFloat(Num(0.3));
    RoundHalfEvenOfInteger(3000);
    assert Target(sb, 0.95) == 9.5;
    assert ScanFrom(sb, 9.5, 0) == ScanFrom(sb, 9.5, 2);
  }

  /** A larger target never selects an earlier bucket. */
  lemma FirstReachingMonotone(sb: seq<Bucket>, t: real, u: real, i: nat, j: nat)
    requires t <= u && FirstReaching(sb, t, i) && FirstReaching(sb, u, j)
    ensures i <= j
  {
  }

  /** Within one bucket, a larger target gives a larger estimate. */
  lemma EstimateMonotoneInBucket(sb: seq<Bucket>, t: real, u: real, i: nat)
    requires WellFormed(sb) && t <= u && FirstReaching(sb, t, i) && FirstReaching(sb, u, i)
    ensures AtMost(EstimateAt(sb, t, i), EstimateAt(sb, u, i))
  {
    if i > 0 {
      FirstReachingIsNonEmpty(sb, t, i);
      FirstReachingIsNonEmpty(sb, u, i);
      var prev, bound := sb[i - 1].0, sb[i].0;
      assert Less(prev, bound);
      var c, d := sb[i - 1].1, sb[i].1 - sb[i - 1].1;
      var f, g := (t - c) / d, (u - c) / d;
      DivMonotone(t - c, u - c, d);
      var rf := Add(prev, Scale(f, Sub(bound, prev)));
      var rg := Add(prev, Scale(g, Sub(bound, prev)));
      if bound.Num? {
        ScaleMonotone(f, g, bound.x - prev.x);
        assert AtMost(rf, rg);
      } else {
        InterpolationBetween(prev.x, bound, f);
        InterpolationBetween(prev.x, bound, g);
      }
      RoundFloatMonotone(rf, rg);
    }
  }

  /** The bucket a defined estimate comes from. */
  lemma PercentileBucket(sb: seq<Bucket>, p: real) returns (i: nat)
    requires Percentile(sb, p).Some?
    ensures sb != [] && sb[|sb| - 1].0 == PosInf && Total(sb) != 0.0
    ensures FirstReaching(sb, Target(sb, p), i)
    ensures Percentile(sb, p) == Some(EstimateAt(sb, Target(sb, p), i))
  {
    PercentileSelects(sb, p);
    i :| FirstReaching(sb, Target(sb, p), i) && Percentile(sb, p) == Some(EstimateAt(sb, Target(sb, p), i));
  }

  lemma TargetMonotone(sb: seq<Bucket>, p: real, q: real)
    requires sb != [] && Total(sb) > 0.0 && p <= q
    ensures Target(sb, p) <= Target(sb, q)
  {
    ScaleMonotone(p, q, Total(sb));
  }

  /** Estimates taken from two different buckets are ordered like the buckets. */
  lemma EstimateMonotoneAcrossBuckets(sb: seq<Bucket>, t: real, u: real, i: nat, j: nat)
    requires WellFormed(sb) && FirstReaching(sb, t, i) && FirstReaching(sb, u, j) && i < j
    ensures AtMost(EstimateAt(sb, t, i), EstimateAt(sb, u, j))
  {
    EstimateBracketed(sb, t, i);
    EstimateBracketed(sb, u, j);
    var a, b, c := EstimateAt(sb, t, i), RoundFloat(sb[i].0), RoundFloat(sb[j - 1].0);
    if i < j - 1 {
      assert Less(sb[i].0, sb[j - 1].0);
      RoundFloatMonotone(sb[i].0, sb[j - 1].0);
    }
    AtMostTransitive(a, b, c);
    AtMostTransitive(a, c, EstimateAt(sb, u, j));
  }

  /**
   * In a well-formed histogram the estimate never decreases as the requested
   * percentile grows; in particular p50 <= p95 <= p99.
   */
  lemma PercentileMonotone(sb: seq<Bucket>, p: real, q: real)
    requires WellFormed(sb) && p <= q
    requires Percentile(sb, p).Some? && Percentile(sb, q).Some?
    ensures AtMost(Percentile(sb, p).value, Percentile(sb, q).value)
  {
    var i := PercentileBucket(sb, p);
    var j := PercentileBucket(sb, q);
    assert sb[|sb| - 1].1 >= 0.0;
    TargetMonotone(sb, p, q);
    var t, u := Target(sb, p), Target(sb, q);
    FirstReachingMonotone(sb, t, u, i, j);
    if i == j {
      EstimateMonotoneInBucket(sb, t, u, i);
    } else {
      EstimateMonotoneAcrossBuckets(sb, t, u, i, j);
    }
  }
}
