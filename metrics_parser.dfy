/**
 * `PrometheusMetricsParser` of `fastapi-app/metrics_parser.py`: the scan of one
 * exposition-format snapshot into per-endpoint histogram data and request
 * counters, and the latency summary (average and p50/p95/p99) computed from it.
 */
module MetricsParser {
  import opened Wrappers
  import opened Text
  import opened PyFloat
  import opened Exposition
  import Histogram

  // ---------------------------------------------------------------------
  // Accumulators of the scan

  /**
   * The four dictionaries the scan fills: bucket lists per endpoint (appended
   * to), the last `_sum` and `_count` per endpoint (overwritten), and request
   * totals per endpoint and method (added to).
   */
  datatype Tally = Tally(
    buckets: map<string, seq<Histogram.Bucket>>,
    sums: map<string, real>,
    counts: map<string, real>,
    requests: map<string, map<string, int>>)

  const EmptyTally: Tally := Tally(map[], map[], map[], map[])

  /** Latency summary of one endpoint; None stands for the source's `None`. */
  datatype Latency = Latency(avg: Option<real>, p50: Option<Float>, p95: Option<Float>, p99: Option<Float>)

  /** The response: `latency`, `requests` and `errors`. */
  datatype ParsedMetrics = ParsedMetrics(
    latency: map<string, Latency>,
    requests: map<string, map<string, int>>,
    errors: map<string, map<string, int>>)

  const EmptyMetrics: ParsedMetrics := ParsedMetrics(map[], map[], map[])

  /** What one sample does to the accumulators. */
  function Record(t: Tally, s: Sample): Tally {
    match s
    case Bucket(ep, b, c) =>
      var prior := if ep in t.buckets then t.buckets[ep] else [];
      t.(buckets := t.buckets[ep := prior + [(b, c)]])
    case Sum(ep, x) => t.(sums := t.sums[ep := x])
    case Count(ep, x) => t.(counts := t.counts[ep := x])
    case Requests(ep, m, n) =>
      var row := if ep in t.requests then t.requests[ep] else map[];
      var prior := if m in row then row[m] else 0;
      t.(requests := t.requests[ep := row[m := prior + n]])
    case Ignored => t
  }

  /** The accumulators after recording `ss` in order. */
  function Tallied(ss: seq<Sample>): Tally
    decreases |ss|
  {
    if ss == [] then EmptyTally else Record(Tallied(ss[..|ss| - 1]), ss[|ss| - 1])
  }

  /** What each line contributes, line by line. */
  function ClassifyAll(lines: seq<string>): (rs: seq<Result<Sample, ParseError>>)
    ensures |rs| == |lines|
    ensures forall i :: 0 <= i < |lines| ==> rs[i] == ClassifyLine(lines[i])
  {
    seq(|lines|, i requires 0 <= i < |lines| => ClassifyLine(lines[i]))
  }

  lemma TalliedAppend(ss: seq<Sample>, s: Sample)
    ensures Tallied(ss + [s]) == Record(Tallied(ss), s)
  {
    assert (ss + [s])[..|ss|] == ss;
  }

  /** The samples in order, or the first exception raised. */
  function Collect(rs: seq<Result<Sample, ParseError>>): Result<seq<Sample>, ParseError>
    decreases |rs|
  {
    if rs == [] then Success([])
    else
      var init :- Collect(rs[..|rs| - 1]);
      var s :- rs[|rs| - 1];
      Success(init + [s])
  }

  /** The samples of the lines in order, or the exception of the first line that raises. */
  function Classified(lines: seq<string>): Result<seq<Sample>, ParseError> {
    Collect(ClassifyAll(lines))
  }

  // ---------------------------------------------------------------------
  // Reference definitions of the accumulators

  /** The `(boundary, count)` pairs of the bucket samples for `ep`, in input order. */
  function BucketsOf(ss: seq<Sample>, ep: string): seq<Histogram.Bucket>
    decreases |ss|
  {
    if ss == [] then []
    else
      var here := if ss[0].Bucket? && ss[0].endpoint == ep then [(ss[0].bound, ss[0].count)] else [];
      here + BucketsOf(ss[1..], ep)
  }

  /** The sum of the request samples for `ep` and method `m`. */
  function RequestTotal(ss: seq<Sample>, ep: string, m: string): int
    decreases |ss|
  {
    if ss == [] then 0
    else
      var here := if ss[0].Requests? && ss[0].endpoint == ep && ss[0].httpMethod == m then ss[0].requests else 0;
      here + RequestTotal(ss[1..], ep, m)
  }

  predicate IsSumAt(ss: seq<Sample>, i: int, ep: string) {
    0 <= i < |ss| && ss[i].Sum? && ss[i].endpoint == ep
  }

  predicate IsCountAt(ss: seq<Sample>, i: int, ep: string) {
    0 <= i < |ss| && ss[i].Count? && ss[i].endpoint == ep
  }

  predicate IsRequestAt(ss: seq<Sample>, i: int, ep: string, m: string) {
    0 <= i < |ss| && ss[i].Requests? && ss[i].endpoint == ep && ss[i].httpMethod == m
  }

  lemma {:induction false} BucketsOfAppend(ss: seq<Sample>, s: Sample, ep: string)
    ensures BucketsOf(ss + [s], ep) ==
      BucketsOf(ss, ep) + (if s.Bucket? && s.endpoint == ep then [(s.bound, s.count)] else [])
    decreases |ss|
  {
    if ss == [] {
      assert BucketsOf([s], ep) == (if s.Bucket? && s.endpoint == ep then [(s.bound, s.count)] else []) + BucketsOf([], ep);
    } else {
      assert (ss + [s])[1..] == ss[1..] + [s];
      BucketsOfAppend(ss[1..], s, ep);
    }
  }

  lemma {:induction false} RequestTotalAppend(ss: seq<Sample>, s: Sample, ep: string, m: string)
    ensures RequestTotal(ss + [s], ep, m) ==
      RequestTotal(ss, ep, m) + (if s.Requests? && s.endpoint == ep && s.httpMethod == m then s.requests else 0)
    decreases |ss|
  {
    if ss == [] {
      assert RequestTotal([s], ep, m) ==
        (if s.Requests? && s.endpoint == ep && s.httpMethod == m then s.requests else 0) + RequestTotal([], ep, m);
    } else {
      assert (ss + [s])[1..] == ss[1..] + [s];
      RequestTotalAppend(ss[1..], s, ep, m);
    }
  }

  /**
   * Bucket samples are appended per endpoint in input order: an endpoint has a
   * list exactly when it has a bucket sample, and the list is exactly its
   * bucket samples' pairs.
   */
  lemma {:induction false} TalliedBuckets(ss: seq<Sample>, ep: string)
    ensures ep in Tallied(ss).buckets <==> BucketsOf(ss, ep) != []
    ensures ep in Tallied(ss).buckets ==> Tallied(ss).buckets[ep] == BucketsOf(ss, ep)
    decreases |ss|
  {
    if ss != [] {
      var init, last := ss[..|ss| - 1], ss[|ss| - 1];
      assert ss == init + [last];
      TalliedBuckets(init, ep);
      BucketsOfAppend(init, last, ep);
    }
  }

  /** For `_sum` the last sample of an endpoint wins: the map entry is overwritten. */
  lemma {:induction false} TalliedSums(ss: seq<Sample>, ep: string)
    ensures ep in Tallied(ss).sums <==> exists i :: IsSumAt(ss, i, ep)
    ensures forall i :: IsSumAt(ss, i, ep) && (forall j :: i < j ==> !IsSumAt(ss, j, ep)) ==>
      Tallied(ss).sums[ep] == ss[i].total
    decreases |ss|
  {
    if ss != [] {
      var init, last := ss[..|ss| - 1], ss[|ss| - 1];
      TalliedSums(init, ep);
      forall i | IsSumAt(init, i, ep) ensures IsSumAt(ss, i, ep) {
      }
      forall i | IsSumAt(ss, i, ep) && i < |init| ensures IsSumAt(init, i, ep) {
      }
      if last.Sum? && last.endpoint == ep {
        assert IsSumAt(ss, |ss| - 1, ep);
      }
    }
  }

  /** For `_count` the last sample of an endpoint wins: the map entry is overwritten. */
  lemma {:induction false} TalliedCounts(ss: seq<Sample>, ep: string)
    ensures ep in Tallied(ss).counts <==> exists i :: IsCountAt(ss, i, ep)
    ensures forall i :: IsCountAt(ss, i, ep) && (forall j :: i < j ==> !IsCountAt(ss, j, ep)) ==>
      Tallied(ss).counts[ep] == ss[i].observations
    decreases |ss|
  {
    if ss != [] {
      var init, last := ss[..|ss| - 1], ss[|ss| - 1];
      TalliedCounts(init, ep);
      forall i | IsCountAt(init, i, ep) ensures IsCountAt(ss, i, ep) {
      }
      forall i | IsCountAt(ss, i, ep) && i < |init| ensures IsCountAt(init, i, ep) {
      }
      if last.Count? && last.endpoint == ep {
        assert IsCountAt(ss, |ss| - 1, ep);
      }
    }
  }

  /**
   * Request counters are added up: the entry for an endpoint and method exists
   * exactly when some sample names that pair, and holds the sum over all of
   * them (samples differing only in other labels add together).
   */
  lemma {:induction false} TalliedRequests(ss: seq<Sample>, ep: string, m: string)
    ensures ep in Tallied(ss).requests <==> exists i, m' :: IsRequestAt(ss, i, ep, m')
    ensures (ep in Tallied(ss).requests && m in Tallied(ss).requests[ep]) <==> exists i :: IsRequestAt(ss, i, ep, m)
    ensures ep in Tallied(ss).requests && m in Tallied(ss).requests[ep] ==>
      Tallied(ss).requests[ep][m] == RequestTotal(ss, ep, m)
    decreases |ss|
  {
    if ss != [] {
      var init, last := ss[..|ss| - 1], ss[|ss| - 1];
      assert ss == init + [last];
      TalliedRequests(init, ep, m);
      RequestTotalAppend(init, last, ep, m);
      forall i, m' | IsRequestAt(init, i, ep, m') ensures IsRequestAt(ss, i, ep, m') {
      }
      forall i, m' | IsRequestAt(ss, i, ep, m') && i < |init| ensures IsRequestAt(init, i, ep, m') {
      }
      if last.Requests? && last.endpoint == ep {
        assert IsRequestAt(ss, |ss| - 1, ep, last.httpMethod);
        if last.httpMethod == m {
          assert IsRequestAt(ss, |ss| - 1, ep, m);
        }
      }
      if ep !in Tallied(init).requests && ep in Tallied(ss).requests {
        var i, m' :| IsRequestAt(ss, i, ep, m');
        assert i == |ss| - 1;
      }
      if ep !in Tallied(init).requests || m !in Tallied(init).requests[ep] {
        RequestTotalAbsent(init, ep, m);
      }
    }
  }

  lemma {:induction false} RequestTotalAbsent(ss: seq<Sample>, ep: string, m: string)
    requires forall i :: !IsRequestAt(ss, i, ep, m)
    ensures RequestTotal(ss, ep, m) == 0
    decreases |ss|
  {
    if ss != [] {
      forall i | true ensures !IsRequestAt(ss[1..], i, ep, m) {
        assert !IsRequestAt(ss, i + 1, ep, m);
      }
      assert !IsRequestAt(ss, 0, ep, m);
      RequestTotalAbsent(ss[1..], ep, m);
    }
  }

  // ---------------------------------------------------------------------
  // Line classification over the whole text

  /**
   * The scan succeeds exactly when no line raises; then there is one sample
   * per line, each the line's own classification.
   */
  lemma {:induction false} CollectSuccess(rs: seq<Result<Sample, ParseError>>)
    ensures Collect(rs).Success? <==> forall i :: 0 <= i < |rs| ==> rs[i].Success?
    ensures Collect(rs).Success? ==>
      |Collect(rs).value| == |rs| && forall i :: 0 <= i < |rs| ==> rs[i] == Success(Collect(rs).value[i])
    decreases |rs|
  {
    if rs != [] {
      var init := rs[..|rs| - 1];
      CollectSuccess(init);
      assert forall i :: 0 <= i < |init| ==> rs[i] == init[i];
      if Collect(init).Failure? {
        var i :| 0 <= i < |init| && init[i].Failure?;
        assert rs[i].Failure?;
      }
    }
  }

  /** Entry `i` is the first failure, and it is `e`. */
  predicate FirstFailure(rs: seq<Result<Sample, ParseError>>, i: int, e: ParseError) {
    0 <= i < |rs| && rs[i] == Failure(e) && forall j :: 0 <= j < i ==> rs[j].Success?
  }

  /** When the scan raises, it raises the error of the first line that does. */
  lemma {:induction false} CollectFailure(rs: seq<Result<Sample, ParseError>>)
    requires Collect(rs).Failure?
    ensures exists i :: FirstFailure(rs, i, Collect(rs).error)
    decreases |rs|
  {
    var init := rs[..|rs| - 1];
    assert forall i :: 0 <= i < |init| ==> rs[i] == init[i];
    if Collect(init).Failure? {
      CollectFailure(init);
      var i :| FirstFailure(init, i, Collect(init).error);
      assert FirstFailure(rs, i, Collect(rs).error);
    } else {
      CollectSuccess(init);
      assert FirstFailure(rs, |rs| - 1, Collect(rs).error);
    }
  }

  lemma CollectStep(rs: seq<Result<Sample, ParseError>>, k: nat, ss: seq<Sample>, s: Sample)
    requires k < |rs| && Collect(rs[..k]) == Success(ss) && rs[k] == Success(s)
    ensures Collect(rs[..k + 1]) == Success(ss + [s])
  {
    assert rs[..k + 1][..k] == rs[..k];
  }

  lemma CollectStepFailure(rs: seq<Result<Sample, ParseError>>, k: nat, ss: seq<Sample>)
    requires k < |rs| && Collect(rs[..k]) == Success(ss) && rs[k].Failure?
    ensures Collect(rs[..k + 1]) == Failure(rs[k].error)
  {
    assert rs[..k + 1][..k] == rs[..k];
  }

  /** Once a prefix raises, the whole scan raises the same error. */
  lemma {:induction false} CollectFailurePersists(rs: seq<Result<Sample, ParseError>>, k: nat)
    requires k <= |rs| && Collect(rs[..k]).Failure?
    ensures Collect(rs) == Failure(Collect(rs[..k]).error)
    decreases |rs| - k
  {
    if k < |rs| {
      assert rs[..k + 1][..k] == rs[..k];
      CollectFailurePersists(rs, k + 1);
    } else {
      assert rs[..k] == rs;
    }
  }

  // ---------------------------------------------------------------------
  // `_compute_latency_metrics`

  /** Every endpoint that has a bucket list, a sum or a count. */
  function Endpoints(buckets: map<string, seq<Histogram.Bucket>>, sums: map<string, real>, counts: map<string, real>): set<string> {
    buckets.Keys + sums.Keys + counts.Keys
  }

  /** `round(sum / count, 4)`: the mean latency, within 0.00005 of the exact quotient. */
  function Average(sum: real, count: real): (a: real)
    requires count > 0.0
    ensures sum / count - 0.00005 <= a <= sum / count + 0.00005
  {
    Round4Close(sum / count);
    Round4(sum / count)
  }

  /**
   * The summary of one endpoint: the average when both a sum and a positive
   * count exist, and the three percentiles of its buckets sorted by boundary
   * when it has buckets.
   */
  function EndpointLatency(
    buckets: map<string, seq<Histogram.Bucket>>, sums: map<string, real>, counts: map<string, real>, ep: string): (r: Latency)
    ensures r.avg.Some? <==> ep in sums && ep in counts && counts[ep] > 0.0
    ensures r.avg.Some? ==> sums[ep] / counts[ep] - 0.00005 <= r.avg.value <= sums[ep] / counts[ep] + 0.00005
    ensures ep !in buckets ==> r.p50.None? && r.p95.None? && r.p99.None?
  {
    var avg := if ep in sums && ep in counts && counts[ep] > 0.0 then Some(Average(sums[ep], counts[ep])) else None;
    if ep in buckets then
      var sorted := Histogram.SortByBound(buckets[ep]);
      Latency(avg, Histogram.Percentile(sorted, 0.50), Histogram.Percentile(sorted, 0.95), Histogram.Percentile(sorted, 0.99))
    else
      Latency(avg, None, None, None)
  }

  /** The `latency` part of the response: one summary per endpoint. */
  function LatencyOf(buckets: map<string, seq<Histogram.Bucket>>, sums: map<string, real>, counts: map<string, real>): (r: map<string, Latency>)
    ensures r.Keys == Endpoints(buckets, sums, counts)
  {
    map ep | ep in Endpoints(buckets, sums, counts) :: EndpointLatency(buckets, sums, counts, ep)
  }

  /**
   * For an endpoint whose buckets are well formed once sorted (distinct
   * boundaries, cumulative non-negative counts), the three percentiles are
   * either all defined or all None, and p50 <= p95 <= p99. A positive `+Inf`
   * count is what makes them defined.
   */
  lemma EndpointPercentilesOrdered(
    buckets: map<string, seq<Histogram.Bucket>>, sums: map<string, real>, counts: map<string, real>, ep: string)
    requires ep in buckets && buckets[ep] != [] && Histogram.WellFormed(Histogram.SortByBound(buckets[ep]))
    ensures var r := EndpointLatency(buckets, sums, counts, ep);
      var sorted := Histogram.SortByBound(buckets[ep]);
      && (r.p50.Some? <==> sorted[|sorted| - 1].0 == PosInf && sorted[|sorted| - 1].1 > 0.0)
      && r.p50.Some? == r.p95.Some? == r.p99.Some?
      && (r.p50.Some? ==> AtMost(r.p50.value, r.p95.value) && AtMost(r.p95.value, r.p99.value))
  {
    var sorted := Histogram.SortByBound(buckets[ep]);
    var last := sorted[|sorted| - 1];
    if last.0 == PosInf && last.1 > 0.0 {
      Histogram.PercentileDefined(sorted, 0.50);
      Histogram.PercentileDefined(sorted, 0.95);
      Histogram.PercentileDefined(sorted, 0.99);
      Histogram.PercentileMonotone(sorted, 0.50, 0.95);
      Histogram.PercentileMonotone(sorted, 0.95, 0.99);
    } else {
      assert last.1 >= 0.0;
    }
  }

  lemma {:induction false} BucketsOfNonEmpty(ss: seq<Sample>, ep: string)
    ensures BucketsOf(ss, ep) != [] <==> exists i :: 0 <= i < |ss| && ss[i].Bucket? && ss[i].endpoint == ep
    decreases |ss|
  {
    if ss != [] {
      BucketsOfNonEmpty(ss[1..], ep);
      if BucketsOf(ss[1..], ep) != [] {
        var i :| 0 <= i < |ss[1..]| && ss[1..][i].Bucket? && ss[1..][i].endpoint == ep;
        assert ss[i + 1] == ss[1..][i];
      }
      forall i | 1 <= i < |ss| && ss[i].Bucket? && ss[i].endpoint == ep ensures BucketsOf(ss[1..], ep) != [] {
        assert ss[1..][i - 1] == ss[i];
      }
    }
  }

  /**
   * The latency summary has an entry for exactly the endpoints named by some
   * bucket, sum or count sample.
   */
  lemma LatencyEndpoints(ss: seq<Sample>, ep: string)
    ensures var t := Tallied(ss);
      ep in LatencyOf(t.buckets, t.sums, t.counts) <==>
        exists i :: 0 <= i < |ss| && (ss[i].Bucket? || ss[i].Sum? || ss[i].Count?) && ss[i].endpoint == ep
  {
    TalliedBuckets(ss, ep);
    BucketsOfNonEmpty(ss, ep);
    TalliedSums(ss, ep);
    TalliedCounts(ss, ep);
    var t := Tallied(ss);
    if ep in LatencyOf(t.buckets, t.sums, t.counts) {
      if ep in t.sums {
        var i :| IsSumAt(ss, i, ep);
      } else if ep in t.counts {
        var i :| IsCountAt(ss, i, ep);
      }
    }
    if i :| 0 <= i < |ss| && (ss[i].Bucket? || ss[i].Sum? || ss[i].Count?) && ss[i].endpoint == ep {
      if ss[i].Sum? {
        assert IsSumAt(ss, i, ep);
      } else if ss[i].Count? {
        assert IsCountAt(ss, i, ep);
      }
    }
  }

  /** Bucket samples whose boundaries are not NaN and whose counts are not negative. */
  predicate CleanBuckets(ss: seq<Sample>) {
    forall i :: 0 <= i < |ss| && ss[i].Bucket? ==> !ss[i].bound.NaN? && ss[i].count >= 0.0
  }

  lemma {:induction false} BucketsOfClean(ss: seq<Sample>, ep: string)
    requires CleanBuckets(ss)
    ensures Histogram.NoNaN(BucketsOf(ss, ep))
    ensures forall k :: 0 <= k < |BucketsOf(ss, ep)| ==> BucketsOf(ss, ep)[k].1 >= 0.0
    decreases |ss|
  {
    if ss != [] {
      assert forall i :: 0 <= i < |ss| - 1 ==> ss[1..][i] == ss[i + 1];
      BucketsOfClean(ss[1..], ep);
    }
  }

  /**
   * The bucket lists of a text that parses have no NaN boundary and no negative
   * count, so sorting them by boundary is a true sort (ordered, a permutation,
   * stable).
   */
  lemma ParsedBucketsClean(lines: seq<string>, ep: string)
    requires Classified(lines).Success?
    ensures var t := Tallied(Classified(lines).value);
      ep in t.buckets ==>
        && Histogram.NoNaN(t.buckets[ep])
        && (forall k :: 0 <= k < |t.buckets[ep]| ==> t.buckets[ep][k].1 >= 0.0)
        && Histogram.SortedByBound(Histogram.SortByBound(t.buckets[ep]))
        && multiset(Histogram.SortByBound(t.buckets[ep])) == multiset(t.buckets[ep])
  {
    var rs := ClassifyAll(lines);
    var ss := Classified(lines).value;
    CollectSuccess(rs);
    forall i | 0 <= i < |ss| && ss[i].Bucket? ensures !ss[i].bound.NaN? && ss[i].count >= 0.0 {
      assert ClassifyLine(lines[i]) == Success(ss[i]);
      ClassifyBucketSound(lines[i], ss[i].endpoint, ss[i].bound, ss[i].count);
    }
    TalliedBuckets(ss, ep);
    BucketsOfClean(ss, ep);
    if ep in Tallied(ss).buckets {
      Histogram.SortByBoundCorrect(Tallied(ss).buckets[ep]);
    }
  }

  // ---------------------------------------------------------------------
  // `parse_metrics` and `get_metrics`

  /**
   * The response for one snapshot: the text is split on newlines, every line
   * classified and recorded, and the latency summary computed; `errors` is
   * always empty. The first line that raises makes the whole parse raise.
   */
  function Parse(text: string): (r: Result<ParsedMetrics, ParseError>)
    ensures r.Success? ==> r.value.errors == map[]
  {
    var ss :- Classified(Split(text, '\n'));
    var t := Tallied(ss);
    Success(ParsedMetrics(LatencyOf(t.buckets, t.sums, t.counts), t.requests, map[]))
  }

  /** The parse raises exactly when classifying the lines does, with the same error. */
  lemma ParseRaises(text: string)
    ensures Parse(text).Success? <==> Classified(Split(text, '\n')).Success?
    ensures Parse(text).Failure? ==> Parse(text).error == Classified(Split(text, '\n')).error
    ensures Parse(text).Success? ==>
      var t := Tallied(Classified(Split(text, '\n')).value);
      && Parse(text).value.requests == t.requests
      && Parse(text).value.latency == LatencyOf(t.buckets, t.sums, t.counts)
      && Parse(text).value.errors == map[]
  {
  }

  /**
   * The response of a successful parse: `errors` is empty; an endpoint has a
   * latency entry exactly when some bucket, `_sum` or `_count` line names it;
   * and an endpoint without bucket lines has null percentiles.
   */
  lemma ParseResponse(text: string, ep: string)
    ensures Parse(text).Success? ==>
      && Classified(Split(text, '\n')).Success?
      && var ss := Classified(Split(text, '\n')).value;
      var r := Parse(text).value;
      && r.errors == map[]
      && (ep in r.latency <==>
        exists i :: 0 <= i < |ss| && (ss[i].Bucket? || ss[i].Sum? || ss[i].Count?) && ss[i].endpoint == ep)
      && (ep in r.latency && (forall i :: 0 <= i < |ss| && ss[i].Bucket? ==> ss[i].endpoint != ep) ==>
        r.latency[ep].p50.None? && r.latency[ep].p95.None? && r.latency[ep].p99.None?)
  {
    ParseRaises(text);
    if Parse(text).Success? {
      var ss := Classified(Split(text, '\n')).value;
      var t := Tallied(ss);
      LatencyEndpoints(ss, ep);
      TalliedBuckets(ss, ep);
      BucketsOfNonEmpty(ss, ep);
      if ep in t.buckets || ep in t.sums || ep in t.counts {
        var e := EndpointLatency(t.buckets, t.sums, t.counts, ep);
        assert LatencyOf(t.buckets, t.sums, t.counts)[ep] == e;
      }
    }
  }

  /**
   * The parse succeeds exactly when no line raises; when one does, the error is
   * that of the first such line. On success `requests` holds, for every
   * endpoint and method that occurs, the sum over its request lines.
   */
  lemma ParseOutcome(text: string)
    ensures var rs := ClassifyAll(Split(text, '\n'));
      && (Parse(text).Success? <==> forall i :: 0 <= i < |rs| ==> rs[i].Success?)
      && (Parse(text).Failure? ==> exists i :: FirstFailure(rs, i, Parse(text).error))
    ensures Parse(text).Success? ==>
      forall ep, m :: ep in Parse(text).value.requests && m in Parse(text).value.requests[ep] ==>
        Parse(text).value.requests[ep][m] == RequestTotal(Classified(Split(text, '\n')).value, ep, m)
  {
    var rs := ClassifyAll(Split(text, '\n'));
    ParseRaises(text);
    CollectSuccess(rs);
    if Parse(text).Failure? {
      CollectFailure(rs);
    } else {
      var ss := Classified(Split(text, '\n')).value;
      forall ep, m | ep in Tallied(ss).requests && m in Tallied(ss).requests[ep]
        ensures Tallied(ss).requests[ep][m] == RequestTotal(ss, ep, m)
      {
        TalliedRequests(ss, ep, m);
      }
    }
  }

  /** An empty text parses to the all-empty response. */
  lemma ParseEmpty()
    ensures Parse("") == Success(EmptyMetrics)
  {
    assert Split("", '\n') == [""];
    var rs: seq<Result<Sample, ParseError>> := [Success(Ignored)];
    assert ClassifyAll([""]) == rs;
    assert rs[..0] == [];
    assert Collect(rs[..0]) == Success([]);
    assert Collect(rs) == Success([] + [Ignored]);
    assert Tallied([Ignored]) == EmptyTally;
  }

  /** `get_metrics` given the fetched text: an absent or empty text gives the all-empty response. */
  function GetMetrics(fetched: Option<string>): (r: Result<ParsedMetrics, ParseError>)
    ensures fetched.None? ==> r == Success(EmptyMetrics)
    ensures fetched.Some? ==> r == Parse(fetched.value)
  {
    ParseEmpty();
    if fetched.None? || fetched.value == "" then Success(EmptyMetrics) else Parse(fetched.value)
  }

  /**
   * `_compute_latency_metrics`: one summary per endpoint that has buckets, a
   * sum or a count.
   */
  method ComputeLatencyMetrics(
    buckets: map<string, seq<Histogram.Bucket>>, sums: map<string, real>, counts: map<string, real>)
    returns (result: map<string, Latency>)
    ensures result == LatencyOf(buckets, sums, counts)
  {
    result := map[];
    var pending := Endpoints(buckets, sums, counts);
    while pending != {}
      invariant pending <= Endpoints(buckets, sums, counts)
      invariant result.Keys == Endpoints(buckets, sums, counts) - pending
      invariant forall ep :: ep in result ==> result[ep] == EndpointLatency(buckets, sums, counts, ep)
      decreases pending
    {
      var ep :| ep in pending;
      var avg := None;
      if ep in sums && ep in counts && counts[ep] > 0.0 {
        avg := Some(Average(sums[ep], counts[ep]));
      }
      var p50, p95, p99 := None, None, None;
      if ep in buckets {
        var sorted := Histogram.SortByBound(buckets[ep]);
        p50 := Histogram.Percentile(sorted, 0.50);
        p95 := Histogram.Percentile(sorted, 0.95);
        p99 := Histogram.Percentile(sorted, 0.99);
      }
      result := result[ep := Latency(avg, p50, p95, p99)];
      pending := pending - {ep};
    }
  }

  /**
   * The body of the scan for one recognised line: append to the endpoint's
   * bucket list, overwrite its sum or count, or add to its request counter.
   */
  method RecordSample(
    sample: Sample,
    buckets: map<string, seq<Histogram.Bucket>>, sums: map<string, real>, counts: map<string, real>,
    requests: map<string, map<string, int>>)
    returns (
    buckets': map<string, seq<Histogram.Bucket>>, sums': map<string, real>, counts': map<string, real>,
    requests': map<string, map<string, int>>)
    ensures Tally(buckets', sums', counts', requests') == Record(Tally(buckets, sums, counts, requests), sample)
  {
    buckets', sums', counts', requests' := buckets, sums, counts, requests;
    match sample {
      case Bucket(ep, b, c) =>
        var prior := if ep in buckets then buckets[ep] else [];
        buckets' := buckets[ep := prior + [(b, c)]];
      case Sum(ep, x) =>
        sums' := sums[ep := x];
      case Count(ep, x) =>
        counts' := counts[ep := x];
      case Requests(ep, m, n) =>
        var row := if ep in requests then requests[ep] else map[];
        var prior := if m in row then row[m] else 0;
        requests' := requests[ep := row[m := prior + n]];
      case Ignored =>
    }
  }

  /** `parse_metrics`: one pass over the lines, updating the four dictionaries in place. */
  method ParseMetrics(text: string) returns (r: Result<ParsedMetrics, ParseError>)
    ensures r == Parse(text)
  {
    var buckets: map<string, seq<Histogram.Bucket>> := map[];
    var sums: map<string, real> := map[];
    var counts: map<string, real> := map[];
    var requests: map<string, map<string, int>> := map[];
    var lines := Split(text, '\n');
    ghost var rs := ClassifyAll(lines);
    ghost var ss: seq<Sample> := [];
    var i := 0;
    while i < |lines|
      invariant 0 <= i <= |lines|
      invariant Collect(rs[..i]) == Success(ss)
      invariant Tally(buckets, sums, counts, requests) == Tallied(ss)
    {
      var sample := ClassifyLine(lines[i]);
      if sample.Failure? {
        CollectStepFailure(rs, i, ss);
        CollectFailurePersists(rs, i + 1);
        r := Failure(sample.error);
        return;
      }
      buckets, sums, counts, requests := RecordSample(sample.value, buckets, sums, counts, requests);
      TalliedAppend(ss, sample.value);
      CollectStep(rs, i, ss, sample.value);
      ss := ss + [sample.value];
      i := i + 1;
    }
    assert rs[..i] == rs;
    var latency := ComputeLatencyMetrics(buckets, sums, counts);
    r := Success(ParsedMetrics(latency, requests, map[]));
  }

  /** An absent or empty fetch and a parse of the empty text give the same response. */
  lemma GetMetricsOfEmptyText()
    ensures GetMetrics(None) == GetMetrics(Some("")) == Parse("")
  {
    ParseEmpty();
  }

  // ---------------------------------------------------------------------
  // The metrics URL chosen in `__init__`

  const DefaultMetricsUrl: string := "http://prometheus.railway.internal:9090"

  /** Appends `/metrics` unless the URL already ends with it. */
  function WithMetricsPath(url: string): (r: string)
    ensures EndsWith(r, "/metrics") && StartsWith(r, url)
    ensures |r| == |url| <==> EndsWith(url, "/metrics")
    ensures |r| != |url| ==> |r| == |url| + |"/metrics"|
  {
    if EndsWith(url, "/metrics") then url else url + "/metrics"
  }

  /**
   * The URL the parser fetches from: an explicit URL is used as given;
   * otherwise the first of the two environment settings that is present, or
   * the internal default, with `/metrics` appended unless already there.
   */
  function MetricsUrl(given: Option<string>, envMetricsUrl: Option<string>, envInternalUrl: Option<string>): (url: string)
    ensures given.Some? ==> url == given.value
    ensures given.None? ==> EndsWith(url, "/metrics")
  {
    match given
    case Some(u) => u
    case None => WithMetricsPath(envMetricsUrl.GetOr(envInternalUrl.GetOr(DefaultMetricsUrl)))
  }

  /** Normalising a URL twice changes nothing more. */
  lemma WithMetricsPathIdempotent(url: string)
    ensures WithMetricsPath(WithMetricsPath(url)) == WithMetricsPath(url)
  {
  }

  /** With nothing configured, the parser reads the internal default's `/metrics` page. */
  lemma DefaultUrl()
    ensures MetricsUrl(None, None, None) == "http://prometheus.railway.internal:9090/metrics"
  {
  }
}
