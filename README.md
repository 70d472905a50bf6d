# Latency metrics parsing and Prometheus label export, modelled in Dafny

This project models two pieces of a Railway monitoring stack. Both are stated as Dafny functions, methods and lemmas, and properties are proved about them.

- **`PrometheusMetricsParser`** (`fastapi-app/metrics_parser.py`). It reads one snapshot of a service's Prometheus text exposition. It keeps four kinds of sample lines:
  - `fastapi_request_duration_seconds_bucket`, `_sum` and `_count` histogram lines, grouped per `endpoint`;
  - `fastapi_requests_total` counter lines, grouped per `endpoint` and `method`.

  Per endpoint it then computes the average latency and the p50, p95 and p99 estimates. The estimates use linear interpolation inside the cumulative `le` buckets. The model covers:
  - the regular expressions that pick the lines apart, including the lazy `.*?` search;
  - Python's `float()` grammar, which decides when a line raises;
  - the stable `sorted` by boundary;
  - `round(x, 4)` with ties to even;
  - IEEE infinities and NaN;
  - the URL normalisation in the constructor.
- **`PrometheusClient`, `MetricsExporter` and `MetricsSummary`** (`PROMETHEUS_METRICS_MODULE.py`). These are the pure helpers that pick values and labels out of Prometheus query responses that have already been fetched. They render `name{k="v",...} value` lines, concatenate metric groups, and select the single value shown in a summary.

Modules:

| file | module | contents |
|---|---|---|
| `wrappers.dfy` | `Wrappers` | `Option` and `Result` |
| `text.dfy` | `Text` | prefix, suffix and substring tests, `str.split`, `str.join`, concatenation |
| `pyfloat.dfy` | `PyFloat` | Python floats (finite, ±inf, NaN), their comparison and arithmetic, `round(x, 4)`, the `float(str)` grammar |
| `exposition.dfy` | `Exposition` | the four line patterns, and classification of a line into a `Sample` or a `ParseError` |
| `histogram.dfy` | `Histogram` | the bucket sort and `_calculate_percentile` |
| `metrics_parser.dfy` | `MetricsParser` | `parse_metrics`, `_compute_latency_metrics`, `get_metrics` and the metrics URL |
| `prometheus_export.dfy` | `PrometheusExport` | `_extract_value`, `_extract_labels`, `_format_labels`, `_export_metrics`, `get_all_metrics`, `_query_single` |

## Behaviour worth noting

- **Request counts are added up.** `request_counts[endpoint][method] += value` (`fastapi-app/metrics_parser.py:137`) sums every matching counter line, for example lines for different status codes; it does not keep the last one. The model sums, and `MetricsParser.TalliedRequests` proves the sum.
- **The parse can raise.** The docstring of `get_metrics` promises an empty structure if fetch or parse fails (`fastapi-app/metrics_parser.py:254-255`), but only a failed or empty fetch gets one. In the code, `float()` raises `ValueError` when the captured value is a run of digits and points that is not a number (`1.2.3`, `.`). It raises the same way for an `le` label that is neither `+Inf` nor a float (`fastapi-app/metrics_parser.py:100-102, 113, 124, 136`). Nothing in `parse_metrics` or `get_metrics` catches this. The model returns `Failure(ValueError(...))` carrying the first offending line's token.
- **Name tests are substring tests.** A `_sum` or `fastapi_requests_total` line is used only when it does not contain `bucket` anywhere (`fastapi-app/metrics_parser.py:106, 128`). That includes its label values. For an endpoint such as `/buckets` the `_sum` lines and the request counters are therefore skipped, but the `_count` lines are kept. The endpoint then has a count and no sum, so its `avg` is null, and its request counts are missing. `Exposition.BucketPathSumIgnored` proves the skip for one such line.
- **The lazy search takes the first label whose name ends in the key.** Each `.*?key="` stops at the first place where `key="` appears and the rest of the pattern can still match (`Exposition.MatchFromLeftmost`). That place can be inside a longer label name. On `fastapi_requests_total{method="GET",xendpoint="/b",endpoint="/a"} 1` the counter is filed under `/b` (`Exposition.ShadowedEndpoint`). In the same way, a bucket line with a label such as `handle="h"` before `le` captures `h` as the boundary, and `float("h")` raises.
- **Null percentiles.** Percentiles are null when the endpoint has no bucket lines. They are also null when the sorted buckets do not end in a `+Inf` bucket, or when that bucket's count is 0. The finite-boundary fallback at `fastapi-app/metrics_parser.py:245-247` can never run, because the guard at `:221-223` already returned; `Histogram.PercentileSelects` proves this.

## Model

| member | source | states |
|---|---|---|
| Text.JoinSplit | fastapi-app/metrics_parser.py:86 | joining the pieces of `text.split("\n")` with the separator gives the text back |
| Text.SplitJoin | fastapi-app/metrics_parser.py:86 | splitting a join of separator-free pieces gives the pieces back |
| Text.SplitHasNoSeparator | fastapi-app/metrics_parser.py:86 | no line produced by the split contains a newline |
| PyFloat.RoundFloat | fastapi-app/metrics_parser.py:233-243 | `round(x, 4)` of a finite estimate is finite and within 0.00005 of it; `inf`, `-inf` and NaN come back unchanged |
| PyFloat.Round4Close | fastapi-app/metrics_parser.py:183 | `round(x, 4)` is within half a unit in the fourth decimal place of `x` |
| PyFloat.Round4Monotone | fastapi-app/metrics_parser.py:183 | rounding to 4 places never reorders two values |
| PyFloat.Round4Idempotent | fastapi-app/metrics_parser.py:183 | rounding an already rounded value changes nothing |
| PyFloat.RoundFloatMonotone | fastapi-app/metrics_parser.py:233-243 | rounding the estimates keeps `a <= b` between floats |
| PyFloat.ValueTokenParse | fastapi-app/metrics_parser.py:102 | `float()` of a run of digits and points is finite exactly when the run has a digit and at most one point; otherwise it raises; the value is never negative |
| Exposition.MatchSampleCorrect | fastapi-app/metrics_parser.py:95-98 | the `re.match` model finds a match exactly when the line starts with `metric{` and, with no line break in the gaps, has the label keys in order, each with a non-empty quote-free value, then `}`, whitespace and a run of digits and points; the captures it returns have that shape (likewise for the patterns at :107-110, :118-121 and :129-132) |
| Exposition.MatchFromSound | fastapi-app/metrics_parser.py:96 | what the lazy search returns has the required shape |
| Exposition.MatchFromComplete | fastapi-app/metrics_parser.py:96 | the lazy search finds a match whenever the rest of the line has the required shape |
| Exposition.MatchFromLeftmost | fastapi-app/metrics_parser.py:96 | the lazy search returns given captures exactly when they form the leftmost match: each `.*?` stops at the first position from which the rest of the pattern can still match, key by key from the left |
| Exposition.MatchSampleLeftmost | fastapi-app/metrics_parser.py:95-98 | `re.match` of a family's pattern returns exactly the leftmost match on the line (likewise for the patterns at :107-110, :118-121 and :129-132) |
| Exposition.ShadowedEndpoint | fastapi-app/metrics_parser.py:128-131 | on `fastapi_requests_total{method="GET",xendpoint="/b",endpoint="/a"} 1` the name tests pick the counter pattern, and `.*?endpoint="` stops inside `xendpoint=`, so the captured endpoint is `/b` |
| Exposition.ClassifyIgnored | fastapi-app/metrics_parser.py:88-137 | a line changes no accumulator exactly when it is empty, starts with `#`, passes none of the four name tests, or fails the pattern of the family whose name test holds first |
| Exposition.BucketPathSumIgnored | fastapi-app/metrics_parser.py:106 | a `_sum` line for the endpoint `/buckets` passes none of the four name tests, because it contains `bucket`, and is skipped |
| Text.ContainsOccurs | fastapi-app/metrics_parser.py:94 | Python's `t in s` holds exactly when `t` occurs at some index of `s` |
| Exposition.ClassifyBucketSound | fastapi-app/metrics_parser.py:94-103 | a bucket sample comes from a bucket line whose `le` capture precedes its `endpoint` capture; the boundary is `+Inf` or `float(le)` and is never NaN; the count is `float` of the value run and non-negative |
| Exposition.ClassifySumSound | fastapi-app/metrics_parser.py:106-114 | a sum sample comes from a `_sum` line with that endpoint capture and the float of its value |
| Exposition.ClassifyCountSound | fastapi-app/metrics_parser.py:117-125 | a count sample comes from a `_count` line with that endpoint capture and the float of its value |
| Exposition.ClassifyRequestsSound | fastapi-app/metrics_parser.py:128-137 | a request sample comes from a `requests_total` line with `method` before `endpoint`, and holds `int(float(value))` |
| Exposition.ParseValueOfToken | fastapi-app/metrics_parser.py:102 | a value run is accepted exactly when it is a decimal, and the accepted value is non-negative |
| Exposition.BuildSample | fastapi-app/metrics_parser.py:99-137 | the sample built for a match is of the matched family's kind |
| Exposition.ParseBound | fastapi-app/metrics_parser.py:100 | a bucket boundary read from `le` is never NaN |
| Exposition.Trunc | fastapi-app/metrics_parser.py:136 | `int()` truncates toward zero: for `x >= 0` the result is the integer in `(x - 1, x]`, for `x < 0` the one in `[x, x + 1)` |
| Histogram.SortByBoundCorrect | fastapi-app/metrics_parser.py:189 | `sorted(..., key=boundary)` yields boundaries in ascending order, is a permutation, and is stable: entries with equal boundaries keep their input order |
| Histogram.PercentileSelects | fastapi-app/metrics_parser.py:217-248 | null exactly for an empty list, a zero total (no final `+Inf` bucket, or its count is 0) or no bucket reaching `p * total`; otherwise the list ends in `+Inf` and the result is the estimate at the first bucket whose count reaches the target |
| Histogram.PercentileDefined | fastapi-app/metrics_parser.py:221-243 | with a final `+Inf` bucket of positive count and `p <= 1`, a percentile is always produced |
| Histogram.PercentileWithoutTotal | fastapi-app/metrics_parser.py:220-223 | without a final `+Inf` bucket the percentile is null |
| Histogram.FirstReachingIsNonEmpty | fastapi-app/metrics_parser.py:236-241 | past index 0, the selected bucket's count differs from the previous one, and the fraction lies in (0, 1] |
| Histogram.InterpolationBetween | fastapi-app/metrics_parser.py:241-242 | `prev + f * (bound - prev)` with `0 < f <= 1` lies in `(prev, bound]`, and is `inf` when the bound is `+Inf` |
| Histogram.EstimateBracketed | fastapi-app/metrics_parser.py:229-243 | at index 0 the estimate is the rounded first boundary; otherwise it lies between the rounded previous boundary and the rounded selected boundary |
| Histogram.EstimateInInfiniteBucket | fastapi-app/metrics_parser.py:241-243 | a target that lands in the `+Inf` bucket gives `inf` |
| Histogram.PercentileMonotone | fastapi-app/metrics_parser.py:190-192 | for well-formed cumulative buckets, a larger quantile never gives a smaller estimate |
| Histogram.ExampleEstimates | fastapi-app/metrics_parser.py:225-243 | buckets `0.1:2, 0.5:8, +Inf:10` give p50 = 0.3 and p95 = inf |
| MetricsParser.TalliedBuckets | fastapi-app/metrics_parser.py:94-103 | an endpoint has a bucket list exactly when it has bucket lines, and the list holds their `(boundary, count)` pairs in input order |
| MetricsParser.TalliedSums | fastapi-app/metrics_parser.py:106-114 | an endpoint has a sum exactly when it has a `_sum` line, and the last such line wins |
| MetricsParser.TalliedCounts | fastapi-app/metrics_parser.py:117-125 | an endpoint has a count exactly when it has a `_count` line, and the last such line wins |
| MetricsParser.TalliedRequests | fastapi-app/metrics_parser.py:127-137 | an endpoint/method entry exists exactly when a request line names that pair, and its value is the sum over all such lines |
| MetricsParser.CollectSuccess | fastapi-app/metrics_parser.py:88-137 | the scan completes exactly when no line raises, and then yields one sample per line, in order |
| MetricsParser.CollectFailure | fastapi-app/metrics_parser.py:88-137 | when the scan raises, it raises the error of the first line that raises |
| MetricsParser.ParseOutcome | fastapi-app/metrics_parser.py:70-149 | the parse succeeds exactly when no line raises; otherwise its error is the first raising line's; on success every request entry is the sum over its lines |
| MetricsParser.ParseResponse | fastapi-app/metrics_parser.py:145-149 | a successful parse has an empty `errors` map; an endpoint has a latency entry exactly when some bucket, `_sum` or `_count` line names it; an endpoint without bucket lines has null p50, p95 and p99 |
| MetricsParser.ParseEmpty | fastapi-app/metrics_parser.py:80-91 | the empty text parses to empty `latency`, `requests` and `errors` |
| MetricsParser.GetMetrics | fastapi-app/metrics_parser.py:257-265 | an absent fetch gives the all-empty response; a fetched text gives its parse |
| MetricsParser.GetMetricsOfEmptyText | fastapi-app/metrics_parser.py:257-263 | an absent fetch, an empty fetched text and a parse of `""` all give the same response |
| MetricsParser.ParseMetrics | fastapi-app/metrics_parser.py:70-149 | the loop over lines that updates the four dictionaries in place returns the response of `Parse`, including its first-line error |
| MetricsParser.RecordSample | fastapi-app/metrics_parser.py:99-137 | one recognised line appends to its endpoint's bucket list, overwrites its sum or count, or adds to its method's counter; nothing else changes |
| MetricsParser.ComputeLatencyMetrics | fastapi-app/metrics_parser.py:151-200 | the loop over endpoints builds exactly the per-endpoint latency map `LatencyOf` |
| MetricsParser.LatencyEndpoints | fastapi-app/metrics_parser.py:176-198 | after a scan, the latency map (`LatencyOf`) has an entry for an endpoint exactly when some bucket, `_sum` or `_count` line names it |
| MetricsParser.EndpointLatency | fastapi-app/metrics_parser.py:182-196 | `avg` is present exactly when the sum and the count exist and the count is positive, and is then within 0.00005 of sum/count; an endpoint without buckets has all percentiles null |
| MetricsParser.Average | fastapi-app/metrics_parser.py:183 | the rounded average is within 0.00005 of sum/count |
| MetricsParser.EndpointPercentilesOrdered | fastapi-app/metrics_parser.py:188-192 | for well-formed buckets: p50 exists exactly when the sorted list ends in `+Inf` with a positive count; p50, p95 and p99 are present together; and p50 <= p95 <= p99 |
| MetricsParser.ParsedBucketsClean | fastapi-app/metrics_parser.py:100-103 | after a successful parse, no bucket boundary is NaN, counts are non-negative, and the sort yields an ascending permutation |
| MetricsParser.WithMetricsPath | fastapi-app/metrics_parser.py:46-47 | the result ends in `/metrics` and extends the URL; it adds exactly `/metrics` unless the URL already ended with it |
| MetricsParser.MetricsUrl | fastapi-app/metrics_parser.py:35-47 | an explicit URL is used unchanged; a URL from the environment or the default always ends in `/metrics` |
| MetricsParser.WithMetricsPathIdempotent | fastapi-app/metrics_parser.py:46-47 | normalising twice is the same as once |
| MetricsParser.DefaultUrl | fastapi-app/metrics_parser.py:38-47 | with nothing configured the URL is `http://prometheus.railway.internal:9090/metrics` |
| PrometheusExport.ExtractValueInverse | PROMETHEUS_METRICS_MODULE.py:104-108 | for every timestamp, value and trailing elements, `_extract_value` of the pair gives the value back; a list of fewer than two elements gives None |
| PrometheusExport.ExtractValueOfPair | tests/test_prometheus_metrics.py:238-242 | `[1234567890, "42.5"]` gives `"42.5"`; shorter lists give None |
| PrometheusExport.ExtractLabelsInverse | PROMETHEUS_METRICS_MODULE.py:110-112 | `_extract_labels` of an item built from a label map gives that map back; an item without `metric` gives no labels |
| PrometheusExport.FormatLabelsEmpty | PROMETHEUS_METRICS_MODULE.py:366-369 | the label text is empty exactly when every label is `__name__`, including when there are no labels |
| PrometheusExport.FormatLabelsIgnoresName | PROMETHEUS_METRICS_MODULE.py:368 | `__name__` never contributes to the label text |
| PrometheusExport.WithoutNameIdempotent | PROMETHEUS_METRICS_MODULE.py:368 | dropping `__name__` twice is the same as once |
| PrometheusExport.FormatLabelsRoundTrip | PROMETHEUS_METRICS_MODULE.py:363-369 | when keys hold no `=` or `,` and values hold no `,`, the label text reads back as the labels without `__name__`, in order |
| PrometheusExport.FormatOneLabel | PROMETHEUS_METRICS_MODULE.py:368-369 | a single label renders as `{k="v"}` |
| PrometheusExport.FormatTwoLabels | tests/test_prometheus_metrics.py:298-303 | two labels render as `{k1="v1",k2="v2"}` in map order |
| PrometheusExport.FormatLabelsNotInjective | PROMETHEUS_METRICS_MODULE.py:368 | values are not escaped, so one label whose value holds `",b="` renders like two labels |
| PrometheusExport.ItemLinesCount | PROMETHEUS_METRICS_MODULE.py:353-358 | one line per item whose value is truthy |
| PrometheusExport.ItemLinesShape | PROMETHEUS_METRICS_MODULE.py:353-358 | every written line is `name + labels + " " + value + "\n"` of some item with a truthy value |
| PrometheusExport.ExportLinesCount | PROMETHEUS_METRICS_MODULE.py:347-361 | the export writes one line per item with a truthy value in a successful query, and none for a failed query |
| PrometheusExport.ExportLinesAppend | PROMETHEUS_METRICS_MODULE.py:348 | queries are exported in order: the lines of a concatenation are the concatenation of the lines |
| PrometheusExport.ExportItems | PROMETHEUS_METRICS_MODULE.py:353-358 | the loop over items appends exactly the item lines, in order |
| PrometheusExport.ExportMetrics | PROMETHEUS_METRICS_MODULE.py:340-361 | the loop over queries builds exactly the concatenated export lines |
| PrometheusExport.GetAllMetrics | PROMETHEUS_METRICS_MODULE.py:326-338 | the output is the system, provider, model, business and performance texts in this order, each followed by `"\n"` |
| PrometheusExport.AllMetricsTextOfFive | PROMETHEUS_METRICS_MODULE.py:329-338 | folding the five groups equals their texts concatenated in order |
| PrometheusExport.QuerySingleNotAvailable | PROMETHEUS_METRICS_MODULE.py:253-262 | the result is `"N/A"` exactly when the query failed, returned no series, or the first series' value is the string `"N/A"`; any other result is None or an element of the first series' value pair |
| PrometheusExport.QuerySingleCanBeNone | PROMETHEUS_METRICS_MODULE.py:257-258 | a successful query whose first item has no value gives None, not `"N/A"` |
| PrometheusExport.QuerySingleMatchesExport | PROMETHEUS_METRICS_MODULE.py:253-262 | when the summary value is truthy, the export's first line for the same response shows that value |

## Left out

- Network I/O is not modelled: `fetch_metrics` and `PrometheusClient.query`/`query_range` are HTTP calls with timeouts. The fetched text is a parameter (`Option<string>`, None for a failed fetch), and query responses are values. The `async`/`await` structure is not modelled either.
- Environment lookups are not modelled. `MetricsUrl` takes the two `os.getenv` results as parameters.
- The `get_metrics_parser` singleton, the PromQL query tables, the timestamps and the `_get_*_metrics` summary dictionaries are plumbing and constants, and are not modelled.
- Exceptions caught around a query are not modelled. `_query_single` and `_export_metrics` catch `Exception` from a response that is not a JSON object, or a `data`/`result`/`value` of the wrong type. Responses here are always well typed, so those handlers are not modelled.
- A value element in a response that is a list or an object is not modelled. `Scalar` covers null, booleans, numbers and strings.
- Floats are exact reals with explicit `inf`, `-inf` and NaN. IEEE rounding of `sum / count` and of the interpolation, and overflow, are not modelled. A number's text, as `str()` prints it in an exported line, is carried with the number instead of being computed.
- `int(float(v))` raising `OverflowError` is not reachable in the model: every captured value is a finite non-negative decimal.
- Unicode digits are not modelled. The regex `\d` and `float()` accept only ASCII digits here.
- Exposition.ParseBound: an `le` label that Python reads as NaN (`nan`) is a `NanBoundary` error, not a bucket. Python's sort with NaN keys is not a total order, and it is not modelled.
- Duplicate JSON keys in a `metric` object are not modelled. Labels are a sequence in map order.
- MetricsParser.RecordSample: the body of the loop in `parse_metrics` is a separate method; the dictionaries are map values that the loop reassigns.
- PrometheusExport.ExportItems: the inner loop of `_export_metrics` is a separate method.
- Histogram.PercentileMonotone assumes well-formed buckets: strictly increasing boundaries and non-decreasing, non-negative counts. For arbitrary scraped lines the ordering is not promised.
