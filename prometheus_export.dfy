/**
 * The pure helpers of `PROMETHEUS_METRICS_MODULE.py` over already-fetched
 * query responses: value and label extraction from result items, label
 * formatting, the Prometheus text lines written for a group of queries, the
 * concatenation of all groups, and the single-value selection of the JSON
 * summary.
 */
module PrometheusExport {
  import opened Wrappers
  import opened Text

  // ---------------------------------------------------------------------
  // Query responses

  /**
   * A JSON scalar as it may appear in a result item's `value` pair. A number
   * carries the text Python's `str()` gives for it.
   */
  datatype Scalar = Null | Bool(b: bool) | Number(x: real, shown: string) | Str(s: string)

  /** A label map in the order its keys appear (Python dicts keep insertion order). */
  type Labels = seq<(string, string)>

  /** One entry of `data.result`: its optional `metric` labels and optional `value` pair. */
  datatype Item = Item(metric: Option<Labels>, value: Option<seq<Scalar>>)

  /** The `data` object of a response: its optional `result` list. */
  datatype Data = Data(result: Option<seq<Item>>)

  /** A query response: its optional `status` and optional `data`. */
  datatype Response = Response(status: Option<string>, data: Option<Data>)

  /** `result.get("status") == "success"`. */
  predicate Succeeded(resp: Response) {
    resp.status == Some("success")
  }

  /** `result.get("data", {}).get("result", [])`. */
  function ResultData(resp: Response): seq<Item> {
    match resp.data
    case None => []
    case Some(d) => d.result.GetOr([])
  }

  /** `item.get("value", [])`. */
  function ItemValue(item: Item): seq<Scalar> {
    item.value.GetOr([])
  }

  /** Python truthiness of a scalar. */
  predicate Truthy(v: Scalar) {
    match v
    case Null => false
    case Bool(b) => b
    case Number(x, _) => x != 0.0
    case Str(s) => s != ""
  }

  /** The text an f-string gives for a scalar. */
  function Show(v: Scalar): string {
    match v
    case Null => "None"
    case Bool(b) => if b then "True" else "False"
    case Number(_, shown) => shown
    case Str(s) => s
  }

  // ---------------------------------------------------------------------
  // `_extract_value` and `_extract_labels`

  /** The second element of a value pair, or None (the JSON null) when there is none. */
  function ExtractValue(result: seq<Scalar>): (v: Scalar)
    ensures |result| >= 2 ==> v == result[1]
    ensures |result| < 2 ==> v == Null
  {
    if |result| >= 2 then result[1] else Null
  }

  /** The `metric` label map of an item, or the empty map when it is missing. */
  function ExtractLabels(item: Item): (labels: Labels)
    ensures item.metric.Some? ==> labels == item.metric.value
    ensures item.metric.None? ==> labels == []
  {
    item.metric.GetOr([])
  }

  /** The value of a `[timestamp, "42.5"]` pair is its second element. */
  lemma ExtractValueOfPair()
    ensures ExtractValue([Number(1234567890.0, "1234567890"), Str("42.5")]) == Str("42.5")
    ensures ExtractValue([Number(1234567890.0, "1234567890")]) == Null
    ensures ExtractValue([]) == Null
  {
  }

  /** `_extract_value` undoes building a value pair: it returns the pair's second element, whatever follows. */
  lemma ExtractValueInverse(timestamp: Scalar, v: Scalar, rest: seq<Scalar>)
    ensures ExtractValue([timestamp, v] + rest) == v
    ensures ExtractValue([timestamp]) == Null && ExtractValue([]) == Null
  {
  }

  /** `_extract_labels` undoes building an item from a label map, and gives no labels without one. */
  lemma ExtractLabelsInverse(labels: Labels, value: Option<seq<Scalar>>)
    ensures ExtractLabels(Item(Some(labels), value)) == labels
    ensures ExtractLabels(Item(None, value)) == []
  {
  }

  // ---------------------------------------------------------------------
  // `_format_labels`

  /** `k="v"`. */
  function PairText(k: string, v: string): string {
    k + "=\"" + v + "\""
  }

  /** The labels other than `__name__`, in order. */
  function WithoutName(labels: Labels): (r: Labels)
    ensures |r| <= |labels|
    ensures forall i :: 0 <= i < |r| ==> r[i].0 != "__name__"
    decreases |labels|
  {
    if labels == [] then []
    else
      var init := WithoutName(labels[..|labels| - 1]);
      if labels[|labels| - 1].0 != "__name__" then init + [labels[|labels| - 1]] else init
  }

  /** The `k="v"` texts of some labels, in order. */
  function PairTexts(labels: Labels): (r: seq<string>)
    ensures |r| == |labels|
    decreases |labels|
  {
    if labels == [] then []
    else PairTexts(labels[..|labels| - 1]) + [PairText(labels[|labels| - 1].0, labels[|labels| - 1].1)]
  }

  /**
   * The label set of an output line: `{k="v",...}` over the labels other
   * than `__name__` in map order, or the empty text when there are none.
   * Values are inserted verbatim, without escaping.
   */
  function FormatLabels(labels: Labels): string {
    if labels == [] then ""
    else
      var pairs := PairTexts(WithoutName(labels));
      if pairs == [] then "" else "{" + Join(pairs, ',') + "}"
  }

  lemma {:induction false} WithoutNameEmpty(labels: Labels)
    ensures WithoutName(labels) == [] <==> forall i :: 0 <= i < |labels| ==> labels[i].0 == "__name__"
    decreases |labels|
  {
    if labels != [] {
      var init := labels[..|labels| - 1];
      WithoutNameEmpty(init);
      assert forall i :: 0 <= i < |init| ==> init[i] == labels[i];
    }
  }

  /** The label text is empty exactly when every label is `__name__` (in particular for no labels). */
  lemma FormatLabelsEmpty(labels: Labels)
    ensures FormatLabels(labels) == "" <==> forall i :: 0 <= i < |labels| ==> labels[i].0 == "__name__"
  {
    WithoutNameEmpty(labels);
  }

  lemma {:induction false} WithoutNameIdempotent(labels: Labels)
    ensures WithoutName(WithoutName(labels)) == WithoutName(labels)
    decreases |labels|
  {
    if labels != [] {
      var init := labels[..|labels| - 1];
      WithoutNameIdempotent(init);
      var w := WithoutName(init);
      if labels[|labels| - 1].0 != "__name__" {
        var r := w + [labels[|labels| - 1]];
        assert r[..|r| - 1] == w;
      }
    }
  }

  /** `__name__` labels have no influence on the label text. */
  lemma FormatLabelsIgnoresName(labels: Labels)
    ensures FormatLabels(labels) == FormatLabels(WithoutName(labels))
  {
    WithoutNameIdempotent(labels);
  }

  // A reader of label texts, used to state what the format preserves.

  /** The index of the first `c` in `s`, or `|s|`. */
  function IndexOf(s: string, c: char): (i: nat)
    ensures i <= |s|
    ensures forall j :: 0 <= j < i ==> s[j] != c
    ensures i < |s| ==> s[i] == c
    decreases |s|
  {
    if s == [] then 0 else if s[0] == c then 0 else 1 + IndexOf(s[1..], c)
  }

  /** Reads `k="v"`: the key runs to the first `=`, the value sits between the next quote and a final quote. */
  function ParsePair(p: string): Option<(string, string)> {
    var i := IndexOf(p, '=');
    if i + 3 <= |p| && p[i + 1] == '"' && p[|p| - 1] == '"' then Some((p[..i], p[i + 2..|p| - 1])) else None
  }

  function ParsePairs(parts: seq<string>): Option<Labels>
    decreases |parts|
  {
    if parts == [] then Some([])
    else
      match (ParsePairs(parts[..|parts| - 1]), ParsePair(parts[|parts| - 1]))
      case (Some(init), Some(kv)) => Some(init + [kv])
      case _ => None
  }

  /** Reads a label text: empty, or `{` pairs separated by `,` `}`. */
  function ParseLabelText(s: string): Option<Labels> {
    if s == "" then Some([])
    else if |s| >= 2 && s[0] == '{' && s[|s| - 1] == '}' then ParsePairs(Split(s[1..|s| - 1], ','))
    else None
  }

  lemma ParsePairText(k: string, v: string)
    requires '=' !in k
    ensures ParsePair(PairText(k, v)) == Some((k, v))
  {
    var p := PairText(k, v);
    assert p[|k|] == '=';
    assert forall j :: 0 <= j < |k| ==> p[j] == k[j];
    assert IndexOf(p, '=') == |k|;
    assert p[..|k|] == k;
    assert p[|k| + 2..|p| - 1] == v;
  }

  lemma {:induction false} ParsePairTexts(labels: Labels)
    requires forall i :: 0 <= i < |labels| ==> '=' !in labels[i].0
    ensures ParsePairs(PairTexts(labels)) == Some(labels)
    decreases |labels|
  {
    if labels != [] {
      var init, last := labels[..|labels| - 1], labels[|labels| - 1];
      ParsePairTexts(init);
      ParsePairText(last.0, last.1);
      var ps := PairTexts(labels);
      assert ps == PairTexts(init) + [PairText(last.0, last.1)];
      assert ps[..|ps| - 1] == PairTexts(init);
      assert labels == init + [last];
    }
  }

  lemma {:induction false} PairTextsNoComma(labels: Labels)
    requires forall i :: 0 <= i < |labels| ==> ',' !in labels[i].0 && ',' !in labels[i].1
    ensures forall i :: 0 <= i < |PairTexts(labels)| ==> ',' !in PairTexts(labels)[i]
    decreases |labels|
  {
    if labels != [] {
      PairTextsNoComma(labels[..|labels| - 1]);
    }
  }

  lemma {:induction false} WithoutNameKeeps(labels: Labels)
    ensures forall i :: 0 <= i < |WithoutName(labels)| ==> WithoutName(labels)[i] in labels
    decreases |labels|
  {
    if labels != [] {
      WithoutNameKeeps(labels[..|labels| - 1]);
    }
  }

  /**
   * When keys contain neither `=` nor `,` and values contain no `,`, the label
   * text reads back as exactly the labels other than `__name__`, in order.
   */
  lemma FormatLabelsRoundTrip(labels: Labels)
    requires forall i :: 0 <= i < |labels| ==> '=' !in labels[i].0 && ',' !in labels[i].0 && ',' !in labels[i].1
    ensures ParseLabelText(FormatLabels(labels)) == Some(WithoutName(labels))
  {
    var w := WithoutName(labels);
    WithoutNameKeeps(labels);
    forall i | 0 <= i < |w| ensures '=' !in w[i].0 && ',' !in w[i].0 && ',' !in w[i].1 {
      var j :| 0 <= j < |labels| && labels[j] == w[i];
    }
    ParsePairTexts(w);
    if labels != [] && w != [] {
      var pairs := PairTexts(w);
      PairTextsNoComma(w);
      SplitJoin(pairs, ',');
      var s := "{" + Join(pairs, ',') + "}";
      assert s[1..|s| - 1] == Join(pairs, ',');
    }
  }

  /** A single label other than `__name__` formats as `{k="v"}`. */
  lemma FormatOneLabel(k: string, v: string)
    requires k != "__name__"
    ensures FormatLabels([(k, v)]) == "{" + PairText(k, v) + "}"
  {
    var one: Labels := [(k, v)];
    assert one[..0] == [];
    assert WithoutName(one) == one;
    assert PairTexts(one) == [PairText(k, v)];
  }

  /** Two labels other than `__name__` format as `{k1="v1",k2="v2"}`, in map order. */
  lemma FormatTwoLabels(k1: string, v1: string, k2: string, v2: string)
    requires k1 != "__name__" && k2 != "__name__"
    ensures FormatLabels([(k1, v1), (k2, v2)]) == "{" + PairText(k1, v1) + "," + PairText(k2, v2) + "}"
  {
    var two: Labels := [(k1, v1), (k2, v2)];
    assert two[..1] == [(k1, v1)];
    assert [(k1, v1)][..0] == [];
    assert WithoutName(two) == two;
    assert PairTexts(two) == [PairText(k1, v1), PairText(k2, v2)];
    assert Join(PairTexts(two), ',') == PairText(k1, v1) + [','] + PairText(k2, v2);
  }

  /**
   * Values are not escaped, so different label maps can give the same text:
   * a value holding `",b="` reads as a second label.
   */
  lemma FormatLabelsNotInjective()
    ensures FormatLabels([("a", "x\",b=\"y")]) == FormatLabels([("a", "x"), ("b", "y")])
  {
    FormatOneLabel("a", "x\",b=\"y");
    FormatTwoLabels("a", "x", "b", "y");
  }

  // ---------------------------------------------------------------------
  // `_export_metrics` and `get_all_metrics`

  /** `f"{metric_name}{label_str} {value}\n"` for one result item. */
  function ItemLine(name: string, item: Item): string {
    name + FormatLabels(ExtractLabels(item)) + " " + Show(ExtractValue(ItemValue(item))) + "\n"
  }

  /** The lines written for the items of one successful query: one per item with a truthy value. */
  function ItemLines(name: string, items: seq<Item>): seq<string>
    decreases |items|
  {
    if items == [] then []
    else
      var init := ItemLines(name, items[..|items| - 1]);
      var item := items[|items| - 1];
      if Truthy(ExtractValue(ItemValue(item))) then init + [ItemLine(name, item)] else init
  }

  /** The lines written for one query: none unless its status is `success`. */
  function MetricLines(name: string, resp: Response): seq<string> {
    if Succeeded(resp) then ItemLines(name, ResultData(resp)) else []
  }

  /** The lines written for a group of `(metric name, response)` queries, in query order. */
  function ExportLines(queries: seq<(string, Response)>): seq<string>
    decreases |queries|
  {
    if queries == [] then []
    else
      var (name, resp) := queries[|queries| - 1];
      ExportLines(queries[..|queries| - 1]) + MetricLines(name, resp)
  }

  /** The number of items whose value is truthy (a reference count, from the front). */
  function TruthyCount(items: seq<Item>): nat
    decreases |items|
  {
    if items == [] then 0
    else (if Truthy(ExtractValue(ItemValue(items[0]))) then 1 else 0) + TruthyCount(items[1..])
  }

  /** The number of items with a truthy value over the successful responses. */
  function ExportCount(queries: seq<(string, Response)>): nat
    decreases |queries|
  {
    if queries == [] then 0
    else (if Succeeded(queries[0].1) then TruthyCount(ResultData(queries[0].1)) else 0) + ExportCount(queries[1..])
  }

  lemma {:induction false} TruthyCountAppend(items: seq<Item>, item: Item)
    ensures TruthyCount(items + [item]) == TruthyCount(items) + (if Truthy(ExtractValue(ItemValue(item))) then 1 else 0)
    decreases |items|
  {
    if items != [] {
      assert (items + [item])[1..] == items[1..] + [item];
      TruthyCountAppend(items[1..], item);
    }
  }

  lemma {:induction false} ItemLinesCount(name: string, items: seq<Item>)
    ensures |ItemLines(name, items)| == TruthyCount(items)
    decreases |items|
  {
    if items != [] {
      var init := items[..|items| - 1];
      ItemLinesCount(name, init);
      assert items == init + [items[|items| - 1]];
      TruthyCountAppend(init, items[|items| - 1]);
    }
  }

  lemma {:induction false} ExportLinesAppend(queries: seq<(string, Response)>, more: seq<(string, Response)>)
    ensures ExportLines(queries + more) == ExportLines(queries) + ExportLines(more)
    decreases |more|
  {
    if more == [] {
      assert queries + more == queries;
    } else {
      var init := more[..|more| - 1];
      assert (queries + more)[..|queries + more| - 1] == queries + init;
      ExportLinesAppend(queries, init);
    }
  }

  /**
   * One line per result item with a truthy value, over the responses whose
   * status is `success`; a response with any other status adds nothing.
   */
  lemma {:induction false} ExportLinesCount(queries: seq<(string, Response)>)
    ensures |ExportLines(queries)| == ExportCount(queries)
    decreases |queries|
  {
    if queries != [] {
      ExportLinesAppend([queries[0]], queries[1..]);
      assert [queries[0]] + queries[1..] == queries;
      ExportLinesCount(queries[1..]);
      assert [queries[0]][..0] == [];
      ItemLinesCount(queries[0].0, ResultData(queries[0].1));
    }
  }

  /** Line `k` of the lines for `items` is the line of a truthy item. */
  predicate LineFromItem(name: string, items: seq<Item>, k: int) {
    0 <= k < |ItemLines(name, items)| &&
    exists j :: 0 <= j < |items| && Truthy(ExtractValue(ItemValue(items[j]))) && ItemLines(name, items)[k] == ItemLine(name, items[j])
  }

  lemma ItemLinesStep(name: string, items: seq<Item>)
    requires items != []
    ensures var last := items[|items| - 1];
      ItemLines(name, items) ==
        ItemLines(name, items[..|items| - 1]) + (if Truthy(ExtractValue(ItemValue(last))) then [ItemLine(name, last)] else [])
  {
  }

  /** Each written line is `name`, the label text, a space, the value and a newline, for an item with a truthy value. */
  lemma {:induction false} ItemLinesShape(name: string, items: seq<Item>)
    ensures forall k :: 0 <= k < |ItemLines(name, items)| ==> LineFromItem(name, items, k)
    decreases |items|
  {
    if items != [] {
      var init, last := items[..|items| - 1], items[|items| - 1];
      ItemLinesShape(name, init);
      ItemLinesStep(name, items);
      forall k | 0 <= k < |ItemLines(name, items)| ensures LineFromItem(name, items, k) {
        if k < |ItemLines(name, init)| {
          assert LineFromItem(name, init, k);
          var j :| 0 <= j < |init| && Truthy(ExtractValue(ItemValue(init[j]))) && ItemLines(name, init)[k] == ItemLine(name, init[j]);
          assert items[j] == init[j];
        } else {
          assert items[|items| - 1] == last;
        }
      }
    }
  }

  /** The inner loop of `_export_metrics`: the lines for the items of one successful query. */
  method ExportItems(name: string, data: seq<Item>) returns (output: string)
    ensures output == Concat(ItemLines(name, data))
  {
    output := "";
    for j := 0 to |data|
      invariant output == Concat(ItemLines(name, data[..j]))
    {
      var item := data[j];
      var labels := ExtractLabels(item);
      var value := ExtractValue(ItemValue(item));
      assert data[..j + 1][..j] == data[..j];
      ItemLinesStep(name, data[..j + 1]);
      if Truthy(value) {
        var labelText := FormatLabels(labels);
        var line := name + labelText + " " + Show(value) + "\n";
        assert line == ItemLine(name, item);
        ConcatAppend(ItemLines(name, data[..j]), [line]);
        assert Concat([line]) == line by {
          assert [line][..0] == [];
        }
        output := output + line;
      }
    }
    assert data[..|data|] == data;
  }

  /** `_export_metrics` over the responses its queries received, in query order. */
  method ExportMetrics(queries: seq<(string, Response)>) returns (output: string)
    ensures output == Concat(ExportLines(queries))
  {
    output := "";
    for i := 0 to |queries|
      invariant output == Concat(ExportLines(queries[..i]))
    {
      var (name, resp) := queries[i];
      assert queries[..i + 1][..i] == queries[..i] && queries[..i + 1][i] == (name, resp);
      assert ExportLines(queries[..i + 1]) == ExportLines(queries[..i]) + MetricLines(name, resp);
      if resp.status == Some("success") {
        var text := ExportItems(name, ResultData(resp));
        assert MetricLines(name, resp) == ItemLines(name, ResultData(resp));
        ConcatAppend(ExportLines(queries[..i]), ItemLines(name, ResultData(resp)));
        output := output + text;
      } else {
        assert MetricLines(name, resp) == [];
        assert ExportLines(queries[..i + 1]) == ExportLines(queries[..i]);
      }
    }
    assert queries[..|queries|] == queries;
  }

  /** The export of one group of queries followed by a newline. */
  function GroupText(queries: seq<(string, Response)>): string {
    Concat(ExportLines(queries)) + "\n"
  }

  /** The texts of several groups, one after the other. */
  function AllMetricsText(groups: seq<seq<(string, Response)>>): string
    decreases |groups|
  {
    if groups == [] then ""
    else AllMetricsText(groups[..|groups| - 1]) + GroupText(groups[|groups| - 1])
  }

  /**
   * `get_all_metrics`: the exports of the system, provider, model, business
   * and performance groups, in that order, each followed by a newline.
   */
  method GetAllMetrics(
    system: seq<(string, Response)>, provider: seq<(string, Response)>, model: seq<(string, Response)>,
    business: seq<(string, Response)>, performance: seq<(string, Response)>)
    returns (metrics: string)
    ensures metrics ==
      GroupText(system) + GroupText(provider) + GroupText(model) + GroupText(business) + GroupText(performance)
  {
    var groups := [system, provider, model, business, performance];
    metrics := "";
    for g := 0 to |groups|
      invariant metrics == AllMetricsText(groups[..g])
    {
      var text := ExportMetrics(groups[g]);
      AllMetricsTextStep(groups, g);
      metrics := metrics + text + "\n";
    }
    assert groups[..5] == groups;
    AllMetricsTextOfFive(system, provider, model, business, performance);
  }

  lemma AllMetricsTextOfFive(
    system: seq<(string, Response)>, provider: seq<(string, Response)>, model: seq<(string, Response)>,
    business: seq<(string, Response)>, performance: seq<(string, Response)>)
    ensures AllMetricsText([system, provider, model, business, performance]) ==
      GroupText(system) + GroupText(provider) + GroupText(model) + GroupText(business) + GroupText(performance)
  {
    var groups := [system, provider, model, business, performance];
    var a, b, c, d, e := GroupText(system), GroupText(provider), GroupText(model), GroupText(business), GroupText(performance);
    assert groups[..0] == [];
    AllMetricsTextStep(groups, 0);
    assert AllMetricsText(groups[..1]) == a;
    AllMetricsTextStep(groups, 1);
    assert AllMetricsText(groups[..2]) == a + b;
    AllMetricsTextStep(groups, 2);
    assert AllMetricsText(groups[..3]) == a + b + c;
    AllMetricsTextStep(groups, 3);
    assert AllMetricsText(groups[..4]) == a + b + c + d;
    AllMetricsTextStep(groups, 4);
    assert groups[..5] == groups;
  }

  lemma AllMetricsTextStep(groups: seq<seq<(string, Response)>>, k: nat)
    requires k < |groups|
    ensures AllMetricsText(groups[..k + 1]) == AllMetricsText(groups[..k]) + GroupText(groups[k])
  {
    assert groups[..k + 1][..k] == groups[..k];
  }

  // ---------------------------------------------------------------------
  // `MetricsSummary._query_single`

  /**
   * The value shown in the JSON summary for one query: `"N/A"` unless the
   * status is `success` and the result list is non-empty, otherwise the value
   * extracted from the first item (which is None when that item has no pair).
   */
  function QuerySingle(resp: Response): (r: Scalar)
    ensures !Succeeded(resp) || ResultData(resp) == [] ==> r == Str("N/A")
    ensures Succeeded(resp) && ResultData(resp) != [] ==>
      && (|ItemValue(ResultData(resp)[0])| >= 2 ==> r == ItemValue(ResultData(resp)[0])[1])
      && (|ItemValue(ResultData(resp)[0])| < 2 ==> r == Null)
  {
    if resp.status == Some("success") then
      var data := ResultData(resp);
      if data != [] then ExtractValue(ItemValue(data[0])) else Str("N/A")
    else Str("N/A")
  }

  /**
   * The summary and the export agree: when the selected value is truthy, the
   * export of the same response starts with the line for that first item.
   */
  lemma QuerySingleMatchesExport(name: string, resp: Response)
    requires Succeeded(resp) && ResultData(resp) != [] && Truthy(QuerySingle(resp))
    ensures |MetricLines(name, resp)| > 0
    ensures MetricLines(name, resp)[0] == name + FormatLabels(ExtractLabels(ResultData(resp)[0])) + " " + Show(QuerySingle(resp)) + "\n"
  {
    var data := ResultData(resp);
    ItemLinesPrefix(name, data, 1);
    assert data[..1] == [data[0]];
    assert [data[0]][..0] == [];
  }

  lemma {:induction false} ItemLinesPrefix(name: string, items: seq<Item>, k: nat)
    requires k <= |items|
    ensures ItemLines(name, items[..k]) <= ItemLines(name, items)
    decreases |items| - k
  {
    if k < |items| {
      ItemLinesPrefix(name, items, k + 1);
      assert items[..k + 1][..k] == items[..k];
    } else {
      assert items[..k] == items;
    }
  }

  /**
   * The summary shows `"N/A"` exactly when the query failed, returned no
   * series, or the first series' value is itself the string `"N/A"`; any
   * other result is None or an element of the first series' value pair.
   */
  lemma QuerySingleNotAvailable(resp: Response)
    ensures QuerySingle(resp) == Str("N/A") <==>
      || !Succeeded(resp)
      || ResultData(resp) == []
      || (|ItemValue(ResultData(resp)[0])| >= 2 && ItemValue(ResultData(resp)[0])[1] == Str("N/A"))
    ensures QuerySingle(resp) != Str("N/A") && QuerySingle(resp) != Null ==>
      Succeeded(resp) && ResultData(resp) != [] && QuerySingle(resp) in ItemValue(ResultData(resp)[0])
  {
  }

  /** Despite its docstring the selection can give None: a success whose first item has no value pair. */
  lemma QuerySingleCanBeNone()
    ensures QuerySingle(Response(Some("success"), Some(Data(Some([Item(None, None)]))))) == Null
  {
  }
}
