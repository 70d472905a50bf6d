/**
 * One line of Prometheus text exposition (format version 0.0.4) as the latency
 * parser reads it: which of the four sample families the line belongs to, the
 * pattern that extracts its labels and value, and the typed sample it yields.
 *
 * Each family's pattern is `<metric>\{` followed, for each label key in turn,
 * by a lazy `.*?` and `key="([^"]+)"`, and finally by `.*?\}\s+([\d.]+)`; the
 * pattern is anchored at the start of the line only. `MatchFrom` is the
 * backtracking search of that pattern (earliest positions first), and `Shape`
 * says declaratively what a match looks like.
 */
module Exposition {
  import opened Wrappers
  import opened Text
  import opened PyFloat

  const BucketMetric: string := "fastapi_request_duration_seconds_bucket"
  const SumMetric: string := "fastapi_request_duration_seconds_sum"
  const CountMetric: string := "fastapi_request_duration_seconds_count"
  const RequestsMetric: string := "fastapi_requests_total"

  /** The index of the first `"` at or after `j`, or `|s|` when there is none. */
  function QuoteFrom(s: string, j: nat): (q: nat)
    requires j <= |s|
    ensures j <= q <= |s|
    ensures forall k :: j <= k < q ==> s[k] != '"'
    ensures q == |s| || s[q] == '"'
    decreases |s| - j
  {
    if j < |s| && s[j] != '"' then QuoteFrom(s, j + 1) else j
  }

  /** The end of the run of whitespace (`\s`) that starts at `j`. */
  function SpaceRun(s: string, j: nat): (w: nat)
    requires j <= |s|
    ensures j <= w <= |s|
    ensures forall k :: j <= k < w ==> IsUnicodeSpace(s[k])
    ensures w == |s| || !IsUnicodeSpace(s[w])
    decreases |s| - j
  {
    if j < |s| && IsUnicodeSpace(s[j]) then SpaceRun(s, j + 1) else j
  }

  /** The end of the run of `[\d.]` characters that starts at `j`. */
  function ValueRun(s: string, j: nat): (e: nat)
    requires j <= |s|
    ensures j <= e <= |s|
    ensures forall k :: j <= k < e ==> IsValueChar(s[k])
    ensures e == |s| || !IsValueChar(s[e])
    decreases |s| - j
  {
    if j < |s| && IsValueChar(s[j]) then ValueRun(s, j + 1) else j
  }

  /** `key="([^"]+)"` tried at index `p`: the captured value and the index just past the closing quote. */
  function LabelAt(s: string, p: nat, key: string): (r: Option<(string, nat)>)
    ensures r.Some? ==> p < r.value.1 <= |s|
  {
    var open := key + "=\"";
    if p + |open| <= |s| && s[p..p + |open|] == open then
      var j := p + |open|;
      var q := QuoteFrom(s, j);
      if j < q < |s| then Some((s[j..q], q + 1)) else None
    else None
  }

  /** `\}\s+([\d.]+)` tried at index `p`: the captured value token. */
  function TailAt(s: string, p: nat): Option<string> {
    if p < |s| && s[p] == '}' then
      var w := SpaceRun(s, p + 1);
      if p + 1 < w < |s| && IsValueChar(s[w]) then Some(s[w..ValueRun(s, w)]) else None
    else None
  }

  /**
   * The pattern after `<metric>\{`, tried from index `p`: the captures of the
   * label keys, in order, and the value token. A lazy `.*?` first tries to
   * consume nothing and gives up at a line break.
   */
  function MatchFrom(s: string, p: nat, keys: seq<string>): (r: Option<(seq<string>, string)>)
    ensures r.Some? ==> |r.value.0| == |keys|
    decreases |keys|, |s| - p
  {
    if p > |s| then None
    else
      var here :=
        if keys == [] then
          match TailAt(s, p)
          case Some(v) => Some(([], v))
          case None => None
        else
          match LabelAt(s, p, keys[0])
          case None => None
          case Some((cap, k)) =>
            match MatchFrom(s, k, keys[1..])
            case None => None
            case Some((caps, v)) => Some(([cap] + caps, v));
      if here.Some? then here
      else if p < |s| && s[p] != '\n' then MatchFrom(s, p + 1, keys)
      else None
  }

  /** `re.match` of a family's pattern against a whole line. */
  function MatchSample(line: string, metric: string, keys: seq<string>): (r: Option<(seq<string>, string)>)
    ensures r.Some? ==> |r.value.0| == |keys|
  {
    if StartsWith(line, metric + "{") then MatchFrom(line, |metric| + 1, keys) else None
  }

  // ---------------------------------------------------------------------
  // What a match looks like, stated without the search.

  ghost predicate NoNewline(s: string, p: nat, q: nat) {
    p <= q <= |s| && forall i :: p <= i < q ==> s[i] != '\n'
  }

  /** `s[q..k]` is `key="cap"` with a non-empty, quote-free `cap`. */
  ghost predicate LabelSpan(s: string, q: nat, key: string, cap: string, k: nat) {
    k == q + |key| + |cap| + 3 && k <= |s| && s[q..k] == key + "=\"" + cap + "\""
    && cap != "" && '"' !in cap
  }

  /** At `q`: a closing brace, whitespace up to `w`, then the whole run of digits and points `v`. */
  ghost predicate TailSpan(s: string, q: nat, w: nat, v: string) {
    q + 1 < w && w + |v| <= |s| && s[q] == '}'
    && (forall i :: q < i < w ==> IsUnicodeSpace(s[i]))
    && s[w..w + |v|] == v && v != ""
    && (forall i :: 0 <= i < |v| ==> IsValueChar(v[i]))
    && (w + |v| == |s| || !IsValueChar(s[w + |v|]))
  }

  /** From `p` on, the line holds the labels `keys[i]="caps[i]"` in this order and then the tail with value `v`. */
  ghost predicate Shape(s: string, p: nat, keys: seq<string>, caps: seq<string>, v: string)
    decreases |keys|
  {
    |caps| == |keys| &&
    if keys == [] then
      exists q, w :: NoNewline(s, p, q) && TailSpan(s, q, w, v)
    else
      exists q, k :: NoNewline(s, p, q) && LabelSpan(s, q, keys[0], caps[0], k)
        && Shape(s, k, keys[1..], caps[1..], v)
  }

  ghost predicate LineShape(line: string, metric: string, keys: seq<string>, caps: seq<string>, v: string) {
    StartsWith(line, metric + "{") && Shape(line, |metric| + 1, keys, caps, v)
  }

  lemma LabelAtSpan(s: string, p: nat, key: string, cap: string, k: nat)
    ensures LabelAt(s, p, key) == Some((cap, k)) <==> LabelSpan(s, p, key, cap, k)
  {
    if LabelAt(s, p, key) == Some((cap, k)) {
      LabelAtFound(s, p, key);
    }
    if LabelSpan(s, p, key, cap, k) {
      LabelSpanFound(s, p, key, cap, k);
    }
  }

  lemma LabelAtFound(s: string, p: nat, key: string)
    requires LabelAt(s, p, key).Some?
    ensures LabelSpan(s, p, key, LabelAt(s, p, key).value.0, LabelAt(s, p, key).value.1)
  {
    var open := key + "=\"";
    var j := p + |open|;
    var q := QuoteFrom(s, j);
    var cap, k := LabelAt(s, p, key).value.0, LabelAt(s, p, key).value.1;
    assert s[p..k] == s[p..j] + s[j..q] + s[q..k];
    assert '"' !in cap by {
      forall i | 0 <= i < |cap| ensures cap[i] != '"' {
        assert cap[i] == s[j + i];
      }
    }
  }

  lemma LabelSpanFound(s: string, p: nat, key: string, cap: string, k: nat)
    requires LabelSpan(s, p, key, cap, k)
    ensures LabelAt(s, p, key) == Some((cap, k))
  {
    var open := key + "=\"";
    var lit := open + cap + "\"";
    var j := p + |open|;
    var q := j + |cap|;
    assert s[p..k] == lit;
    forall i | 0 <= i < |lit| ensures s[p + i] == lit[i] {
      assert s[p..k][i] == s[p + i];
    }
    assert s[p..j] == open by {
      forall i | 0 <= i < |open| ensures s[p..j][i] == open[i] {
        assert lit[i] == open[i];
      }
    }
    assert s[j..q] == cap by {
      forall i | 0 <= i < |cap| ensures s[j..q][i] == cap[i] {
        assert s[p + (|open| + i)] == lit[|open| + i];
      }
    }
    assert s[q] == '"' by {
      assert s[p + (|open| + |cap|)] == lit[|open| + |cap|];
    }
    forall i | j <= i < q ensures s[i] != '"' {
      assert s[i] == s[j..q][i - j];
    }
    QuoteFromIs(s, j, q);
  }

  lemma QuoteFromIs(s: string, j: nat, q: nat)
    requires j <= q < |s| && s[q] == '"'
    requires forall i :: j <= i < q ==> s[i] != '"'
    ensures QuoteFrom(s, j) == q
    decreases q - j
  {
    if j < q {
      QuoteFromIs(s, j + 1, q);
    }
  }

  lemma TailAtSpan(s: string, q: nat, v: string)
    ensures TailAt(s, q) == Some(v) <==> exists w :: TailSpan(s, q, w, v)
  {
    if TailAt(s, q) == Some(v) {
      var w := SpaceRun(s, q + 1);
      var e := ValueRun(s, w);
      assert TailSpan(s, q, w, v);
    }
    if w: nat :| TailSpan(s, q, w, v) {
      TailSpanFound(s, q, w, v);
    }
  }

  lemma TailSpanFound(s: string, q: nat, w: nat, v: string)
    requires TailSpan(s, q, w, v)
    ensures TailAt(s, q) == Some(v)
  {
    assert IsValueChar(s[w]) by {
      assert s[w] == v[0];
    }
    SpaceRunIs(s, q + 1, w);
    forall i | w <= i < w + |v| ensures IsValueChar(s[i]) {
      assert s[i] == v[i - w];
    }
    ValueRunIs(s, w, w + |v|);
  }

  lemma SpaceRunIs(s: string, j: nat, w: nat)
    requires j <= w < |s|
    requires forall k :: j <= k < w ==> IsUnicodeSpace(s[k])
    requires IsValueChar(s[w])
    ensures SpaceRun(s, j) == w
    decreases w - j
  {
    if j < w {
      SpaceRunIs(s, j + 1, w);
    }
  }

  lemma ValueRunIs(s: string, j: nat, e: nat)
    requires j <= e <= |s|
    requires forall k :: j <= k < e ==> IsValueChar(s[k])
    requires e == |s| || !IsValueChar(s[e])
    ensures ValueRun(s, j) == e
    decreases e - j
  {
    if j < e {
      ValueRunIs(s, j + 1, e);
    }
  }

  /** Whatever the search returns is a genuine match of the pattern. */
  lemma {:induction false} MatchFromSound(s: string, p: nat, keys: seq<string>)
    ensures MatchFrom(s, p, keys).Some? ==>
      Shape(s, p, keys, MatchFrom(s, p, keys).value.0, MatchFrom(s, p, keys).value.1)
    decreases |keys|, |s| - p
  {
    var r := MatchFrom(s, p, keys);
    if r.None? {
      return;
    }
    var caps, v := r.value.0, r.value.1;
    if keys == [] {
      if TailAt(s, p).Some? {
        assert v == TailAt(s, p).value;
        TailAtSpan(s, p, v);
        var w :| TailSpan(s, p, w, v);
        assert NoNewline(s, p, p);
      } else {
        MatchFromSound(s, p + 1, keys);
        var q, w :| NoNewline(s, p + 1, q) && TailSpan(s, q, w, v);
        assert NoNewline(s, p, q);
      }
    } else {
      var la := LabelAt(s, p, keys[0]);
      if la.Some? && MatchFrom(s, la.value.1, keys[1..]).Some? {
        var cap, k := la.value.0, la.value.1;
        MatchFromSound(s, k, keys[1..]);
        LabelAtSpan(s, p, keys[0], cap, k);
        assert caps[0] == cap && caps[1..] == MatchFrom(s, k, keys[1..]).value.0;
        assert NoNewline(s, p, p);
      } else {
        MatchFromSound(s, p + 1, keys);
        var q, k :| NoNewline(s, p + 1, q) && LabelSpan(s, q, keys[0], caps[0], k)
          && Shape(s, k, keys[1..], caps[1..], v);
        assert NoNewline(s, p, q);
      }
    }
  }

  lemma MatchFromSkip(s: string, p: nat, keys: seq<string>)
    requires p < |s| && s[p] != '\n' && MatchFrom(s, p + 1, keys).Some?
    ensures MatchFrom(s, p, keys).Some?
  {
  }

  lemma MatchFromLabel(s: string, p: nat, keys: seq<string>, cap: string, k: nat)
    requires p <= |s| && keys != [] && LabelAt(s, p, keys[0]) == Some((cap, k))
    requires MatchFrom(s, k, keys[1..]).Some?
    ensures MatchFrom(s, p, keys).Some?
  {
  }

  lemma MatchFromTail(s: string, p: nat, v: string)
    requires p <= |s| && TailAt(s, p) == Some(v)
    ensures MatchFrom(s, p, []).Some?
  {
  }

  /** Whenever the pattern can match, the search finds a match. */
  lemma {:induction false} MatchFromComplete(s: string, p: nat, keys: seq<string>, caps: seq<string>, v: string)
    requires Shape(s, p, keys, caps, v)
    ensures MatchFrom(s, p, keys).Some?
    decreases |keys|, |s| - p, 1
  {
    if keys == [] {
      TailComplete(s, p, caps, v);
    } else {
      LabelsComplete(s, p, keys, caps, v);
    }
  }

  lemma TailComplete(s: string, p: nat, caps: seq<string>, v: string)
    requires Shape(s, p, [], caps, v)
    ensures MatchFrom(s, p, []).Some?
  {
    var q, w :| NoNewline(s, p, q) && TailSpan(s, q, w, v);
    TailFoundFrom(s, p, q, w, v);
  }

  /** The lazy search from `p` reaches a tail at `q` across a gap without line breaks. */
  lemma {:induction false} TailFoundFrom(s: string, p: nat, q: nat, w: nat, v: string)
    requires NoNewline(s, p, q) && TailSpan(s, q, w, v)
    ensures MatchFrom(s, p, []).Some?
    decreases q - p
  {
    if q == p {
      TailSpanFound(s, p, w, v);
      MatchFromTail(s, p, v);
    } else {
      assert s[p] != '\n';
      assert NoNewline(s, p + 1, q);
      TailFoundFrom(s, p + 1, q, w, v);
      MatchFromSkip(s, p, []);
    }
  }

  lemma {:induction false} LabelsComplete(s: string, p: nat, keys: seq<string>, caps: seq<string>, v: string)
    requires keys != [] && Shape(s, p, keys, caps, v)
    ensures MatchFrom(s, p, keys).Some?
    decreases |keys|, |s| - p, 0
  {
    var q, k :| NoNewline(s, p, q) && LabelSpan(s, q, keys[0], caps[0], k)
      && Shape(s, k, keys[1..], caps[1..], v);
    if q == p {
      LabelSpanFound(s, p, keys[0], caps[0], k);
      MatchFromComplete(s, k, keys[1..], caps[1..], v);
      MatchFromLabel(s, p, keys, caps[0], k);
    } else {
      assert s[p] != '\n';
      assert NoNewline(s, p + 1, q);
      assert Shape(s, p + 1, keys, caps, v);
      LabelsComplete(s, p + 1, keys, caps, v);
      MatchFromSkip(s, p, keys);
    }
  }

  // ---------------------------------------------------------------------
  // Which match the search returns: the leftmost one.

  /** A tail `\}\s+([\d.]+)` starts at `q`. */
  ghost predicate TailStarts(s: string, q: nat) {
    exists w, v :: TailSpan(s, q, w, v)
  }

  /** A label `keys[0]` starts at `q` and the rest of the pattern can match after it. */
  ghost predicate LabelFollowed(s: string, q: nat, keys: seq<string>)
    requires keys != []
  {
    exists cap, k, caps, v :: LabelSpan(s, q, keys[0], cap, k) && Shape(s, k, keys[1..], caps, v)
  }

  /**
   * The match a backtracking `re.match` reports: like `Shape`, but each lazy
   * `.*?` stops at the first position from which the rest of the pattern can
   * still match, taken key by key from the left.
   */
  ghost predicate Leftmost(s: string, p: nat, keys: seq<string>, caps: seq<string>, v: string)
    decreases |keys|
  {
    |caps| == |keys| &&
    if keys == [] then
      exists q, w :: NoNewline(s, p, q) && TailSpan(s, q, w, v)
        && forall q' :: p <= q' < q ==> !TailStarts(s, q')
    else
      exists q, k :: NoNewline(s, p, q) && LabelSpan(s, q, keys[0], caps[0], k)
        && Leftmost(s, k, keys[1..], caps[1..], v)
        && forall q' :: p <= q' < q ==> !LabelFollowed(s, q', keys)
  }

  lemma NoTailHere(s: string, p: nat)
    requires TailAt(s, p).None?
    ensures !TailStarts(s, p)
  {
    if TailStarts(s, p) {
      var w, v :| TailSpan(s, p, w, v);
      TailSpanFound(s, p, w, v);
    }
  }

  lemma NoLabelHere(s: string, p: nat, keys: seq<string>)
    requires keys != []
    requires LabelAt(s, p, keys[0]).None? || MatchFrom(s, LabelAt(s, p, keys[0]).value.1, keys[1..]).None?
    ensures !LabelFollowed(s, p, keys)
  {
    if LabelFollowed(s, p, keys) {
      var cap, k, caps, v :| LabelSpan(s, p, keys[0], cap, k) && Shape(s, k, keys[1..], caps, v);
      LabelSpanFound(s, p, keys[0], cap, k);
      MatchFromComplete(s, k, keys[1..], caps, v);
    }
  }

  lemma TailHere(s: string, p: nat)
    ensures TailAt(s, p).Some? ==> TailStarts(s, p)
  {
    if TailAt(s, p).Some? {
      TailAtSpan(s, p, TailAt(s, p).value);
    }
  }

  lemma LabelHere(s: string, p: nat, keys: seq<string>)
    requires keys != []
    ensures LabelAt(s, p, keys[0]).Some? && MatchFrom(s, LabelAt(s, p, keys[0]).value.1, keys[1..]).Some? ==>
      LabelFollowed(s, p, keys)
  {
    if LabelAt(s, p, keys[0]).None? || MatchFrom(s, LabelAt(s, p, keys[0]).value.1, keys[1..]).None? {
      return;
    }
    var cap, k := LabelAt(s, p, keys[0]).value.0, LabelAt(s, p, keys[0]).value.1;
    var r := MatchFrom(s, k, keys[1..]);
    LabelAtFound(s, p, keys[0]);
    MatchFromSound(s, k, keys[1..]);
    assert LabelSpan(s, p, keys[0], cap, k) && Shape(s, k, keys[1..], r.value.0, r.value.1);
  }

  /** The search returns the leftmost match. */
  lemma {:induction false} MatchFromEarliest(s: string, p: nat, keys: seq<string>)
    ensures MatchFrom(s, p, keys).Some? ==>
      Leftmost(s, p, keys, MatchFrom(s, p, keys).value.0, MatchFrom(s, p, keys).value.1)
    decreases |keys|, |s| - p
  {
    var r := MatchFrom(s, p, keys);
    if r.None? {
      return;
    }
    var caps, v := r.value.0, r.value.1;
    if keys == [] {
      if TailAt(s, p).Some? {
        TailAtSpan(s, p, v);
        var w :| TailSpan(s, p, w, v);
        assert NoNewline(s, p, p);
      } else {
        NoTailHere(s, p);
        MatchFromEarliest(s, p + 1, keys);
        var q, w :| NoNewline(s, p + 1, q) && TailSpan(s, q, w, v)
          && forall q' :: p + 1 <= q' < q ==> !TailStarts(s, q');
        assert NoNewline(s, p, q);
      }
    } else {
      var la := LabelAt(s, p, keys[0]);
      if la.Some? && MatchFrom(s, la.value.1, keys[1..]).Some? {
        var cap, k := la.value.0, la.value.1;
        MatchFromEarliest(s, k, keys[1..]);
        LabelAtFound(s, p, keys[0]);
        assert caps[0] == cap && caps[1..] == MatchFrom(s, k, keys[1..]).value.0;
        assert NoNewline(s, p, p);
      } else {
        NoLabelHere(s, p, keys);
        MatchFromEarliest(s, p + 1, keys);
        var q, k :| NoNewline(s, p + 1, q) && LabelSpan(s, q, keys[0], caps[0], k)
          && Leftmost(s, k, keys[1..], caps[1..], v)
          && forall q' :: p + 1 <= q' < q ==> !LabelFollowed(s, q', keys);
        assert NoNewline(s, p, q);
      }
    }
  }

  lemma {:induction false} TailFirstFrom(s: string, p: nat, q: nat, w: nat, v: string)
    requires NoNewline(s, p, q) && TailSpan(s, q, w, v)
    requires forall q' :: p <= q' < q ==> !TailStarts(s, q')
    ensures MatchFrom(s, p, []) == Some(([], v))
    decreases q - p
  {
    if q == p {
      TailSpanFound(s, p, w, v);
    } else {
      TailHere(s, p);
      assert s[p] != '\n';
      TailFirstFrom(s, p + 1, q, w, v);
    }
  }

  lemma {:induction false} LabelFirstFrom(s: string, p: nat, q: nat, k: nat, keys: seq<string>, caps: seq<string>, v: string)
    requires keys != [] && |caps| == |keys|
    requires NoNewline(s, p, q) && LabelSpan(s, q, keys[0], caps[0], k)
    requires MatchFrom(s, k, keys[1..]) == Some((caps[1..], v))
    requires forall q' :: p <= q' < q ==> !LabelFollowed(s, q', keys)
    ensures MatchFrom(s, p, keys) == Some((caps, v))
    decreases q - p
  {
    if q == p {
      LabelSpanFound(s, p, keys[0], caps[0], k);
      assert [caps[0]] + caps[1..] == caps;
    } else {
      LabelHere(s, p, keys);
      assert s[p] != '\n';
      LabelFirstFrom(s, p + 1, q, k, keys, caps, v);
    }
  }

  /** The search returns a capture list exactly when it is the leftmost match. */
  lemma {:induction false} MatchFromLeftmost(s: string, p: nat, keys: seq<string>, caps: seq<string>, v: string)
    ensures MatchFrom(s, p, keys) == Some((caps, v)) <==> Leftmost(s, p, keys, caps, v)
    decreases |keys|
  {
    MatchFromEarliest(s, p, keys);
    if Leftmost(s, p, keys, caps, v) {
      if keys == [] {
        var q, w :| NoNewline(s, p, q) && TailSpan(s, q, w, v)
          && forall q' :: p <= q' < q ==> !TailStarts(s, q');
        TailFirstFrom(s, p, q, w, v);
        assert caps == [];
      } else {
        var q, k :| NoNewline(s, p, q) && LabelSpan(s, q, keys[0], caps[0], k)
          && Leftmost(s, k, keys[1..], caps[1..], v)
          && forall q' :: p <= q' < q ==> !LabelFollowed(s, q', keys);
        MatchFromLeftmost(s, k, keys[1..], caps[1..], v);
        LabelFirstFrom(s, p, q, k, keys, caps, v);
      }
    }
  }

  /** `re.match` of a family's pattern succeeds exactly when the line has the pattern's shape. */
  lemma MatchSampleCorrect(line: string, metric: string, keys: seq<string>)
    ensures MatchSample(line, metric, keys).Some? ==>
      LineShape(line, metric, keys, MatchSample(line, metric, keys).value.0, MatchSample(line, metric, keys).value.1)
    ensures MatchSample(line, metric, keys).None? <==> forall caps, v :: !LineShape(line, metric, keys, caps, v)
  {
    if StartsWith(line, metric + "{") {
      MatchFromSound(line, |metric| + 1, keys);
      var r := MatchSample(line, metric, keys);
      if r.Some? {
        assert LineShape(line, metric, keys, r.value.0, r.value.1);
      }
      forall caps, v | LineShape(line, metric, keys, caps, v) ensures MatchSample(line, metric, keys).Some? {
        MatchFromComplete(line, |metric| + 1, keys, caps, v);
      }
    }
  }

  /** `re.match` of a family's pattern reports exactly the leftmost match on the line. */
  lemma MatchSampleLeftmost(line: string, metric: string, keys: seq<string>, caps: seq<string>, v: string)
    ensures MatchSample(line, metric, keys) == Some((caps, v)) <==>
      StartsWith(line, metric + "{") && Leftmost(line, |metric| + 1, keys, caps, v)
  {
    MatchFromLeftmost(line, |metric| + 1, keys, caps, v);
  }

  // ---------------------------------------------------------------------
  // Line classification.

  /** The four sample families the parser recognises. */
  datatype Family = BucketFamily | SumFamily | CountFamily | RequestsFamily {
    function Metric(): string {
      match this
      case BucketFamily => BucketMetric
      case SumFamily => SumMetric
      case CountFamily => CountMetric
      case RequestsFamily => RequestsMetric
    }

    /** The label keys the family's pattern captures, in the order they must appear. */
    function Keys(): seq<string> {
      match this
      case BucketFamily => ["le", "endpoint"]
      case SumFamily => ["endpoint"]
      case CountFamily => ["endpoint"]
      case RequestsFamily => ["method", "endpoint"]
    }
  }

  /** One recognised sample, or a line the scan passes over. */
  datatype Sample =
    | Bucket(endpoint: string, bound: Float, count: real)
    | Sum(endpoint: string, total: real)
    | Count(endpoint: string, observations: real)
    | Requests(endpoint: string, httpMethod: string, requests: int)
    | Ignored

  /**
   * Why a scan stops: `ValueError` is the exception `float()` raises, and
   * nothing catches, for a token outside its grammar. `NanBoundary` is not a
   * Python exception: `float("nan")` succeeds, but this model does not capture
   * the later sort with a NaN key, so it stops at such an `le` label instead.
   */
  datatype ParseError = ValueError(text: string) | NanBoundary(le: string)

  /**
   * The substring test that picks the family a line is tried against: the
   * first test that holds wins, so at most one pattern is ever tried.
   */
  function FamilyOf(line: string): Option<Family> {
    if Contains(line, BucketMetric) then Some(BucketFamily)
    else if Contains(line, SumMetric) && !Contains(line, "bucket") then Some(SumFamily)
    else if Contains(line, CountMetric) then Some(CountFamily)
    else if Contains(line, RequestsMetric) && !Contains(line, "bucket") then Some(RequestsFamily)
    else None
  }

  /** `float(token)` for a sample value. */
  function ParseValue(token: string): Result<real, ParseError> {
    match ParseFloat(token)
    case Finite(x) => Success(x)
    case _ => Failure(ValueError(token))
  }

  /** The bucket boundary of an `le` label: the literal `+Inf`, or `float(label)`. */
  function ParseBound(le: string): (r: Result<Float, ParseError>)
    ensures r.Success? ==> !r.value.NaN?
  {
    if le == "+Inf" then Success(PosInf)
    else match ParseFloat(le)
      case Finite(x) => Success(Num(x))
      case Infinite(negative) => Success(if negative then NegInf else PosInf)
      case NotANumber => Failure(NanBoundary(le))
      case Invalid => Failure(ValueError(le))
  }

  /** Python's `int(x)`: truncation toward zero. */
  function Trunc(x: real): (n: int)
    ensures x >= 0.0 ==> 0 <= n && n as real <= x < n as real + 1.0
    ensures x < 0.0 ==> n <= 0 && x <= n as real < x + 1.0
  {
    if x >= 0.0 then x.Floor else -((-x).Floor)
  }

  /** Builds the sample from a family's captures, converting the numbers in the order the source does. */
  function BuildSample(family: Family, caps: seq<string>, token: string): (r: Result<Sample, ParseError>)
    requires |caps| == |family.Keys()|
    ensures r.Success? ==> !r.value.Ignored?
    ensures r.Success? ==> (r.value.Bucket? <==> family == BucketFamily)
    ensures r.Success? ==> (r.value.Sum? <==> family == SumFamily)
    ensures r.Success? ==> (r.value.Count? <==> family == CountFamily)
    ensures r.Success? ==> (r.value.Requests? <==> family == RequestsFamily)
  {
    match family
    case BucketFamily =>
      var bound :- ParseBound(caps[0]);
      var value :- ParseValue(token);
      Success(Bucket(caps[1], bound, value))
    case SumFamily =>
      var value :- ParseValue(token);
      Success(Sum(caps[0], value))
    case CountFamily =>
      var value :- ParseValue(token);
      Success(Count(caps[0], value))
    case RequestsFamily =>
      var value :- ParseValue(token);
      Success(Requests(caps[1], caps[0], Trunc(value)))
  }

  /** What one line contributes to the scan, or the exception it raises. */
  function ClassifyLine(line: string): Result<Sample, ParseError> {
    if line == "" || StartsWith(line, "#") then Success(Ignored)
    else match FamilyOf(line)
      case None => Success(Ignored)
      case Some(family) =>
        match MatchSample(line, family.Metric(), family.Keys())
        case None => Success(Ignored)
        case Some((caps, token)) => BuildSample(family, caps, token)
  }

  /** A sample value is `float()` of a run of digits and points: it is accepted exactly when it is a decimal. */
  lemma ParseValueOfToken(token: string)
    requires forall i :: 0 <= i < |token| ==> IsValueChar(token[i])
    ensures ParseValue(token).Success? <==> HasDigit(token) && AtMostOnePoint(token)
    ensures ParseValue(token).Success? ==> ParseValue(token).value >= 0.0
  {
    ValueTokenParse(token);
  }

  /**
   * A line is passed over exactly when it is empty, a comment, passes none of
   * the four name tests, or does not have the shape of its family's pattern.
   * The name tests are substring tests: a `_sum` or `requests_total` line that
   * contains `bucket` anywhere, even inside a label value, passes none of them.
   */
  lemma ClassifyIgnored(line: string)
    ensures ClassifyLine(line) == Success(Ignored) <==>
      || line == ""
      || StartsWith(line, "#")
      || FamilyOf(line).None?
      || forall caps, v :: !LineShape(line, FamilyOf(line).value.Metric(), FamilyOf(line).value.Keys(), caps, v)
  {
    if line != "" && !StartsWith(line, "#") && FamilyOf(line).Some? {
      var f := FamilyOf(line).value;
      MatchSampleCorrect(line, f.Metric(), f.Keys());
    }
  }

  /** A recorded sample is built from the captures of its line's family pattern. */
  lemma MatchOfRecorded(line: string) returns (f: Family, caps: seq<string>, token: string)
    requires ClassifyLine(line).Success? && !ClassifyLine(line).value.Ignored?
    ensures FamilyOf(line) == Some(f) && |caps| == |f.Keys()|
    ensures LineShape(line, f.Metric(), f.Keys(), caps, token)
    ensures ParseValue(token).Success? ==> ParseValue(token).value >= 0.0
    ensures ClassifyLine(line) == BuildSample(f, caps, token)
  {
    f := FamilyOf(line).value;
    var r := MatchSample(line, f.Metric(), f.Keys());
    caps, token := r.value.0, r.value.1;
    MatchSampleCorrect(line, f.Metric(), f.Keys());
    TokenIsValueRun(line, |f.Metric()| + 1, f.Keys(), caps, token);
    ParseValueOfToken(token);
  }

  /**
   * A bucket sample comes from a bucket line: its endpoint is the captured
   * `endpoint` label, its boundary `float()` of the captured `le` label and its
   * count `float()` of the value token, a non-negative number.
   */
  lemma ClassifyBucketSound(line: string, ep: string, b: Float, c: real)
    requires ClassifyLine(line) == Success(Bucket(ep, b, c))
    ensures FamilyOf(line) == Some(BucketFamily) && c >= 0.0 && !b.NaN?
    ensures exists le, token :: (LineShape(line, BucketMetric, ["le", "endpoint"], [le, ep], token)
      && ParseBound(le) == Success(b) && ParseValue(token) == Success(c))
  {
    var f, caps, token := MatchOfRecorded(line);
    assert f == BucketFamily;
    assert caps == [caps[0], caps[1]];
    assert ParseBound(caps[0]) == Success(b);
  }

  /** A sum sample comes from a sum line with that endpoint label; its value is non-negative. */
  lemma ClassifySumSound(line: string, ep: string, x: real)
    requires ClassifyLine(line) == Success(Sum(ep, x))
    ensures FamilyOf(line) == Some(SumFamily) && x >= 0.0
    ensures exists token :: LineShape(line, SumMetric, ["endpoint"], [ep], token) && ParseValue(token) == Success(x)
  {
    var f, caps, token := MatchOfRecorded(line);
    assert f == SumFamily;
    assert caps == [caps[0]];
  }

  /** A count sample comes from a count line with that endpoint label; its value is non-negative. */
  lemma ClassifyCountSound(line: string, ep: string, x: real)
    requires ClassifyLine(line) == Success(Count(ep, x))
    ensures FamilyOf(line) == Some(CountFamily) && x >= 0.0
    ensures exists token :: LineShape(line, CountMetric, ["endpoint"], [ep], token) && ParseValue(token) == Success(x)
  {
    var f, caps, token := MatchOfRecorded(line);
    assert f == CountFamily;
    assert caps == [caps[0]];
  }

  /** A request-counter sample comes from a `fastapi_requests_total` line; its count is `int(float(value))`, never negative. */
  lemma ClassifyRequestsSound(line: string, ep: string, m: string, n: int)
    requires ClassifyLine(line) == Success(Requests(ep, m, n))
    ensures FamilyOf(line) == Some(RequestsFamily) && n >= 0
    ensures exists token :: (LineShape(line, RequestsMetric, ["method", "endpoint"], [m, ep], token)
      && ParseValue(token).Success? && n == Trunc(ParseValue(token).value))
  {
    var f, caps, token := MatchOfRecorded(line);
    assert f == RequestsFamily;
    assert caps == [caps[0], caps[1]];
  }

  /** The value a match captures is a run of digits and points. */
  lemma {:induction false} TokenIsValueRun(s: string, p: nat, keys: seq<string>, caps: seq<string>, v: string)
    requires Shape(s, p, keys, caps, v)
    ensures forall i :: 0 <= i < |v| ==> IsValueChar(v[i])
    decreases |keys|
  {
    if keys != [] {
      var q, k :| NoNewline(s, p, q) && LabelSpan(s, q, keys[0], caps[0], k)
        && Shape(s, k, keys[1..], caps[1..], v);
      TokenIsValueRun(s, k, keys[1..], caps[1..], v);
    }
  }

  // ---------------------------------------------------------------------
  // Two lines on which the substring tests and the lazy search surprise.

  /** A request-counter line whose label `xendpoint` comes before its `endpoint`. */
  const ShadowedLine: string := RequestsMetric + ShadowedTail
  const ShadowedTail: string := "{" + "method=\"GET\"" + ",x" + "endpoint=\"/b\"" + ",endpoint=\"/a\"} 1"

  lemma ShadowedLineParts()
    ensures |ShadowedLine| == 67 && StartsWith(ShadowedLine, RequestsMetric + "{")
    ensures NoNewline(ShadowedLine, 23, 64) && ShadowedLine[35] == ',' && ShadowedLine[36] == 'x'
    ensures LabelSpan(ShadowedLine, 23, "method", "GET", 35)
    ensures LabelSpan(ShadowedLine, 37, "endpoint", "/b", 50)
    ensures TailSpan(ShadowedLine, 64, 66, "1")
    ensures forall i :: 50 <= i < 64 ==> ShadowedLine[i] != '}'
  {
  }

  lemma ShadowedLineLetters()
    ensures 'f' !in ShadowedLine[1..] && 'k' !in ShadowedLine
  {
    ShadowedLineLacksK();
    assert ShadowedLine[1..] == RequestsMetric[1..] + ShadowedTail;
    assert 'f' !in RequestsMetric[1..];
    assert 'f' !in ShadowedTail;
  }

  lemma ShadowedLineLacksK()
    ensures 'k' !in ShadowedLine
  {
    assert ShadowedLine == RequestsMetric + ShadowedTail;
    assert 'k' !in RequestsMetric;
    assert 'k' !in ShadowedTail;
  }

  lemma TailNeedsBrace(s: string, q: nat)
    ensures TailStarts(s, q) ==> q < |s| && s[q] == '}'
  {
  }

  /** A name test fails on a line whose first character does not recur and that does not start with the name. */
  lemma NameAbsent(line: string, name: string)
    requires |line| > 0 && name != [] && name[0] !in line[1..]
    requires !StartsWith(line, name)
    ensures !Contains(line, name)
  {
    ContainsPrefixOrLater(line, name);
  }

  /** A label `key` cannot start at a character other than the key's first one. */
  lemma LabelStartsWithKey(s: string, q: nat, keys: seq<string>)
    requires keys != [] && keys[0] != [] && q < |s|
    ensures LabelFollowed(s, q, keys) ==> s[q] == keys[0][0]
  {
    if LabelFollowed(s, q, keys) {
      var cap: string, k: nat, caps: seq<string>, v: string :|
        LabelSpan(s, q, keys[0], cap, k) && Shape(s, k, keys[1..], caps, v);
      assert s[q] == s[q..k][0];
    }
  }

  /** The search on a line laid out like `ShadowedLine`, for any such line. */
  lemma ShadowedSearch(s: string)
    requires |s| == 67 && NoNewline(s, 23, 64) && s[35] == ',' && s[36] == 'x'
    requires LabelSpan(s, 23, "method", "GET", 35) && LabelSpan(s, 37, "endpoint", "/b", 50)
    requires TailSpan(s, 64, 66, "1") && forall i :: 50 <= i < 64 ==> s[i] != '}'
    ensures MatchFrom(s, 23, ["method", "endpoint"]) == Some((["GET", "/b"], "1"))
  {
    forall q' | 50 <= q' < 64 ensures !TailStarts(s, q') {
      TailNeedsBrace(s, q');
    }
    TailFirstFrom(s, 50, 64, 66, "1");
    LabelStartsWithKey(s, 35, ["endpoint"]);
    LabelStartsWithKey(s, 36, ["endpoint"]);
    assert ["endpoint"][1..] == [] && ["/b"][1..] == [];
    LabelFirstFrom(s, 35, 37, 50, ["endpoint"], ["/b"], "1");
    assert ["method", "endpoint"][1..] == ["endpoint"] && ["GET", "/b"][1..] == ["/b"];
    LabelFirstFrom(s, 23, 23, 35, ["method", "endpoint"], ["GET", "/b"], "1");
  }

  /** The name tests on a request-counter line without `f` after its start and without `k`. */
  lemma RequestsFamilyOf(line: string)
    requires StartsWith(line, RequestsMetric) && 'f' !in line[1..] && 'k' !in line
    ensures FamilyOf(line) == Some(RequestsFamily)
  {
    assert line[15] == line[..|RequestsMetric|][15] == 's';
    assert BucketMetric[15] == SumMetric[15] == CountMetric[15] == '_';
    NameAbsent(line, BucketMetric);
    NameAbsent(line, SumMetric);
    NameAbsent(line, CountMetric);
    ContainsChar(line, "bucket", 3);
    assert Contains(line, RequestsMetric);
  }

  /**
   * `.*?endpoint="` stops at the first `endpoint="`, here the tail of the
   * label `xendpoint`: the counter is filed under `/b`, not under `/a`.
   */
  lemma ShadowedEndpoint()
    ensures FamilyOf(ShadowedLine) == Some(RequestsFamily)
    ensures MatchSample(ShadowedLine, RequestsMetric, ["method", "endpoint"]) == Some((["GET", "/b"], "1"))
  {
    ShadowedLineParts();
    ShadowedLineLetters();
    ShadowedSearch(ShadowedLine);
    assert ShadowedLine[..|RequestsMetric|] == RequestsMetric;
    RequestsFamilyOf(ShadowedLine);
  }

  /** A histogram `_sum` line for an endpoint whose path contains `bucket`. */
  const BucketPathSumLine: string := SumMetric + "{endpoint=\"/" + "bucket" + "s\"} 1.5"

  lemma BucketPathSumLineParts()
    ensures StartsWith(BucketPathSumLine, SumMetric) && BucketPathSumLine[15] == '_' && BucketPathSumLine[33] == 's'
    ensures OccursAt(BucketPathSumLine, "bucket", 48)
  {
    var head := SumMetric + "{endpoint=\"/";
    assert |head| == 48;
    assert BucketPathSumLine == head + "bucket" + "s\"} 1.5";
    assert BucketPathSumLine[48..54] == "bucket";
  }

  lemma BucketPathSumLineLetters()
    ensures 'f' !in BucketPathSumLine[1..]
  {
    assert BucketPathSumLine[1..] == SumMetric[1..] + "{endpoint=\"/" + "bucket" + "s\"} 1.5";
    assert 'f' !in SumMetric[1..];
    assert 'f' !in "{endpoint=\"/" + "bucket" + "s\"} 1.5";
  }

  /**
   * The name tests are substring tests: a `_sum` line that contains `bucket`
   * anywhere, here in its endpoint, is tried against no pattern and skipped.
   */
  lemma BucketPathSumIgnored()
    ensures FamilyOf(BucketPathSumLine).None?
    ensures ClassifyLine(BucketPathSumLine) == Success(Ignored)
  {
    var line := BucketPathSumLine;
    BucketPathSumLineParts();
    BucketPathSumLineLetters();
    assert BucketMetric[33] == 'b' && CountMetric[33] == 'c' && RequestsMetric[15] == 's';
    NameAbsent(line, BucketMetric);
    NameAbsent(line, CountMetric);
    NameAbsent(line, RequestsMetric);
    ContainsOccurs(line, "bucket");
  }
}
