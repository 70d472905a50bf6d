/**
 * Python floats as the parser sees them: real numbers extended with the two
 * infinities and NaN, IEEE comparison and the three arithmetic operations the
 * interpolation uses, `round(x, 4)`, and the string grammar of `float(s)`.
 * Finite values are exact reals: binary rounding, overflow and underflow are
 * not modelled.
 */
module PyFloat {
  import opened Wrappers

  datatype Float = Num(x: real) | PosInf | NegInf | NaN

  /** Python's `a < b` on floats (false whenever NaN is involved). */
  predicate Less(a: Float, b: Float) {
    match (a, b)
    case (Num(x), Num(y)) => x < y
    case (NegInf, Num(_)) => true
    case (NegInf, PosInf) => true
    case (Num(_), PosInf) => true
    case _ => false
  }

  /** Python's `a <= b` on floats. */
  predicate AtMost(a: Float, b: Float) {
    Less(a, b) || (a == b && !a.NaN?)
  }

  /** IEEE subtraction `a - b`. */
  function Sub(a: Float, b: Float): Float {
    match (a, b)
    case (Num(x), Num(y)) => Num(x - y)
    case (PosInf, PosInf) => NaN
    case (NegInf, NegInf) => NaN
    case (PosInf, NaN) => NaN
    case (NegInf, NaN) => NaN
    case (PosInf, _) => PosInf
    case (NegInf, _) => NegInf
    case (Num(_), PosInf) => NegInf
    case (Num(_), NegInf) => PosInf
    case _ => NaN
  }

  /** IEEE addition `a + b`. */
  function Add(a: Float, b: Float): Float {
    match (a, b)
    case (Num(x), Num(y)) => Num(x + y)
    case (PosInf, NegInf) => NaN
    case (NegInf, PosInf) => NaN
    case (PosInf, Num(_)) => PosInf
    case (PosInf, PosInf) => PosInf
    case (Num(_), PosInf) => PosInf
    case (NegInf, Num(_)) => NegInf
    case (NegInf, NegInf) => NegInf
    case (Num(_), NegInf) => NegInf
    case _ => NaN
  }

  /** IEEE product `f * a` of a finite factor and a float. */
  function Scale(f: real, a: Float): Float {
    match a
    case Num(x) => Num(f * x)
    case PosInf => if f > 0.0 then PosInf else if f < 0.0 then NegInf else NaN
    case NegInf => if f > 0.0 then NegInf else if f < 0.0 then PosInf else NaN
    case NaN => NaN
  }

  /** Rounds to the nearest integer, ties to the even one (Python's rounding rule). */
  function RoundHalfEven(y: real): (n: int)
    ensures y - 0.5 <= n as real <= y + 0.5
  {
    var f := y.Floor;
    var d := y - f as real;
    if d < 0.5 then f
    else if d > 0.5 then f + 1
    else if f % 2 == 0 then f
    else f + 1
  }

  /** `round(x, 4)` on a finite value. */
  function Round4(x: real): real {
    RoundHalfEven(x * 10000.0) as real / 10000.0
  }

  /** `round(a, 4)` on a float: infinities and NaN are returned unchanged. */
  function RoundFloat(a: Float): (r: Float)
    ensures r.Num? <==> a.Num?
    ensures !a.Num? ==> r == a
    ensures a.Num? ==> a.x - 0.00005 <= r.x <= a.x + 0.00005
  {
    if a.Num? then
      Round4Close(a.x);
      Num(Round4(a.x))
    else a
  }

  lemma RoundHalfEvenMonotone(y: real, z: real)
    requires y <= z
    ensures RoundHalfEven(y) <= RoundHalfEven(z)
  {
    var fy, fz := y.Floor, z.Floor;
    if fy == fz {
      assert y - fy as real <= z - fz as real;
    } else {
      assert fy < fz;
    }
  }

  lemma RoundHalfEvenOfInteger(n: int)
    ensures RoundHalfEven(n as real) == n
  {
    assert (n as real).Floor == n;
  }

  /** `round(·, 4)` never reorders two values. */
  lemma Round4Monotone(x: real, y: real)
    requires x <= y
    ensures Round4(x) <= Round4(y)
  {
    RoundHalfEvenMonotone(x * 10000.0, y * 10000.0);
  }

  /** `round(·, 4)` moves a value by at most half a unit in the fourth decimal place. */
  lemma Round4Close(x: real)
    ensures x - 0.00005 <= Round4(x) <= x + 0.00005
  {
    var n := RoundHalfEven(x * 10000.0);
    assert x * 10000.0 - 0.5 <= n as real <= x * 10000.0 + 0.5;
  }

  /** Rounding an already rounded value changes nothing. */
  lemma Round4Idempotent(x: real)
    ensures Round4(Round4(x)) == Round4(x)
  {
    var n := RoundHalfEven(x * 10000.0);
    assert Round4(x) * 10000.0 == n as real;
    RoundHalfEvenOfInteger(n);
  }

  lemma RoundFloatMonotone(a: Float, b: Float)
    requires AtMost(a, b)
    ensures AtMost(RoundFloat(a), RoundFloat(b))
  {
    if a.Num? && b.Num? {
      Round4Monotone(a.x, b.x);
    }
  }

  // ---------------------------------------------------------------------
  // The grammar of `float(s)` for a str argument.

  /** What `float(s)` produces; `Invalid` is the ValueError it raises. */
  datatype Parsed = Finite(value: real) | Infinite(negative: bool) | NotANumber | Invalid

  predicate IsDigit(c: char) {
    '0' <= c <= '9'
  }

  /** Python's `str.isspace()`, which is also what `\s` matches in a str pattern. */
  predicate IsUnicodeSpace(c: char) {
    var n := c as int;
    n == 0x20 || 0x09 <= n <= 0x0d || 0x1c <= n <= 0x1f || n == 0x85 || n == 0xa0 || n == 0x1680
    || 0x2000 <= n <= 0x200a || n == 0x2028 || n == 0x2029 || n == 0x202f || n == 0x205f || n == 0x3000
  }

  /**
   * The characters `float()` strips from both ends: ASCII whitespace, and every
   * non-ASCII whitespace character (which CPython first turns into a space).
   * The ASCII separators 0x1c-0x1f are whitespace for `str.isspace()` but are not stripped.
   */
  predicate IsStrippedSpace(c: char) {
    IsUnicodeSpace(c) && !(0x1c <= c as int <= 0x1f)
  }

  function StripLeft(s: string): (t: string)
    ensures |t| <= |s| && t == s[|s| - |t|..]
    ensures t == "" || !IsStrippedSpace(t[0])
    decreases |s|
  {
    if s != "" && IsStrippedSpace(s[0]) then StripLeft(s[1..]) else s
  }

  function StripRight(s: string): (t: string)
    ensures |t| <= |s| && t == s[..|t|]
    ensures t == "" || !IsStrippedSpace(t[|t| - 1])
    decreases |s|
  {
    if s != "" && IsStrippedSpace(s[|s| - 1]) then StripRight(s[..|s| - 1]) else s
  }

  function Strip(s: string): string {
    StripRight(StripLeft(s))
  }

  /** Underscores are accepted only between two digits. */
  predicate UnderscoresOk(s: string) {
    forall i :: 0 <= i < |s| && s[i] == '_' ==> 0 < i < |s| - 1 && IsDigit(s[i - 1]) && IsDigit(s[i + 1])
  }

  function RemoveUnderscores(s: string): (t: string)
    ensures '_' !in s ==> t == s
    decreases |s|
  {
    if s == "" then ""
    else (if s[0] == '_' then "" else [s[0]]) + RemoveUnderscores(s[1..])
  }

  function LowerAscii(s: string): string
    decreases |s|
  {
    if s == "" then ""
    else [if 'A' <= s[0] <= 'Z' then (s[0] as int + 32) as char else s[0]] + LowerAscii(s[1..])
  }

  function Pow10(n: nat): (p: nat)
    ensures p >= 1
  {
    if n == 0 then 1 else 10 * Pow10(n - 1)
  }

  function Scale10(e: int): (r: real)
    ensures r > 0.0
  {
    if e >= 0 then Pow10(e) as real else 1.0 / Pow10(-e) as real
  }

  predicate AllDigits(s: string) {
    forall i :: 0 <= i < |s| ==> IsDigit(s[i])
  }

  /** The number written by a string of decimal digits. */
  function DigitsValue(s: string): nat
    requires AllDigits(s)
    decreases |s|
  {
    if s == "" then 0 else 10 * DigitsValue(s[..|s| - 1]) + (s[|s| - 1] as int - '0' as int)
  }

  /** The end of the run of digits that starts at `i`. */
  function DigitRun(s: string, i: nat): (j: nat)
    requires i <= |s|
    ensures i <= j <= |s|
    ensures forall k :: i <= k < j ==> IsDigit(s[k])
    ensures j == |s| || !IsDigit(s[j])
    decreases |s| - i
  {
    if i < |s| && IsDigit(s[i]) then DigitRun(s, i + 1) else i
  }

  /** The exponent after `e`: an optional sign and at least one digit, and nothing else. */
  function ParseExponent(s: string): Option<int> {
    var negative := s != "" && s[0] == '-';
    var digits := if s != "" && (s[0] == '+' || s[0] == '-') then s[1..] else s;
    if digits != "" && AllDigits(digits) then
      Some(if negative then -(DigitsValue(digits) as int) else DigitsValue(digits) as int)
    else None
  }

  /**
   * An unsigned decimal literal: digits, an optional point with more digits
   * (at least one digit in all), then an optional exponent.
   */
  function ParseUnsigned(b: string): Option<real> {
    var n1 := DigitRun(b, 0);
    var hasPoint := n1 < |b| && b[n1] == '.';
    var n2 := if hasPoint then DigitRun(b, n1 + 1) else n1;
    var intDigits := b[..n1];
    var fracDigits := if hasPoint then b[n1 + 1..n2] else "";
    var rest := b[n2..];
    if |intDigits| + |fracDigits| == 0 then None
    else
      var mantissa := DigitsValue(intDigits + fracDigits) as real / Pow10(|fracDigits|) as real;
      if rest == "" then Some(mantissa)
      else if rest[0] == 'e' || rest[0] == 'E' then
        match ParseExponent(rest[1..])
        case Some(e) => Some(mantissa * Scale10(e))
        case None => None
      else None
  }

  /** Python's `float(s)` for a str `s` whose digits are ASCII. */
  function ParseFloat(s: string): Parsed {
    if !UnderscoresOk(s) then Invalid
    else
      var t := Strip(RemoveUnderscores(s));
      if t == "" then Invalid
      else
        var negative := t[0] == '-';
        var body := if t[0] == '+' || t[0] == '-' then t[1..] else t;
        var word := LowerAscii(body);
        if word == "inf" || word == "infinity" then Infinite(negative)
        else if word == "nan" then NotANumber
        else match ParseUnsigned(body)
          case Some(x) => Finite(if negative then -x else x)
          case None => Invalid
  }

  // ---------------------------------------------------------------------
  // The value tokens of the exposition lines are runs of digits and points.

  predicate IsValueChar(c: char) {
    IsDigit(c) || c == '.'
  }

  predicate HasDigit(s: string) {
    exists i :: 0 <= i < |s| && IsDigit(s[i])
  }

  predicate AtMostOnePoint(s: string) {
    forall i, j :: 0 <= i < j < |s| ==> !(s[i] == '.' && s[j] == '.')
  }

  lemma LowerAsciiKeepsNonLetters(s: string)
    requires forall i :: 0 <= i < |s| ==> IsValueChar(s[i])
    ensures LowerAscii(s) == s
    decreases |s|
  {
    if s != "" {
      LowerAsciiKeepsNonLetters(s[1..]);
    }
  }

  /** A stripped, unsigned, non-word string is parsed by the decimal grammar alone. */
  lemma ParseFloatOfPlain(t: string)
    requires t != "" && '_' !in t
    requires !IsStrippedSpace(t[0]) && !IsStrippedSpace(t[|t| - 1])
    requires t[0] != '+' && t[0] != '-'
    requires LowerAscii(t) != "inf" && LowerAscii(t) != "infinity" && LowerAscii(t) != "nan"
    ensures ParseFloat(t) == match ParseUnsigned(t) case Some(x) => Finite(x) case None => Invalid
  {
    assert UnderscoresOk(t);
    assert RemoveUnderscores(t) == t;
    assert StripLeft(t) == t;
    assert StripRight(t) == t;
    assert Strip(RemoveUnderscores(t)) == t;
  }

  /** The decimal grammar on a run of digits and points. */
  lemma {:induction false} ParseUnsignedValueToken(t: string)
    requires forall i :: 0 <= i < |t| ==> IsValueChar(t[i])
    ensures ParseUnsigned(t).Some? <==> HasDigit(t) && AtMostOnePoint(t)
    ensures ParseUnsigned(t).Some? ==> ParseUnsigned(t).value >= 0.0
  {
    var n1 := DigitRun(t, 0);
    if n1 == |t| {
      if t != "" {
        assert IsDigit(t[0]);
      }
      return;
    }
    assert t[n1] == '.';
    var n2 := DigitRun(t, n1 + 1);
    if n2 == |t| {
      assert AtMostOnePoint(t) by {
        forall i, j | 0 <= i < j < |t| ensures !(t[i] == '.' && t[j] == '.') {
          if i != n1 {
            assert i < n1 || n1 < i;
          }
        }
      }
      assert HasDigit(t) <==> n1 + (n2 - n1 - 1) > 0 by {
        if n1 > 0 {
          assert IsDigit(t[0]);
        } else if n2 > n1 + 1 {
          assert IsDigit(t[n1 + 1]);
        } else {
          forall i | 0 <= i < |t| ensures !IsDigit(t[i]) {
            assert i == n1;
          }
        }
      }
    } else {
      assert t[n2] == '.';
      assert !AtMostOnePoint(t);
    }
  }

  /**
   * `float()` of a run of digits and points succeeds exactly when the run has
   * a digit and at most one point (so `1.2.3` and `.` raise), and then yields
   * a non-negative finite value; it never yields an infinity or NaN.
   */
  lemma ValueTokenParse(t: string)
    requires forall i :: 0 <= i < |t| ==> IsValueChar(t[i])
    ensures ParseFloat(t).Finite? <==> HasDigit(t) && AtMostOnePoint(t)
    ensures !ParseFloat(t).Finite? ==> ParseFloat(t) == Invalid
    ensures ParseFloat(t).Finite? ==> ParseFloat(t).value >= 0.0
  {
    ParseUnsignedValueToken(t);
    if t == "" {
      assert UnderscoresOk(t);
      assert Strip(RemoveUnderscores(t)) == "";
      return;
    }
    assert '_' !in t;
    LowerAsciiKeepsNonLetters(t);
    assert IsValueChar(t[0]) && IsValueChar(t[|t| - 1]);
    assert t != "inf" && t != "infinity" && t != "nan" by {
      assert t[0] != 'i' && t[0] != 'n';
    }
    ParseFloatOfPlain(t);
  }
}
