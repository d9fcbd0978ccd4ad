/** The program's numeric conversions on text: `str()` of an integer, and
    `int()` and `float()` of a string, over the decimal notation the
    upstream services use (an optional sign, digits, and for `float()` an
    optional fraction). Rendering a float is left abstract: `FloatText`
    carries Python's float-to-text conversions as given functions. */
module Numbers {
  import opened Results
  import Text

  /** `f"{x:.1f}"`, `str(round(x, 1))`, `str(round(x, 4))` and `str(x)` on
      a Python float, whose exact text this model does not fix. */
  datatype FloatText = FloatText(
    fixed1: real -> string,
    round1: real -> string,
    round4: real -> string,
    repr: real -> string)

  predicate AllDigits(s: string) {
    forall i :: 0 <= i < |s| ==> Text.IsDigit(s[i])
  }

  function DigitChar(d: nat): (c: char)
    requires d < 10
    ensures Text.IsDigit(c) && DigitOf(c) == d
  {
    ('0' as int + d) as char
  }

  function DigitOf(c: char): nat
    requires Text.IsDigit(c)
  {
    c as int - '0' as int
  }

  /** The value of a digit string, most significant digit first. */
  function DigitsValue(s: string): nat
    requires AllDigits(s)
  {
    if |s| == 0 then 0 else DigitsValue(s[..|s| - 1]) * 10 + DigitOf(s[|s| - 1])
  }

  function Pow10(n: nat): (r: nat)
    ensures r > 0
  {
    if n == 0 then 1 else 10 * Pow10(n - 1)
  }

  /** `str(n)` for a non-negative integer: digits without a leading zero
      that read back as `n`. */
  function NatToString(n: nat): (r: string)
    ensures |r| > 0 && AllDigits(r) && DigitsValue(r) == n
    ensures r[0] == '0' ==> r == "0"
  {
    if n < 10 then [DigitChar(n)]
    else
      var r := NatToString(n / 10) + [DigitChar(n % 10)];
      assert r[..|r| - 1] == NatToString(n / 10);
      r
  }

  /** `int(s)` on a string: an optional sign followed by at least one digit;
      anything else is `None` (Python raises `ValueError`). Every text
      `int()` reads, `float()` reads as the same value. */
  function ParseInt(s: string): (r: Option<int>)
    ensures r.Some? ==> ParseNumber(s) == Some(r.value as real)
  {
    if |s| > 0 && (s[0] == '+' || s[0] == '-') then
      var body := s[1..];
      if |body| > 0 && AllDigits(body) then
        var v: int := DigitsValue(body);
        assert FirstDot(body) == |body| && body[..|body|] == body;
        Some(if s[0] == '-' then -v else v)
      else None
    else if |s| > 0 && AllDigits(s) then
      assert FirstDot(s) == |s| && s[..|s|] == s;
      Some(DigitsValue(s))
    else None
  }

  /** Digit text as `str()` writes a non-negative integer: no leading
      zero unless the number is 0. */
  predicate Canonical(s: string) {
    |s| > 0 && AllDigits(s) && (s[0] == '0' ==> |s| == 1)
  }

  lemma {:induction false} DigitsLeading(s: string)
    requires |s| > 0 && AllDigits(s)
    ensures DigitsValue(s) >= DigitOf(s[0])
    decreases |s|
  {
    if |s| > 1 {
      DigitsLeading(s[..|s| - 1]);
    }
  }

  /** `str(int(s)) == s` for canonical digit text. */
  lemma {:induction false} NatToStringOfDigits(s: string)
    requires Canonical(s)
    ensures NatToString(DigitsValue(s)) == s
    decreases |s|
  {
    if |s| > 1 {
      var p := s[..|s| - 1];
      DigitsLeading(p);
      NatToStringOfDigits(p);
      var n := DigitsValue(s);
      assert n / 10 == DigitsValue(p) && n % 10 == DigitOf(s[|s| - 1]);
      assert s == p + [s[|s| - 1]];
    } else {
      assert s == [s[0]];
    }
  }

  /** `str(i)` for any integer: the canonical decimal digits of its
      magnitude, after a `-` when it is negative, which `int()` reads back
      exactly. */
  function IntToString(i: int): (r: string)
    ensures |r| > 0
    ensures i >= 0 ==> Canonical(r) && DigitsValue(r) == i
    ensures i < 0 ==> r[0] == '-' && Canonical(r[1..]) && DigitsValue(r[1..]) == -i
    ensures ParseInt(r) == Some(i)
  {
    if i < 0 then
      var r := "-" + NatToString(-i);
      assert r[1..] == NatToString(-i);
      r
    else NatToString(i)
  }

  /** The position of the first `.` in `s`, or `|s|` if there is none. */
  function FirstDot(s: string): (r: nat)
    ensures r <= |s|
    ensures r < |s| ==> s[r] == '.'
    ensures forall k :: 0 <= k < r ==> s[k] != '.'
  {
    if |s| == 0 || s[0] == '.' then 0 else 1 + FirstDot(s[1..])
  }

  /** `float(s)` on unsigned decimal text: digits with an optional fraction,
      at least one digit in all. */
  function ParseUnsigned(s: string): (r: Option<real>)
    ensures r.Some? ==> r.value >= 0.0
  {
    var d := FirstDot(s);
    var whole := s[..d];
    if d == |s| then
      if |whole| > 0 && AllDigits(whole) then Some(DigitsValue(whole) as real) else None
    else
      var frac := s[d + 1..];
      if AllDigits(whole) && AllDigits(frac) && |whole| + |frac| > 0 then
        Some(DigitsValue(whole) as real + DigitsValue(frac) as real / Pow10(|frac|) as real)
      else None
  }

  /** `float(s)` on a string; `None` where Python raises `ValueError`. The
      sign of the value is the sign the text starts with. */
  function ParseNumber(s: string): (r: Option<real>)
    ensures r.Some? ==> |s| > 0
    ensures r.Some? && s[0] == '-' ==> r.value <= 0.0
    ensures r.Some? && s[0] != '-' ==> r.value >= 0.0
  {
    if |s| > 0 && (s[0] == '+' || s[0] == '-') then
      match ParseUnsigned(s[1..])
      case None => None
      case Some(x) => Some(if s[0] == '-' then -x else x)
    else ParseUnsigned(s)
  }

  /** Text that `float()` reads as a negative zero: a float keeps the sign
      of its zero, which `f"{x:.1f}"` and `str()` then print as `-0.0`. */
  predicate NegativeZero(s: string) {
    |s| > 0 && s[0] == '-' && ParseNumber(s) == Some(0.0)
  }

  /** A `-` before text that reads as zero makes a negative zero. */
  lemma NegativeZeroText(t: string)
    requires ParseNumber(t) == Some(0.0) && t[0] != '+' && t[0] != '-'
    ensures NegativeZero("-" + t)
  {
    assert ("-" + t)[1..] == t;
  }

  /** `float(str(i)) == i` for every integer. */
  lemma IntToStringIsNumber(i: int)
    ensures ParseNumber(IntToString(i)) == Some(i as real)
  {
    assert ParseInt(IntToString(i)) == Some(i);
  }

  /** `num == int(num)`: the float has no fractional part. */
  predicate IsWhole(x: real) {
    x == x.Floor as real
  }

  /** `int(x)` on a float: truncation toward zero. */
  function Truncate(x: real): (r: int)
    ensures 0.0 <= x ==> r as real <= x < r as real + 1.0
    ensures x < 0.0 ==> r as real - 1.0 < x <= r as real
  {
    if x >= 0.0 then x.Floor else -((-x).Floor)
  }

  /** On a whole number `int()` loses nothing. */
  lemma TruncateWhole(x: real)
    requires IsWhole(x)
    ensures Truncate(x) as real == x
  {
    var n := x.Floor;
    assert x == n as real;
    if x < 0.0 {
      assert -x == (-n) as real;
      assert (-x).Floor == -n;
    }
  }

  function Sum(xs: seq<real>): real {
    if |xs| == 0 then 0.0 else Sum(xs[..|xs| - 1]) + xs[|xs| - 1]
  }

  /** The arithmetic mean of the observations, before Python rounds it. */
  function Mean(xs: seq<real>): real
    requires |xs| > 0
  {
    Sum(xs) / |xs| as real
  }

  /** `min(xs)`: an element of `xs` no larger than any other. */
  function MinOf(xs: seq<real>): (r: real)
    requires |xs| > 0
    ensures r in xs
    ensures forall i :: 0 <= i < |xs| ==> r <= xs[i]
  {
    if |xs| == 1 then xs[0]
    else
      var m := MinOf(xs[..|xs| - 1]);
      assert forall i :: 0 <= i < |xs| - 1 ==> xs[i] == xs[..|xs| - 1][i];
      if xs[|xs| - 1] < m then xs[|xs| - 1] else m
  }

  /** `max(xs)`: an element of `xs` no smaller than any other. */
  function MaxOf(xs: seq<real>): (r: real)
    requires |xs| > 0
    ensures r in xs
    ensures forall i :: 0 <= i < |xs| ==> xs[i] <= r
  {
    if |xs| == 1 then xs[0]
    else
      var m := MaxOf(xs[..|xs| - 1]);
      assert forall i :: 0 <= i < |xs| - 1 ==> xs[i] == xs[..|xs| - 1][i];
      if xs[|xs| - 1] > m then xs[|xs| - 1] else m
  }

  lemma {:induction false} SumAtMost(xs: seq<real>, m: real)
    requires forall i :: 0 <= i < |xs| ==> xs[i] <= m
    ensures Sum(xs) <= |xs| as real * m
    decreases |xs|
  {
    if |xs| > 0 {
      SumAtMost(xs[..|xs| - 1], m);
    }
  }

  lemma {:induction false} SumAtLeast(xs: seq<real>, m: real)
    requires forall i :: 0 <= i < |xs| ==> m <= xs[i]
    ensures |xs| as real * m <= Sum(xs)
    decreases |xs|
  {
    if |xs| > 0 {
      SumAtLeast(xs[..|xs| - 1], m);
    }
  }

  /** The mean lies between the smallest and the largest observation. */
  lemma MeanBetween(xs: seq<real>)
    requires |xs| > 0
    ensures MinOf(xs) <= Mean(xs) <= MaxOf(xs)
  {
    MeanAtMost(xs, MaxOf(xs));
    MeanAtLeast(xs, MinOf(xs));
  }

  lemma MeanAtMost(xs: seq<real>, m: real)
    requires |xs| > 0 && forall i :: 0 <= i < |xs| ==> xs[i] <= m
    ensures Mean(xs) <= m
  {
    SumAtMost(xs, m);
    DivAtMost(Sum(xs), |xs| as real, m);
  }

  lemma MeanAtLeast(xs: seq<real>, m: real)
    requires |xs| > 0 && forall i :: 0 <= i < |xs| ==> m <= xs[i]
    ensures m <= Mean(xs)
  {
    SumAtLeast(xs, m);
    DivAtLeast(Sum(xs), |xs| as real, m);
  }

  lemma DivAtMost(s: real, n: real, m: real)
    requires n > 0.0 && s <= n * m
    ensures s / n <= m
  {
  }

  lemma DivAtLeast(s: real, n: real, m: real)
    requires n > 0.0 && n * m <= s
    ensures m <= s / n
  {
  }

  /** `str(round(sum(xs) / len(xs), 1))`, or `""` with nothing to average:
      the rendering of a value between the smallest and the largest
      observation. */
  function MeanText(xs: seq<real>, ft: FloatText): (r: string)
    ensures |xs| == 0 ==> r == ""
    ensures |xs| > 0 ==> exists m :: r == ft.round1(m) && MinOf(xs) <= m <= MaxOf(xs)
  {
    if |xs| == 0 then ""
    else
      MeanBetween(xs);
      ft.round1(Mean(xs))
  }
}
