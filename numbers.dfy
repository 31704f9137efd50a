/**
 * Decimal numerals as Python's `float()` reads them, on the only strings the
 * extractors ever hand it: runs of ASCII digits and points. It accepts those
 * with at least one digit and at most one point (`"12"`, `"1.5"`, `"1."`,
 * `".5"`) and rejects the rest (`"."`, `"1.2.3"`). Signs, exponents,
 * surrounding spaces and `"inf"`, which `float()` also accepts, never occur in
 * such a run and are not modelled. Values are exact rationals; the rounding
 * to the nearest IEEE double is not modelled.
 */
module Numbers {
  import opened Wrappers
  import opened Text

  function DigitValue(c: char): (r: nat)
    ensures r <= 9
  {
    if IsDigit(c) then c as int - '0' as int else 0
  }

  /** The value of a string of decimal digits, most significant first; `""` is 0. */
  function DigitsValue(s: string): nat
    decreases |s|
  {
    if s == [] then 0 else DigitValue(s[0]) * Pow10(|s| - 1) + DigitsValue(s[1..])
  }

  function Pow10(n: nat): (r: nat)
    ensures r >= 1
  {
    if n == 0 then 1 else 10 * Pow10(n - 1)
  }

  /** A string of `n` digits denotes less than `10^n`. */
  lemma {:induction false} DigitsValueBound(s: string)
    ensures DigitsValue(s) < Pow10(|s|)
    decreases |s|
  {
    if s != [] {
      DigitsValueBound(s[1..]);
      var p, v := Pow10(|s| - 1), DigitValue(s[0]);
      MulMonotone(v, 9, p);
      assert Pow10(|s|) == 10 * p;
    }
  }

  lemma MulMonotone(a: nat, b: nat, p: nat)
    requires a <= b
    ensures a * p <= b * p
  {
    var k := b - a;
    assert b * p == a * p + k * p;
  }

  /** A numeral: the digits before the point, whether there is a point, the digits after it. */
  datatype Decimal = Decimal(whole: string, point: bool, frac: string)

  /** What `float()` accepts among strings of digits and points: at least one digit, and a fraction only after a point. */
  predicate WellFormed(d: Decimal) {
    AllDigits(d.whole) && AllDigits(d.frac) && |d.whole| + |d.frac| > 0 && (!d.point ==> d.frac == [])
  }

  /** The numeral written out. */
  function Render(d: Decimal): string {
    d.whole + (if d.point then "." else "") + d.frac
  }

  /** The exact value of a numeral. */
  function DecimalValue(d: Decimal): (r: real)
    ensures r >= 0.0
  {
    DigitsValue(d.whole) as real + DigitsValue(d.frac) as real / Pow10(|d.frac|) as real
  }

  /** Python's `int()` on a float: truncation toward zero. */
  function Truncate(x: real): int {
    if x >= 0.0 then x.Floor else -((-x).Floor)
  }

  /** The index of the first `c` in `s`, or `|s|` when there is none. */
  function IndexOf(s: string, c: char): (r: nat)
    ensures r <= |s|
    ensures r < |s| ==> s[r] == c
    ensures forall k :: 0 <= k < r ==> s[k] != c
    decreases |s|
  {
    if s == [] then 0 else if s[0] == c then 0 else 1 + IndexOf(s[1..], c)
  }

  /**
   * `float(s)` when it succeeds, `None` where `float()` raises `ValueError`
   * (no digit, a second point, any other character).
   */
  function ParseDecimal(s: string): (r: Option<Decimal>)
    ensures r.Some? ==> WellFormed(r.value) && Render(r.value) == s
  {
    var k := IndexOf(s, '.');
    if k == |s| then
      if s != [] && AllDigits(s) then Some(Decimal(s, false, [])) else None
    else
      var w, f := s[..k], s[k + 1..];
      if AllDigits(w) && AllDigits(f) && |w| + |f| > 0 then
        assert s == w + "." + f;
        Some(Decimal(w, true, f))
      else None
  }

  /** Every numeral `float()` accepts is read back as itself. */
  lemma ParseRender(d: Decimal)
    requires WellFormed(d)
    ensures ParseDecimal(Render(d)) == Some(d)
  {
    var s := Render(d);
    if d.point {
      assert s[|d.whole|] == '.';
      assert forall k :: 0 <= k < |d.whole| ==> s[k] == d.whole[k];
      assert IndexOf(s, '.') == |d.whole|;
      assert s[..|d.whole|] == d.whole && s[|d.whole| + 1..] == d.frac;
    } else {
      assert s == d.whole;
      assert IndexOf(s, '.') == |s|;
    }
  }

  /** `float(s)` succeeds exactly on the rendered well-formed numerals. */
  lemma ParseDecimalComplete(s: string, d: Decimal)
    ensures ParseDecimal(s) == Some(d) <==> WellFormed(d) && Render(d) == s
  {
    if WellFormed(d) && Render(d) == s {
      ParseRender(d);
    }
  }

  /** `s` has a point at two different positions. */
  predicate TwoPoints(s: string) {
    exists i, j :: 0 <= i < j < |s| && s[i] == '.' && s[j] == '.'
  }

  /** `float()` rejects a string without a digit and a string with two points. */
  lemma ParseDecimalRejects(s: string)
    requires (forall k :: 0 <= k < |s| ==> !IsDigit(s[k])) || TwoPoints(s)
    ensures ParseDecimal(s) == None
  {
    var k := IndexOf(s, '.');
    if TwoPoints(s) {
      var i, j :| 0 <= i < j < |s| && s[i] == '.' && s[j] == '.';
      assert k <= i < j;
      assert s[k + 1..][j - k - 1] == s[j];
    } else if k == |s| {
      assert s != [] ==> !IsDigit(s[0]);
    } else if k > 0 {
      assert s[..k][0] == s[0];
    } else if k + 1 < |s| {
      assert s[k + 1..][0] == s[k + 1];
    }
  }

  /** `int(float(s))` is the value of the digits before the point. */
  lemma TruncateDecimal(d: Decimal)
    ensures Truncate(DecimalValue(d)) == DigitsValue(d.whole)
  {
    DigitsValueBound(d.frac);
    var w, f, p := DigitsValue(d.whole), DigitsValue(d.frac), Pow10(|d.frac|);
    FractionBelowOne(f, p);
    var x := DecimalValue(d);
    assert w as real <= x < w as real + 1.0;
  }

  lemma FractionBelowOne(f: nat, p: nat)
    requires f < p
    ensures 0.0 <= f as real / p as real < 1.0
  {
    var q := f as real / p as real;
    assert q * p as real == f as real;
  }
}
