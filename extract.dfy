/**
 * `RealEstateScraper.extract_number` and `RealEstateScraper.extract_float`
 * (streamlit_app.py:280-302): the first run of `[\d,.]` characters of a text,
 * read as a decimal numeral.
 */
module Extract {
  import opened Wrappers
  import opened Text
  import opened Numbers

  /** The character class `[\d,.]` of both extractors' `re.findall`. */
  predicate IsRunChar(c: char) {
    IsDigit(c) || c == ',' || c == '.'
  }

  predicate NoRunChar(s: string) {
    forall k :: 0 <= k < |s| ==> !IsRunChar(s[k])
  }

  /** A half-open range `[start, end)` of positions in a string. */
  datatype Span = Span(start: nat, end: nat)

  /** The first maximal run of `[\d,.]` at or after position `j`. */
  function FirstRunFrom(t: string, j: nat): (r: Option<Span>)
    requires j <= |t|
    ensures r.Some? ==> j <= r.value.start < r.value.end <= |t|
    ensures r.Some? ==> forall k :: j <= k < r.value.start ==> !IsRunChar(t[k])
    ensures r.Some? ==> forall k :: r.value.start <= k < r.value.end ==> IsRunChar(t[k])
    ensures r.Some? ==> r.value.end == |t| || !IsRunChar(t[r.value.end])
    ensures r.None? ==> forall k :: j <= k < |t| ==> !IsRunChar(t[k])
    decreases |t| - j
  {
    if j == |t| then None
    else if IsRunChar(t[j]) then Some(Span(j, SpanEnd(t, j, IsRunChar)))
    else FirstRunFrom(t, j + 1)
  }

  /** The first maximal run of `[\d,.]` characters in `t`, as a span of `t`, or `None` when there is no such character. */
  function FirstRun(t: string): Option<Span> {
    FirstRunFrom(t, 0)
  }

  /** A span with the properties the contract of `FirstRunFrom` promises is the span it returns. */
  lemma FirstRunUnique(t: string, j: nat, sp: Span)
    requires j <= sp.start < sp.end <= |t|
    requires forall k :: j <= k < sp.start ==> !IsRunChar(t[k])
    requires forall k :: sp.start <= k < sp.end ==> IsRunChar(t[k])
    requires sp.end == |t| || !IsRunChar(t[sp.end])
    ensures FirstRunFrom(t, j) == Some(sp)
    decreases sp.start - j
  {
    if j < sp.start {
      FirstRunUnique(t, j + 1, sp);
    } else {
      SpanEndUnique(t, j, sp.end, IsRunChar);
    }
  }

  /** German notation made Python-readable: every point deleted, then every comma turned into a point. */
  function Normalise(text: string): string {
    ReplaceChar(DeleteChar(text, '.'), ',', '.')
  }

  /**
   * `extract_number`: 0 for an empty text, for a text without a run and when
   * the first run of the normalised text is not a numeral; otherwise the
   * truncated value of that run.
   */
  function ExtractNumber(text: string): (r: int)
    ensures r >= 0
  {
    if text == [] then 0
    else
      var t := Normalise(text);
      match FirstRun(t)
      case None => 0
      case Some(sp) =>
        match ParseDecimal(DeleteChar(t[sp.start..sp.end], ','))
        case None => 0
        case Some(d) =>
          TruncateDecimal(d);
          Truncate(DecimalValue(d))
  }

  /**
   * `extract_float`: 0 for an empty text, for a text without a run and when
   * the first run, with `,` read as the point, is not a numeral; otherwise its
   * value.
   */
  function ExtractFloat(text: string): (r: real)
    ensures r >= 0.0
  {
    if text == [] then 0.0
    else
      match FirstRun(text)
      case None => 0.0
      case Some(sp) =>
        match ParseDecimal(ReplaceChar(text[sp.start..sp.end], ',', '.'))
        case None => 0.0
        case Some(d) => DecimalValue(d)
  }

  // ---- what the extractors do ----

  /** Every well-formed numeral holds a digit. */
  lemma NumeralHasDigit(d: Decimal)
    ensures WellFormed(d) ==> exists k :: 0 <= k < |Render(d)| && IsDigit(Render(d)[k])
  {
    if WellFormed(d) {
      if d.whole != [] {
        assert Render(d)[0] == d.whole[0];
      } else {
        assert Render(d)[|Render(d)| - 1] == d.frac[|d.frac| - 1];
      }
    }
  }

  /** A string without a digit is not a numeral `float()` accepts. */
  lemma NoDigitNoNumeral(s: string)
    requires forall k :: 0 <= k < |s| ==> !IsDigit(s[k])
    ensures ParseDecimal(s).None?
  {
    if ParseDecimal(s).Some? {
      NumeralHasDigit(ParseDecimal(s).value);
      assert false;
    }
  }

  /** A text without a digit gives 0. */
  lemma ExtractNumberNoDigit(text: string)
    requires forall k :: 0 <= k < |text| ==> !IsDigit(text[k])
    ensures ExtractNumber(text) == 0
  {
    var u := DeleteChar(text, '.');
    var t := Normalise(text);
    DeleteCharBasics(text, '.');
    forall k | 0 <= k < |t| ensures !IsDigit(t[k]) {
      assert u[k] in u;
    }
    match FirstRun(t)
    case None =>
    case Some(sp) =>
      var piece := t[sp.start..sp.end];
      var run := DeleteChar(piece, ',');
      DeleteCharBasics(piece, ',');
      forall k | 0 <= k < |run| ensures !IsDigit(run[k]) {
        assert run[k] in run;
      }
      NoDigitNoNumeral(run);
  }

  /** A text without a digit gives 0. */
  lemma ExtractFloatNoDigit(text: string)
    requires forall k :: 0 <= k < |text| ==> !IsDigit(text[k])
    ensures ExtractFloat(text) == 0.0
  {
    match FirstRun(text)
    case None =>
    case Some(sp) =>
      var run := ReplaceChar(text[sp.start..sp.end], ',', '.');
      assert forall k :: 0 <= k < |run| ==> run[k] == '.' || run[k] == text[sp.start + k];
      NoDigitNoNumeral(run);
  }

  /** The first run of `a + b + c` is `b` when `a` holds no run character and `c` does not go on with one. */
  lemma FirstRunOfConcat(a: string, b: string, c: string)
    requires NoRunChar(a)
    requires b != [] && forall k :: 0 <= k < |b| ==> IsRunChar(b[k])
    requires c == [] || !IsRunChar(c[0])
    ensures FirstRun(a + b + c) == Some(Span(|a|, |a| + |b|))
    ensures (a + b + c)[|a|..|a| + |b|] == b
  {
    var t := a + b + c;
    assert forall k :: 0 <= k < |a| ==> t[k] == a[k];
    assert forall k :: |a| <= k < |a| + |b| ==> t[k] == b[k - |a|];
    assert |a| + |b| < |t| ==> t[|a| + |b|] == c[0];
    FirstRunUnique(t, 0, Span(|a|, |a| + |b|));
  }

  /** A numeral with `sep` as its decimal point. */
  function RenderWith(d: Decimal, sep: char): string {
    d.whole + (if d.point then [sep] else []) + d.frac
  }

  lemma RenderWithRunChars(d: Decimal, sep: char)
    requires WellFormed(d) && (sep == ',' || sep == '.')
    ensures RenderWith(d, sep) != []
    ensures forall k :: 0 <= k < |RenderWith(d, sep)| ==> IsRunChar(RenderWith(d, sep)[k])
    ensures ReplaceChar(RenderWith(d, sep), ',', '.') == Render(d)
  {
    RenderWithChars(d, sep);
    RenderWithReplaced(d, sep);
  }

  lemma RenderWithChars(d: Decimal, sep: char)
    requires WellFormed(d) && (sep == ',' || sep == '.')
    ensures RenderWith(d, sep) != []
    ensures forall k :: 0 <= k < |RenderWith(d, sep)| ==> IsRunChar(RenderWith(d, sep)[k])
  {
    var s := RenderWith(d, sep);
    forall k | 0 <= k < |s| ensures IsRunChar(s[k]) {
      if k < |d.whole| {
        assert s[k] == d.whole[k];
      } else if k >= |s| - |d.frac| {
        assert s[k] == d.frac[k - (|s| - |d.frac|)];
      }
    }
  }

  lemma RenderWithReplaced(d: Decimal, sep: char)
    requires WellFormed(d) && (sep == ',' || sep == '.')
    ensures ReplaceChar(RenderWith(d, sep), ',', '.') == Render(d)
  {
    var mid: string := if d.point then [sep] else [];
    assert RenderWith(d, sep) == d.whole + mid + d.frac;
    ReplaceCharAppend(d.whole + mid, d.frac, ',', '.');
    ReplaceCharAppend(d.whole, mid, ',', '.');
    DigitsUnreplaced(d.whole);
    DigitsUnreplaced(d.frac);
    assert ReplaceChar(mid, ',', '.') == if d.point then "." else "";
  }

  /** Digits have no comma to replace. */
  lemma DigitsUnreplaced(s: string)
    requires AllDigits(s)
    ensures ReplaceChar(s, ',', '.') == s
  {
    var r := ReplaceChar(s, ',', '.');
    assert forall k :: 0 <= k < |s| ==> r[k] == s[k];
  }

  /**
   * `extract_float` reads back any numeral written with `,` or `.` as the
   * point, behind a prefix with no digit, comma or point and before a text
   * that does not continue the run: "3,5 Zimmer" and "3.5 Zimmer" both give
   * 3.5.
   */
  lemma ExtractFloatReadsNumeral(pre: string, d: Decimal, sep: char, tail: string)
    requires NoRunChar(pre)
    requires WellFormed(d) && (sep == ',' || sep == '.')
    requires tail == [] || !IsRunChar(tail[0])
    ensures ExtractFloat(pre + RenderWith(d, sep) + tail) == DecimalValue(d)
  {
    var n := RenderWith(d, sep);
    RenderWithRunChars(d, sep);
    FirstRunOfConcat(pre, n, tail);
    ParseRender(d);
  }

  /** Normalisation distributes over concatenation. */
  lemma NormaliseAppend(a: string, b: string)
    ensures Normalise(a + b) == Normalise(a) + Normalise(b)
  {
    DeleteCharAppend(a, b, '.');
    ReplaceCharAppend(DeleteChar(a, '.'), DeleteChar(b, '.'), ',', '.');
  }

  /** A prefix without digits or commas normalises to a text without run characters. */
  lemma NormaliseNoRunChar(pre: string)
    requires forall k :: 0 <= k < |pre| ==> !IsDigit(pre[k]) && pre[k] != ','
    ensures NoRunChar(Normalise(pre))
  {
    var u := DeleteChar(pre, '.');
    DeleteCharBasics(pre, '.');
    forall k | 0 <= k < |u| ensures !IsDigit(u[k]) && u[k] != ',' && u[k] != '.' {
      assert u[k] in u;
    }
  }

  /** The decimal part of a numeral in German notation: a comma and the fraction digits. */
  function GermanFraction(d: Decimal): string {
    (if d.point then "," else "") + d.frac
  }

  /** Normalising a German numeral gives the numeral Python reads. */
  lemma NormaliseGermanNumeral(grouped: string, d: Decimal)
    requires WellFormed(d) && DeleteChar(grouped, '.') == d.whole
    ensures Normalise(grouped + GermanFraction(d)) == Render(d)
  {
    var fr := GermanFraction(d);
    assert '.' !in fr;
    DeleteCharBasics(fr, '.');
    DeleteCharAppend(grouped, fr, '.');
    var del := DeleteChar(grouped + fr, '.');
    assert del == d.whole + fr;
    assert d.whole + fr == RenderWith(d, ',');
    RenderWithRunChars(d, ',');
    assert Normalise(grouped + fr) == ReplaceChar(del, ',', '.');
  }

  /** Normalising keeps a first character that is neither a digit, a comma nor a point. */
  lemma NormaliseTail(tail: string)
    requires tail == [] || !IsRunChar(tail[0])
    ensures Normalise(tail) == [] || !IsRunChar(Normalise(tail)[0])
  {
    if tail != [] {
      assert tail == [tail[0]] + tail[1..];
      NormaliseAppend([tail[0]], tail[1..]);
      assert DeleteChar([tail[0]], '.') == [tail[0]];
    }
  }

  /**
   * `extract_number` on a German price: digits grouped by thousands points,
   * optionally a decimal comma and more digits; the result is the integer
   * part with the grouping points removed, so "450.000 €" gives 450000 and
   * "1.234,5 m²" gives 1234.
   */
  lemma ExtractNumberGerman(pre: string, grouped: string, d: Decimal, tail: string)
    requires forall k :: 0 <= k < |pre| ==> !IsDigit(pre[k]) && pre[k] != ','
    requires WellFormed(d) && DeleteChar(grouped, '.') == d.whole
    requires tail == [] || !IsRunChar(tail[0])
    ensures ExtractNumber(pre + grouped + GermanFraction(d) + tail) == DigitsValue(d.whole)
  {
    var text := pre + grouped + GermanFraction(d) + tail;
    var num := grouped + GermanFraction(d);
    assert text == pre + num + tail;
    NormaliseAppend(pre + num, tail);
    NormaliseAppend(pre, num);
    NormaliseGermanNumeral(grouped, d);
    NormaliseNoRunChar(pre);
    NormaliseTail(tail);
    ExtractNumberOfNormalised(text, Normalise(pre), d, Normalise(tail));
  }

  /** `extract_number` of a text whose normalised form has `d` as its first run. */
  lemma ExtractNumberOfNormalised(text: string, a: string, d: Decimal, c: string)
    requires Normalise(text) == a + Render(d) + c
    requires NoRunChar(a) && WellFormed(d) && (c == [] || !IsRunChar(c[0]))
    ensures ExtractNumber(text) == DigitsValue(d.whole)
  {
    RenderWithRunChars(d, '.');
    assert RenderWith(d, '.') == Render(d);
    FirstRunOfConcat(a, Render(d), c);
    assert ',' !in Render(d);
    DeleteCharBasics(Render(d), ',');
    ParseRender(d);
    TruncateDecimal(d);
    assert text != [];
  }

  /** Two texts that agree on where the run characters are have their first runs in the same place. */
  lemma {:induction false} FirstRunSameClasses(t: string, u: string, j: nat)
    requires |t| == |u| && j <= |t|
    requires forall k :: 0 <= k < |t| ==> IsRunChar(t[k]) == IsRunChar(u[k])
    ensures FirstRunFrom(t, j) == FirstRunFrom(u, j)
    decreases |t| - j
  {
    if j < |t| {
      if IsRunChar(t[j]) {
        var e := SpanEnd(t, j, IsRunChar);
        SpanEndUnique(u, j, e, IsRunChar);
      } else {
        FirstRunSameClasses(t, u, j + 1);
      }
    }
  }

  /**
   * On a text without points, normalising only turns commas into points,
   * so `extract_number` is the truncation of `extract_float`.
   */
  lemma ExtractNumberTruncatesFloat(text: string)
    requires '.' !in text
    ensures ExtractNumber(text) == Truncate(ExtractFloat(text))
  {
    if text != [] {
      var t := Normalise(text);
      DeleteCharBasics(text, '.');
      assert t == ReplaceChar(text, ',', '.');
      FirstRunSameClasses(t, text, 0);
      match FirstRun(text)
      case None =>
      case Some(sp) =>
        var piece := ReplaceChar(text[sp.start..sp.end], ',', '.');
        ReplaceCharSlice(text, sp.start, sp.end, ',', '.');
        assert t[sp.start..sp.end] == piece;
        assert ',' !in piece;
        DeleteCharBasics(piece, ',');
    }
  }

  /** `s` has a separator, `,` or `.`, at two different positions. */
  predicate TwoSeparators(s: string) {
    exists i, j :: 0 <= i < j < |s| && (s[i] == ',' || s[i] == '.') && (s[j] == ',' || s[j] == '.')
  }

  /**
   * `extract_number` gives 0 when the first run of the normalised text has no
   * digit or has two points, that is, when the text's first numeral holds two
   * decimal commas or none of its digits.
   */
  lemma ExtractNumberRejectsRun(text: string, sp: Span)
    requires FirstRun(Normalise(text)) == Some(sp)
    requires var run := Normalise(text)[sp.start..sp.end];
      (forall k :: 0 <= k < |run| ==> !IsDigit(run[k])) || TwoPoints(run)
    ensures ExtractNumber(text) == 0
  {
    var t := Normalise(text);
    var run := t[sp.start..sp.end];
    assert ',' !in run by {
      assert forall k :: 0 <= k < |run| ==> run[k] == t[sp.start + k];
    }
    DeleteCharBasics(run, ',');
    ParseDecimalRejects(run);
  }

  /**
   * `extract_float` gives 0.0 when the first run has no digit or has two
   * separators, whether commas, points or one of each.
   */
  lemma ExtractFloatRejectsRun(text: string, sp: Span)
    requires FirstRun(text) == Some(sp)
    requires var run := text[sp.start..sp.end];
      (forall k :: 0 <= k < |run| ==> !IsDigit(run[k])) || TwoSeparators(run)
    ensures ExtractFloat(text) == 0.0
  {
    var run := text[sp.start..sp.end];
    var r := ReplaceChar(run, ',', '.');
    if TwoSeparators(run) {
      var i, j :| 0 <= i < j < |run| && (run[i] == ',' || run[i] == '.') && (run[j] == ',' || run[j] == '.');
      assert r[i] == '.' && r[j] == '.';
    }
    ParseDecimalRejects(r);
  }

  // ---- worked cases ----
  // Each case names its text by a parameter, and hands the general lemmas
  // slices of it rather than literals, so that the verifier does not unfold
  // the extractors on literal strings.

  /** "450.000 €" gives 450000: the thousands point is dropped. */
  lemma ExtractNumberPriceCase(text: string)
    requires text == "450.000 €"
    ensures ExtractNumber(text) == 450000
  {
    var grouped, tail := text[..7], text[7..];
    assert grouped == "450.000" && tail == " €";
    var whole := DeleteChar(grouped, '.');
    assert whole == "450000" by { Ungrouped450000(); }
    assert DigitsValue(whole) == 450000 by { Digits450000(); }
    var d := Decimal(whole, false, []);
    assert ExtractNumber(text) == DigitsValue(whole) by {
      assert WellFormed(d);
      assert text == [] + grouped + GermanFraction(d) + tail;
      ExtractNumberGerman([], grouped, d, tail);
    }
  }

  lemma Ungrouped450000()
    ensures DeleteChar("450.000", '.') == "450000"
  {
    assert "450.000" == "450" + "." + "000";
    assert "450000" == "450" + "000";
    DeleteCharOfGroup("450", "000");
  }

  /** Deleting the point between two digit groups joins them. */
  lemma DeleteCharOfGroup(a: string, b: string)
    requires AllDigits(a) && AllDigits(b)
    ensures DeleteChar(a + "." + b, '.') == a + b
  {
    assert forall k :: 0 <= k < |a| ==> a[k] != '.';
    assert forall k :: 0 <= k < |b| ==> b[k] != '.';
    DeleteCharJoin(a, b, '.');
  }

  lemma Digits450000()
    ensures DigitsValue("450000") == 450000
  {
  }

  /** "1,5" gives 1: the decimal comma becomes a point and the fraction is truncated. */
  lemma ExtractNumberCommaCase(text: string)
    requires text == "1,5"
    ensures ExtractNumber(text) == 1
  {
    var d := Decimal(text[..1], true, text[2..]);
    assert d.whole == "1" && d.frac == "5";
    assert DeleteChar(text[..1], '.') == d.whole;
    assert text == [] + text[..1] + GermanFraction(d) + [];
    ExtractNumberGerman([], text[..1], d, []);
  }

  /** "1,2,3" gives 0: its normalised run "1.2.3" has two points. */
  lemma ExtractNumberTwoPointsCase(text: string)
    requires text == "1,2,3"
    ensures ExtractNumber(text) == 0
  {
    var t := TwoPointsNormalised(text);
    TwoPointsRun(t);
    ExtractNumberRejectsRun(text, Span(0, 5));
  }

  lemma TwoPointsNormalised(text: string) returns (t: string)
    requires text == "1,2,3"
    ensures t == Normalise(text) && t == "1.2.3"
  {
    assert '.' !in text;
    DeleteCharBasics(text, '.');
    t := ReplaceChar(text, ',', '.');
    assert t == "1.2.3" by {
      assert t[0] == '1' && t[1] == '.' && t[2] == '2' && t[3] == '.' && t[4] == '3';
    }
  }

  lemma TwoPointsRun(t: string)
    requires t == "1.2.3"
    ensures FirstRun(t) == Some(Span(0, 5))
    ensures TwoPoints(t[0..5])
  {
    FirstRunUnique(t, 0, Span(0, 5));
    assert t[0..5][1] == '.' && t[0..5][3] == '.';
  }

  /** "a, 5" gives 0: the first run of "a. 5" is the lone point. */
  lemma ExtractNumberLonePointCase(text: string)
    requires text == "a, 5"
    ensures ExtractNumber(text) == 0
  {
    var t := LonePointNormalised(text);
    LonePointRun(t);
    ExtractNumberRejectsRun(text, Span(1, 2));
  }

  lemma LonePointNormalised(text: string) returns (t: string)
    requires text == "a, 5"
    ensures t == Normalise(text) && t == "a. 5"
  {
    assert '.' !in text;
    DeleteCharBasics(text, '.');
    t := ReplaceChar(text, ',', '.');
    assert t == "a. 5" by {
      assert t[0] == 'a' && t[1] == '.' && t[2] == ' ' && t[3] == '5';
    }
  }

  lemma LonePointRun(t: string)
    requires t == "a. 5"
    ensures FirstRun(t) == Some(Span(1, 2))
    ensures forall k :: 0 <= k < |t[1..2]| ==> !IsDigit(t[1..2][k])
  {
    FirstRunUnique(t, 0, Span(1, 2));
    assert t[1..2] == ".";
  }

  /** "3,5 Zimmer" gives 3.5. */
  lemma ExtractFloatCommaCase(text: string)
    requires text == "3,5 Zimmer"
    ensures ExtractFloat(text) == 3.5
  {
    var d := Decimal(text[..1], true, text[2..3]);
    assert d.whole == "3" && d.frac == "5";
    assert text == [] + RenderWith(d, ',') + text[3..];
    ExtractFloatReadsNumeral([], d, ',', text[3..]);
    Digits35();
  }

  lemma Digits35()
    ensures DigitsValue("3") == 3 && DigitsValue("5") == 5 && Pow10(|"5"|) == 10
  {
  }

  /** "1.000" gives 1.0 from `extract_float`, which keeps the point... */
  lemma ExtractFloatThousandsCase(text: string)
    requires text == "1.000"
    ensures ExtractFloat(text) == 1.0
  {
    var d := Decimal(text[..1], true, text[2..]);
    assert d.whole == "1" && d.frac == "000";
    assert text == [] + RenderWith(d, '.') + [];
    ExtractFloatReadsNumeral([], d, '.', []);
    Digits1000();
    assert DecimalValue(d) == 1.0 + 0.0 / Pow10(3) as real;
  }

  /** ... and 1000 from `extract_number`, which drops it. */
  lemma ExtractNumberThousandsCase(text: string)
    requires text == "1.000"
    ensures ExtractNumber(text) == 1000
  {
    Ungrouped1000();
    var d := Decimal(DeleteChar(text, '.'), false, []);
    assert d.whole == "1000";
    Digits1000();
    assert WellFormed(d);
    assert text == [] + text + GermanFraction(d) + [];
    ExtractNumberGerman([], text, d, []);
  }

  lemma Ungrouped1000()
    ensures DeleteChar("1.000", '.') == "1000"
  {
  }

  lemma Digits1000()
    ensures DigitsValue("1000") == 1000 && DigitsValue("000") == 0 && DigitsValue("1") == 1
  {
  }

  /** A lone point is not a numeral: it gives 0. */
  lemma ExtractFloatLonePointCase(text: string)
    requires text == "."
    ensures ExtractFloat(text) == 0.0
  {
    assert FirstRun(text) == Some(Span(0, 1)) by {
      FirstRunUnique(text, 0, Span(0, 1));
    }
    assert text[0..1] == text;
    ExtractFloatRejectsRun(text, Span(0, 1));
  }

  /** A run with a comma and a point reads as two points: it gives 0. */
  lemma ExtractFloatMixedSeparatorsCase(text: string)
    requires text == "1,2.3"
    ensures ExtractFloat(text) == 0.0
  {
    assert FirstRun(text) == Some(Span(0, 5)) by {
      FirstRunUnique(text, 0, Span(0, 5));
    }
    assert text[0..5][1] == ',' && text[0..5][3] == '.';
    ExtractFloatRejectsRun(text, Span(0, 5));
  }
}
