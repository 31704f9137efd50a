/**
 * `RealEstateScraper.extract_rooms_from_text` and
 * `RealEstateScraper.extract_area_from_text` (streamlit_app.py:304-329):
 * an ordered list of patterns is tried on the lowercased text, and the first
 * pattern that matches anywhere decides the value.
 */
module TextFields {
  import opened Wrappers
  import opened Text
  import opened Numbers
  import opened Patterns

  /** The rooms patterns, in the order they are tried (streamlit_app.py:306-310). */
  const RoomPatterns: seq<Pattern> := [RoomsZimmer, RoomsZ, RoomsRoom]

  /** The area patterns, in the order they are tried (streamlit_app.py:320-323). */
  const AreaPatterns: seq<Pattern> := [AreaSquareMetre, AreaM2]

  /** Which pattern of a list matched, and where its group 1 lies. */
  datatype Hit = Hit(index: nat, capture: Capture)

  /** The first pattern of `ps` that matches anywhere in `t`, with its leftmost match. */
  function FirstPatternMatch(t: string, ps: seq<Pattern>): (r: Option<Hit>)
    ensures r.Some? ==> r.value.index < |ps| && Search(t, ps[r.value.index]) == Some(r.value.capture)
    ensures r.Some? ==> forall q :: 0 <= q < r.value.index ==> Search(t, ps[q]).None?
    ensures r.None? ==> forall q :: 0 <= q < |ps| ==> Search(t, ps[q]).None?
  {
    if ps == [] then None
    else match Search(t, ps[0])
      case Some(c) => Some(Hit(0, c))
      case None =>
        match FirstPatternMatch(t, ps[1..])
        case None => None
        case Some(h) => Some(Hit(h.index + 1, h.capture))
  }

  /** The decomposition of the numeral `\d+(?:[,\.]\d+)?` that starts at `i`. */
  function CaptureDecimal(t: string, i: nat): (d: Decimal)
    requires i < |t| && IsDigit(t[i])
    ensures WellFormed(d) && d.whole != []
  {
    var w := SpanEnd(t, i, IsDigit);
    var e := NumberEnd(t, i);
    if e == w then Decimal(t[i..w], false, []) else Decimal(t[i..w], true, t[w + 1..e])
  }

  /** The captured numeral read as a float, its comma taken as the decimal point. */
  function CaptureValue(t: string, c: Capture): (r: real)
    requires c.start <= c.end <= |t|
    ensures r >= 0.0
  {
    match ParseDecimal(ReplaceChar(t[c.start..c.end], ',', '.'))
    case Some(d) => DecimalValue(d)
    case None => 0.0
  }

  /** `float()` never fails on a group 1: it reads the numeral with its separator as the point. */
  lemma CaptureParses(t: string, i: nat, p: Pattern)
    requires MatchAt(t, i, p).Some?
    ensures IsDigit(t[i]) && MatchAt(t, i, p).value == NumberEnd(t, i)
    ensures ParseDecimal(ReplaceChar(t[i..NumberEnd(t, i)], ',', '.')) == Some(CaptureDecimal(t, i))
    ensures CaptureValue(t, Capture(i, NumberEnd(t, i))) == DecimalValue(CaptureDecimal(t, i))
  {
    NumeralRendered(t, i);
    ParseRender(CaptureDecimal(t, i));
  }

  /** With `,` read as the point, the text of the numeral at `i` is its decomposition written out. */
  lemma NumeralRendered(t: string, i: nat)
    requires i < |t| && IsDigit(t[i])
    ensures ReplaceChar(t[i..NumberEnd(t, i)], ',', '.') == Render(CaptureDecimal(t, i))
  {
    var w := SpanEnd(t, i, IsDigit);
    var e := NumberEnd(t, i);
    if e == w {
      WholeRendered(t, i, w);
    } else {
      FractionRendered(t, i, w, e);
    }
  }

  lemma WholeRendered(t: string, i: nat, w: nat)
    requires i <= w <= |t| && forall k :: i <= k < w ==> IsDigit(t[k])
    ensures ReplaceChar(t[i..w], ',', '.') == Render(Decimal(t[i..w], false, []))
  {
    var s := ReplaceChar(t[i..w], ',', '.');
    assert forall k :: 0 <= k < |s| ==> s[k] == t[i + k];
  }

  lemma FractionRendered(t: string, i: nat, w: nat, e: nat)
    requires i <= w < e <= |t| && IsSep(t[w])
    requires forall k :: i <= k < e && k != w ==> IsDigit(t[k])
    ensures ReplaceChar(t[i..e], ',', '.') == Render(Decimal(t[i..w], true, t[w + 1..e]))
  {
    var d := Decimal(t[i..w], true, t[w + 1..e]);
    var s := ReplaceChar(t[i..e], ',', '.');
    var r := Render(d);
    assert |s| == |r|;
    forall k | 0 <= k < |s| ensures s[k] == r[k] {
      if k < w - i {
        assert r[k] == d.whole[k] == t[i + k];
      } else if k == w - i {
        assert r[k] == '.';
      } else {
        assert r[k] == d.frac[k - (w - i) - 1] == t[i + k];
      }
    }
  }

  /** `extract_rooms_from_text`: the value of the first rooms pattern that matches, or 0. */
  function RoomsFromText(text: string): (r: real)
    ensures r >= 0.0
  {
    var t := Lower(text);
    match FirstPatternMatch(t, RoomPatterns)
    case None => 0.0
    case Some(h) => CaptureValue(t, h.capture)
  }

  /** `extract_area_from_text`: the truncated value of the first area pattern that matches, or 0. */
  function AreaFromText(text: string): (r: int)
    ensures r >= 0
  {
    var t := Lower(text);
    match FirstPatternMatch(t, AreaPatterns)
    case None => 0
    case Some(h) => Truncate(CaptureValue(t, h.capture))
  }

  /** The pattern loop of `extract_rooms_from_text`, returning at the first match. */
  method ExtractRoomsFromText(text: string) returns (rooms: real)
    ensures rooms == RoomsFromText(text)
  {
    var patterns, t := RoomPatterns, Lower(text);
    for n := 0 to |patterns|
      invariant forall q :: 0 <= q < n ==> Search(t, patterns[q]).None?
    {
      var m := Search(t, patterns[n]);
      if m.Some? {
        FirstPatternMatchExact(t, patterns, n, m.value);
        RoomsOfHit(text, Hit(n, m.value));
        return CaptureValue(t, m.value);
      }
    }
    RoomsOfNoHit(text);
    return 0.0;
  }

  /** The pattern loop of `extract_area_from_text`, returning at the first match. */
  method ExtractAreaFromText(text: string) returns (area: int)
    ensures area == AreaFromText(text)
  {
    var patterns, t := AreaPatterns, Lower(text);
    for n := 0 to |patterns|
      invariant forall q :: 0 <= q < n ==> Search(t, patterns[q]).None?
    {
      var m := Search(t, patterns[n]);
      if m.Some? {
        FirstPatternMatchExact(t, patterns, n, m.value);
        AreaOfHit(text, Hit(n, m.value));
        return Truncate(CaptureValue(t, m.value));
      }
    }
    AreaOfNoHit(text);
    return 0;
  }

  lemma RoomsOfHit(text: string, h: Hit)
    requires FirstPatternMatch(Lower(text), RoomPatterns) == Some(h)
    ensures h.capture.start <= h.capture.end <= |Lower(text)|
    ensures RoomsFromText(text) == CaptureValue(Lower(text), h.capture)
  {
  }

  lemma RoomsOfNoHit(text: string)
    requires forall q :: 0 <= q < |RoomPatterns| ==> Search(Lower(text), RoomPatterns[q]).None?
    ensures RoomsFromText(text) == 0.0
  {
  }

  lemma AreaOfHit(text: string, h: Hit)
    requires FirstPatternMatch(Lower(text), AreaPatterns) == Some(h)
    ensures h.capture.start <= h.capture.end <= |Lower(text)|
    ensures AreaFromText(text) == Truncate(CaptureValue(Lower(text), h.capture))
  {
  }

  lemma AreaOfNoHit(text: string)
    requires forall q :: 0 <= q < |AreaPatterns| ==> Search(Lower(text), AreaPatterns[q]).None?
    ensures AreaFromText(text) == 0
  {
  }

  /** A pattern that matches, after patterns that all fail, is the one `FirstPatternMatch` reports. */
  lemma {:induction false} FirstPatternMatchExact(t: string, ps: seq<Pattern>, n: nat, c: Capture)
    requires n < |ps| && Search(t, ps[n]) == Some(c)
    requires forall q :: 0 <= q < n ==> Search(t, ps[q]).None?
    ensures FirstPatternMatch(t, ps) == Some(Hit(n, c))
  {
    if n > 0 {
      assert Search(t, ps[0]).None?;
      assert ps[1..][n - 1] == ps[n];
      forall q | 0 <= q < n - 1 ensures Search(t, ps[1..][q]).None? {
        assert ps[1..][q] == ps[q + 1];
      }
      FirstPatternMatchExact(t, ps[1..], n - 1, c);
    }
  }

  /**
   * In terms of the regular expressions: the hit is the leftmost match of the
   * first pattern that matches anywhere, and there is no hit exactly when no
   * pattern matches.
   */
  lemma FirstPatternMatchIsRegexMatch(t: string, ps: seq<Pattern>)
    ensures FirstPatternMatch(t, ps).Some? ==>
      var h := FirstPatternMatch(t, ps).value;
      && RegexMatchAt(t, h.capture.start, h.capture.end, ps[h.index])
      && (forall k, e :: 0 <= k < h.capture.start ==> !RegexMatchAt(t, k, e, ps[h.index]))
      && (forall q, k, e :: 0 <= q < h.index ==> !RegexMatchAt(t, k, e, ps[q]))
    ensures FirstPatternMatch(t, ps).None? <==> forall q, k, e :: 0 <= q < |ps| ==> !RegexMatchAt(t, k, e, ps[q])
  {
    forall q | 0 <= q < |ps| {
      SearchIsLeftmostMatch(t, ps[q]);
    }
  }

  /**
   * When the first rooms pattern that matches anywhere in the lowered text
   * matches leftmost at `k`, the rooms are the numeral there, `,` read as the point.
   */
  lemma RoomsFromTextMatch(text: string, n: nat, k: nat, e: nat)
    requires n < |RoomPatterns| && RegexMatchAt(Lower(text), k, e, RoomPatterns[n])
    requires k < |Lower(text)| && IsDigit(Lower(text)[k])  // implied by the match
    requires forall k', e' :: 0 <= k' < k ==> !RegexMatchAt(Lower(text), k', e', RoomPatterns[n])
    requires forall q, k', e' :: 0 <= q < n ==> !RegexMatchAt(Lower(text), k', e', RoomPatterns[q])
    ensures RoomsFromText(text) == DecimalValue(CaptureDecimal(Lower(text), k))
  {
    var t := Lower(text);
    PatternWins(t, RoomPatterns, n, k, e);
    CaptureParses(t, k, RoomPatterns[n]);
  }

  /** When no rooms pattern matches the lowered text anywhere, the rooms are 0. */
  lemma RoomsFromTextNoMatch(text: string)
    requires forall q, k, e :: 0 <= q < |RoomPatterns| ==> !RegexMatchAt(Lower(text), k, e, RoomPatterns[q])
    ensures RoomsFromText(text) == 0.0
  {
    FirstPatternMatchIsRegexMatch(Lower(text), RoomPatterns);
  }

  /**
   * When the first area pattern that matches anywhere in the lowered text
   * matches leftmost at `k`, the area is the whole part of the numeral there:
   * `int()` drops the fraction.
   */
  lemma AreaFromTextMatch(text: string, n: nat, k: nat, e: nat)
    requires n < |AreaPatterns| && RegexMatchAt(Lower(text), k, e, AreaPatterns[n])
    requires k < |Lower(text)| && IsDigit(Lower(text)[k])  // implied by the match
    requires forall k', e' :: 0 <= k' < k ==> !RegexMatchAt(Lower(text), k', e', AreaPatterns[n])
    requires forall q, k', e' :: 0 <= q < n ==> !RegexMatchAt(Lower(text), k', e', AreaPatterns[q])
    ensures AreaFromText(text) == DigitsValue(CaptureDecimal(Lower(text), k).whole)
  {
    var t := Lower(text);
    PatternWins(t, AreaPatterns, n, k, e);
    CaptureParses(t, k, AreaPatterns[n]);
    TruncateDecimal(CaptureDecimal(t, k));
  }

  /** When no area pattern matches the lowered text anywhere, the area is 0. */
  lemma AreaFromTextNoMatch(text: string)
    requires forall q, k, e :: 0 <= q < |AreaPatterns| ==> !RegexMatchAt(Lower(text), k, e, AreaPatterns[q])
    ensures AreaFromText(text) == 0
  {
    FirstPatternMatchIsRegexMatch(Lower(text), AreaPatterns);
  }

  /** The leftmost match of the first pattern that matches anywhere is the hit. */
  lemma PatternWins(t: string, ps: seq<Pattern>, n: nat, k: nat, e: nat)
    requires n < |ps| && RegexMatchAt(t, k, e, ps[n])
    requires forall k', e' :: 0 <= k' < k ==> !RegexMatchAt(t, k', e', ps[n])
    requires forall q, k', e' :: 0 <= q < n ==> !RegexMatchAt(t, k', e', ps[q])
    ensures FirstPatternMatch(t, ps) == Some(Hit(n, Capture(k, e)))
  {
    forall q | 0 <= q < n ensures Search(t, ps[q]).None? {
      SearchIsLeftmostMatch(t, ps[q]);
    }
    MatchAtComplete(t, k, e, ps[n]);
    forall k' | 0 <= k' < k ensures MatchAt(t, k', ps[n]).None? {
      if MatchAt(t, k', ps[n]).Some? {
        MatchAtSound(t, k', ps[n]);
        assert false;
      }
    }
    SearchFinds(t, ps[n], Capture(k, e));
    FirstPatternMatchExact(t, ps, n, Capture(k, e));
  }

  /** Both extractors already lowercase their input: lowering it first changes nothing. */
  lemma FromTextCaseInsensitive(text: string)
    ensures RoomsFromText(Lower(text)) == RoomsFromText(text)
    ensures AreaFromText(Lower(text)) == AreaFromText(text)
  {
    LowerIdempotent(text);
  }

  /** Lowering keeps digits and makes none. */
  lemma LowerKeepsDigits(s: string)
    ensures forall k :: 0 <= k < |s| ==> (IsDigit(Lower(s)[k]) <==> IsDigit(s[k]))
  {
  }

  /** A text without a digit has 0 rooms and area 0. */
  lemma FromTextNoDigit(text: string)
    requires forall k :: 0 <= k < |text| ==> !IsDigit(text[k])
    ensures RoomsFromText(text) == 0.0 && AreaFromText(text) == 0
  {
    LowerKeepsDigits(text);
    var t := Lower(text);
    forall q | 0 <= q < |RoomPatterns| ensures Search(t, RoomPatterns[q]).None? {
      SearchNeedsDigit(t, RoomPatterns[q]);
    }
    forall q | 0 <= q < |AreaPatterns| ensures Search(t, AreaPatterns[q]).None? {
      SearchNeedsDigit(t, AreaPatterns[q]);
    }
  }

  // ---- worked cases ----

  /** An earlier pattern wins over a later one that matches further left: "2 rooms, 4 zimmer" has 4 rooms. */
  lemma RoomsPriorityCase(text: string)
    requires text == "2 rooms, 4 zimmer"
    ensures RoomsFromText(text) == 4.0
  {
    RoomsTextLower(text);
    ZimmerAtNine(text);
    NoZimmerMatchBeforeNine(text);
    FourAtNine(text);
    RoomsOfLowercase(text, 9, 10);
  }

  /** `RoomsFromTextMatch` for a lower-case text and the first rooms pattern. */
  lemma RoomsOfLowercase(text: string, k: nat, e: nat)
    requires Lower(text) == text && RegexMatchAt(text, k, e, RoomsZimmer)
    requires k < |text| && IsDigit(text[k])
    requires forall k', e' :: 0 <= k' < k ==> !RegexMatchAt(text, k', e', RoomsZimmer)
    ensures RoomsFromText(text) == DecimalValue(CaptureDecimal(text, k))
  {
    RoomsFromTextMatch(text, 0, k, e);
  }

  lemma NoZimmerMatchBeforeNine(t: string)
    requires t == "2 rooms, 4 zimmer"
    ensures forall k', e' :: 0 <= k' < 9 ==> !RegexMatchAt(t, k', e', RoomsZimmer)
  {
    forall k', e' | 0 <= k' < 9 ensures !RegexMatchAt(t, k', e', RoomsZimmer) {
      NoZimmerBeforeNine(t, k');
      if RegexMatchAt(t, k', e', RoomsZimmer) {
        MatchAtComplete(t, k', e', RoomsZimmer);
        assert false;
      }
    }
  }

  lemma FourAtNine(t: string)
    requires t == "2 rooms, 4 zimmer"
    ensures 9 < |t| && IsDigit(t[9]) && DecimalValue(CaptureDecimal(t, 9)) == 4.0
  {
    SpanEndUnique(t, 9, 10, IsDigit);
    assert t[9..10] == "4";
    assert CaptureDecimal(t, 9) == Decimal("4", false, []);
    assert DigitsValue("4") == 4;
  }

  lemma ZimmerAtNine(t: string)
    requires t == "2 rooms, 4 zimmer"
    ensures RegexMatchAt(t, 9, 10, RoomsZimmer)
  {
    assert t[9..10] == "4";
    assert AllDigits(t[9..10]);
    assert AllSpace(t[10..11]);
    assert t[11..17] == "zimmer";
    assert SuffixAt(t, 11, RoomsZimmer);
  }

  lemma NoZimmerBeforeNine(t: string, k: nat)
    requires t == "2 rooms, 4 zimmer" && k < 9
    ensures MatchAt(t, k, RoomsZimmer).None?
  {
    if k == 0 {
      SpanEndUnique(t, 0, 1, IsDigit);
      assert NumberEnd(t, 0) == 1;
      SpanEndUnique(t, 1, 2, IsSpace);
      assert t[2..8][0] == 'r' && t[2..4][0] == 'r';
    } else {
      assert !IsDigit(t[k]);
    }
  }

  /** The area is truncated: "85,5 m²" gives 85. */
  lemma AreaCommaCase(text: string)
    requires text == "85,5 m²"
    ensures AreaFromText(text) == 85
  {
    CommaTextLower(text);
    SquareMetreAtZero(text);
    EightyFiveAtZero(text);
    AreaOfLowercase(text, 4);
  }

  /** `AreaFromTextMatch` for a lower-case text that starts with a match of the first area pattern. */
  lemma AreaOfLowercase(text: string, e: nat)
    requires Lower(text) == text && RegexMatchAt(text, 0, e, AreaSquareMetre)
    requires 0 < |text| && IsDigit(text[0])
    ensures AreaFromText(text) == DigitsValue(CaptureDecimal(text, 0).whole)
  {
    AreaFromTextMatch(text, 0, 0, e);
  }

  lemma EightyFiveAtZero(t: string)
    requires t == "85,5 m²"
    ensures 0 < |t| && IsDigit(t[0]) && DigitsValue(CaptureDecimal(t, 0).whole) == 85
  {
    SpanEndUnique(t, 0, 2, IsDigit);
    assert t[0..2] == "85";
    assert DigitsValue("85") == 85;
  }

  lemma SquareMetreAtZero(t: string)
    requires t == "85,5 m²"
    ensures RegexMatchAt(t, 0, 4, AreaSquareMetre)
  {
    var s := t[0..4];
    assert s[..2] == "85" && s[3..] == "5";
    assert AllDigits(s[..2]) && IsSep(s[2]) && AllDigits(s[3..]);
    assert CaptureShape(s);
    assert AllSpace(t[4..5]);
    assert t[5..7] == "m²";
    assert SuffixAt(t, 5, AreaSquareMetre);
  }

  /** A point in an area is the decimal point: "1.000 qm" gives 1. */
  lemma AreaThousandsCase(text: string)
    requires text == "1.000 qm"
    ensures AreaFromText(text) == 1
  {
    ThousandsTextLower(text);
    QmAtZero(text);
    OneAtZero(text);
    AreaOfLowercase(text, 5);
  }

  lemma OneAtZero(t: string)
    requires t == "1.000 qm"
    ensures 0 < |t| && IsDigit(t[0]) && DigitsValue(CaptureDecimal(t, 0).whole) == 1
  {
    SpanEndUnique(t, 0, 1, IsDigit);
    assert t[0..1] == "1";
    assert DigitsValue("1") == 1;
  }

  lemma QmAtZero(t: string)
    requires t == "1.000 qm"
    ensures RegexMatchAt(t, 0, 5, AreaSquareMetre)
  {
    var s := t[0..5];
    assert s[..1] == "1" && s[2..] == "000";
    assert AllDigits(s[..1]) && IsSep(s[1]) && AllDigits(s[2..]);
    assert CaptureShape(s);
    assert AllSpace(t[5..6]);
    assert t[6..8] == "qm";
    assert SuffixAt(t, 6, AreaSquareMetre);
  }

  lemma RoomsTextLower(t: string)
    requires t == "2 rooms, 4 zimmer"
    ensures Lower(t) == t
  {
    LowerOfLowercase(t);
  }

  lemma CommaTextLower(t: string)
    requires t == "85,5 m²"
    ensures Lower(t) == t
  {
    LowerOfLowercase(t);
  }

  lemma ThousandsTextLower(t: string)
    requires t == "1.000 qm"
    ensures Lower(t) == t
  {
    LowerOfLowercase(t);
  }
}
