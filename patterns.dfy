/**
 * The five regular expressions of `extract_rooms_from_text` and
 * `extract_area_from_text` (streamlit_app.py:306-310, 320-323), all of the
 * shape `(\d+(?:[,\.]\d+)?)\s*SUFFIX`, as hand-written scanners with
 * `re.search`'s leftmost-match semantics.
 *
 * Every suffix begins with a letter, which is neither a digit, a space nor a
 * separator. So at a given start the captured numeral can only end where the
 * greedy scan ends, and backtracking cannot produce another capture.
 * `MatchAtComplete` proves this.
 */
module Patterns {
  import opened Wrappers
  import opened Text

  /** The suffix alternatives, one per regular expression. */
  datatype Pattern =
    | RoomsZimmer      // (\d+(?:[,\.]\d+)?)\s*(?:zimmer|zi\b)
    | RoomsZ           // (\d+(?:[,\.]\d+)?)\s*z\b
    | RoomsRoom        // (\d+(?:[,\.]\d+)?)\s*room
    | AreaSquareMetre  // (\d+(?:[,\.]\d+)?)\s*(?:m²|qm|quadrat)
    | AreaM2           // (\d+(?:[,\.]\d+)?)\s*m2

  /** The span `[start, end)` of group 1 of a match. */
  datatype Capture = Capture(start: nat, end: nat)

  /** The separator class `[,\.]`. */
  predicate IsSep(c: char) {
    c == ',' || c == '.'
  }

  /** `\b` at position `k`: exactly one of the characters on either side is a word character. */
  predicate BoundaryAt(t: string, k: nat) {
    (0 < k <= |t| && IsWordChar(t[k - 1])) != (k < |t| && IsWordChar(t[k]))
  }

  /** The suffix of pattern `p` matches at position `j`. */
  predicate SuffixAt(t: string, j: nat, p: Pattern) {
    match p
    case RoomsZimmer => StartsWithAt(t, j, "zimmer") || (StartsWithAt(t, j, "zi") && BoundaryAt(t, j + 2))
    case RoomsZ => StartsWithAt(t, j, "z") && BoundaryAt(t, j + 1)
    case RoomsRoom => StartsWithAt(t, j, "room")
    case AreaSquareMetre => StartsWithAt(t, j, "m²") || StartsWithAt(t, j, "qm") || StartsWithAt(t, j, "quadrat")
    case AreaM2 => StartsWithAt(t, j, "m2")
  }

  /** Every suffix starts with a character that is not a digit, a space or a separator. */
  lemma SuffixStartsWithLetter(t: string, j: nat, p: Pattern)
    requires SuffixAt(t, j, p)
    ensures j < |t| && !IsDigit(t[j]) && !IsSpace(t[j]) && !IsSep(t[j])
  {
    match p
    case RoomsZimmer => assert t[j] == 'z' by { assert t[j..j + 2][0] == t[j]; }
    case RoomsZ => assert t[j..j + 1][0] == t[j];
    case RoomsRoom => assert t[j..j + 4][0] == t[j];
    case AreaSquareMetre =>
      if StartsWithAt(t, j, "m²") {
        assert t[j..j + 2][0] == t[j];
      } else if StartsWithAt(t, j, "qm") {
        assert t[j..j + 2][0] == t[j];
      } else {
        assert t[j..j + 7][0] == t[j];
      }
    case AreaM2 => assert t[j..j + 2][0] == t[j];
  }

  /**
   * The end of the greedy `\d+(?:[,\.]\d+)?` from a digit at `i`: the digit
   * run, extended by a separator and a second digit run when one follows.
   */
  function NumberEnd(t: string, i: nat): (e: nat)
    requires i < |t| && IsDigit(t[i])
    ensures i < e <= |t|
  {
    var d := SpanEnd(t, i, IsDigit);
    if d + 1 < |t| && IsSep(t[d]) && IsDigit(t[d + 1]) then SpanEnd(t, d + 1, IsDigit) else d
  }

  /** The end of group 1 when pattern `p` matches at `i`. */
  function MatchAt(t: string, i: nat, p: Pattern): (r: Option<nat>)
    ensures r.Some? ==> i < |t| && IsDigit(t[i]) && r.value == NumberEnd(t, i)
  {
    if i < |t| && IsDigit(t[i]) then
      var e := NumberEnd(t, i);
      if SuffixAt(t, SpanEnd(t, e, IsSpace), p) then Some(e) else None
    else None
  }

  /** Soundness: what `MatchAt` reports is a match of the regular expression. */
  lemma MatchAtSound(t: string, i: nat, p: Pattern)
    requires MatchAt(t, i, p).Some?
    ensures RegexMatchAt(t, i, MatchAt(t, i, p).value, p)
  {
    var e := NumberEnd(t, i);
    var j := SpanEnd(t, e, IsSpace);
    NumberEndShape(t, i);
    assert AllSpace(t[e..j]);
  }

  /** `s` matches `\d+(?:[,\.]\d+)?` as a whole. */
  ghost predicate CaptureShape(s: string) {
    || (|s| > 0 && AllDigits(s))
    || exists k :: 0 < k < |s| - 1 && AllDigits(s[..k]) && IsSep(s[k]) && AllDigits(s[k + 1..])
  }

  /**
   * The regular expression of `p` matches at `i` with group 1 ending at `e`:
   * some way through the alternatives, spaces and suffix succeeds.
   */
  ghost predicate RegexMatchAt(t: string, i: nat, e: nat, p: Pattern) {
    i <= e <= |t| && CaptureShape(t[i..e])
    && exists j :: e <= j <= |t| && AllSpace(t[e..j]) && SuffixAt(t, j, p)
  }

  lemma NumberEndShape(t: string, i: nat)
    requires i < |t| && IsDigit(t[i])
    ensures CaptureShape(t[i..NumberEnd(t, i)])
  {
    var d := SpanEnd(t, i, IsDigit);
    var e := NumberEnd(t, i);
    var s := t[i..e];
    if e == d {
      assert AllDigits(s);
    } else {
      var k := d - i;
      assert s[..k] == t[i..d];
      assert s[k + 1..] == t[d + 1..e];
    }
  }

  /** After a match's spaces comes the suffix, so the character after group 1 ends both runs. */
  lemma AfterCapture(t: string, e: nat, j: nat, p: Pattern)
    requires e <= j <= |t| && AllSpace(t[e..j]) && SuffixAt(t, j, p)
    ensures e < |t| && !IsDigit(t[e]) && !IsSep(t[e])
    ensures SpanEnd(t, e, IsSpace) == j
  {
    SuffixStartsWithLetter(t, j, p);
    if e < j {
      assert t[e..j][0] == t[e];
    }
    assert forall k :: e <= k < j ==> IsSpace(t[k]) by {
      forall k | e <= k < j ensures IsSpace(t[k]) {
        assert t[e..j][k - e] == t[k];
      }
    }
    SpanEndUnique(t, e, j, IsSpace);
  }

  /** Completeness: any way the regular expression matches at `i` is the one `MatchAt` finds. */
  lemma MatchAtComplete(t: string, i: nat, e: nat, p: Pattern)
    requires RegexMatchAt(t, i, e, p)
    ensures MatchAt(t, i, p) == Some(e)
  {
    var j :| e <= j <= |t| && AllSpace(t[e..j]) && SuffixAt(t, j, p);
    AfterCapture(t, e, j, p);
    NumberEndOfShape(t, i, e);
  }

  /** A numeral followed by neither a digit nor a separator ends where the greedy scan ends. */
  lemma NumberEndOfShape(t: string, i: nat, e: nat)
    requires i <= e <= |t| && CaptureShape(t[i..e])
    requires e == |t| || (!IsDigit(t[e]) && !IsSep(t[e]))
    ensures i < |t| && IsDigit(t[i]) && NumberEnd(t, i) == e
  {
    var s := t[i..e];
    if |s| > 0 && AllDigits(s) {
      WholeNumberEnd(t, i, e);
    } else {
      var k :| 0 < k < |s| - 1 && AllDigits(s[..k]) && IsSep(s[k]) && AllDigits(s[k + 1..]);
      FractionNumberEnd(t, i, k, e);
    }
  }

  lemma WholeNumberEnd(t: string, i: nat, e: nat)
    requires i < e <= |t| && AllDigits(t[i..e])
    requires e == |t| || (!IsDigit(t[e]) && !IsSep(t[e]))
    ensures IsDigit(t[i]) && NumberEnd(t, i) == e
  {
    assert forall m :: i <= m < e ==> IsDigit(t[m]) by {
      forall m | i <= m < e ensures IsDigit(t[m]) {
        assert t[i..e][m - i] == t[m];
      }
    }
    SpanEndUnique(t, i, e, IsDigit);
  }

  lemma FractionNumberEnd(t: string, i: nat, k: nat, e: nat)
    requires i <= e <= |t| && 0 < k < e - i - 1
    requires AllDigits(t[i..e][..k]) && IsSep(t[i + k]) && AllDigits(t[i..e][k + 1..])
    requires e == |t| || (!IsDigit(t[e]) && !IsSep(t[e]))
    ensures IsDigit(t[i]) && NumberEnd(t, i) == e
  {
    assert t[i..e][..k] == t[i..i + k];
    assert t[i..e][k + 1..] == t[i + k + 1..e];
    WholeDigits(t, i, i + k);
    WholeDigits(t, i + k + 1, e);
    SpanEndUnique(t, i, i + k, IsDigit);
    SpanEndUnique(t, i + k + 1, e, IsDigit);
  }

  lemma WholeDigits(t: string, a: nat, b: nat)
    requires a <= b <= |t| && AllDigits(t[a..b])
    ensures forall m :: a <= m < b ==> IsDigit(t[m])
  {
    forall m | a <= m < b ensures IsDigit(t[m]) {
      assert t[a..b][m - a] == t[m];
    }
  }

  /** The outcome of `MatchAt` at every start `0..|t|`: the candidates `re.search` tries, in order. */
  function Matches(t: string, p: Pattern): (ms: seq<Option<nat>>)
    ensures |ms| == |t| + 1 && forall k :: 0 <= k <= |t| ==> ms[k] == MatchAt(t, k, p)
  {
    seq(|t| + 1, k requires 0 <= k => MatchAt(t, k, p))
  }

  /** The first successful candidate at or after `i`: its start and group 1's end. */
  function LeftmostFrom(ms: seq<Option<nat>>, i: nat): (r: Option<Capture>)
    requires i <= |ms|
    ensures r.Some? ==> i <= r.value.start < |ms| && ms[r.value.start] == Some(r.value.end)
    decreases |ms| - i
  {
    if i == |ms| then None
    else match ms[i]
      case Some(e) => Some(Capture(i, e))
      case None => LeftmostFrom(ms, i + 1)
  }

  /** Every candidate before the one `LeftmostFrom` reports failed, or all failed when it reports none. */
  lemma {:induction false} LeftmostFromSpec(ms: seq<Option<nat>>, i: nat)
    requires i <= |ms|
    ensures var r := LeftmostFrom(ms, i);
      && (r.Some? ==> forall k :: i <= k < r.value.start ==> ms[k].None?)
      && (r.None? ==> forall k :: i <= k < |ms| ==> ms[k].None?)
    decreases |ms| - i
  {
    if i < |ms| && ms[i].None? {
      LeftmostFromSpec(ms, i + 1);
    }
  }

  /** `re.search(pattern, t)`, reduced to the span of group 1. */
  function Search(t: string, p: Pattern): (r: Option<Capture>)
    ensures r.Some? ==> MatchAt(t, r.value.start, p) == Some(r.value.end)
  {
    LeftmostFrom(Matches(t, p), 0)
  }

  /** `MatchAt` fails at every start before the one `Search` reports, or at every start when it reports none. */
  lemma SearchSpec(t: string, p: Pattern)
    ensures var r := Search(t, p);
      && (r.Some? ==> forall k :: 0 <= k < r.value.start ==> MatchAt(t, k, p).None?)
      && (r.None? ==> forall k :: 0 <= k <= |t| ==> MatchAt(t, k, p).None?)
  {
    LeftmostFromSpec(Matches(t, p), 0);
  }

  /**
   * `Search` finds exactly the leftmost start at which the regular expression
   * matches, with the only group 1 possible there, and finds nothing exactly
   * when the expression matches nowhere.
   */
  lemma SearchIsLeftmostMatch(t: string, p: Pattern)
    ensures Search(t, p).Some? ==>
      var c := Search(t, p).value;
      && RegexMatchAt(t, c.start, c.end, p)
      && (forall e :: RegexMatchAt(t, c.start, e, p) ==> e == c.end)
      && (forall k, e :: 0 <= k < c.start ==> !RegexMatchAt(t, k, e, p))
    ensures Search(t, p).None? <==> forall k, e :: !RegexMatchAt(t, k, e, p)
  {
    var r := Search(t, p);
    SearchSpec(t, p);
    if r.Some? {
      var c := r.value;
      MatchAtSound(t, c.start, p);
      forall e | RegexMatchAt(t, c.start, e, p) ensures e == c.end {
        MatchAtComplete(t, c.start, e, p);
      }
      forall k, e | 0 <= k < c.start ensures !RegexMatchAt(t, k, e, p) {
        if RegexMatchAt(t, k, e, p) {
          MatchAtComplete(t, k, e, p);
          assert false;
        }
      }
    } else {
      forall k, e ensures !RegexMatchAt(t, k, e, p) {
        if RegexMatchAt(t, k, e, p) {
          MatchAtComplete(t, k, e, p);
          assert false;
        }
      }
    }
  }

  /** A capture that `MatchAt` reports at the leftmost candidate start is what `Search` returns. */
  lemma SearchFinds(t: string, p: Pattern, c: Capture)
    requires MatchAt(t, c.start, p) == Some(c.end)
    requires forall k :: 0 <= k < c.start ==> MatchAt(t, k, p).None?
    ensures Search(t, p) == Some(c)
  {
    SearchSpec(t, p);
  }

  /** A pattern cannot match where there is no digit. */
  lemma SearchNeedsDigit(t: string, p: Pattern)
    requires forall k :: 0 <= k < |t| ==> !IsDigit(t[k])
    ensures Search(t, p).None?
  {
    SearchSpec(t, p);
  }
}
