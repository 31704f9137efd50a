/**
 * The city names as they appear in the search URLs: the ImmoScout24 path
 * segment (streamlit_app.py:34) and the eBay Kleinanzeigen one
 * (streamlit_app.py:211).
 */
module Slugs {
  import opened Text

  /** The city lowered, then each `ü`, `ä` and `ö` replaced by `u`, `a` and `o`, in that order. */
  function ScoutSlug(city: string): string {
    ReplaceChar(ReplaceChar(ReplaceChar(Lower(city), 'ü', 'u'), 'ä', 'a'), 'ö', 'o')
  }

  /** The city lowered, then each space replaced by a hyphen. */
  function EbaySlug(city: string): string {
    ReplaceChar(Lower(city), ' ', '-')
  }

  /** Each character of the ImmoScout24 slug is the lowered character with its umlaut dropped. */
  lemma ScoutSlugPointwise(city: string)
    ensures |ScoutSlug(city)| == |city|
    ensures forall i :: 0 <= i < |city| ==> ScoutSlug(city)[i] == Plain(LowerChar(city[i]))
  {
  }

  /** A lower-case umlaut without its dots; every other character unchanged. */
  function Plain(c: char): char {
    if c == 'ü' then 'u' else if c == 'ä' then 'a' else if c == 'ö' then 'o' else c
  }

  /** The ImmoScout24 slug is lowercase and has no `ü`, `ä` or `ö`; upper-case umlauts are lowered first. */
  lemma ScoutSlugPlain(city: string)
    ensures IsLowercase(ScoutSlug(city))
    ensures 'ü' !in ScoutSlug(city) && 'ä' !in ScoutSlug(city) && 'ö' !in ScoutSlug(city)
  {
    ScoutSlugPointwise(city);
  }

  /** Slugging an ImmoScout24 slug again changes nothing. */
  lemma ScoutSlugIdempotent(city: string)
    ensures ScoutSlug(ScoutSlug(city)) == ScoutSlug(city)
  {
    var s := ScoutSlug(city);
    ScoutSlugPlain(city);
    LowerOfLowercase(s);
    ReplaceCharAbsent(s, 'ü', 'u');
    ReplaceCharAbsent(s, 'ä', 'a');
    ReplaceCharAbsent(s, 'ö', 'o');
  }

  /** The eBay slug is lowercase, has no space, and keeps every other lowered character, umlauts included. */
  lemma EbaySlugPointwise(city: string)
    ensures |EbaySlug(city)| == |city| && IsLowercase(EbaySlug(city)) && ' ' !in EbaySlug(city)
    ensures forall i :: 0 <= i < |city| && LowerChar(city[i]) != ' ' ==> EbaySlug(city)[i] == LowerChar(city[i])
  {
  }

  /** Slugging an eBay slug again changes nothing. */
  lemma EbaySlugIdempotent(city: string)
    ensures EbaySlug(EbaySlug(city)) == EbaySlug(city)
  {
    var s := EbaySlug(city);
    EbaySlugPointwise(city);
    LowerOfLowercase(s);
    ReplaceCharAbsent(s, ' ', '-');
  }

  /** "München" becomes "munchen" for ImmoScout24 and "münchen" for eBay Kleinanzeigen. */
  lemma MunichSlugs(city: string)
    requires city == "München"
    ensures ScoutSlug(city) == "munchen"
    ensures EbaySlug(city) == "münchen"
  {
    ScoutSlugPointwise(city);
    EbaySlugPointwise(city);
    assert LowerChar('M') == 'm';
    assert ScoutSlug(city) == "munchen" by {
      var s := ScoutSlug(city);
      assert s[0] == 'm' && s[1] == 'u' && s[2] == 'n' && s[3] == 'c' && s[4] == 'h' && s[5] == 'e' && s[6] == 'n';
    }
    assert EbaySlug(city) == "münchen" by {
      var s := EbaySlug(city);
      assert s[0] == 'm' && s[1] == 'ü' && s[2] == 'n' && s[3] == 'c' && s[4] == 'h' && s[5] == 'e' && s[6] == 'n';
    }
  }
}
