/**
 * Listing records and how `RealEstateScraper` builds them
 * (streamlit_app.py:14-16, 51-56, 67-117, 159-203, 239-278, 331-336).
 *
 * The HTML lookups are not modelled: each listing comes in as the texts that
 * `find` and `find_all` would return after `get_text(strip=True)`, with
 * `None` for an element that is absent.
 */
module Listings {
  import opened Wrappers
  import opened Masks
  import opened Text
  import opened Extract
  import opened TextFields

  /** The module constants `MAX_PRICE`, `MIN_ROOMS` and `MIN_AREA`. */
  const MaxPrice: int := 750000
  const MinRooms: int := 3
  const MinArea: int := 80

  datatype Source = ImmoScout24 | Immonet | EbayKleinanzeigen

  /** The record a parser returns; the `scraped_at` timestamp is not modelled. */
  datatype Listing = Listing(
    title: string,
    price: int,
    rooms: real,
    area: int,
    location: string,
    city: string,
    link: string,
    source: Source)

  /** `meets_criteria`: always against the module constants, never the sliders. */
  predicate MeetsCriteria(a: Listing) {
    a.price <= MaxPrice && a.rooms >= MinRooms as real && a.area >= MinArea && a.price > 0
  }

  /** A price that could not be read is 0, and a listing with that price is never accepted. */
  lemma UnreadablePriceRejected(a: Listing, priceText: string)
    requires a.price == ExtractNumber(priceText)
    requires forall k :: 0 <= k < |priceText| ==> !IsDigit(priceText[k])
    ensures !MeetsCriteria(a)
  {
    ExtractNumberNoDigit(priceText);
  }

  /** `a or b` on two lookups: the first element that was found. */
  function Either(a: Option<string>, b: Option<string>): Option<string> {
    if a.Some? then a else b
  }

  // ---- selecting a fragment by keyword ----

  /** The index of the first fragment with property `p`. */
  function FirstWith(xs: seq<string>, p: string -> bool): (r: Option<nat>)
    ensures r.Some? ==> r.value < |xs| && p(xs[r.value])
    ensures r.Some? ==> forall k :: 0 <= k < r.value ==> !p(xs[k])
    ensures r.None? ==> forall k :: 0 <= k < |xs| ==> !p(xs[k])
  {
    if xs == [] then None
    else if p(xs[0]) then Some(0)
    else match FirstWith(xs[1..], p)
      case None => None
      case Some(k) => Some(k + 1)
  }

  /** The index of the last fragment with property `p`. */
  function LastWith(xs: seq<string>, p: string -> bool): (r: Option<nat>)
    ensures r.Some? ==> r.value < |xs| && p(xs[r.value])
    ensures r.Some? ==> forall k :: r.value < k < |xs| ==> !p(xs[k])
    ensures r.None? ==> forall k :: 0 <= k < |xs| ==> !p(xs[k])
  {
    if xs == [] then None
    else if p(xs[|xs| - 1]) then Some(|xs| - 1)
    else LastWith(xs[..|xs| - 1], p)
  }

  /** One more fragment: it is selected when it has `p`, otherwise the selection stays. */
  lemma LastWithSnoc(xs: seq<string>, x: string, p: string -> bool)
    ensures LastWith(xs + [x], p) == if p(x) then Some(|xs|) else LastWith(xs, p)
  {
    assert (xs + [x])[..|xs|] == xs;
  }

  /** Any index with `p` that no earlier index has is what `FirstWith` finds. */
  lemma FirstWithExact(xs: seq<string>, p: string -> bool, k: nat)
    requires k < |xs| && p(xs[k]) && forall j :: 0 <= j < k ==> !p(xs[j])
    ensures FirstWith(xs, p) == Some(k)
  {
  }

  /** Any index with `p` that no later index has is what `LastWith` finds. */
  lemma LastWithExact(xs: seq<string>, p: string -> bool, k: nat)
    requires k < |xs| && p(xs[k]) && forall j :: k < j < |xs| ==> !p(xs[j])
    ensures LastWith(xs, p) == Some(k)
  {
  }

  /** The value read from the selected fragment, or 0 when none was selected. */
  function RoomsAt(xs: seq<string>, i: Option<nat>): real
    requires i.Some? ==> i.value < |xs|
  {
    if i.Some? then ExtractFloat(xs[i.value]) else 0.0
  }

  function AreaAt(xs: seq<string>, i: Option<nat>): int
    requires i.Some? ==> i.value < |xs|
  {
    if i.Some? then ExtractNumber(xs[i.value]) else 0
  }

  // ---- ImmoScout24 (streamlit_app.py:67-117) ----

  /** What the lookups of one `result-list-entry` return. */
  datatype ScoutElements = ScoutElements(
    heading: Option<string>,           // first h2 element
    brandTitle: Option<string>,        // brand-title link
    gridItems: seq<string>,            // every grid-item entry, in document order
    primaryCriterion: Option<string>,  // primary-criterion block
    mapLink: Option<string>,           // map-link button
    address: Option<string>,           // address block
    link: Option<string>)              // absolute URL of the first link

  /** The rooms test: `'zimmer'` or `'zi'` in the lowercased fragment. */
  predicate ScoutRoomsKey(x: string) {
    Contains(Lower(x), "zimmer") || Contains(Lower(x), "zi")
  }

  /** The area test: `'m²'` or `'qm'` in the fragment as it is. */
  predicate ScoutAreaKey(x: string) {
    Contains(x, "m²") || Contains(x, "qm")
  }

  /** The price lookup finds the first grid item when there is one, and falls back to the primary criterion, then to "0". */
  function ScoutPriceText(l: ScoutElements): string {
    (if l.gridItems != [] then Some(l.gridItems[0]) else l.primaryCriterion).GetOr("0")
  }

  /** `parse_immoscout_listing`: rooms and area from the first matching grid items. */
  function ScoutListing(l: ScoutElements, city: string): Listing {
    Listing(
      Either(l.heading, l.brandTitle).GetOr("N/A"),
      ExtractNumber(ScoutPriceText(l)),
      RoomsAt(l.gridItems, FirstWith(l.gridItems, ScoutRoomsKey)),
      AreaAt(l.gridItems, FirstWith(l.gridItems, ScoutAreaKey)),
      Either(l.mapLink, l.address).GetOr(city),
      city,
      l.link.GetOr(""),
      ImmoScout24)
  }

  /** `parse_immoscout_listing`: the lookups, then the two selection loops. */
  method ParseImmoScoutListing(l: ScoutElements, city: string) returns (a: Listing)
    ensures a == ScoutListing(l, city)
  {
    var title := Either(l.heading, l.brandTitle).GetOr("N/A");
    var price := ExtractNumber(ScoutPriceText(l));
    var rooms := ScoutRoomsLoop(l.gridItems);
    var area := ScoutAreaLoop(l.gridItems);
    a := Listing(title, price, rooms, area, Either(l.mapLink, l.address).GetOr(city), city, l.link.GetOr(""), ImmoScout24);
  }

  /** The rooms loop of `parse_immoscout_listing`: read the first grid item that passes the test, then `break`. */
  method ScoutRoomsLoop(items: seq<string>) returns (rooms: real)
    ensures rooms == RoomsAt(items, FirstWith(items, ScoutRoomsKey))
  {
    rooms := 0.0;
    for k := 0 to |items|
      invariant rooms == 0.0 && forall j :: 0 <= j < k ==> !ScoutRoomsKey(items[j])
    {
      if ScoutRoomsKey(items[k]) {
        rooms := ExtractFloat(items[k]);
        FirstWithExact(items, ScoutRoomsKey, k);
        break;
      }
    }
  }

  /** The area loop of `parse_immoscout_listing`: read the first grid item that passes the test, then `break`. */
  method ScoutAreaLoop(items: seq<string>) returns (area: int)
    ensures area == AreaAt(items, FirstWith(items, ScoutAreaKey))
  {
    area := 0;
    for k := 0 to |items|
      invariant area == 0 && forall j :: 0 <= j < k ==> !ScoutAreaKey(items[j])
    {
      if ScoutAreaKey(items[k]) {
        area := ExtractNumber(items[k]);
        FirstWithExact(items, ScoutAreaKey, k);
        break;
      }
    }
  }

  /** The rooms test's `'zimmer'` clause adds nothing: every fragment containing it contains `'zi'`. */
  lemma ScoutZimmerRedundant(x: string)
    ensures ScoutRoomsKey(x) <==> Contains(Lower(x), "zi")
  {
    if Contains(Lower(x), "zimmer") {
      ContainsPrefix(Lower(x), "zimmer", 2);
      assert "zimmer"[..2] == "zi";
    }
  }

  /** ImmoScout24 reads the rooms from the first grid item that passes the test, and the area likewise. */
  lemma ScoutFirstFragmentWins(l: ScoutElements, city: string, k: nat)
    requires k < |l.gridItems| && ScoutRoomsKey(l.gridItems[k])
    requires forall j :: 0 <= j < k ==> !ScoutRoomsKey(l.gridItems[j])
    ensures ScoutListing(l, city).rooms == ExtractFloat(l.gridItems[k])
  {
    FirstWithExact(l.gridItems, ScoutRoomsKey, k);
  }

  lemma ScoutFirstAreaFragmentWins(l: ScoutElements, city: string, k: nat)
    requires k < |l.gridItems| && ScoutAreaKey(l.gridItems[k])
    requires forall j :: 0 <= j < k ==> !ScoutAreaKey(l.gridItems[j])
    ensures ScoutListing(l, city).area == ExtractNumber(l.gridItems[k])
  {
    FirstWithExact(l.gridItems, ScoutAreaKey, k);
  }

  /** Rooms and area stay 0 when no grid item passes the test. */
  lemma ScoutNoKeyword(l: ScoutElements, city: string)
    requires forall j :: 0 <= j < |l.gridItems| ==> !ScoutRoomsKey(l.gridItems[j]) && !ScoutAreaKey(l.gridItems[j])
    ensures ScoutListing(l, city).rooms == 0.0 && ScoutListing(l, city).area == 0
  {
    assert FirstWith(l.gridItems, ScoutRoomsKey).None?;
    assert FirstWith(l.gridItems, ScoutAreaKey).None?;
  }

  // ---- Immonet (streamlit_app.py:159-203) ----

  /** What the lookups of one Immonet `item` return. */
  datatype ImmonetElements = ImmonetElements(
    heading: Option<string>,       // first h3 element
    titleLink: Option<string>,     // text-225 link
    pricePrimary: Option<string>,  // price-primary block
    priceStrong: Option<string>,   // text-250 strong element
    details: seq<string>,          // every text-100 block, in document order
    detailParagraph: Option<string>,  // text-100 paragraph
    link: Option<string>)          // absolute URL of the first link

  /** The rooms test: `'zimmer'` in the lowercased fragment. */
  predicate ImmonetRoomsKey(x: string) {
    Contains(Lower(x), "zimmer")
  }

  /** The area test of the `elif`: `'m²'` in a fragment that failed the rooms test. */
  predicate ImmonetAreaKey(x: string) {
    !ImmonetRoomsKey(x) && Contains(x, "m²")
  }

  /** The location lookup finds the first detail when there is one, and falls back to the detail paragraph, then to the city. */
  function ImmonetLocation(l: ImmonetElements, city: string): string {
    (if l.details != [] then Some(l.details[0]) else l.detailParagraph).GetOr(city)
  }

  /** `parse_immonet_listing`: rooms and area from the last matching details. */
  function ImmonetListing(l: ImmonetElements, city: string): Listing {
    Listing(
      Either(l.heading, l.titleLink).GetOr("N/A"),
      ExtractNumber(Either(l.pricePrimary, l.priceStrong).GetOr("0")),
      RoomsAt(l.details, LastWith(l.details, ImmonetRoomsKey)),
      AreaAt(l.details, LastWith(l.details, ImmonetAreaKey)),
      ImmonetLocation(l, city),
      city,
      l.link.GetOr(""),
      Immonet)
  }

  /** `parse_immonet_listing`: the lookups, then the selection loop over the details. */
  method ParseImmonetListing(l: ImmonetElements, city: string) returns (a: Listing)
    ensures a == ImmonetListing(l, city)
  {
    var title := Either(l.heading, l.titleLink).GetOr("N/A");
    var price := ExtractNumber(Either(l.pricePrimary, l.priceStrong).GetOr("0"));
    var rooms, area := ImmonetDetailsLoop(l.details);
    a := Listing(title, price, rooms, area, ImmonetLocation(l, city), city, l.link.GetOr(""), Immonet);
  }

  /** The detail loop of `parse_immonet_listing`: no `break`, so every match overwrites the last. */
  method ImmonetDetailsLoop(details: seq<string>) returns (rooms: real, area: int)
    ensures rooms == RoomsAt(details, LastWith(details, ImmonetRoomsKey))
    ensures area == AreaAt(details, LastWith(details, ImmonetAreaKey))
  {
    rooms, area := 0.0, 0;
    ghost var ri, ai: Option<nat> := None, None;
    for k := 0 to |details|
      invariant ri == LastWith(details[..k], ImmonetRoomsKey) && ai == LastWith(details[..k], ImmonetAreaKey)
      invariant rooms == RoomsAt(details, ri) && area == AreaAt(details, ai)
    {
      var text := details[k];
      assert details[..k + 1] == details[..k] + [text];
      LastWithSnoc(details[..k], text, ImmonetRoomsKey);
      LastWithSnoc(details[..k], text, ImmonetAreaKey);
      if Contains(Lower(text), "zimmer") {
        rooms := ExtractFloat(text);
        ri := Some(k);
      } else if Contains(text, "m²") {
        area := ExtractNumber(text);
        ai := Some(k);
      }
    }
    assert details[..|details|] == details;
  }

  /** Immonet reads the rooms from the last detail that passes the test, and the area likewise. */
  lemma ImmonetLastFragmentWins(l: ImmonetElements, city: string, k: nat)
    requires k < |l.details| && ImmonetRoomsKey(l.details[k])
    requires forall j :: k < j < |l.details| ==> !ImmonetRoomsKey(l.details[j])
    ensures ImmonetListing(l, city).rooms == ExtractFloat(l.details[k])
  {
    LastWithExact(l.details, ImmonetRoomsKey, k);
  }

  lemma ImmonetLastAreaFragmentWins(l: ImmonetElements, city: string, k: nat)
    requires k < |l.details| && ImmonetAreaKey(l.details[k])
    requires forall j :: k < j < |l.details| ==> !ImmonetAreaKey(l.details[j])
    ensures ImmonetListing(l, city).area == ExtractNumber(l.details[k])
  {
    LastWithExact(l.details, ImmonetAreaKey, k);
  }

  /**
   * Because of the `elif`, a detail naming both rooms and area ("3 Zimmer, 85 m²")
   * is read only for the rooms: when it is the only detail, the area stays 0.
   */
  lemma ImmonetZimmerNeverArea(l: ImmonetElements, city: string)
    requires |l.details| == 1 && ImmonetRoomsKey(l.details[0])
    ensures ImmonetListing(l, city).rooms == ExtractFloat(l.details[0])
    ensures ImmonetListing(l, city).area == 0
  {
    LastWithExact(l.details, ImmonetRoomsKey, 0);
    assert LastWith(l.details, ImmonetAreaKey).None?;
  }

  /** Rooms and area stay 0 when no detail passes either test. */
  lemma ImmonetNoKeyword(l: ImmonetElements, city: string)
    requires forall j :: 0 <= j < |l.details| ==> !ImmonetRoomsKey(l.details[j]) && !Contains(l.details[j], "m²")
    ensures ImmonetListing(l, city).rooms == 0.0 && ImmonetListing(l, city).area == 0
  {
    assert LastWith(l.details, ImmonetRoomsKey).None?;
    assert LastWith(l.details, ImmonetAreaKey).None?;
  }

  /**
   * The same two room fragments are read differently by the two parsers:
   * ImmoScout24 keeps the first, Immonet the last.
   */
  lemma FirstAgainstLast(x: string, y: string, s: ScoutElements, m: ImmonetElements, city: string)
    requires ImmonetRoomsKey(x) && ImmonetRoomsKey(y)
    requires s.gridItems == [x, y] && m.details == [x, y]
    ensures ScoutListing(s, city).rooms == ExtractFloat(x)
    ensures ImmonetListing(m, city).rooms == ExtractFloat(y)
  {
    FirstWithExact(s.gridItems, ScoutRoomsKey, 0);
    LastWithExact(m.details, ImmonetRoomsKey, 1);
  }

  // ---- eBay Kleinanzeigen (streamlit_app.py:239-278) ----

  /** What the lookups of one eBay Kleinanzeigen `aditem` return. */
  datatype EbayElements = EbayElements(
    heading: Option<string>,         // first h2 element
    ellipsis: Option<string>,        // ellipsis link
    strong: Option<string>,          // first strong element
    priceSpan: Option<string>,       // price span
    paragraph: Option<string>,       // first paragraph
    descriptionDiv: Option<string>,  // description block
    topLeftDiv: Option<string>,      // top-left block
    topLeftSpan: Option<string>,     // top-left span
    link: Option<string>)            // absolute URL of the first link

  /** The text the pattern extractors read: `description + " " + title`. */
  function EbayText(l: EbayElements): string {
    Either(l.paragraph, l.descriptionDiv).GetOr("") + " " + Either(l.heading, l.ellipsis).GetOr("N/A")
  }

  /** `parse_ebay_listing`: rooms and area from the patterns, over description and title. */
  function ParseEbayListing(l: EbayElements, city: string): (a: Listing)
    ensures a.rooms == RoomsFromText(EbayText(l)) && a.area == AreaFromText(EbayText(l))
    ensures a.rooms >= 0.0 && a.area >= 0
  {
    Listing(
      Either(l.heading, l.ellipsis).GetOr("N/A"),
      ExtractNumber(Either(l.strong, l.priceSpan).GetOr("0")),
      RoomsFromText(EbayText(l)),
      AreaFromText(EbayText(l)),
      Either(l.topLeftDiv, l.topLeftSpan).GetOr(city),
      city,
      l.link.GetOr(""),
      EbayKleinanzeigen)
  }

  // ---- one page of results (streamlit_app.py:51-56, 143-148, 224-229) ----

  /** One listing element, from whichever site it came. */
  datatype Elements = Scout(scout: ScoutElements) | Net(net: ImmonetElements) | Ebay(ebay: EbayElements)

  function ListingOf(e: Elements, city: string): Listing {
    match e
    case Scout(s) => ScoutListing(s, city)
    case Net(m) => ImmonetListing(m, city)
    case Ebay(b) => ParseEbayListing(b, city)
  }

  /** The parser of the site the element came from. */
  method ParseListing(e: Elements, city: string) returns (a: Listing)
    ensures a == ListingOf(e, city)
  {
    match e
    case Scout(s) => a := ParseImmoScoutListing(s, city);
    case Net(m) => a := ParseImmonetListing(m, city);
    case Ebay(b) => a := ParseEbayListing(b, city);
  }

  /** Every listing element of a page, parsed. */
  function ParseAll(es: seq<Elements>, city: string): (r: seq<Listing>)
    ensures |r| == |es| && forall k :: 0 <= k < |es| ==> r[k] == ListingOf(es[k], city)
  {
    MapSeq(e => ListingOf(e, city), es)
  }

  /** `f` applied to each element of `xs`, in order. */
  function MapSeq<A, B>(f: A -> B, xs: seq<A>): (r: seq<B>)
    ensures |r| == |xs| && forall k :: 0 <= k < |xs| ==> r[k] == f(xs[k])
  {
    if xs == [] then [] else MapSeq(f, xs[..|xs| - 1]) + [f(xs[|xs| - 1])]
  }

  /** One entry per listing: whether it meets the criteria. */
  function CriteriaMask(xs: seq<Listing>): (m: seq<bool>)
    ensures |m| == |xs|
  {
    seq(|xs|, k requires 0 <= k < |xs| => MeetsCriteria(xs[k]))
  }

  /**
   * The listings that meet the criteria, in their original order: the
   * selection the criteria mask makes.
   */
  function Accepted(xs: seq<Listing>): (r: seq<Listing>)
    ensures |r| <= |xs|
    ensures forall a :: a in r ==> a in xs && MeetsCriteria(a)
    ensures forall a :: a in xs && MeetsCriteria(a) ==> a in r
    ensures r == Mask(xs, CriteriaMask(xs))
  {
    if xs == [] then []
    else
      var n := |xs| - 1;
      var rest := Accepted(xs[..n]);
      var a := xs[n];
      assert xs == xs[..n] + [a];
      assert CriteriaMask(xs)[..n] == CriteriaMask(xs[..n]);
      MaskLast(xs, CriteriaMask(xs));
      if MeetsCriteria(a) then rest + [a] else rest
  }

  /**
   * The accepted listings are a subsequence of the parsed ones: each
   * listing that meets the criteria, once and in its original place.
   */
  lemma AcceptedInOrder(xs: seq<Listing>) returns (idx: seq<nat>)
    ensures Picks(Accepted(xs), xs, idx)
    ensures forall i :: 0 <= i < |idx| ==> MeetsCriteria(xs[idx[i]])
    ensures forall k :: 0 <= k < |xs| && MeetsCriteria(xs[k]) ==> k in idx
  {
    idx := MaskPicks(xs, CriteriaMask(xs));
  }

  /** The loop of a `scrape_*` method over one page: parse each listing, keep it if it meets the criteria. */
  method CollectAccepted(es: seq<Elements>, city: string) returns (apartments: seq<Listing>)
    ensures apartments == Accepted(ParseAll(es, city))
  {
    apartments := [];
    for k := 0 to |es|
      invariant apartments == Accepted(ParseAll(es[..k], city))
    {
      var a := ParseListing(es[k], city);
      assert es[..k + 1][..k] == es[..k];
      assert ParseAll(es[..k + 1], city) == ParseAll(es[..k], city) + [a];
      if MeetsCriteria(a) {
        apartments := apartments + [a];
      }
    }
    assert es[..|es|] == es;
  }
}
