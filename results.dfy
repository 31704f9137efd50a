/**
 * The list operations of `main` (streamlit_app.py:384-404, 413, 453-473):
 * gathering the results of every selected city and source, dropping duplicate
 * listings, and the result filter.
 *
 * pandas implements both `drop_duplicates` and `df[condition]` as boolean
 * indexing, which `Masks.Mask` models.
 */
module Results {
  import opened Wrappers
  import opened Masks
  import opened Listings

  // ---- drop_duplicates(subset=['title', 'price'], keep='first') ----

  /** The deduplication key. */
  function Key(a: Listing): (string, int) {
    (a.title, a.price)
  }

  function KeysOf(xs: seq<Listing>): (r: set<(string, int)>)
    ensures forall a :: a in xs ==> Key(a) in r
    ensures forall key :: key in r ==> exists a :: a in xs && Key(a) == key
  {
    set a | a in xs :: Key(a)
  }

  /** `~df.duplicated(subset, keep='first')`: a row is kept when no earlier row has its key. */
  function FirstOccurrence(xs: seq<Listing>): (m: seq<bool>)
    ensures |m| == |xs|
    ensures forall k :: 0 <= k < |xs| ==> (m[k] <==> Key(xs[k]) !in KeysOf(xs[..k]))
  {
    seq(|xs|, k requires 0 <= k < |xs| => Key(xs[k]) !in KeysOf(xs[..k]))
  }

  /** Keep-first deduplication on title and price. */
  function DropDuplicates(xs: seq<Listing>): seq<Listing> {
    Mask(xs, FirstOccurrence(xs))
  }

  /** No two rows share a key. */
  predicate DistinctKeys(xs: seq<Listing>) {
    forall i, j :: 0 <= i < j < |xs| ==> Key(xs[i]) != Key(xs[j])
  }

  /**
   * `drop_duplicates` returns a subsequence of its input that keeps exactly
   * the first row of each key.
   */
  lemma DropDuplicatesKeepsFirst(xs: seq<Listing>) returns (idx: seq<nat>)
    ensures Picks(DropDuplicates(xs), xs, idx)
    ensures forall i :: 0 <= i < |idx| ==> forall k :: 0 <= k < idx[i] ==> Key(xs[k]) != Key(xs[idx[i]])
    ensures forall k :: 0 <= k < |xs| && (forall j :: 0 <= j < k ==> Key(xs[j]) != Key(xs[k])) ==> k in idx
  {
    var m := FirstOccurrence(xs);
    idx := MaskPicks(xs, m);
    forall i | 0 <= i < |idx| ensures forall k :: 0 <= k < idx[i] ==> Key(xs[k]) != Key(xs[idx[i]]) {
      forall k | 0 <= k < idx[i] ensures Key(xs[k]) != Key(xs[idx[i]]) {
        assert xs[k] == xs[..idx[i]][k];
      }
    }
  }

  /** After `drop_duplicates` no two rows share a key. */
  lemma DropDuplicatesDistinct(xs: seq<Listing>)
    ensures DistinctKeys(DropDuplicates(xs))
  {
    var r := DropDuplicates(xs);
    var idx := DropDuplicatesKeepsFirst(xs);
    forall i, j | 0 <= i < j < |r| ensures Key(r[i]) != Key(r[j]) {
      assert idx[i] < idx[j];
    }
  }

  /** `drop_duplicates` loses no key. */
  lemma DropDuplicatesKeepsKeys(xs: seq<Listing>)
    ensures KeysOf(DropDuplicates(xs)) == KeysOf(xs)
  {
    var r := DropDuplicates(xs);
    var idx := DropDuplicatesKeepsFirst(xs);
    forall key | key in KeysOf(xs) ensures key in KeysOf(r) {
      var a :| a in xs && Key(a) == key;
      var k := FirstWithKey(xs, key);
      assert k in idx;
      var i :| 0 <= i < |idx| && idx[i] == k;
      assert r[i] in r;
    }
  }

  /** The first row with a key that occurs. */
  lemma FirstWithKey(xs: seq<Listing>, key: (string, int)) returns (k: nat)
    requires key in KeysOf(xs)
    ensures k < |xs| && Key(xs[k]) == key && forall j :: 0 <= j < k ==> Key(xs[j]) != key
  {
    var a :| a in xs && Key(a) == key;
    var i :| 0 <= i < |xs| && xs[i] == a;
    k := 0;
    while Key(xs[k]) != key
      invariant k <= i && forall j :: 0 <= j < k ==> Key(xs[j]) != key
      decreases i - k
    {
      k := k + 1;
    }
  }

  /** A table whose keys are distinct passes `drop_duplicates` unchanged. */
  lemma DropDuplicatesOfDistinct(xs: seq<Listing>)
    requires DistinctKeys(xs)
    ensures DropDuplicates(xs) == xs
  {
    var m := FirstOccurrence(xs);
    MaskAll(xs, m);
  }

  /** `drop_duplicates` is idempotent. */
  lemma DropDuplicatesIdempotent(xs: seq<Listing>)
    ensures DropDuplicates(DropDuplicates(xs)) == DropDuplicates(xs)
  {
    DropDuplicatesDistinct(xs);
    DropDuplicatesOfDistinct(DropDuplicates(xs));
  }

  // ---- the result filter (streamlit_app.py:469-473) ----

  /** The three conditions combined with `&`. */
  predicate Passes(a: Listing, priceFilter: int, roomsFilter: real, areaFilter: int) {
    a.price <= priceFilter && a.rooms >= roomsFilter && a.area >= areaFilter
  }

  function FilterMask(xs: seq<Listing>, priceFilter: int, roomsFilter: real, areaFilter: int): (m: seq<bool>)
    ensures |m| == |xs|
    ensures forall k :: 0 <= k < |xs| ==> (m[k] <==> Passes(xs[k], priceFilter, roomsFilter, areaFilter))
  {
    seq(|xs|, k requires 0 <= k < |xs| => Passes(xs[k], priceFilter, roomsFilter, areaFilter))
  }

  /** The result filter: the rows at or below the price slider and at or above the rooms and area sliders, in order. */
  function ResultFilter(xs: seq<Listing>, priceFilter: int, roomsFilter: real, areaFilter: int): seq<Listing> {
    Mask(xs, FilterMask(xs, priceFilter, roomsFilter, areaFilter))
  }

  /**
   * The filter returns a subsequence of its input holding exactly the rows
   * that pass all three conditions.
   */
  lemma ResultFilterExact(xs: seq<Listing>, priceFilter: int, roomsFilter: real, areaFilter: int) returns (idx: seq<nat>)
    ensures Picks(ResultFilter(xs, priceFilter, roomsFilter, areaFilter), xs, idx)
    ensures forall i :: 0 <= i < |idx| ==> Passes(xs[idx[i]], priceFilter, roomsFilter, areaFilter)
    ensures forall k :: 0 <= k < |xs| && Passes(xs[k], priceFilter, roomsFilter, areaFilter) ==> k in idx
  {
    idx := MaskPicks(xs, FilterMask(xs, priceFilter, roomsFilter, areaFilter));
  }

  /** Filtering twice with the same sliders is filtering once. */
  lemma ResultFilterIdempotent(xs: seq<Listing>, priceFilter: int, roomsFilter: real, areaFilter: int)
    ensures var r := ResultFilter(xs, priceFilter, roomsFilter, areaFilter);
      ResultFilter(r, priceFilter, roomsFilter, areaFilter) == r
  {
    var r := ResultFilter(xs, priceFilter, roomsFilter, areaFilter);
    var idx := ResultFilterExact(xs, priceFilter, roomsFilter, areaFilter);
    MaskAll(r, FilterMask(r, priceFilter, roomsFilter, areaFilter));
  }

  /** The largest price of a non-empty table: `df['price'].max()`. */
  function MaxPriceOf(xs: seq<Listing>): (r: int)
    requires xs != []
    ensures forall a :: a in xs ==> a.price <= r
    ensures exists a :: a in xs && a.price == r
  {
    if |xs| == 1 then xs[0].price
    else
      var rest := MaxPriceOf(xs[1..]);
      assert forall a :: a in xs ==> a == xs[0] || a in xs[1..];
      if xs[0].price >= rest then xs[0].price else rest
  }

  /** The smallest room count of a non-empty table: `df['rooms'].min()`. */
  function MinRoomsOf(xs: seq<Listing>): (r: real)
    requires xs != []
    ensures forall a :: a in xs ==> r <= a.rooms
    ensures exists a :: a in xs && a.rooms == r
  {
    if |xs| == 1 then xs[0].rooms
    else
      var rest := MinRoomsOf(xs[1..]);
      assert forall a :: a in xs ==> a == xs[0] || a in xs[1..];
      if xs[0].rooms <= rest then xs[0].rooms else rest
  }

  /** The smallest area of a non-empty table: `df['area'].min()`. */
  function MinAreaOf(xs: seq<Listing>): (r: int)
    requires xs != []
    ensures forall a :: a in xs ==> r <= a.area
    ensures exists a :: a in xs && a.area == r
  {
    if |xs| == 1 then xs[0].area
    else
      var rest := MinAreaOf(xs[1..]);
      assert forall a :: a in xs ==> a == xs[0] || a in xs[1..];
      if xs[0].area <= rest then xs[0].area else rest
  }

  /**
   * The sliders start at the table's largest price, smallest room count and
   * smallest area (streamlit_app.py:453-466), and with those values the
   * filter keeps every row.
   */
  lemma DefaultSlidersKeepAll(xs: seq<Listing>)
    requires xs != []
    ensures ResultFilter(xs, MaxPriceOf(xs), MinRoomsOf(xs), MinAreaOf(xs)) == xs
  {
    var m := FilterMask(xs, MaxPriceOf(xs), MinRoomsOf(xs), MinAreaOf(xs));
    forall k | 0 <= k < |xs| ensures m[k] {
      assert xs[k] in xs;
    }
    MaskAll(xs, m);
  }

  // ---- gathering every city and source (streamlit_app.py:384-404) ----

  /** The selectable source names and the scraper each one runs; any other name yields nothing. */
  function SourceNamed(name: string): (r: Option<Source>)
    ensures r == Some(ImmoScout24) <==> name == "ImmoScout24"
    ensures r == Some(Immonet) <==> name == "Immonet"
    ensures r == Some(EbayKleinanzeigen) <==> name == "eBay Kleinanzeigen"
  {
    if name == "ImmoScout24" then Some(ImmoScout24)
    else if name == "Immonet" then Some(Immonet)
    else if name == "eBay Kleinanzeigen" then Some(EbayKleinanzeigen)
    else None
  }

  /** What one scraper call returns for a city and a source name. */
  function Scraped(scrape: (string, Source) -> seq<Listing>, city: string, name: string): seq<Listing> {
    match SourceNamed(name)
    case Some(src) => scrape(city, src)
    case None => []
  }

  /** The results for one city, source by source. */
  function GatheredCity(scrape: (string, Source) -> seq<Listing>, city: string, names: seq<string>): (r: seq<Listing>)
    ensures forall a :: a in r ==> exists j :: 0 <= j < |names| && a in Scraped(scrape, city, names[j])
    ensures forall j, a :: 0 <= j < |names| && a in Scraped(scrape, city, names[j]) ==> a in r
  {
    if names == [] then []
    else
      var n := |names| - 1;
      GatheredCity(scrape, city, names[..n]) + Scraped(scrape, city, names[n])
  }

  /** The results for every city, city by city. */
  function Gathered(scrape: (string, Source) -> seq<Listing>, cities: seq<string>, names: seq<string>): (r: seq<Listing>)
    ensures forall a :: a in r ==> exists i, j :: 0 <= i < |cities| && 0 <= j < |names| && a in Scraped(scrape, cities[i], names[j])
    ensures forall i, j, a :: 0 <= i < |cities| && 0 <= j < |names| && a in Scraped(scrape, cities[i], names[j]) ==> a in r
  {
    if cities == [] then []
    else
      var n := |cities| - 1;
      Gathered(scrape, cities[..n], names) + GatheredCity(scrape, cities[n], names)
  }

  /**
   * The two nested loops of `main`: `all_apartments.extend(apartments)` for
   * every city and source, and `completed_tasks += 1` after each.
   */
  method GatherAll(scrape: (string, Source) -> seq<Listing>, cities: seq<string>, names: seq<string>)
    returns (all: seq<Listing>, completed: nat)
    ensures all == Gathered(scrape, cities, names)
    ensures completed == |cities| * |names|
  {
    all, completed := [], 0;
    for i := 0 to |cities|
      invariant all == Gathered(scrape, cities[..i], names)
      invariant completed == i * |names|
    {
      var city := cities[i];
      assert cities[..i + 1][..i] == cities[..i];
      for j := 0 to |names|
        invariant all == Gathered(scrape, cities[..i], names) + GatheredCity(scrape, city, names[..j])
        invariant completed == i * |names| + j
      {
        var apartments := Scraped(scrape, city, names[j]);
        assert names[..j + 1][..j] == names[..j];
        all := all + apartments;
        completed := completed + 1;
      }
      assert names[..|names|] == names;
      assert (i + 1) * |names| == i * |names| + |names|;
    }
    assert cities[..|cities|] == cities;
  }

  /**
   * A scraper that runs the per-page loop of `CollectAccepted` over the
   * listing elements of its pages, concatenated in the order fetched (the
   * `apartments` list is shared by all pages), returns only listings that
   * meet the criteria.
   */
  lemma CollectingScrapersAccept(scrape: (string, Source) -> seq<Listing>, elements: (string, Source) -> seq<Elements>)
    requires forall c, s :: scrape(c, s) == Accepted(ParseAll(elements(c, s), c))
    ensures forall c, s, a :: a in scrape(c, s) ==> MeetsCriteria(a)
  {
  }

  /**
   * When every scraper returns only listings that meet the criteria (the
   * `scrape_*` loops keep no other), every row of the final table meets the
   * module constants, whatever the sliders passed to the scrapers and to the
   * filter.
   */
  lemma FinalTableMeetsCriteria(
    scrape: (string, Source) -> seq<Listing>, cities: seq<string>, names: seq<string>,
    priceFilter: int, roomsFilter: real, areaFilter: int)
    requires forall c, s, a :: a in scrape(c, s) ==> MeetsCriteria(a)
    ensures forall a :: a in ResultFilter(DropDuplicates(Gathered(scrape, cities, names)), priceFilter, roomsFilter, areaFilter) ==>
      MeetsCriteria(a)
  {
    forall a | a in Gathered(scrape, cities, names) ensures MeetsCriteria(a) {
      var i, j :| 0 <= i < |cities| && 0 <= j < |names| && a in Scraped(scrape, cities[i], names[j]);
      assert SourceNamed(names[j]).Some?;
    }
  }
}
