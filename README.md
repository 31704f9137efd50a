# Apartment finder: the listing-parsing layer, verified

This is a Dafny model of the decision logic in the apartment-finder dashboard
`streamlit_app.py`. The dashboard scrapes ImmoScout24, Immonet and eBay
Kleinanzeigen for apartments in Munich and Augsburg. Each listing's fields are
parsed from text fragments. The listings are then accepted against fixed
criteria, gathered over every city and source, deduplicated, and filtered by
sliders. The model covers:

- the two numeric extractors of `RealEstateScraper` (`extract_number` and
  `extract_float`), with Python's `re.findall`, `float()` and `int()` written
  out (modules `Text`, `Numbers` and `Extract`);
- the two pattern-priority extractors (`extract_rooms_from_text` and
  `extract_area_from_text`). The five regular expressions are hand-written
  scanners with `re.search`'s leftmost-match semantics. Each scanner is proved
  sound and complete against a declarative reading of its regular expression
  (modules `Patterns` and `TextFields`);
- the three listing parsers. Their rooms and area selection loops are `for`
  loops with invariants: ImmoScout24 uses the first matching fragment
  and `break`s, Immonet takes the last match. The model also covers
  `meets_criteria` and the per-page loop that keeps the accepted listings
  (module `Listings`);
- the list operations of `main` (module `Results`):
  - the nested city-by-source loop that gathers the results;
  - keep-first `drop_duplicates` on title and price;
  - the slider filter.

  pandas implements the last two as boolean masks, and the model does the same
  (module `Masks`, whose mask selection also states what the per-page loop keeps);
- the two city slugs used in the search URLs (module `Slugs`).

The HTML lookups are not modelled. Each listing arrives as the strings that
BeautifulSoup's `find` and `find_all` would return: `Option<string>` for a
single lookup and `seq<string>` for a list. The scraper calls in `main` are a
function parameter `scrape`. Python's `float` is modelled as an exact real. When `float()` fails inside an extractor, the result is 0, as in the source.

The selection loops in `parse_immoscout_listing` are written as the two helper
methods `ScoutRoomsLoop` and `ScoutAreaLoop`, which `ParseImmoScoutListing`
calls in order; the detail loop of `parse_immonet_listing` is the helper method
`ImmonetDetailsLoop`. In the same way, `CollectAccepted` calls the `ParseListing`
dispatcher for each element.

Every listing's price is read with `extract_number` from one looked-up element;
only the eBay Kleinanzeigen rooms and area come from the regular-expression
extractors.

## Model

| member | source | states |
|---|---|---|
| Text.LowerChar | streamlit_app.py:313 | lowering one character gives no capital: ASCII and Latin-1 capitals move 32 code points up, every other character is unchanged |
| Text.Lower | streamlit_app.py:313 | `str.lower()` keeps the length and lowers each character in place |
| Text.ReplaceChar | streamlit_app.py:299 | `replace` of one character by another keeps the length; each position holds the replacement exactly where the original held the replaced character |
| Text.DeleteChar | streamlit_app.py:284 | definition: `replace(c, '')`, every `c` removed and every other character kept in order |
| Text.DeleteCharFacts | streamlit_app.py:284 | `replace('.', '')` leaves no point, keeps only characters of the input, keeps every occurrence of every other character (the multiset of the input with the points taken out), and changes nothing when there is no point |
| Text.DeleteCharAppend | streamlit_app.py:284 | deleting a character distributes over concatenation, so the kept characters stay in their order |
| Text.Contains | streamlit_app.py:84 | definition: Python's `sub in s`, `sub` starting at some position of `s` |
| Numbers.ParseDecimal | streamlit_app.py:299 | what `float()` accepts is a well-formed numeral that renders back to exactly the input string |
| Numbers.ParseRender | streamlit_app.py:299 | every well-formed numeral is accepted by `float()` and read back as itself |
| Numbers.ParseDecimalComplete | streamlit_app.py:299 | on the strings of ASCII digits and points the extractors pass it, `float(s)` succeeds with `d` if and only if `d` is well formed and renders as `s` |
| Numbers.ParseDecimalRejects | streamlit_app.py:287-299 | `float()` rejects a string without a digit and a string with two points |
| Numbers.Truncate | streamlit_app.py:287 | definition: `int()` on a float, truncation toward zero |
| Numbers.TruncateDecimal | streamlit_app.py:287 | `int(float(s))` is the value of the digits before the point |
| Extract.FirstRunFrom | streamlit_app.py:296 | the first match of `[\d,.]+` is a maximal run of run characters with no run character before it, or there is none when the text holds no run character |
| Extract.FirstRun | streamlit_app.py:284-296 | definition: `re.findall(r'[\d,.]+', t)[0]` as a span of `t`, or none when the list is empty |
| Extract.FirstRunUnique | streamlit_app.py:296 | any span with those properties is the first match |
| Extract.Normalise | streamlit_app.py:284 | definition: `text.replace('.', '').replace(',', '.')` |
| Extract.ExtractNumber | streamlit_app.py:280-290 | `extract_number` is never negative |
| Extract.ExtractFloat | streamlit_app.py:292-302 | `extract_float` is never negative |
| Extract.ExtractNumberNoDigit | streamlit_app.py:282-290 | a text without a digit, the empty text included, gives 0 |
| Extract.ExtractFloatNoDigit | streamlit_app.py:294-302 | a text without a digit, the empty text included, gives 0.0 |
| Extract.ExtractNumberRejectsRun | streamlit_app.py:284-289 | when the first run of the normalised text has no digit or two points (the text's first numeral has two decimal commas, or no digit), the result is 0 |
| Extract.ExtractFloatRejectsRun | streamlit_app.py:296-301 | when the first run has no digit or two separators, commas or points in any mix, the result is 0.0 |
| Extract.ExtractFloatReadsNumeral | streamlit_app.py:296-299 | a numeral written with `,` or `.` as its point, preceded by no run character and not followed by one, is read as its exact value |
| Extract.NormaliseAppend | streamlit_app.py:284 | the German-notation normalisation distributes over concatenation |
| Extract.NormaliseGermanNumeral | streamlit_app.py:284 | a numeral with thousands points and a decimal comma normalises to the numeral Python reads |
| Extract.ExtractNumberGerman | streamlit_app.py:284-287 | a German numeral with thousands points and an optional decimal comma, after a prefix without digits or commas, gives the value of its whole digits |
| Extract.ExtractNumberOfNormalised | streamlit_app.py:284-287 | when the normalised text is a prefix, a numeral and a tail that does not continue the run, the result is the numeral's whole part |
| Extract.FirstRunSameClasses | streamlit_app.py:284-296 | texts with run characters in the same positions have their first run in the same place |
| Extract.ExtractNumberTruncatesFloat | streamlit_app.py:280-302 | on a text without `.`, `extract_number` is `int()` of `extract_float` |
| Extract.ExtractNumberPriceCase | streamlit_app.py:284-287 | "450.000 €" gives 450000 |
| Extract.ExtractNumberCommaCase | streamlit_app.py:284-287 | "1,5" gives 1 |
| Extract.ExtractNumberThousandsCase | streamlit_app.py:284-287 | "1.000" gives 1000 |
| Extract.ExtractNumberTwoPointsCase | streamlit_app.py:284-289 | "1,2,3" gives 0: its normalised run "1.2.3" has two points |
| Extract.ExtractNumberLonePointCase | streamlit_app.py:284-289 | "a, 5" gives 0: its first normalised run is a lone point |
| Extract.ExtractFloatCommaCase | streamlit_app.py:296-299 | "3,5 Zimmer" gives 3.5 |
| Extract.ExtractFloatThousandsCase | streamlit_app.py:296-299 | "1.000" gives 1.0 |
| Extract.ExtractFloatLonePointCase | streamlit_app.py:296-301 | "." gives 0.0 |
| Extract.ExtractFloatMixedSeparatorsCase | streamlit_app.py:296-301 | "1,2.3" gives 0.0 |
| Patterns.BoundaryAt | streamlit_app.py:307-308 | definition: `\b`, exactly one of the two neighbouring characters is a word character |
| Patterns.SuffixAt | streamlit_app.py:307-322 | definition: the suffix alternatives of each of the five patterns, `\b` included |
| Patterns.RegexMatchAt | streamlit_app.py:307-322 | definition: the declarative reading of a pattern, group 1 shaped `\d+(?:[,\.]\d+)?`, then spaces, then the suffix |
| Patterns.SuffixStartsWithLetter | streamlit_app.py:307-322 | every suffix alternative starts with a character that is not a digit, a space or a separator |
| Patterns.NumberEnd | streamlit_app.py:307 | the greedy `\d+(?:[,\.]\d+)?` from a digit consumes at least that digit and stays inside the text |
| Patterns.NumberEndShape | streamlit_app.py:307 | the greedy scan's text has the shape of group 1 |
| Patterns.NumberEndOfShape | streamlit_app.py:307 | any text with the shape of group 1 that is followed by neither a digit nor a separator ends where the greedy scan ends |
| Patterns.MatchAt | streamlit_app.py:306-323 | a match at `i` starts with a digit and its group 1 ends where the greedy number scan ends |
| Patterns.MatchAtSound | streamlit_app.py:306-323 | what the scanner reports at `i` is a match of the regular expression there |
| Patterns.MatchAtComplete | streamlit_app.py:306-323 | every way the regular expression matches at `i` is the one the scanner reports, so group 1 is unique |
| Patterns.LeftmostFrom | streamlit_app.py:313 | the reported candidate lies at or after the start and succeeded |
| Patterns.LeftmostFromSpec | streamlit_app.py:313 | every candidate before the reported one failed, and all failed when none is reported |
| Patterns.Search | streamlit_app.py:313 | `re.search` reports a start at which the scanner succeeds, with its group 1 |
| Patterns.SearchSpec | streamlit_app.py:313 | the scanner fails at every start before the reported one, and everywhere when none is reported |
| Patterns.SearchIsLeftmostMatch | streamlit_app.py:313 | `re.search` finds the leftmost start where the expression matches, with the only group 1 possible there, and finds nothing if and only if the expression matches nowhere |
| Patterns.SearchFinds | streamlit_app.py:313 | a match at the leftmost scanner success is what `re.search` returns |
| Patterns.SearchNeedsDigit | streamlit_app.py:313 | no pattern matches a text without a digit |
| TextFields.FirstPatternMatch | streamlit_app.py:312-316 | the hit is the first pattern whose search succeeds, every earlier pattern's search failed, and there is no hit exactly when all fail |
| TextFields.FirstPatternMatchExact | streamlit_app.py:312-316 | a pattern that matches after patterns that all fail is the reported hit |
| TextFields.FirstPatternMatchIsRegexMatch | streamlit_app.py:312-316 | the hit is the leftmost match of the first pattern that matches anywhere, and there is no hit if and only if no pattern matches |
| TextFields.CaptureDecimal | streamlit_app.py:315 | the captured numeral decomposes into a well-formed numeral with digits before the point |
| TextFields.CaptureValue | streamlit_app.py:315 | the captured numeral's float value is never negative |
| TextFields.CaptureParses | streamlit_app.py:315 | `float()` never fails on a captured group 1 with `,` read as the point, and it reads the decomposed numeral |
| TextFields.NumeralRendered | streamlit_app.py:315 | group 1 with `,` replaced by `.` is its decomposition written out |
| TextFields.RoomsFromText | streamlit_app.py:304-316 | the rooms are never negative |
| TextFields.AreaFromText | streamlit_app.py:318-329 | the area is never negative |
| TextFields.ExtractRoomsFromText | streamlit_app.py:312-316 | the pattern loop with its early return computes exactly the rooms of the first matching pattern, or 0 |
| TextFields.ExtractAreaFromText | streamlit_app.py:325-329 | the pattern loop with its early return computes exactly the truncated area of the first matching pattern, or 0 |
| TextFields.RoomsFromTextMatch | streamlit_app.py:304-316 | when the first rooms pattern that matches anywhere matches leftmost at `k`, the rooms are the exact value of the numeral there |
| TextFields.RoomsFromTextNoMatch | streamlit_app.py:312-316 | when no rooms pattern matches, the rooms are 0 |
| TextFields.AreaFromTextMatch | streamlit_app.py:318-329 | when the first area pattern that matches anywhere matches leftmost at `k`, the area is the whole part of the numeral there |
| TextFields.AreaFromTextNoMatch | streamlit_app.py:325-329 | when no area pattern matches, the area is 0 |
| TextFields.PatternWins | streamlit_app.py:312-316 | the leftmost match of the first pattern that matches anywhere is the hit, whatever later patterns match earlier |
| TextFields.FromTextCaseInsensitive | streamlit_app.py:313 | rooms and area ignore letter case |
| TextFields.FromTextNoDigit | streamlit_app.py:304-329 | a text without a digit has 0 rooms and area 0 |
| TextFields.RoomsPriorityCase | streamlit_app.py:306-316 | "2 rooms, 4 zimmer" gives 4.0, because the `zimmer` pattern comes first |
| TextFields.AreaCommaCase | streamlit_app.py:320-328 | "85,5 m²" gives 85 |
| TextFields.AreaThousandsCase | streamlit_app.py:320-328 | "1.000 qm" gives 1 |
| Listings.MeetsCriteria | streamlit_app.py:331-336 | definition: price at most 750000 and positive, rooms at least 3, area at least 80 |
| Listings.UnreadablePriceRejected | streamlit_app.py:331-336 | a price text without a digit is read as 0, so the listing is never accepted |
| Listings.FirstWith | streamlit_app.py:82-86 | the selected fragment is the first one that passes the test, and there is none when none passes |
| Listings.LastWith | streamlit_app.py:176-181 | the selected fragment is the last one that passes the test, and there is none when none passes |
| Listings.FirstWithExact | streamlit_app.py:82-86 | a fragment that passes the test, with no earlier one passing, is the one selected |
| Listings.LastWithExact | streamlit_app.py:176-181 | a fragment that passes the test, with no later one passing, is the one selected |
| Listings.ScoutPriceText | streamlit_app.py:75-76 | definition: the first grid item's text, else the primary criterion's, else "0" |
| Listings.ScoutListing | streamlit_app.py:67-115 | definition: the ImmoScout24 record, rooms and area from the first passing grid items |
| Listings.ParseImmoScoutListing | streamlit_app.py:67-117 | the ImmoScout24 parser returns the listing built from the lookups and the first matching grid items |
| Listings.ScoutRoomsLoop | streamlit_app.py:80-86 | the loop with `break` reads the rooms from the first grid item whose lowercased text contains `zimmer` or `zi`, or leaves 0 |
| Listings.ScoutAreaLoop | streamlit_app.py:89-95 | the loop with `break` reads the area from the first grid item containing `m²` or `qm`, or leaves 0 |
| Listings.ScoutZimmerRedundant | streamlit_app.py:84 | the rooms test holds if and only if the lowercased fragment contains `zi` |
| Listings.ScoutFirstFragmentWins | streamlit_app.py:80-86 | the rooms come from the first grid item that passes the rooms test |
| Listings.ScoutFirstAreaFragmentWins | streamlit_app.py:89-95 | the area comes from the first grid item that passes the area test |
| Listings.ScoutNoKeyword | streamlit_app.py:81-95 | rooms and area stay 0 when no grid item passes either test |
| Listings.ImmonetLocation | streamlit_app.py:184-185 | definition: the first detail's text, else the detail paragraph's, else the city |
| Listings.ImmonetListing | streamlit_app.py:159-201 | definition: the Immonet record, rooms and area from the last passing details |
| Listings.ParseImmonetListing | streamlit_app.py:159-203 | the Immonet parser with its single detail loop returns the listing built from the lookups and the last matching details |
| Listings.ImmonetDetailsLoop | streamlit_app.py:173-181 | the loop without `break`, with its `elif`, computes the rooms of the last detail containing `zimmer` and the area of the last detail that does not but contains `m²`, each 0 when there is none |
| Listings.ImmonetLastFragmentWins | streamlit_app.py:176-179 | the rooms come from the last detail that contains `zimmer` |
| Listings.ImmonetLastAreaFragmentWins | streamlit_app.py:176-181 | the area comes from the last detail that fails the rooms test and contains `m²` |
| Listings.ImmonetZimmerNeverArea | streamlit_app.py:178-181 | because of the `elif`, a lone detail naming both rooms and area gives the rooms and leaves the area 0 |
| Listings.ImmonetNoKeyword | streamlit_app.py:173-181 | rooms and area stay 0 when no detail passes either test |
| Listings.FirstAgainstLast | streamlit_app.py:82-181 | for the same two room fragments, ImmoScout24 reads the first and Immonet the last |
| Listings.EbayText | streamlit_app.py:252-256 | definition: description, a space and title, the text both pattern extractors read |
| Listings.ParseEbayListing | streamlit_app.py:252-256 | the eBay rooms and area are the pattern extractors applied to description, a space, and title, and both are never negative |
| Listings.ListingOf | streamlit_app.py:53-54 | definition: the record the parser of the element's site returns |
| Listings.ParseListing | streamlit_app.py:54 | each element is parsed by the parser of the site it came from |
| Listings.ParseAll | streamlit_app.py:52-54 | every element of a page is parsed, in order |
| Listings.CriteriaMask | streamlit_app.py:55 | definition: one entry per parsed listing, `meets_criteria` of it |
| Listings.Accepted | streamlit_app.py:55-56 | the kept listings are among the parsed ones and meet the criteria, every parsed listing that meets them is kept, and the result is the selection of the criteria mask |
| Listings.AcceptedInOrder | streamlit_app.py:55-56 | the kept listings are a subsequence of the parsed ones, holding exactly the listings that meet the criteria, each once and in its original place |
| Listings.CollectAccepted | streamlit_app.py:50-56 | the per-page loop returns exactly the accepted listings of the page, in order |
| Masks.Mask | streamlit_app.py:469-473 | boolean indexing returns no more rows than its input, and only rows of its input |
| Masks.MaskPicks | streamlit_app.py:469-473 | boolean indexing returns a subsequence of its input made of exactly the rows whose mask entry is true |
| Masks.MaskAll | streamlit_app.py:469-473 | a mask that keeps every row returns the table unchanged |
| Results.DropDuplicates | streamlit_app.py:413 | definition: boolean indexing by `~df.duplicated(subset=['title', 'price'], keep='first')` |
| Results.DropDuplicatesKeepsFirst | streamlit_app.py:413 | deduplication returns a subsequence holding exactly the first row of each title-and-price key |
| Results.DropDuplicatesDistinct | streamlit_app.py:413 | after deduplication no two rows share a key |
| Results.DropDuplicatesKeepsKeys | streamlit_app.py:413 | deduplication loses no key |
| Results.DropDuplicatesOfDistinct | streamlit_app.py:413 | a table with distinct keys is unchanged |
| Results.DropDuplicatesIdempotent | streamlit_app.py:413 | deduplicating twice is deduplicating once |
| Results.ResultFilter | streamlit_app.py:469-473 | definition: boolean indexing by the three slider conditions joined with `&` |
| Results.ResultFilterExact | streamlit_app.py:469-473 | the filter returns a subsequence holding exactly the rows with price ≤ the price slider, rooms ≥ the rooms slider and area ≥ the area slider |
| Results.ResultFilterIdempotent | streamlit_app.py:469-473 | filtering twice with the same sliders is filtering once |
| Results.MaxPriceOf | streamlit_app.py:455-456 | the price slider starts at the table's largest price |
| Results.MinRoomsOf | streamlit_app.py:459-461 | the rooms slider starts at the table's smallest room count |
| Results.MinAreaOf | streamlit_app.py:464-466 | the area slider starts at the table's smallest area |
| Results.DefaultSlidersKeepAll | streamlit_app.py:453-473 | with the sliders at their initial values the filter keeps every row |
| Results.SourceNamed | streamlit_app.py:389-396 | each of the three source names selects its own scraper, and any other name selects none |
| Results.GatheredCity | streamlit_app.py:385-398 | a listing is gathered for a city if and only if one of the selected sources returned it |
| Results.Gathered | streamlit_app.py:384-398 | a listing is gathered if and only if one selected source returned it for one selected city |
| Results.GatherAll | streamlit_app.py:384-404 | the nested loops collect every city's results source by source, and count one completed task per city and source |
| Results.CollectingScrapersAccept | streamlit_app.py:43-64 | a scraper whose result is the per-page loop run over the elements of its pages returns only listings that meet the criteria |
| Results.FinalTableMeetsCriteria | streamlit_app.py:384-473 | when the scrapers return only accepted listings, every row of the deduplicated, filtered table meets the module constants, whatever the sliders |
| Slugs.ScoutSlug | streamlit_app.py:34 | definition: `city.lower().replace('ü', 'u').replace('ä', 'a').replace('ö', 'o')` |
| Slugs.EbaySlug | streamlit_app.py:211 | definition: `city.lower().replace(' ', '-')` |
| Slugs.ScoutSlugPointwise | streamlit_app.py:34 | the ImmoScout24 slug keeps the length, and each character is the lowered character with its umlaut dropped |
| Slugs.ScoutSlugPlain | streamlit_app.py:34 | the ImmoScout24 slug is lowercase and has no `ü`, `ä` or `ö` |
| Slugs.ScoutSlugIdempotent | streamlit_app.py:34 | slugging an ImmoScout24 slug again changes nothing |
| Slugs.EbaySlugPointwise | streamlit_app.py:211 | the eBay slug keeps the length, is lowercase, has no space, and keeps every other lowered character, umlauts included |
| Slugs.EbaySlugIdempotent | streamlit_app.py:211 | slugging an eBay slug again changes nothing |
| Slugs.MunichSlugs | streamlit_app.py:34 | "München" becomes "munchen" for ImmoScout24 and "münchen" for eBay Kleinanzeigen |

## Left out

- HTTP fetching is not modelled, because it is network I/O. This covers `requests.Session`, the status-code checks, the paging loops and `time.sleep` (streamlit_app.py:44-60, 136-152, 220-232).
- The BeautifulSoup lookups and `urljoin` are foreign library calls. Their results are given strings, and a link is modelled as the already-joined URL.
- The `scraped_at` timestamp is not modelled, because `datetime.now()` is nondeterministic.
- All Streamlit widgets, metrics, charts, the listing display and the CSV export are left out as presentation (streamlit_app.py:338-366, 406-511).
- The progress bar and its fraction are left out as presentation; only the count of completed tasks is modelled.
- The averages and the price per square metre are floating-point display values and are left out.
- The `st.error` early returns for an empty city or source selection are left out, as are the warning for an empty result (streamlit_app.py:368-373, 409, 510-511). `GatherAll` simply returns an empty table in those cases.
- The slider ranges are not modelled (streamlit_app.py:363-365, 453-466). Only the sliders' initial values in the result filter are modelled; the filter takes any integer or real thresholds.
- The catch-all `except` paths of the scrapers, the parsers and `main` are left out. With exact reals none of the modelled parsers raises, but Python can: `extract_area_from_text` has no `try` (streamlit_app.py:325-329), and `int(float(...))` raises `OverflowError` on a numeral too large for a double. `parse_ebay_listing` then returns `None` (streamlit_app.py:277-278) and the listing is dropped, while `ParseEbayListing` keeps it with its exact area. `scrape` is a total function, so the `except` around each scraper call in `main` (streamlit_app.py:400-401) is not modelled either.
- Numbers.ParseDecimal reads only strings of ASCII digits and points, the only strings the extractors pass to `float()`; the signs, exponents, surrounding spaces and `inf` that `float()` also accepts are not modelled.
- Unicode is modelled only as far as Latin-1. Characters above U+00FF are treated as non-digits, non-space and non-word characters, and `str.lower()` leaves them unchanged. Python would treat some of them as digits or letters.
- Extract.ExtractNumber: the model computes the exact truncated value for every numeral. It does not model IEEE rounding. It also does not model the `OverflowError` that `int()` raises on a numeral too large for a double, which Python turns into 0.
- Extract.ExtractFloat: the value is the exact rational, not the nearest double.
- TextFields.RoomsFromText: the value is the exact rational, not the nearest double.
- TextFields.AreaFromText: the area is the exact whole part, with no IEEE rounding or overflow.
- The pandas DataFrame is modelled as a sequence of listing records. Its row index is not modelled.
