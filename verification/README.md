# mobile.de-tools `fetch.py`: the listing crawler and detail reader, modelled in Dafny

`fetch.py` builds a local database of used-car adverts from mobile.de. It has two passes:

- **Discovery** walks the result pages of a fixed search. For every advert link on a page it
  takes the URL up to the first `&`. If no record has that URL yet, it inserts
  `{URL, needs_details: True}`. It stops after the first page that inserted nothing.
- **Details** snapshots the records that still need details and opens each detail page.
  It reads the title, subtitle, price and price rating, and then the key-features panel.
  It normalises five features with strict text parsers and writes the record back as done.

`cli_update` runs the two passes in that order, either of which can be skipped.

The model replaces the browser and the database with values. The store is a sequence of car
records. A result page is the sequence of `href` strings on it, and a listing is the sequence of
its pages. A detail page is a record of the element texts, with `None` for a missing element.
The site is a function from a URL to its detail page.

Modules:

- `Wrappers`: `Option` and `Result`.
- `Text`: Python's whitespace set (`str.isspace`), ASCII digits, `strip`, and `split` with a
  one-character separator.
- `Numerals`: digit strings, `int()` and `str()` on them, dot-grouped thousands, and
  `replace('.', '')`.
- `Normalize`: the five parsers `_parse_price_eur`, `_parse_km`, `_parse_kw`, `_parse_minutes`
  and `_parse_int`. Each one is stated against a declarative reading of its regular expression.
- `Identity`: `__clean_car_url`.
- `Store`: the car record, the store invariant, and URL lookup.
- `Discovery`: `perform_search_in_pag_num` and `perform_search`.
- `Details`: `fetch_details`, with the exception that stops the pass.
- `Documents`: the stored documents and TinyDB's `update`, which merges fields into a document.
- `Orchestrator`: `cli_update`.
- `Samples`: worked examples from the parsers' documentation, accepted and rejected.

The store invariant `Wf` says two things. No URL appears twice. A record is pending exactly
when it has no details. Every operation keeps `Wf`. Across any run the store only *evolves*:
it only grows, no record changes its URL, and no done record becomes pending again.

Some behaviours of the code worth noting, which the model follows:

- A feature whose label is present but whose value does not parse is stored with an empty
  number (`Parsed(None)`); it is not left out of the record.
- The price-rating element is required. A page without it stops the pass, as a missing title
  or price does; only the subtitle is optional.
- TinyDB's `update` merges the new fields into the stored document. Under `Wf` a pending record
  has no details, so merging gives the same document as storing the completed record
  (`Documents.MergeCompletes`).
- A previous-owners value of `01` yields the key with an empty number, like any other value
  that does not parse.
- `int()` refuses a digit string longer than 4300 digits, CPython's default limit
  (`sys.get_int_max_str_digits()`), with a `ValueError`. Every parser catches it and returns
  `None`, so a well-formed number with more digits reads as `None`.

## Model

| member | source | states |
|---|---|---|
| Text.Strip | fetch.py:323 | the result is a slice of the input with only whitespace removed on either side, and a non-empty result neither starts nor ends with whitespace |
| Text.Split | fetch.py:25 | splitting gives at least one part, no part contains the separator, and joining the parts with the separator gives back the input |
| Text.SplitJoin | fetch.py:323 | splitting the join of separator-free parts gives back exactly those parts |
| Identity.CleanUrl | fetch.py:20-25 | the cleaned URL is the prefix of the link before its first `&`: it has no `&` and the link continues with `&` or ends there |
| Identity.CleanUrlUnique | fetch.py:25 | any prefix with those three properties is the cleaned URL |
| Identity.CleanUrlKeepsPlainLink | fetch.py:25 | a link without `&` is its own cleaned URL |
| Identity.CleanUrlIdempotent | fetch.py:25 | cleaning a cleaned URL changes nothing |
| Identity.CleanUrlDropsParameters | fetch.py:20-25 | two links that differ only after the first `&` name the same car |
| Numerals.Decimal | fetch.py:244-248 | `str(n)`: a non-empty digit string whose value is `n`, with no leading zero unless it is `0` |
| Numerals.DecimalOfValue | fetch.py:244-248 | a digit string without a leading zero is the decimal form of its own value |
| Numerals.StripDots | fetch.py:104 | the result has no dot, removing the dots from digits and dots gives digits, and a text without dots is unchanged |
| Numerals.StripDotsLaws | fetch.py:104 | removing dots distributes over concatenation, deletes a dot and keeps any other character; these laws determine the result of every text |
| Numerals.GroupedIff | fetch.py:94 | `\d{1,3}(?:\.\d{3})*` read as a grammar is the same set of tokens as the scanner's check by position |
| Numerals.FormatGroupedDigits | fetch.py:104 | removing the dots from the grouped form of `n` gives `str(n)` |
| Numerals.FormatGroupedSpec | fetch.py:86 | every number written with dot thousands groups is a grouped token whose dot-free value is that number |
| Normalize.TailOkIff | fetch.py:143 | the scanner's check of what follows the unit accepts exactly the pattern's tail, including the optional parenthesis after `kW` |
| Normalize.ParseQuantitySpec | fetch.py:94-108 | the shared scanner returns `n` exactly when the text splits into pattern parts whose grouped number has at most 4300 digits and value `n` |
| Normalize.TooManyDigits | fetch.py:102-108 | a text that matches the pattern but whose number has more than 4300 digits reads as `None` |
| Normalize.ParsePriceEur | fetch.py:65-78 | returns `n` exactly when the text is space, a grouped number of at most 4300 digits worth `n`, spaces or no-break spaces, `€`, and space |
| Normalize.ParseKm | fetch.py:94-108 | returns `n` exactly when the text is space, a grouped number of at most 4300 digits worth `n`, space, `km` in any case, and space |
| Normalize.ParseKw | fetch.py:143-156 | returns `n` exactly when the text is a grouped number of at most 4300 digits worth `n`, `kW` in any case, and an optional one-line parenthesis, with spaces where the pattern allows them |
| Normalize.ParseMinutes | fetch.py:191-203 | returns `n` exactly when the text is a grouped number of at most 4300 digits worth `n`, `min` in any case, and an optional dot, with spaces where the pattern allows them |
| Normalize.GroupedThenParse | fetch.py:94-108 | any grouped token of at most 4300 digits followed by a space and the unit's label is read back as the token's dot-free value |
| Normalize.RenderThenParse | fetch.py:83-86 | a number below `10^4300` written with dot thousands groups, a space and its unit parses back to that number |
| Normalize.ParseInt | fetch.py:235-251 | returns `n` exactly when the text is space, a digit run of at most 4300 digits worth `n` with no leading zero unless it is `0`, and space |
| Normalize.ParseIntCanonical | fetch.py:235-251 | a count parses to `n` exactly when the stripped text is `str(n)` and `str(n)` has at most 4300 digits |
| Normalize.TooLongCountRejected | fetch.py:247-251 | `str(n)` with more than 4300 digits is not a count |
| Store.Lookup | fetch.py:279 | finds nothing exactly when no record has the URL, and otherwise finds the first record that has it |
| Discovery.AddLinks | fetch.py:276-285 | the links of a page only append records, each new one pending, and the count of additions is the growth of the store |
| Discovery.AddLinksFresh | fetch.py:279-280 | every appended record has a cleaned URL of the page that no earlier record had, and no two appended records share a URL |
| Discovery.AddLinksNew | fetch.py:279-280 | no record a page inserts has a URL that the store already had |
| Discovery.AddLinksFromPage | fetch.py:276-280 | every record a page inserts is for the cleaned URL of one of its links |
| Discovery.AddLinksDistinct | fetch.py:279-280 | no two records inserted by the same page share a URL, because each insertion is looked up against the earlier ones |
| Discovery.AddLinksCovers | fetch.py:276-280 | after the page every cleaned link of it has a record |
| Discovery.DiscoverPage | fetch.py:267-287 | a page extends the store with pending records for its unknown links, reports an addition exactly when some link was unknown, and keeps the invariant |
| Discovery.AddLinksKeepsWf | fetch.py:279-280 | inserting only unknown URLs as pending records keeps the invariant |
| Discovery.StoreAfter | fetch.py:262-264 | visiting pages in order only extends the store and keeps the invariant |
| Discovery.Paginate | fetch.py:254-264 | the crawl visits a prefix of the pages, every visited page but the last added something, the last added nothing unless it was the final page, and the store is what visiting exactly those pages gives |
| Discovery.PaginateGrows | fetch.py:262-264 | a crawl keeps every earlier record in place and keeps the invariant |
| Discovery.FirstPageKnown | fetch.py:276-280 | after a crawl every link of the first page has a record |
| Discovery.PaginateRerun | fetch.py:262-287 | crawling the same listing again adds nothing and stops after the first page |
| Details.SplitFeature | fetch.py:323-324 | an entry has no value exactly when it has no line break |
| Details.SplitFeatureRoundTrip | fetch.py:323 | a stripped label and value joined by a line break read back as that label and value |
| Details.CollectFeatures | fetch.py:321-324 | the panel is read completely exactly when every entry has a value line |
| Details.CollectFeaturesStops | fetch.py:322-324 | a failed read reports the first entry that has no value line |
| Details.CollectFeaturesKeys | fetch.py:324 | every label in the dictionary comes from some entry |
| Details.CollectFeaturesLastWins | fetch.py:324 | a label holds the value of the last entry that carries it |
| Details.MapFeatures | fetch.py:327-342 | each output key is present exactly when its source label is present with a non-empty value, and holds that value parsed by its parser, or verbatim for the power text |
| Details.ExtractDetails | fetch.py:301-345 | a missing title, price or price rating stops the read in that order of checking, and so does an entry without a value; otherwise the record holds the texts, the parsed price and the mapped features |
| Details.PendingIndices | fetch.py:293 | the snapshot lists exactly the positions of pending records, in increasing order |
| Details.RunSnapshotSpec | fetch.py:295-347 | a run over a snapshot either completes every listed record and leaves the rest alone, or stops at a listed record whose page failed, with only the earlier listed records completed |
| Details.FetchDetails | fetch.py:290-347 | a full pass completes every pending record from its page and changes nothing else; a stopped pass names a pending record whose page failed, completes the pending records before it, and leaves the rest alone |
| Details.FetchDetailsEvolves | fetch.py:290-347 | the detail pass only evolves the store and keeps its invariant |
| Documents.Merge | fetch.py:347 | `update` keeps every field of the document, replaces those it is given, and adds the new ones |
| Documents.MergeCompletes | fetch.py:345-347 | merging the detail fields and `needs_details` false into the stored document of a pending record without details gives the stored document of the completed record |
| Documents.WriteBackCompletes | fetch.py:301-347 | for every page that reads, the write-back of a pending record stores exactly the completed record |
| Documents.EncodeFields | fetch.py:280-347 | the URL, the pending flag, each detail field and each feature can be read back from the stored document |
| Documents.EncodeInjective | fetch.py:280-347 | two records with the same stored document are the same record, so the record model loses nothing |
| Orchestrator.SearchStep | fetch.py:359-360 | a skipped search leaves the store alone; a crawl evolves it, keeps the invariant, and records every link of the first page |
| Orchestrator.FinishedLeavesNothingPending | fetch.py:293-347 | after a detail pass that was not stopped, no record is pending |
| Orchestrator.Update | fetch.py:357-362 | a run evolves the store and keeps its invariant, a skipped step does nothing, a full run that was not stopped leaves nothing pending, and a crawl of a non-empty listing records every link of its first page |
| Samples.MileageExample | fetch.py:83 | `8.000 km` is 8000 kilometres |
| Samples.PowerExample | fetch.py:122 | `350 kW` is 350 kilowatts |
| Samples.PriceExample | fetch.py:46 | `1.000.000 €` is one million euros |
| Samples.OwnersExample | fetch.py:220 | `  3  ` is three previous owners |
| Samples.LeadingZeroExample | fetch.py:242-245 | `01` is not a count |
| Samples.OwnersKeptUnparsed | fetch.py:341-342 | a previous-owners entry of `01` is kept with an empty number |
| Samples.ShortLastGroupExample | fetch.py:52 | `49.547.50 €` is not a price |
| Samples.EuroFirstExample | fetch.py:54 | `€49.547` is not a price |
| Samples.BadGroupingExample | fetch.py:87 | `8.00.0 km` is not a distance |
| Samples.GluedPowerExample | fetch.py:129 | `350kw` is not a power |
| Samples.GluedMinutesExample | fetch.py:178 | `18mins` is not a duration |
| Samples.TooManyDigitsExample | fetch.py:247-251 | `str(10^4300)`, with 4301 digits, is not a count |

## Left out

- Browser control (`webest2`: loading pages, CSS selectors, `get_attribute`, `text`) is replaced by inputs. A result page is its list of `href` strings, and a detail page is a record of element texts.
- A link element whose `href` attribute is missing (`None`) is not modelled; every link is a string.
- The page count is read from the pagination widget with `int(pagination.text)` (fetch.py:258-259). The model takes the listing as the sequence of its pages, so the count is its length. A widget that is missing or not a number is not modelled.
- TinyDB persistence, `Query`, and document ids are left out. The store is a sequence, and a record's position stands for its document id.
- The database file name built from the current time (fetch.py:15-17) is not modelled. That code also calls `datetime.now()` on the `datetime` module rather than its class.
- Progress messages (`print`), `list_updated`, `cli_ls`, `cli_sheet` (the spreadsheet export) and the command-line wrapper are outside the modelled core.
- Digits are ASCII only. Python's `\d` and `int()` also accept other Unicode decimal digits, and the model rejects them.
- `re.IGNORECASE` is modelled as ASCII case folding. Python also matches a few non-ASCII letters, such as the Kelvin sign for `k`, and the model does not.
- The `OverflowError` handlers around `int()` are unreachable: `int()` on a digit string never raises it. The `ValueError` handlers are modelled for the one case the patterns let through, a number of more than 4300 digits.
- The 4300-digit limit is CPython's default since 3.11 and 3.10.7. An interpreter without the limit, or with it changed through `PYTHONINTMAXSTRDIGITS` or `sys.set_int_max_str_digits`, reads longer numbers; the model fixes the default.
- Only the first error in a detail pass is modelled. The code raises an exception and the whole pass stops; records completed before that point stay completed.
