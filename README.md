# divan.ru product scraper — a Dafny model of its record handling

This project models the record-handling core of a Selenium scraper for the lighting
category of divan.ru, and the column logic of its file savers:

- **Pagination driver** (`scrape_all_pages`, `pagination.dfy`). It requests
  `base?page=0`, `base?page=1`, … in turn and keeps each product URL once across pages.
  It stops on an empty page, and after page 0 on a page with nothing new. An exception
  on one page does not stop it; the message chooses the backoff. The browser and the
  site are the parameter `fetch`, which maps a page URL to the records `scrape_section`
  returned or to the message of the exception that escaped. Sleeps are recorded as the
  pause chosen after each page, not performed. `ScrapeAllPages` is the loop as written.
  `Scrape` is the same run as a recursive specification, with lemmas about it.
- **Page acquisition** (`acquisition.dfy`). The case-insensitive title check for
  throttling, redirect and error pages. The lazy-load scroll loop as a counter machine
  over a given sequence of height readings.
- **Card location** (`locators.dfy`). The ordered fallback chain of card locators,
  including the two de-duplicating rebuilds (the link-ascent step and the name-first
  step) and the late rebuild from the Product ancestors of the name elements. A page
  is a value (`Page.Dom`) holding the answers of its locator queries.
- **Record extraction** (`extraction.dfy`). The projection of each card into a record:
  - an absolute URL;
  - the placeholder `нет данных` for missing fields;
  - the whitespace-collapsed price;
  - the currency fallback chain and its code table;
  - per-page de-duplication by URL.
- **Savers** (`saver.dfy`). The columns, Russian headers and cells that the CSV, XLSX
  and HTML savers produce, the JSON dump, and their early return on empty input.

Supporting modules:
- `strings.dfy`: Python's `str.strip`, `split`/`join`, `lower`, `in` and `str(int)`.
- `dicts.dfy`: a Python `dict` of strings, as an insertion-ordered list of entries with
  distinct keys.
- `page.dfy`: the values that stand for DOM elements.
- `wrappers.dfy`: `Option`.

Behaviour of the code the model follows:
- The scroll loop has no overall cap on probes. It ends only after ten consecutive
  unchanged heights, and any growth resets the count. So it is modelled over a finite
  sequence of readings, and no cap is added.
- Only the page title is checked for redirect signatures, not the URL.
- A page-load timeout does not depend on the document root being present. The title
  check is skipped and the page is scraped anyway.
- The savers do not always render a missing field as a placeholder:
  - CSV takes its columns from the first record only, and fills missing cells with "".
  - XLSX drops the fields that no record has.
  - Only HTML shows every field other than url, with "—" for an empty or missing
    value; the url cell is a link to the URL, left empty when the URL is.

## Model

| member | source | states |
|---|---|---|
| Strings.Words | myproject/scraper.py:396 | computes `s.split()`: the maximal runs of non-whitespace characters, in order |
| Strings.Collapse | myproject/scraper.py:396 | computes `' '.join(s.split())`: the words joined by single spaces |
| Strings.Lower | myproject/scraper.py:151 | computes `str.lower()` character by character for the ASCII and basic Cyrillic capitals and Ё; other characters are kept |
| Strings.Contains | myproject/scraper.py:153 | the substring test `sub in s`: `s` starts with `sub`, or its tail contains it |
| Strings.StartsWith | myproject/scraper.py:370 | `s.startswith(prefix)` |
| Strings.NatToString | myproject/scraper.py:37 | `str(page)`: the decimal digits of a natural number, without leading zero |
| Strings.ParseDigits | myproject/scraper.py:37 | reference definition, not a model of code: the value of a string of decimal digits, used to state what `str(page)` means |
| Strings.Strip | myproject/scraper.py:386 | the result is a slice of the input with only whitespace cut on either side, and neither end is whitespace |
| Strings.StripKeepsText | myproject/scraper.py:386 | stripping removes whitespace only: the non-space characters are kept in order |
| Strings.WordsOfJoin | myproject/scraper.py:396 | `split()` of words joined by single spaces gives back the words |
| Strings.CollapseNormalized | myproject/scraper.py:394-396 | the cleaned price has no leading, trailing or doubled space and no other whitespace character |
| Strings.CollapseIdempotent | myproject/scraper.py:396 | cleaning the price twice is cleaning it once |
| Strings.CollapseKeepsText | myproject/scraper.py:396 | `' '.join(s.split())` keeps every non-space character, in order |
| Strings.ContainsAt | myproject/scraper.py:153 | Python's `sub in s` holds iff `sub` occurs at some index of `s` |
| Strings.ParseNatToString | myproject/scraper.py:37 | `str(page)` is all digits and reads back as `page` |
| Strings.NatToStringInjective | myproject/scraper.py:37 | different page numbers print differently |
| Dicts.Keys | myproject/saver.py:37 | computes `list(d.keys())`: the keys in insertion order |
| Dicts.HasKey | myproject/saver.py:35 | computes `k in d` |
| Dicts.InKeys | myproject/saver.py:37 | `key in d.keys()` iff `key in d` |
| Dicts.Get | myproject/scraper.py:49 | `d.get(k, default)`: the default when `k` is absent, else the value stored with `k` |
| Dicts.GetAt | myproject/saver.py:50 | in a dict, the value found for an entry's key is that entry's value |
| Dicts.Put | myproject/saver.py:49-52 | assigning a key keeps the keys distinct, adds at most one entry, and leaves exactly the old keys plus the new one |
| Dicts.GetPut | myproject/saver.py:49-52 | after `d[k] = v`, `k` reads `v` and every other key reads as before |
| Acquisition.IsBlockedTitle | myproject/scraper.py:151-153 | the lower-cased title contains "too many", "redirect" or "error" |
| Acquisition.IsBlocked | myproject/scraper.py:147-171 | the navigation loaded and its title is blocked; a page-load timeout is never blocked, because the title check is skipped |
| Acquisition.UnchangedRun | myproject/scraper.py:179-198 | the value of `scroll_attempts` after a given number of height readings: one more per reading equal to the last known height, reset to 0 by any other reading |
| Acquisition.BlockedTitleIgnoresCase | myproject/scraper.py:151-153 | the title test gives the same answer for a title and its lower-cased form |
| Acquisition.ThrottlePageIsBlocked | myproject/scraper.py:151-157 | the title "429 Too Many Requests" is recognised as a blocked page |
| Acquisition.UnchangedRunMeans | myproject/scraper.py:186-196 | the counter is at least n exactly when the last n readings each equal the height before them |
| Acquisition.ScrollUntilStable | myproject/scraper.py:175-198 | growth resets the counter and updates the known height, and an equal reading increments the counter; the loop stops exactly at the first point where ten unchanged readings have come in a row, and otherwise uses all the readings |
| Acquisition.FinishedMeansTenUnchanged | myproject/scraper.py:179-190 | when the loop ends on the cap, its last ten readings all equal the height before them |
| Locators.FromLinks | myproject/scraper.py:230-246 | each `link[itemprop=url]` as a candidate: its href as key, its nearest card ancestor (by class, then by the looser class test) as card |
| Locators.FromNames | myproject/scraper.py:268-296 | each name element as a candidate: the URL link of its Product div as key, its Product div or other container as card |
| Locators.Collect | myproject/scraper.py:228-249 | the de-duplicating walk shared by both rebuilds: a candidate with a non-empty unseen key marks it seen and contributes its card, if it has one |
| Locators.KeptCards | myproject/scraper.py:228-249 | reference definition, not a model of code: the cards of the candidates that are first with their non-empty key, in document order |
| Locators.Primary | myproject/scraper.py:214-256 | the first non-empty of: main-class cards, link ascent (only when there are URL links), schema.org Product divs |
| Locators.LinkAscent | myproject/scraper.py:226-250 | the link-ascent rebuild: `Collect` over the URL links |
| Locators.NameRebuild | myproject/scraper.py:259-299 | the name-first rebuild: `Collect` over the name elements |
| Locators.FallbackChain | myproject/scraper.py:212-304 | the primary result, replaced by the name rebuild when it has at most one card and fewer cards than name elements, then by `div.ProductCard` when still empty |
| Locators.ProductAncestors | myproject/scraper.py:324-336 | the late rebuild: the Product ancestor of each name element that has one, in order, repeats kept |
| Locators.Located | myproject/scraper.py:212-337 | the cards of a page: the fallback chain, replaced by `ProductAncestors` when it has at most one card and fewer cards than name elements |
| Locators.CollectUniqueCards | myproject/scraper.py:228-249 | the de-duplicating loop equals the walk `Collect`, and keeps no more cards than there are distinct non-empty hrefs |
| Locators.CollectSeen | myproject/scraper.py:229-235 | the walk's seen set is exactly the set of non-empty hrefs met |
| Locators.CollectOnePerKey | myproject/scraper.py:234-246 | at most one card is kept per seen href |
| Locators.CollectKeepsFirstOccurrences | myproject/scraper.py:234-246 | the kept cards are those of the first candidate with each non-empty href, in document order |
| Locators.CollectCardsFromCandidates | myproject/scraper.py:237-246 | every kept card is the ancestor found for some candidate |
| Locators.FirstNonEmpty | myproject/scraper.py:212-256 | the first non-empty strategy result, with all earlier ones empty; empty iff all are empty |
| Locators.LocateCards | myproject/scraper.py:212-337 | the nested tests of the source compute `Located`: first primary result, then name rebuild when at most one card was found and there are more name elements, then `div.ProductCard` if still empty, then the late rebuild from Product ancestors when the result still has at most one card and fewer cards than name elements |
| Locators.AncestorCards | myproject/scraper.py:324-336 | the late rebuild's loop lists the Product ancestor of each name element that has one, in document order |
| Locators.ProductAncestorsMembers | myproject/scraper.py:324-336 | the late rebuild has at most one card per name element, and holds exactly the Product ancestors of the name elements |
| Locators.ProductAncestorsKeepRepeats | myproject/scraper.py:329-333 | the identity test skips nothing: two name elements in one product div give that div twice |
| Locators.PrimaryOrder | myproject/scraper.py:214-256 | a later primary strategy is used only when every earlier one found nothing |
| Locators.MainClassWins | myproject/scraper.py:214-259 | two or more cards of the main class are the final answer |
| Locators.LinkAscentOnePerHref | myproject/scraper.py:226-250 | the link-ascent step keeps at most one card per distinct non-empty href of the page's URL links |
| Locators.NameRebuildOnePerHref | myproject/scraper.py:264-299 | the name-first step keeps at most one card per distinct non-empty href, only for name elements inside a Product div |
| Extraction.CurrencySymbol | myproject/scraper.py:409-410 | `currency_map.get(code, code)`: RUB to "руб.", USD to "$", EUR to "€", any other code kept |
| Extraction.Currency | myproject/scraper.py:400-429 | the currency by the source's nested tests: the meta content through the code table (empty content gives the placeholder); without a meta element, the span in the price, else the first currency span of the card, else the placeholder |
| Extraction.CurrencySources | myproject/scraper.py:400-426 | reference definition, not a model of code: the three currency sources in order of preference, used with `FirstPresent` to restate `Currency` |
| Extraction.Project | myproject/scraper.py:383-444 | the record of a card: stripped name, collapsed price, currency, the given URL, stripped stock text; a missing element gives "нет данных" |
| Extraction.ExtractAll | myproject/scraper.py:359-450 | the card loop as a walk over the cards: the seen URLs and the records, skipping a card whose URL cannot be read, is missing or was seen, and marking seen without a record a card that raises after its URL |
| Extraction.KeptProducts | myproject/scraper.py:362-444 | reference definition, not a model of code: the projections of the sound cards that are first with their URL among the cards whose URL was read, in card order |
| Extraction.SectionRecords | myproject/scraper.py:145-453 | the records of one page: none when the title is blocked, otherwise `ExtractAll` over the located cards |
| Extraction.FromDict | myproject/scraper.py:438-444 | reads a record back from the dict built at these lines |
| Extraction.ToDict | myproject/scraper.py:438-444 | a record has exactly the keys name, price, currency, url, instock_text, in that order |
| Extraction.FromDictToDict | myproject/scraper.py:438-444 | each field of the record is stored under its own key |
| Extraction.AbsoluteUrl | myproject/scraper.py:370-371 | the URL starts with "http" and ends with the href; an href already starting with "http" is kept, any other is prefixed by the site origin |
| Extraction.AbsoluteUrlIdempotent | myproject/scraper.py:370-371 | making a URL absolute twice changes nothing |
| Extraction.RelativeUrlExample | myproject/scraper.py:371 | "/item/42" becomes "https://www.divan.ru/item/42" |
| Extraction.CardUrl | myproject/scraper.py:367-376 | a card has a URL iff its href is present and non-empty, and then the URL is absolute |
| Extraction.CurrencyIsFirstSource | myproject/scraper.py:400-426 | currency is the first source found: meta content through the code table, the span inside the price, the first span of the card; else the placeholder |
| Extraction.MetaCurrencyMapping | myproject/scraper.py:404-410 | RUB→"руб.", USD→"$", EUR→"€", empty content → placeholder, other codes verbatim |
| Extraction.MetaCurrencyWins | myproject/scraper.py:404-426 | with a meta currency element, the spans never change the currency |
| Extraction.MissingFieldsArePlaceholders | myproject/scraper.py:384-436 | a missing name, price or stock element gives "нет данных"; present ones give their stripped text; no currency source gives "нет данных" |
| Extraction.PriceIsCollapsed | myproject/scraper.py:390-396 | a found price is normalised, unchanged by another clean-up, and keeps the element's non-space text |
| Extraction.ExtractAllUnique | myproject/scraper.py:362-381 | the page's records have pairwise distinct, non-empty absolute URLs, all marked seen |
| Extraction.RecordAppend | myproject/scraper.py:374-381 | appending a record whose absolute URL is not yet among the records keeps the URLs distinct and absolute, and adds exactly that URL |
| Extraction.ExtractAllFromCards | myproject/scraper.py:364-444 | each record is the projection, under its URL, of a sound card that is the first card with that URL among the cards whose URL was read |
| Extraction.ExtractAllKeepsFirstOccurrences | myproject/scraper.py:362-444 | the records are exactly those of the sound cards that are first with their URL among the cards whose URL was read, in card order |
| Extraction.ExtractAllSeen | myproject/scraper.py:362-381 | the seen set is exactly the set of URLs read from cards that did not fail on the URL |
| Extraction.LastCardPassesIffFirst | myproject/scraper.py:374-381 | the last card passes the seen test iff it is the first card with its URL among the cards whose URL was read |
| Extraction.LateRebuildReplacesCard | myproject/scraper.py:309-337 | one generic card plus two name elements in one product div without a URL link: the located cards are that div twice, and the page yields no records |
| Extraction.ExtractAllComplete | myproject/scraper.py:364-453 | when no card raises, the record URLs are exactly the cards' URLs |
| Extraction.ExtractRecords | myproject/scraper.py:359-453 | the card loop computes `ExtractAll` and returns distinct absolute URLs |
| Extraction.BlockedPageHasNoRecords | myproject/scraper.py:151-157 | a blocked title yields no records, whatever the page holds |
| Extraction.ScrapeSection | myproject/scraper.py:145-453 | the title check, locator chain and card loop compute `SectionRecords`; URLs distinct and absolute |
| Pagination.PageUrl | myproject/scraper.py:36-37 | `f"{base_url}{separator}page={page}"`, with `&` when the base has `?`, else `?` |
| Pagination.ErrorPause | myproject/scraper.py:69-78 | the pause after an exception: 10 seconds when the lower-cased message contains "redirect" or "too many", else the page delay |
| Pagination.Fresh | myproject/scraper.py:47-52 | the cross-page filter of one page: a record is kept when its URL is non-empty, not seen on an earlier page and not kept earlier on this page |
| Pagination.KeptRecords | myproject/scraper.py:47-52 | reference definition, not a model of code: the records that are first on the page with their non-empty unseen URL, in page order |
| Pagination.Step | myproject/scraper.py:34-80 | one pass of the page loop: request the page; after an exception pause by `ErrorPause` and go on; stop on no records; keep the fresh records; stop after page 0 when none is new; else pause unless it is the last page, and go on |
| Pagination.RunFrom | myproject/scraper.py:34-80 | the page loop from a given page to `max_pages`, ending at the first pass that breaks |
| Pagination.Scrape | myproject/scraper.py:17-83 | the whole run of `scrape_all_pages` from page 0 and an empty state |
| Pagination.PageUrlParts | myproject/scraper.py:36-37 | the page URL is the base, `&` iff the base contains `?` (else `?`), `page=`, then exactly `str(page)`, which reads back as the page |
| Pagination.PageUrlInjective | myproject/scraper.py:34-37 | different page indices are requested under different URLs |
| Pagination.RedirectLoopBacksOff | myproject/scraper.py:72-75 | the test lower-cases the message, so an upper-case "REDIRECTS" in an error message gets the 10-second pause |
| Pagination.OtherErrorKeepsDelay | myproject/scraper.py:76-78 | an error mentioning neither "redirect" nor "too many" gets the ordinary delay |
| Pagination.FreshUrls | myproject/scraper.py:47-52 | the kept records have distinct non-empty URLs, exactly the page's non-empty URLs not seen before |
| Pagination.LastPassesIffFirstNew | myproject/scraper.py:47-52 | the last record of a page passes the filter iff it is the first with its non-empty, unseen URL |
| Pagination.FreshKeepsFirstOccurrences | myproject/scraper.py:47-52 | the filter keeps exactly the records that are first with their new non-empty URL, in page order |
| Pagination.FreshAppend | myproject/scraper.py:32-55 | filtering page after page with the growing seen set is filtering all pages' records at once |
| Pagination.FilterNew | myproject/scraper.py:47-52 | the inner loop computes `Fresh`; the seen set grows by exactly the kept URLs |
| Pagination.StepKeepsConsistent | myproject/scraper.py:34-55 | one pass keeps the results equal to the filter over all records fetched so far, and the seen set equal to their URLs |
| Pagination.StepConsistent | myproject/scraper.py:34-80 | one pass requests the next page, keeps the state accounted for by the requests, goes on iff the page does not stop the run, and picks the pause from the outcome |
| Pagination.RunFromConsistent | myproject/scraper.py:34-80 | the loop requests the remaining pages in order, at most up to `max_pages`, and stays consistent |
| Pagination.FirstPageFollowsStepRule | myproject/scraper.py:34-80 | the first page of the loop follows the step rule, and a run ending on it early ends because it stops the run |
| Pagination.RunFromSteps | myproject/scraper.py:34-80 | every pass follows the step rule, and a run that ends early ends on a stopping page |
| Pagination.ScrapeRequests | myproject/scraper.py:34-37 | pages 0, 1, … are requested in order, at most `max_pages` of them, page 0 whenever `max_pages > 0` |
| Pagination.ScrapeKeepsFirstSeen | myproject/scraper.py:31-55 | the result is the first record with each non-empty URL over all pages, in request order; no URL twice; the seen set equals the result's URLs |
| Pagination.ScrapeSteps | myproject/scraper.py:34-80 | after each page: go on only past a non-stopping page; error pause by message; ordinary delay after a page with records exactly when another page follows |
| Pagination.EmptyPageEndsRun | myproject/scraper.py:42-44 | a page that returns no records is the last requested |
| Pagination.BlockedPageEndsRun | myproject/scraper.py:42-44 | a page whose title `scrape_section` finds blocked (no records) is the last requested |
| Pagination.RepeatedPageEndsRun | myproject/scraper.py:54-62 | after page 0, a page with no unseen non-empty URL is the last requested |
| Pagination.FirstPageEndsOnlyWhenEmpty | myproject/scraper.py:42-80 | page 0 ends the run only if it returns no records |
| Pagination.ErrorDoesNotEndRun | myproject/scraper.py:69-80 | a page that raised is followed by the next page when one is left |
| Pagination.ScrapeAllPages | myproject/scraper.py:17-83 | the loop computes `Scrape`: results are the first-seen records of the requested pages, with distinct non-empty URLs, and the seen set is their URLs |
| Saver.HeaderName | myproject/saver.py:15-21 | `HEADER_NAMES.get(field, field)` |
| Saver.Present | myproject/saver.py:35 | `[f for f in FIELDS if f in data[0]]`: the fields the record has, in field order |
| Saver.Extra | myproject/saver.py:37-39 | the keys that are not fields, in key order |
| Saver.CsvColumns | myproject/saver.py:31-42 | the CSV columns: the fields the first record has, then its other keys; all fields when that is empty |
| Saver.RowDict | myproject/saver.py:49-52 | the dict comprehension of a CSV row: header to value in column order, so a later column with the same header wins |
| Saver.CsvRow | myproject/saver.py:46-52 | the row `DictWriter` writes: the row dict read under each header, "" when missing |
| Saver.InData | myproject/saver.py:77 | `[f for f in FIELDS if f in df.columns]`: the fields some record has, in field order |
| Saver.XlsxCell | myproject/saver.py:75-86 | a sheet cell: the record's value, or an empty cell when the record lacks the key |
| Saver.HtmlCellOf | myproject/saver.py:128-135 | an HTML cell: the url as a link to itself, any other value as text, "—" when empty or missing |
| Saver.ShownValue | myproject/saver.py:128-135 | reference definition, not a model of code: what a reader takes from an HTML cell, used to state that cells show the record's values |
| Saver.Headers | myproject/saver.py:43 | each column's header is its `HEADER_NAMES` entry, or the column itself |
| Saver.HeaderNameTable | myproject/saver.py:12-21 | the five fields map in order to five distinct Russian headers, none of them a field |
| Saver.HeaderNameInjective | myproject/saver.py:43 | keys other than the Russian headers never share a header |
| Saver.PresentMembers | myproject/saver.py:35 | the present fields are the fields the record has, once each |
| Saver.ExtraMembers | myproject/saver.py:37-39 | the extra keys are the keys outside the fields, once each |
| Saver.CsvColumnsChoice | myproject/saver.py:32-42 | the columns are the first record's keys, each once, with the fields first; a first record without keys gives all fields |
| Saver.CsvFieldsToUse | myproject/saver.py:32-42 | the field filter, the loop over the first record's keys and the fallback compute `CsvColumns` |
| Saver.KeyNotChosenYet | myproject/saver.py:37-39 | a key outside the fields is never among the columns chosen before it, so the loop's second test never rejects it |
| Saver.RowDictAt | myproject/saver.py:49-52 | a header used by one column only holds that column's value |
| Saver.CsvCellCopiesValue | myproject/saver.py:48-52 | such a column's cell is `item.get(column, "")` |
| Saver.CsvTable | myproject/saver.py:23-26 | no table for no records, a table otherwise |
| Saver.SaveCsv | myproject/saver.py:23-52 | column choice, header row and row loop compute `CsvTable` |
| Saver.CsvHeadersDistinct | myproject/saver.py:43 | when no key of the first record is a Russian header, no two columns share a header |
| Saver.CsvCellsAreValues | myproject/saver.py:43-52 | then the headers are distinct, every row has one cell per header, and each cell is the record's value for its column or "" |
| Saver.CsvTableOfOne | myproject/saver.py:43-52 | one record gives the headers of its columns over its one row |
| Saver.RowDictOfTwo | myproject/saver.py:49-52 | with two columns, the second column's header wins when they share one |
| Saver.CsvColumnsOfNameAndOther | myproject/saver.py:35-39 | a record `{name, k}`, with `k` not a field, gives columns name, k |
| Saver.CsvTableOfTwoColumns | myproject/saver.py:43-52 | a record with two columns gives their two headers over its two values, the second value in both cells when the headers coincide |
| Saver.CsvHeaderCollision | myproject/saver.py:43-52 | a first record `{"name": "A", "Название": "B"}` gives two "Название" headers, and both cells show "B" |
| Saver.CsvColumnsOfNameAndUrl | myproject/saver.py:35-42 | a record `{name, url}` gives columns name, url |
| Saver.CsvExample | tests/test_saver.py:10-27 | `{"name": "Пример", "url": "https://example.com"}` gives headers Название, Ссылка over the two values |
| Saver.ScrapedRecordColumns | myproject/saver.py:31-42 | a scraped record's CSV columns are the five fields in order |
| Saver.ScrapedRecordCsv | myproject/saver.py:31-52 | a scraped record gives all five fields under the five headers, its values in field order |
| Saver.InDataMembers | myproject/saver.py:77 | the XLSX columns are the fields some record has, once each |
| Saver.XlsxSheet | myproject/saver.py:66-69 | no sheet for no records, a sheet otherwise |
| Saver.XlsxColumnsChoice | myproject/saver.py:75-85 | the columns are the fields some record has, under distinct Russian headers; other keys are dropped; a cell is filled iff its record has the key |
| Saver.InDataOfFields | myproject/saver.py:77 | the column filter is the five fields in order, each kept iff some record has it |
| Saver.XlsxColumnsOfNameAndUrl | myproject/saver.py:77-85 | one record `{name, url}` gives the columns name, url |
| Saver.XlsxSheetOfNameAndUrl | myproject/saver.py:75-86 | such a record gives Название in column 1 and Ссылка in column 2, with its values beneath |
| Saver.XlsxExample | tests/test_utf8_encoding.py:12-41 | the Cyrillic test record lands in columns 1 and 2 of row 2 |
| Saver.RenderHtml | myproject/saver.py:98-101 | no table for no records, a table otherwise |
| Saver.HtmlCellsShowValues | myproject/saver.py:120-143 | always the five Russian headers and five cells per row; the url cell is a link whose target and text are the URL; no text cell is blank; every value except a literal "—" can be read back from its cell |
| Saver.HtmlRowsOfOne | myproject/saver.py:126-138 | one record gives one row of its five field cells |
| Saver.HtmlRowOfFilledRecord | myproject/saver.py:126-138 | a record with five non-empty values shows them as text, the URL as a link to itself |
| Saver.HtmlExample | tests/test_saver.py:67-91 | the lamp record (`LampRecord`) shows its five values, the URL as a link, and not `instock_schema` |
| Saver.JsonDump | myproject/saver.py:55-64 | nothing for no records, else the records unchanged |
| Saver.SaveAll | myproject/saver.py:150-154 | the four outputs of the same records; all are absent iff there are no records |

## Left out

- The browser is not modelled: options, driver start-up and shutdown, waits, `execute_script` and element queries (myproject/scraper.py:104-143, 165-171, 200-210, 472-476). Pages are values holding the answers of their queries; a navigation is a title or a timeout.
- Sleeps: they are recorded as the pause chosen after each page, never performed. Logging (`print`, `traceback`) is omitted.
- The scroll nudge (`scrollBy(0, 500)`) and the scroll back to the top do not change the counter and are not modelled. The loop consumes a given finite sequence of height readings; reading the height from the page is not modelled.
- Acquisition.ScrollUntilStable: not composed into `Extraction.ScrapeSection`, because the heights do not influence which cards are found in this model.
- The loose-ancestor fallback of the name-first step (myproject/scraper.py:290-296) is unreachable: the same ancestor lookup succeeded just before it. The model uses the Product ancestor directly.
- The generic exception in the currency block (myproject/scraper.py:427-429) is not modelled; a card either raises on its URL, raises later, or not at all (`Page.Fault`).
- The exception handlers of `scrape_section` (myproject/scraper.py:455-471) are folded into `fetch`: a page whose scrape failed is `Fetched([])`; an exception that reaches `scrape_all_pages` is `Raised(message)`.
- Strings.Lower: only ASCII and basic Cyrillic letters (including Ё) are lower-cased; Python's full Unicode case mapping is not modelled.
- Pagination.ScrapeAllPages: the delay is a `nat`; a negative `delay_between_pages` is not modelled.
- File writing, directory creation, CSV quoting, JSON serialisation, pandas and openpyxl, Jinja2 escaping and the `PermissionError` temp-file fallback (myproject/saver.py:27-29, 45-47, 59-64, 70-75, 86-95, 102-104, 144-147) are not modelled.
- Saver.XlsxSheet: both branches of `save_xlsx` give the same sheet and are modelled as one. A missing cell (pandas' NaN) is `None`.
- Saver.JsonDump: the JSON text is not modelled, only the records it holds.
- The `instock_schema` key is never produced by `scrape_section`, so it is not modelled beyond its being ignored by the HTML table.
