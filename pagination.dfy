/**
 * The pagination driver `scrape_all_pages` (myproject/scraper.py:17-83): it requests the
 * pages of a category one after the other, keeps each product URL once across pages, and
 * decides after every page whether to go on and how long to pause.
 *
 * Each page is fetched through `fetch`, which stands for `scrape_section` together with
 * the browser and the site: it maps a page URL to the records found there, or to the
 * message of an exception that escaped. Sleeping is recorded, not performed: `pauses[k]`
 * is the delay chosen after the k-th requested page, None when the driver did not sleep.
 */
module Pagination {
  import opened Wrappers
  import opened Strings
  import opened Dicts
  import Page
  import Acquisition
  import Extraction

  /** The pause, in seconds, after an error that mentions redirects or "too many". */
  const LongBackoff: nat := 10

  /** What requesting one page produced. */
  datatype PageOutcome =
    | Fetched(records: seq<Dict>)   // the records `scrape_section` returned
    | Raised(message: string)       // `str(e)` of the exception that escaped it

  /** The records an outcome contributes: none for an error. */
  function RecordsOf(outcome: PageOutcome): seq<Dict>
  {
    if outcome.Fetched? then outcome.records else []
  }

  /** The URL of page `page`: the query parameter is appended with `&` when the base already has a query. */
  function PageUrl(baseUrl: string, page: nat): string
  {
    baseUrl + (if '?' in baseUrl then "&" else "?") + "page=" + NatToString(page)
  }

  /**
   * A page URL is the base, one separator, then `page=` and `str(page)`, which has no
   * leading zero and reads back as the page; so the separator is `&` exactly when the base has a query.
   */
  lemma PageUrlParts(baseUrl: string, page: nat)
    ensures var u := PageUrl(baseUrl, page);
      |u| > |baseUrl| + 6 && u[..|baseUrl|] == baseUrl
      && (u[|baseUrl|] == '&' <==> '?' in baseUrl)
      && (u[|baseUrl|] == '?' <==> '?' !in baseUrl)
      && u[|baseUrl| + 1..|baseUrl| + 6] == "page="
      && u[|baseUrl| + 6..] == NatToString(page)
      && ParseDigits(u[|baseUrl| + 6..]) == page
  {
    var u := PageUrl(baseUrl, page);
    var sep := if '?' in baseUrl then "&" else "?";
    assert u == baseUrl + sep + "page=" + NatToString(page);
    assert u[|baseUrl| + 6..] == NatToString(page);
    ParseNatToString(page);
  }

  /** Different pages of one base are requested under different URLs. */
  lemma PageUrlInjective(baseUrl: string, p: nat, q: nat)
    requires PageUrl(baseUrl, p) == PageUrl(baseUrl, q)
    ensures p == q
  {
    PageUrlParts(baseUrl, p);
    PageUrlParts(baseUrl, q);
  }

  /** The pause after an error: the long backoff when the lower-cased message mentions a redirect or "too many". */
  function ErrorPause(message: string, delay: nat): nat
  {
    var m := Lower(message);
    if Contains(m, "redirect") || Contains(m, "too many") then LongBackoff else delay
  }

  /** An upper-case message is matched after lower-casing: "REDIRECTS" gets the long backoff. */
  lemma RedirectLoopBacksOff(delay: nat)
    ensures ErrorPause("net::ERR_TOO_MANY_REDIRECTS", delay) == LongBackoff
  {
    var m := Lower("net::ERR_TOO_MANY_REDIRECTS");
    assert m == "net::err_too_many_redirects";
    assert OccursAt(m, "redirect", 18);
    ContainsAt(m, "redirect");
  }

  /** An error that mentions neither word keeps the ordinary delay. */
  lemma OtherErrorKeepsDelay(message: string, delay: nat)
    requires !Contains(Lower(message), "redirect") && !Contains(Lower(message), "too many")
    ensures ErrorPause(message, delay) == delay
  {
  }

  /** `item.get("url", "")`. */
  function UrlOf(item: Dict): string
  {
    Get(item, "url", "")
  }

  /** The URLs of a list of records. */
  function UrlsOf(rs: seq<Dict>): set<string>
  {
    set i | 0 <= i < |rs| :: UrlOf(rs[i])
  }

  /** The non-empty URLs of a list of records. */
  function NonEmptyUrls(rs: seq<Dict>): set<string>
  {
    set i | 0 <= i < |rs| && UrlOf(rs[i]) != "" :: UrlOf(rs[i])
  }

  /**
   * No two records share a URL and none has an empty one; about `item.get("url", "")`
   * of a dict, whose empty default the cross-page filter must rule out.
   */
  predicate DistinctUrls(rs: seq<Dict>) {
    (forall i :: 0 <= i < |rs| ==> UrlOf(rs[i]) != "")
    && forall i, j :: 0 <= i < j < |rs| ==> UrlOf(rs[i]) != UrlOf(rs[j])
  }

  lemma UrlsOfAppend(a: seq<Dict>, b: seq<Dict>)
    ensures UrlsOf(a + b) == UrlsOf(a) + UrlsOf(b)
  {
    assert forall i :: 0 <= i < |a| ==> (a + b)[i] == a[i];
    assert forall i :: 0 <= i < |b| ==> (a + b)[|a| + i] == b[i];
  }

  lemma NoUrlsNoRecords(rs: seq<Dict>)
    ensures UrlsOf(rs) == {} ==> rs == []
  {
    if rs != [] {
      assert UrlOf(rs[0]) in UrlsOf(rs);
    }
  }

  lemma UrlsOfOne(r: Dict)
    ensures UrlsOf([r]) == {UrlOf(r)}
  {
    assert [r][0] == r;
  }

  /**
   * The cross-page filter over one page: a record is kept when its URL is non-empty,
   * was not seen on an earlier page, and was not kept earlier on this page.
   */
  function Fresh(rs: seq<Dict>, seen: set<string>): seq<Dict>
  {
    if rs == [] then []
    else
      var prev := Fresh(rs[..|rs| - 1], seen);
      var r := rs[|rs| - 1];
      if UrlOf(r) != "" && UrlOf(r) !in seen + UrlsOf(prev) then prev + [r] else prev
  }

  /** Record `i` is the first on the page with its URL, which is non-empty and unseen. */
  predicate FirstNew(rs: seq<Dict>, seen: set<string>, i: nat)
    requires i < |rs|
  {
    UrlOf(rs[i]) != "" && UrlOf(rs[i]) !in seen && forall j :: 0 <= j < i ==> UrlOf(rs[j]) != UrlOf(rs[i])
  }

  /** Reference definition: the records that are first with their new URL, in page order. */
  function KeptRecords(rs: seq<Dict>, seen: set<string>): seq<Dict>
  {
    if rs == [] then []
    else
      var n := |rs| - 1;
      KeptRecords(rs[..n], seen) + (if FirstNew(rs, seen, n) then [rs[n]] else [])
  }

  /** The filter keeps distinct, non-empty, unseen URLs: exactly the page's new non-empty URLs. */
  lemma {:induction false} FreshUrls(rs: seq<Dict>, seen: set<string>)
    ensures DistinctUrls(Fresh(rs, seen))
    ensures UrlsOf(Fresh(rs, seen)) == NonEmptyUrls(rs) - seen
  {
    if rs != [] {
      var n := |rs| - 1;
      var prev := Fresh(rs[..n], seen);
      FreshUrls(rs[..n], seen);
      assert forall i :: 0 <= i < n ==> rs[..n][i] == rs[i];
      assert NonEmptyUrls(rs) == NonEmptyUrls(rs[..n]) + (if UrlOf(rs[n]) != "" then {UrlOf(rs[n])} else {});
      if UrlOf(rs[n]) != "" && UrlOf(rs[n]) !in seen + UrlsOf(prev) {
        UrlsOfAppend(prev, [rs[n]]);
        UrlsOfOne(rs[n]);
        forall i | 0 <= i < |prev| ensures UrlOf(prev[i]) != UrlOf(rs[n]) {
          assert UrlOf(prev[i]) in UrlsOf(prev);
        }
      }
    }
  }

  /** The last record passes the running filter exactly when it is the first with its new URL. */
  lemma LastPassesIffFirstNew(rs: seq<Dict>, seen: set<string>)
    requires rs != []
    ensures var n := |rs| - 1;
            (UrlOf(rs[n]) != "" && UrlOf(rs[n]) !in seen + UrlsOf(Fresh(rs[..n], seen))) <==> FirstNew(rs, seen, n)
  {
    var n := |rs| - 1;
    var prefix := rs[..n];
    FreshUrls(prefix, seen);
    var u := UrlOf(rs[n]);
    if u != "" && u !in seen {
      if u in UrlsOf(Fresh(prefix, seen)) {
        var i :| 0 <= i < n && UrlOf(prefix[i]) != "" && UrlOf(prefix[i]) == u;
        assert rs[i] == prefix[i];
      } else {
        forall j | 0 <= j < n ensures UrlOf(rs[j]) != u {
          assert rs[j] == prefix[j];
          assert UrlOf(prefix[j]) != "" ==> UrlOf(prefix[j]) in NonEmptyUrls(prefix);
        }
      }
    }
  }

  /** The running filter is the reference definition: "not kept yet" is "no earlier record has this URL". */
  lemma {:induction false} FreshKeepsFirstOccurrences(rs: seq<Dict>, seen: set<string>)
    ensures Fresh(rs, seen) == KeptRecords(rs, seen)
  {
    if rs != [] {
      FreshKeepsFirstOccurrences(rs[..|rs| - 1], seen);
      LastPassesIffFirstNew(rs, seen);
    }
  }

  /** Filtering two pages in turn is filtering their concatenation. */
  lemma {:induction false} FreshAppend(a: seq<Dict>, b: seq<Dict>, seen: set<string>)
    ensures Fresh(a + b, seen) == Fresh(a, seen) + Fresh(b, seen + UrlsOf(Fresh(a, seen)))
    decreases |b|
  {
    var seen' := seen + UrlsOf(Fresh(a, seen));
    if b == [] {
      assert a + b == a;
    } else {
      var n := |b| - 1;
      assert (a + b)[..|a + b| - 1] == a + b[..n];
      FreshAppend(a, b[..n], seen);
      UrlsOfAppend(Fresh(a, seen), Fresh(b[..n], seen'));
    }
  }

  /** The pages' records in request order; a page that raised contributes nothing. */
  function FetchedRecords(urls: seq<string>, fetch: string -> PageOutcome): seq<Dict>
  {
    if urls == [] then []
    else FetchedRecords(urls[..|urls| - 1], fetch) + RecordsOf(fetch(urls[|urls| - 1]))
  }

  /** The driver's state: kept records, seen URLs, URLs requested so far and the pause after each. */
  datatype Run = Run(results: seq<Dict>, seen: set<string>, requested: seq<string>, pauses: seq<Option<nat>>)

  /**
   * One pass of the page loop: the state after requesting page `page`, and whether the
   * loop goes on to the next page (false at a `break`).
   */
  function Step(baseUrl: string, maxPages: int, delay: nat, fetch: string -> PageOutcome,
                page: nat, st: Run): (Run, bool)
  {
    var url := PageUrl(baseUrl, page);
    var outcome := fetch(url);
    var requested := st.requested + [url];
    if outcome.Raised? then
      (st.(requested := requested, pauses := st.pauses + [Some(ErrorPause(outcome.message, delay))]), true)
    else if outcome.records == [] then
      (st.(requested := requested, pauses := st.pauses + [None]), false)
    else
      var kept := Fresh(outcome.records, st.seen);
      var next := Run(st.results + kept, st.seen + UrlsOf(kept), requested, st.pauses);
      if kept == [] && page > 0 then
        (next.(pauses := st.pauses + [None]), false)
      else
        (next.(pauses := st.pauses + [if page < maxPages - 1 then Some(delay) else None]), true)
  }

  /** The driver from page `page` on, given the state reached before it. */
  function RunFrom(baseUrl: string, maxPages: int, delay: nat, fetch: string -> PageOutcome,
                   page: nat, st: Run): Run
    decreases maxPages - page
  {
    if page >= maxPages then st
    else
      var (next, goOn) := Step(baseUrl, maxPages, delay, fetch, page, st);
      if goOn then RunFrom(baseUrl, maxPages, delay, fetch, page + 1, next) else next
  }

  /** A whole run, from page 0 and an empty state. */
  function Scrape(baseUrl: string, maxPages: int, delay: nat, fetch: string -> PageOutcome): Run
  {
    RunFrom(baseUrl, maxPages, delay, fetch, 0, Run([], {}, [], []))
  }

  /** The URLs kept from the first `k` requested pages: what the driver had seen before page `k`. */
  function SeenBefore(requested: seq<string>, fetch: string -> PageOutcome, k: nat): set<string>
    requires k <= |requested|
  {
    UrlsOf(Fresh(FetchedRecords(requested[..k], fetch), {}))
  }

  /** A page ends the run: it returned no records, or, after page 0, no record with a new URL. */
  predicate Stops(outcome: PageOutcome, page: nat, seen: set<string>) {
    outcome.Fetched? && (outcome.records == [] || (page > 0 && Fresh(outcome.records, seen) == []))
  }

  /** A state that the requested URLs account for: pages 0, 1, ... in turn, and the records kept from them. */
  predicate Consistent(baseUrl: string, fetch: string -> PageOutcome, st: Run) {
    |st.pauses| == |st.requested|
    && (forall i :: 0 <= i < |st.requested| ==> st.requested[i] == PageUrl(baseUrl, i))
    && st.results == Fresh(FetchedRecords(st.requested, fetch), {})
    && st.seen == UrlsOf(st.results)
  }

  /**
   * What the driver did after the k-th requested page of the run `r`: it went on only past
   * a page that does not end the run; it paused after an error for `ErrorPause`, and after
   * a page with records for the ordinary delay exactly when another page followed.
   */
  predicate StepRule(delay: nat, fetch: string -> PageOutcome, r: Run, k: nat)
    requires k < |r.requested| <= |r.pauses|
  {
    var n := |r.requested|;
    var outcome := fetch(r.requested[k]);
    (k < n - 1 ==> !Stops(outcome, k, SeenBefore(r.requested, fetch, k)))
    && (outcome.Raised? ==> r.pauses[k] == Some(ErrorPause(outcome.message, delay)))
    && (outcome.Fetched? ==> r.pauses[k] == (if k < n - 1 then Some(delay) else None))
  }

  lemma {:induction false} FetchedRecordsSnoc(urls: seq<string>, url: string, fetch: string -> PageOutcome)
    ensures FetchedRecords(urls + [url], fetch) == FetchedRecords(urls, fetch) + RecordsOf(fetch(url))
  {
    assert (urls + [url])[..|urls|] == urls;
  }

  /** One pass requests the page's URL after those requested before. */
  lemma StepRequests(baseUrl: string, maxPages: int, delay: nat, fetch: string -> PageOutcome, page: nat, st: Run)
    ensures Step(baseUrl, maxPages, delay, fetch, page, st).0.requested == st.requested + [PageUrl(baseUrl, page)]
  {
  }

  /** One pass keeps the state accounted for by the requests. */
  lemma StepKeepsConsistent(baseUrl: string, maxPages: int, delay: nat, fetch: string -> PageOutcome, page: nat, st: Run)
    requires Consistent(baseUrl, fetch, st) && |st.requested| == page
    ensures Consistent(baseUrl, fetch, Step(baseUrl, maxPages, delay, fetch, page, st).0)
  {
    var url := PageUrl(baseUrl, page);
    var outcome := fetch(url);
    var earlier := FetchedRecords(st.requested, fetch);
    var next := Step(baseUrl, maxPages, delay, fetch, page, st).0;
    FetchedRecordsSnoc(st.requested, url, fetch);
    assert next.requested == st.requested + [url];
    if outcome.Fetched? && outcome.records != [] {
      var kept := Fresh(outcome.records, st.seen);
      FreshAppend(earlier, outcome.records, {});
      assert {} + UrlsOf(Fresh(earlier, {})) == st.seen;
      UrlsOfAppend(st.results, kept);
      assert next.results == st.results + kept;
    } else {
      assert FetchedRecords(st.requested + [url], fetch) == earlier + [] == earlier;
      assert next.results == st.results;
    }
  }

  /**
   * One pass from a consistent state: page `page` is requested, the state stays consistent,
   * the loop goes on exactly when the page does not stop the run, and the pause is chosen
   * by the outcome.
   */
  lemma StepConsistent(baseUrl: string, maxPages: int, delay: nat, fetch: string -> PageOutcome, page: nat, st: Run)
    requires Consistent(baseUrl, fetch, st) && |st.requested| == page
    ensures var (next, goOn) := Step(baseUrl, maxPages, delay, fetch, page, st);
      var outcome := fetch(PageUrl(baseUrl, page));
      Consistent(baseUrl, fetch, next)
      && next.requested == st.requested + [PageUrl(baseUrl, page)]
      && next.pauses[..page] == st.pauses
      && (goOn <==> !Stops(outcome, page, st.seen))
      && (outcome.Raised? ==> next.pauses[page] == Some(ErrorPause(outcome.message, delay)))
      && (outcome.Fetched? ==> next.pauses[page] == (if goOn && page < maxPages - 1 then Some(delay) else None))
  {
    StepKeepsConsistent(baseUrl, maxPages, delay, fetch, page, st);
    var (next, goOn) := Step(baseUrl, maxPages, delay, fetch, page, st);
    assert |next.pauses| == page + 1 && next.pauses[..page] == st.pauses by {
      var p := next.pauses;
      assert exists x :: p == st.pauses + [x];
    }
  }

  /** The driver from a consistent state reaches a consistent state, requesting the remaining pages in order. */
  lemma {:induction false} RunFromConsistent(baseUrl: string, maxPages: int, delay: nat, fetch: string -> PageOutcome,
                                             page: nat, st: Run)
    requires Consistent(baseUrl, fetch, st) && |st.requested| == page
    ensures var r := RunFrom(baseUrl, maxPages, delay, fetch, page, st);
      Consistent(baseUrl, fetch, r)
      && page <= |r.requested| && r.requested[..page] == st.requested && r.pauses[..page] == st.pauses
      && (page < maxPages ==> page < |r.requested| <= maxPages)
      && (page >= maxPages ==> r == st)
    decreases maxPages - page
  {
    if page < maxPages {
      var (next, goOn) := Step(baseUrl, maxPages, delay, fetch, page, st);
      StepConsistent(baseUrl, maxPages, delay, fetch, page, st);
      if goOn {
        RunFromConsistent(baseUrl, maxPages, delay, fetch, page + 1, next);
        var r := RunFrom(baseUrl, maxPages, delay, fetch, page + 1, next);
        assert r.requested[..page] == r.requested[..page + 1][..page];
        assert r.pauses[..page] == r.pauses[..page + 1][..page];
      }
    }
  }

  /**
   * The first page the driver requests from a consistent state follows the step rule, and
   * a run that ends on it before `maxPages` ends because the page stops it.
   */
  lemma FirstPageFollowsStepRule(baseUrl: string, maxPages: int, delay: nat, fetch: string -> PageOutcome,
                                 page: nat, st: Run)
    requires Consistent(baseUrl, fetch, st) && |st.requested| == page < maxPages
    ensures var r := RunFrom(baseUrl, maxPages, delay, fetch, page, st);
      page < |r.requested| == |r.pauses|
      && StepRule(delay, fetch, r, page)
      && (|r.requested| == page + 1 < maxPages ==>
            Stops(fetch(r.requested[page]), page, SeenBefore(r.requested, fetch, page)))
  {
    var r := RunFrom(baseUrl, maxPages, delay, fetch, page, st);
    RunFromConsistent(baseUrl, maxPages, delay, fetch, page, st);
    var (next, goOn) := Step(baseUrl, maxPages, delay, fetch, page, st);
    StepConsistent(baseUrl, maxPages, delay, fetch, page, st);
    assert SeenBefore(r.requested, fetch, page) == st.seen;
    if goOn {
      RunFromConsistent(baseUrl, maxPages, delay, fetch, page + 1, next);
      assert r.requested[page] == next.requested[page];
      assert r.pauses[page] == next.pauses[page];
    }
  }

  /**
   * From a consistent state, every page the driver requests follows the step rule, and a
   * run that ends before `maxPages` ends on a page that stops it.
   */
  lemma {:induction false} RunFromSteps(baseUrl: string, maxPages: int, delay: nat, fetch: string -> PageOutcome,
                                        page: nat, st: Run)
    requires Consistent(baseUrl, fetch, st) && |st.requested| == page
    ensures var r := RunFrom(baseUrl, maxPages, delay, fetch, page, st);
      |r.pauses| == |r.requested|
      && (forall k :: page <= k < |r.requested| ==> StepRule(delay, fetch, r, k))
      && (page < |r.requested| < maxPages ==>
            Stops(fetch(r.requested[|r.requested| - 1]), |r.requested| - 1,
                  SeenBefore(r.requested, fetch, |r.requested| - 1)))
    decreases maxPages - page
  {
    RunFromConsistent(baseUrl, maxPages, delay, fetch, page, st);
    if page < maxPages {
      var r := RunFrom(baseUrl, maxPages, delay, fetch, page, st);
      FirstPageFollowsStepRule(baseUrl, maxPages, delay, fetch, page, st);
      var (next, goOn) := Step(baseUrl, maxPages, delay, fetch, page, st);
      if goOn {
        StepKeepsConsistent(baseUrl, maxPages, delay, fetch, page, st);
        StepRequests(baseUrl, maxPages, delay, fetch, page, st);
        RunFromSteps(baseUrl, maxPages, delay, fetch, page + 1, next);
        assert r == RunFrom(baseUrl, maxPages, delay, fetch, page + 1, next);
      }
    }
  }

  /** Pages 0, 1, ... are requested in order, at most `maxPages` of them, and at least page 0 when any is allowed. */
  lemma ScrapeRequests(baseUrl: string, maxPages: int, delay: nat, fetch: string -> PageOutcome)
    ensures var r := Scrape(baseUrl, maxPages, delay, fetch);
      |r.pauses| == |r.requested| <= (if maxPages > 0 then maxPages else 0)
      && (maxPages > 0 ==> |r.requested| > 0)
      && forall i :: 0 <= i < |r.requested| ==> r.requested[i] == PageUrl(baseUrl, i)
  {
    RunFromConsistent(baseUrl, maxPages, delay, fetch, 0, Run([], {}, [], []));
  }

  /**
   * The run keeps, over all pages in request order, each record that is the first with
   * its non-empty URL; so no URL is kept twice and every non-empty URL found is kept.
   */
  lemma ScrapeKeepsFirstSeen(baseUrl: string, maxPages: int, delay: nat, fetch: string -> PageOutcome)
    ensures var r := Scrape(baseUrl, maxPages, delay, fetch);
      var found := FetchedRecords(r.requested, fetch);
      r.results == KeptRecords(found, {})
      && DistinctUrls(r.results)
      && UrlsOf(r.results) == NonEmptyUrls(found)
      && r.seen == UrlsOf(r.results)
  {
    RunFromConsistent(baseUrl, maxPages, delay, fetch, 0, Run([], {}, [], []));
    var r := Scrape(baseUrl, maxPages, delay, fetch);
    FreshKeepsFirstOccurrences(FetchedRecords(r.requested, fetch), {});
    FreshUrls(FetchedRecords(r.requested, fetch), {});
  }

  /**
   * Every requested page follows the step rule, and a run that requests fewer than
   * `maxPages` pages ends on a page that stops it.
   */
  lemma ScrapeSteps(baseUrl: string, maxPages: int, delay: nat, fetch: string -> PageOutcome)
    ensures var r := Scrape(baseUrl, maxPages, delay, fetch);
      var n := |r.requested|;
      |r.pauses| == n
      && (forall k :: 0 <= k < n ==> StepRule(delay, fetch, r, k))
      && (0 < n < maxPages ==> Stops(fetch(r.requested[n - 1]), n - 1, SeenBefore(r.requested, fetch, n - 1)))
  {
    RunFromSteps(baseUrl, maxPages, delay, fetch, 0, Run([], {}, [], []));
  }

  /** A page that returns no records is the last page requested. */
  lemma EmptyPageEndsRun(baseUrl: string, maxPages: int, delay: nat, fetch: string -> PageOutcome, k: nat)
    requires k < |Scrape(baseUrl, maxPages, delay, fetch).requested|
    requires fetch(PageUrl(baseUrl, k)) == Fetched([])
    ensures |Scrape(baseUrl, maxPages, delay, fetch).requested| == k + 1
  {
    ScrapeRequests(baseUrl, maxPages, delay, fetch);
    ScrapeSteps(baseUrl, maxPages, delay, fetch);
    var r := Scrape(baseUrl, maxPages, delay, fetch);
    assert StepRule(delay, fetch, r, k);
  }

  /** A page whose title marks it as blocked yields no records, so it is the last page requested. */
  lemma BlockedPageEndsRun(baseUrl: string, maxPages: int, delay: nat, fetch: string -> PageOutcome, k: nat,
                           nav: Page.Navigation, dom: Page.Dom)
    requires k < |Scrape(baseUrl, maxPages, delay, fetch).requested|
    requires Acquisition.IsBlocked(nav)
    requires fetch(PageUrl(baseUrl, k)) == Fetched(Extraction.SectionDicts(nav, dom))
    ensures |Scrape(baseUrl, maxPages, delay, fetch).requested| == k + 1
  {
    Extraction.BlockedPageHasNoRecords(nav, dom);
    EmptyPageEndsRun(baseUrl, maxPages, delay, fetch, k);
  }

  /** After page 0, a page with no non-empty URL that was not already kept is the last page requested. */
  lemma RepeatedPageEndsRun(baseUrl: string, maxPages: int, delay: nat, fetch: string -> PageOutcome,
                            k: nat, rs: seq<Dict>)
    requires 0 < k < |Scrape(baseUrl, maxPages, delay, fetch).requested|
    requires fetch(PageUrl(baseUrl, k)) == Fetched(rs)
    requires NonEmptyUrls(rs) <= SeenBefore(Scrape(baseUrl, maxPages, delay, fetch).requested, fetch, k)
    ensures |Scrape(baseUrl, maxPages, delay, fetch).requested| == k + 1
  {
    ScrapeRequests(baseUrl, maxPages, delay, fetch);
    ScrapeSteps(baseUrl, maxPages, delay, fetch);
    var r := Scrape(baseUrl, maxPages, delay, fetch);
    var seen := SeenBefore(r.requested, fetch, k);
    FreshUrls(rs, seen);
    NoUrlsNoRecords(Fresh(rs, seen));
    assert StepRule(delay, fetch, r, k);
  }

  /** Page 0 ends the run only when it returns no records: an error or a page of repeats goes on to page 1. */
  lemma FirstPageEndsOnlyWhenEmpty(baseUrl: string, maxPages: int, delay: nat, fetch: string -> PageOutcome)
    requires maxPages >= 2
    requires fetch(PageUrl(baseUrl, 0)) != Fetched([])
    ensures |Scrape(baseUrl, maxPages, delay, fetch).requested| >= 2
  {
    ScrapeRequests(baseUrl, maxPages, delay, fetch);
    ScrapeSteps(baseUrl, maxPages, delay, fetch);
  }

  /** A page that raised never ends the run: the next page is requested when one is left. */
  lemma ErrorDoesNotEndRun(baseUrl: string, maxPages: int, delay: nat, fetch: string -> PageOutcome, k: nat)
    requires k < |Scrape(baseUrl, maxPages, delay, fetch).requested|
    requires fetch(PageUrl(baseUrl, k)).Raised?
    requires k + 1 < maxPages
    ensures k + 1 < |Scrape(baseUrl, maxPages, delay, fetch).requested|
  {
    ScrapeRequests(baseUrl, maxPages, delay, fetch);
    ScrapeSteps(baseUrl, maxPages, delay, fetch);
  }

  /**
   * The inner loop of `scrape_all_pages` over one page's records: a record is kept, and
   * its URL marked seen, when the URL is non-empty and not seen yet.
   */
  method FilterNew(results: seq<Dict>, seenUrls: set<string>) returns (newResults: seq<Dict>, seenAfter: set<string>)
    ensures newResults == Fresh(results, seenUrls)
    ensures seenAfter == seenUrls + UrlsOf(newResults)
  {
    newResults := [];
    seenAfter := seenUrls;
    var i := 0;
    while i < |results|
      invariant 0 <= i <= |results|
      invariant newResults == Fresh(results[..i], seenUrls)
      invariant seenAfter == seenUrls + UrlsOf(newResults)
    {
      var item := results[i];
      var itemUrl := Get(item, "url", "");
      assert results[..i + 1][..i] == results[..i];
      if itemUrl != "" && itemUrl !in seenAfter {
        seenAfter := seenAfter + {itemUrl};
        UrlsOfAppend(newResults, [item]);
        UrlsOfOne(item);
        newResults := newResults + [item];
      }
      i := i + 1;
    }
    assert results[..|results|] == results;
  }

  /**
   * `scrape_all_pages`: the page loop with its break and continue.
   */
  method ScrapeAllPages(baseUrl: string, maxPages: int, delayBetweenPages: nat, fetch: string -> PageOutcome)
    returns (allResults: seq<Dict>, requested: seq<string>, pauses: seq<Option<nat>>)
    ensures Scrape(baseUrl, maxPages, delayBetweenPages, fetch) == Run(allResults, UrlsOf(allResults), requested, pauses)
    ensures allResults == KeptRecords(FetchedRecords(requested, fetch), {}) && DistinctUrls(allResults)
  {
    allResults := [];
    var seenUrls: set<string> := {};
    requested := [];
    pauses := [];
    ghost var scraped := Scrape(baseUrl, maxPages, delayBetweenPages, fetch);
    var page: nat := 0;
    while page < maxPages
      invariant scraped == RunFrom(baseUrl, maxPages, delayBetweenPages, fetch, page, Run(allResults, seenUrls, requested, pauses))
      invariant seenUrls == UrlsOf(allResults)
      decreases maxPages - page
    {
      var separator := if '?' in baseUrl then "&" else "?";
      var url := baseUrl + separator + "page=" + NatToString(page);
      assert url == PageUrl(baseUrl, page);
      requested := requested + [url];
      var outcome := fetch(url);
      if outcome.Raised? {
        var message := Lower(outcome.message);
        if Contains(message, "redirect") || Contains(message, "too many") {
          pauses := pauses + [Some(LongBackoff)];
        } else {
          pauses := pauses + [Some(delayBetweenPages)];
        }
        page := page + 1;
        continue;
      }
      var results := outcome.records;
      if results == [] {
        pauses := pauses + [None];
        break;
      }
      var newResults;
      newResults, seenUrls := FilterNew(results, seenUrls);
      UrlsOfAppend(allResults, newResults);
      assert newResults == [] ==> allResults + newResults == allResults;
      if newResults != [] {
        allResults := allResults + newResults;
      } else if page > 0 {
        pauses := pauses + [None];
        break;
      }
      if page < maxPages - 1 {
        pauses := pauses + [Some(delayBetweenPages)];
      } else {
        pauses := pauses + [None];
      }
      page := page + 1;
    }
    ScrapeKeepsFirstSeen(baseUrl, maxPages, delayBetweenPages, fetch);
  }
}
