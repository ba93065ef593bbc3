/**
 * Record extraction in `scrape_section` (myproject/scraper.py:145-157, 357-453): the
 * projection of each located card into a product record, with the per-page
 * de-duplication by product URL, and the page-level composition of the title check,
 * the locator chain and the projection.
 */
module Extraction {
  import opened Wrappers
  import opened Strings
  import opened Dicts
  import opened Page
  import opened Locators
  import opened Acquisition

  /** The sentinel for a field that was not found. */
  const Placeholder: string := "нет данных"

  /** Prefixed to a product href that is not already absolute. */
  const SiteOrigin: string := "https://www.divan.ru"

  /** A product record as `scrape_section` builds it. */
  datatype Product = Product(name: string, price: string, currency: string, url: string, instockText: string)

  /** The keys of a record dict, in the order the record literal lists them (the saver's `Fields` repeats them). */
  const RecordKeys: seq<string> := ["name", "price", "currency", "url", "instock_text"]

  /** The record as the dict the rest of the program receives. */
  function ToDict(p: Product): (d: Dict)
    ensures Keys(d) == RecordKeys
  {
    [("name", p.name), ("price", p.price), ("currency", p.currency), ("url", p.url), ("instock_text", p.instockText)]
  }

  /** Reads a record back from its dict. */
  function FromDict(d: Dict): Product
  {
    Product(Get(d, "name", ""), Get(d, "price", ""), Get(d, "currency", ""), Get(d, "url", ""), Get(d, "instock_text", ""))
  }

  /** Every field of a record is found under its key. */
  lemma FromDictToDict(p: Product)
    ensures FromDict(ToDict(p)) == p
  {
    var d := ToDict(p);
    GetAt(d, 0, "");
    GetAt(d, 1, "");
    GetAt(d, 2, "");
    GetAt(d, 3, "");
    GetAt(d, 4, "");
  }

  // ---------------------------------------------------------------------------
  // Fields of one card

  /**
   * An href made absolute: an href that starts with "http" is kept, any other is
   * prefixed with the site origin. Either way the result starts with "http" and ends
   * with the href.
   */
  function AbsoluteUrl(href: string): (u: string)
    ensures StartsWith(u, "http") && |href| <= |u| && u[|u| - |href|..] == href
    ensures StartsWith(href, "http") ==> u == href
    ensures !StartsWith(href, "http") ==> StartsWith(u, SiteOrigin) && |u| == |SiteOrigin| + |href|
  {
    if StartsWith(href, "http") then href
    else
      assert (SiteOrigin + href)[..4] == SiteOrigin[..4];
      SiteOrigin + href
  }

  /** Making a URL absolute twice changes nothing. */
  lemma AbsoluteUrlIdempotent(href: string)
    ensures AbsoluteUrl(AbsoluteUrl(href)) == AbsoluteUrl(href)
  {
  }

  /** A relative product path gets the site origin in front of it. */
  lemma RelativeUrlExample()
    ensures AbsoluteUrl("/item/42") == "https://www.divan.ru/item/42"
  {
    assert !StartsWith("/item/42", "http") by {
      assert "/item/42"[..4][0] == '/';
    }
  }

  /** The product URL of a card: its href made absolute; none when the href is missing or empty. */
  function CardUrl(c: Card): (u: Option<string>)
    ensures u.Some? <==> Truthy(c.urlHref)
    ensures u.Some? ==> u.value != "" && StartsWith(u.value, "http")
  {
    if Truthy(c.urlHref) then Some(AbsoluteUrl(c.urlHref.value)) else None
  }

  /** The currency code table; other codes are kept verbatim. */
  function CurrencySymbol(code: string): string
  {
    if code == "RUB" then "руб."
    else if code == "USD" then "$"
    else if code == "EUR" then "€"
    else code
  }

  /** The currency of a card, by the nested tests of the source. */
  function Currency(c: Card): string
  {
    match c.metaCurrency
    case Some(content) =>
      if content == "" || content == Placeholder then Placeholder else CurrencySymbol(content)
    case None =>
      if c.price.Some? && c.price.value.currencySpan.Some? then Strip(c.price.value.currencySpan.value)
      else if c.currencySpans != [] then Strip(c.currencySpans[0])
      else Placeholder
  }

  /** The currency sources in order of preference; None where a source is absent. */
  function CurrencySources(c: Card): seq<Option<string>>
  {
    [ if c.metaCurrency.Some? then Some(if c.metaCurrency.value == "" then Placeholder else CurrencySymbol(c.metaCurrency.value)) else None,
      if c.price.Some? && c.price.value.currencySpan.Some? then Some(Strip(c.price.value.currencySpan.value)) else None,
      if c.currencySpans != [] then Some(Strip(c.currencySpans[0])) else None ]
  }

  /** The first present value of a list of optional values. */
  function FirstPresent(xs: seq<Option<string>>): (r: Option<string>)
    ensures r.None? <==> forall i :: 0 <= i < |xs| ==> xs[i].None?
    ensures r.Some? ==> exists i :: 0 <= i < |xs| && xs[i] == r && forall j :: 0 <= j < i ==> xs[j].None?
  {
    if xs == [] then None
    else if xs[0].Some? then xs[0]
    else
      var r := FirstPresent(xs[1..]);
      assert forall i :: 0 <= i < |xs| - 1 ==> xs[1..][i] == xs[i + 1];
      r
  }

  /**
   * The currency is the first source found, in the order meta content (mapped through
   * the code table, an empty content giving the placeholder), the currency span inside
   * the price, the first currency span of the card; the placeholder when none is found.
   */
  lemma CurrencyIsFirstSource(c: Card)
    ensures Currency(c) == FirstPresent(CurrencySources(c)).GetOr(Placeholder)
  {
    var xs := CurrencySources(c);
    if c.metaCurrency.None? {
      assert xs[0].None?;
      assert xs[1..] == [xs[1], xs[2]];
      if xs[1].None? {
        assert xs[1..][1..] == [xs[2]];
      }
    }
  }

  /** Known codes become symbols; any other non-empty code is kept. */
  lemma MetaCurrencyMapping(c: Card)
    requires c.metaCurrency.Some?
    ensures c.metaCurrency.value == "RUB" ==> Currency(c) == "руб."
    ensures c.metaCurrency.value == "USD" ==> Currency(c) == "$"
    ensures c.metaCurrency.value == "EUR" ==> Currency(c) == "€"
    ensures c.metaCurrency.value == "" ==> Currency(c) == Placeholder
    ensures c.metaCurrency.value !in {"", "RUB", "USD", "EUR"} ==> Currency(c) == c.metaCurrency.value
  {
  }

  /** With a meta currency element, the spans of the card are never consulted. */
  lemma MetaCurrencyWins(c: Card, price: Option<PriceElement>, spans: seq<string>)
    requires c.metaCurrency.Some?
    ensures Currency(c.(price := price, currencySpans := spans)) == Currency(c)
  {
  }

  /** The record projected from a card whose URL is `url`. */
  function Project(c: Card, url: string): (p: Product)
    ensures p.url == url
  {
    Product(
      if c.nameText.Some? then Strip(c.nameText.value) else Placeholder,
      if c.price.Some? then Collapse(Strip(c.price.value.text)) else Placeholder,
      Currency(c),
      url,
      if c.instockText.Some? then Strip(c.instockText.value) else Placeholder)
  }

  /** A missing element gives the placeholder; a present one gives its stripped text. */
  lemma MissingFieldsArePlaceholders(c: Card, url: string)
    ensures c.nameText.None? ==> Project(c, url).name == Placeholder
    ensures c.price.None? ==> Project(c, url).price == Placeholder
    ensures c.instockText.None? ==> Project(c, url).instockText == Placeholder
    ensures c.nameText.Some? ==> Project(c, url).name == Strip(c.nameText.value)
    ensures c.instockText.Some? ==> Project(c, url).instockText == Strip(c.instockText.value)
    ensures c.metaCurrency.None? && (c.price.None? || c.price.value.currencySpan.None?) && c.currencySpans == []
      ==> Project(c, url).currency == Placeholder
  {
  }

  /**
   * A found price has no leading, trailing or doubled space and no other whitespace,
   * keeps every other character of the element's text in order, and is unchanged by
   * another clean-up.
   */
  lemma PriceIsCollapsed(c: Card, url: string)
    requires c.price.Some?
    ensures Normalized(Project(c, url).price)
    ensures Collapse(Project(c, url).price) == Project(c, url).price
    ensures NonSpace(Project(c, url).price) == NonSpace(c.price.value.text)
  {
    var s := Strip(c.price.value.text);
    CollapseNormalized(s);
    CollapseIdempotent(s);
    CollapseKeepsText(s);
    StripKeepsText(c.price.value.text);
  }

  // ---------------------------------------------------------------------------
  // The card loop

  /** No two records share a URL; about the `url` field of a `Product`, before records become dicts. */
  predicate UniqueUrls(rs: seq<Product>) {
    forall i, j :: 0 <= i < j < |rs| ==> rs[i].url != rs[j].url
  }

  /** Every URL is absolute. */
  predicate AbsoluteUrls(rs: seq<Product>) {
    forall i :: 0 <= i < |rs| ==> rs[i].url != "" && StartsWith(rs[i].url, "http")
  }

  function UrlSet(rs: seq<Product>): set<string>
  {
    set i | 0 <= i < |rs| :: rs[i].url
  }

  lemma UrlSetAppend(rs: seq<Product>, r: Product)
    ensures UrlSet(rs + [r]) == UrlSet(rs) + {r.url}
  {
    var rs' := rs + [r];
    assert forall i :: 0 <= i < |rs| ==> rs'[i] == rs[i];
    assert rs'[|rs|] == r;
  }

  /** The state of the card loop: the URLs seen on this page and the records built. */
  datatype Extracted = Extracted(seen: set<string>, records: seq<Product>)

  /**
   * The card loop: a card whose URL cannot be read or is missing, or whose URL was
   * seen before, is skipped; otherwise its URL is marked seen and, unless reading a
   * later field raises, its record is appended.
   */
  function ExtractAll(cards: seq<Card>): Extracted
  {
    if cards == [] then Extracted({}, [])
    else
      var prev := ExtractAll(cards[..|cards| - 1]);
      var c := cards[|cards| - 1];
      var u := CardUrl(c);
      if c.fault == OnUrl || u.None? || u.value in prev.seen then prev
      else if c.fault == AfterUrl then Extracted(prev.seen + {u.value}, prev.records)
      else Extracted(prev.seen + {u.value}, prev.records + [Project(c, u.value)])
  }

  /** The records have distinct absolute URLs, all of them marked seen. */
  lemma {:induction false} ExtractAllUnique(cards: seq<Card>)
    ensures UniqueUrls(ExtractAll(cards).records)
    ensures AbsoluteUrls(ExtractAll(cards).records)
    ensures UrlSet(ExtractAll(cards).records) <= ExtractAll(cards).seen
  {
    if cards != [] {
      var n := |cards| - 1;
      var prev := ExtractAll(cards[..n]);
      ExtractAllUnique(cards[..n]);
      var c := cards[n];
      var u := CardUrl(c);
      if c.fault == OnUrl || u.None? || u.value in prev.seen {
        assert ExtractAll(cards) == prev;
      } else if c.fault == AfterUrl {
        assert ExtractAll(cards) == Extracted(prev.seen + {u.value}, prev.records);
      } else {
        var r := Project(c, u.value);
        assert ExtractAll(cards) == Extracted(prev.seen + {u.value}, prev.records + [r]);
        RecordAppend(prev.records, r);
      }
    }
  }

  /** Appending a record with a new absolute URL keeps the URLs distinct and absolute. */
  lemma RecordAppend(rs: seq<Product>, r: Product)
    requires UniqueUrls(rs) && AbsoluteUrls(rs)
    requires r.url !in UrlSet(rs) && r.url != "" && StartsWith(r.url, "http")
    ensures UniqueUrls(rs + [r]) && AbsoluteUrls(rs + [r])
    ensures UrlSet(rs + [r]) == UrlSet(rs) + {r.url}
  {
    UrlSetAppend(rs, r);
    var rs' := rs + [r];
    forall i, j | 0 <= i < j < |rs'| ensures rs'[i].url != rs'[j].url {
      if j == |rs| {
        assert rs'[i] == rs[i];
        assert rs[i].url in UrlSet(rs);
      }
    }
  }

  /** Card `i` has a readable URL that no earlier card with a readable URL link has. */
  predicate FirstWithUrl(cards: seq<Card>, i: nat)
    requires i < |cards|
  {
    cards[i].fault != OnUrl && CardUrl(cards[i]).Some?
    && forall j :: 0 <= j < i && cards[j].fault != OnUrl ==> CardUrl(cards[j]) != CardUrl(cards[i])
  }

  /**
   * Reference definition: in card order, the projection of each card that is the first
   * with its URL and whose other fields can be read.
   */
  function KeptProducts(cards: seq<Card>): seq<Product>
  {
    if cards == [] then []
    else
      var n := |cards| - 1;
      KeptProducts(cards[..n])
        + (if FirstWithUrl(cards, n) && cards[n].fault == Sound then [Project(cards[n], CardUrl(cards[n]).value)] else [])
  }

  /** The URLs of the cards whose URL link can be read. */
  function ReadUrls(cards: seq<Card>): set<string>
  {
    set i | 0 <= i < |cards| && cards[i].fault != OnUrl && CardUrl(cards[i]).Some? :: CardUrl(cards[i]).value
  }

  /** The loop marks seen exactly the URLs it could read, including those of cards that raise later. */
  lemma {:induction false} ExtractAllSeen(cards: seq<Card>)
    ensures ExtractAll(cards).seen == ReadUrls(cards)
  {
    if cards != [] {
      ExtractAllSeen(cards[..|cards| - 1]);
      ReadUrlsSnoc(cards);
    }
  }

  lemma ReadUrlsSnoc(cards: seq<Card>)
    requires cards != []
    ensures var n := |cards| - 1;
      ReadUrls(cards) == ReadUrls(cards[..n])
        + (if cards[n].fault != OnUrl && CardUrl(cards[n]).Some? then {CardUrl(cards[n]).value} else {})
  {
    var n := |cards| - 1;
    assert forall i :: 0 <= i < n ==> cards[..n][i] == cards[i];
  }

  /** The last card passes the seen test exactly when it is the first with its URL. */
  lemma LastCardPassesIffFirst(cards: seq<Card>)
    requires cards != []
    ensures var n := |cards| - 1; var u := CardUrl(cards[n]);
      (cards[n].fault != OnUrl && u.Some? && u.value !in ExtractAll(cards[..n]).seen) <==> FirstWithUrl(cards, n)
  {
    var n := |cards| - 1;
    var prefix := cards[..n];
    ExtractAllSeen(prefix);
    var u := CardUrl(cards[n]);
    if cards[n].fault != OnUrl && u.Some? {
      if u.value in ReadUrls(prefix) {
        var i :| 0 <= i < n && prefix[i].fault != OnUrl && CardUrl(prefix[i]).Some? && CardUrl(prefix[i]).value == u.value;
        assert cards[i] == prefix[i];
      } else {
        forall j | 0 <= j < n && cards[j].fault != OnUrl ensures CardUrl(cards[j]) != u {
          assert cards[j] == prefix[j];
        }
      }
    }
  }

  /** The running seen set amounts to "no earlier card with a readable link has this URL". */
  lemma {:induction false} ExtractAllKeepsFirstOccurrences(cards: seq<Card>)
    ensures ExtractAll(cards).records == KeptProducts(cards)
  {
    if cards != [] {
      ExtractAllKeepsFirstOccurrences(cards[..|cards| - 1]);
      LastCardPassesIffFirst(cards);
    }
  }

  /** Each record is the projection of the first card with its URL, a card that does not raise. */
  lemma {:induction false} ExtractAllFromCards(cards: seq<Card>, k: nat)
    requires k < |ExtractAll(cards).records|
    ensures exists i :: (0 <= i < |cards| && FirstWithUrl(cards, i) && cards[i].fault == Sound
                         && ExtractAll(cards).records[k] == Project(cards[i], CardUrl(cards[i]).value))
  {
    var n := |cards| - 1;
    var prev := ExtractAll(cards[..n]);
    if k < |prev.records| {
      ExtractAllFromCards(cards[..n], k);
      var i :| 0 <= i < n && FirstWithUrl(cards[..n], i) && cards[..n][i].fault == Sound
        && prev.records[k] == Project(cards[..n][i], CardUrl(cards[..n][i]).value);
      assert forall j :: 0 <= j <= i ==> cards[..n][j] == cards[j];
      assert FirstWithUrl(cards, i);
    } else {
      LastCardPassesIffFirst(cards);
      assert ExtractAll(cards).records[k] == Project(cards[n], CardUrl(cards[n]).value);
    }
  }

  predicate NoFaults(cards: seq<Card>) {
    forall i :: 0 <= i < |cards| ==> cards[i].fault == Sound
  }

  /** The URLs of the cards that have one. */
  function CardUrls(cards: seq<Card>): set<string>
  {
    set i | 0 <= i < |cards| && CardUrl(cards[i]).Some? :: CardUrl(cards[i]).value
  }

  lemma CardUrlsAppend(cards: seq<Card>)
    requires cards != []
    ensures var n := |cards| - 1;
      CardUrls(cards) == CardUrls(cards[..n]) + (if CardUrl(cards[n]).Some? then {CardUrl(cards[n]).value} else {})
  {
    var n := |cards| - 1;
    assert forall i :: 0 <= i < n ==> cards[..n][i] == cards[i];
  }

  /** When no card raises, every card URL gets exactly one record. */
  lemma {:induction false} ExtractAllComplete(cards: seq<Card>)
    requires NoFaults(cards)
    ensures UrlSet(ExtractAll(cards).records) == CardUrls(cards) == ExtractAll(cards).seen
  {
    if cards != [] {
      var n := |cards| - 1;
      var prev := ExtractAll(cards[..n]);
      assert NoFaults(cards[..n]) by {
        assert forall i :: 0 <= i < n ==> cards[..n][i] == cards[i];
      }
      ExtractAllComplete(cards[..n]);
      CardUrlsAppend(cards);
      var c := cards[n];
      var u := CardUrl(c);
      assert c.fault == Sound;
      if u.Some? && u.value !in prev.seen {
        var r := Project(c, u.value);
        assert ExtractAll(cards) == Extracted(prev.seen + {u.value}, prev.records + [r]);
        UrlSetAppend(prev.records, r);
      } else {
        assert ExtractAll(cards) == prev;
      }
    }
  }

  /** The card loop of `scrape_section`. */
  method ExtractRecords(lamps: seq<Card>) returns (results: seq<Product>)
    ensures results == ExtractAll(lamps).records
    ensures UniqueUrls(results) && AbsoluteUrls(results)
  {
    results := [];
    var seen: set<string> := {};
    var i := 0;
    while i < |lamps|
      invariant 0 <= i <= |lamps|
      invariant ExtractAll(lamps[..i]) == Extracted(seen, results)
    {
      var lamp := lamps[i];
      assert lamps[..i + 1][..i] == lamps[..i];
      i := i + 1;
      if lamp.fault == OnUrl {
        continue;
      }
      var productUrl: Option<string> := lamp.urlHref;
      if productUrl.Some? && productUrl.value != "" && !StartsWith(productUrl.value, "http") {
        productUrl := Some(SiteOrigin + productUrl.value);
      }
      assert productUrl == CardUrl(lamp) || (productUrl.Some? && productUrl.value == "" && CardUrl(lamp).None?);
      if productUrl.None? || productUrl.value == "" || productUrl.value in seen {
        continue;
      }
      seen := seen + {productUrl.value};
      if lamp.fault == AfterUrl {
        continue;
      }
      assert lamp.fault == Sound;
      var name := if lamp.nameText.Some? then Strip(lamp.nameText.value) else Placeholder;
      var price := if lamp.price.Some? then Collapse(Strip(lamp.price.value.text)) else Placeholder;
      var currency := Currency(lamp);
      var instockText := if lamp.instockText.Some? then Strip(lamp.instockText.value) else Placeholder;
      results := results + [Product(name, price, currency, productUrl.value, instockText)];
      assert results[|results| - 1] == Project(lamp, productUrl.value);
    }
    assert lamps[..|lamps|] == lamps;
    ExtractAllUnique(lamps);
  }

  /**
   * The records of one page: none when the title is blocked, otherwise the projection
   * of the located cards.
   */
  function SectionRecords(nav: Navigation, dom: Dom): seq<Product>
  {
    if IsBlocked(nav) then [] else ExtractAll(Located(dom)).records
  }

  /** A blocked title yields no records, whatever the page holds. */
  lemma BlockedPageHasNoRecords(nav: Navigation, dom: Dom)
    requires IsBlocked(nav)
    ensures SectionRecords(nav, dom) == []
  {
  }

  /**
   * A page where the chain ends on one generic card while two name elements lie in one
   * product div without a URL link: the late rebuild replaces the card by that div,
   * twice, and the page yields no records, whatever the card holds.
   */
  lemma LateRebuildReplacesCard(c: Card, p: Card)
    requires CardUrl(p).None?
    ensures var n := NameElement(Some(p), None);
      var dom := Dom([], [], [], [n, n], [c]);
      Located(dom) == [p, p] && SectionRecords(Loaded(""), dom) == []
  {
    var n := NameElement(Some(p), None);
    var dom := Dom([], [], [], [n, n], [c]);
    PrimaryOrder(dom);
    assert LinkAscent(dom) == [];
    var cs := FromNames([n, n]);
    assert cs[..1][..0] == [] && cs[..1] == [cs[0]];
    assert Collect(cs[..1]) == Collected({}, []);
    assert NameRebuild(dom) == [];
    assert FallbackChain(dom) == [c];
    ProductAncestorsKeepRepeats(n);
    var lamps := [p, p];
    assert lamps[..1][..0] == [] && lamps[..1] == [p];
    assert ExtractAll(lamps[..1]).records == [];
    assert !IsBlocked(Loaded(""));
  }

  /** `scrape_section` once the page is loaded: the title check, the locator chain, the card loop. */
  method ScrapeSection(nav: Navigation, dom: Dom) returns (results: seq<Product>)
    ensures results == SectionRecords(nav, dom)
    ensures UniqueUrls(results) && AbsoluteUrls(results)
  {
    if nav.Loaded? {
      var pageTitle := Lower(nav.title);
      if Contains(pageTitle, "too many") || Contains(pageTitle, "redirect") || Contains(pageTitle, "error") {
        return [];
      }
    }
    var lamps := LocateCards(dom);
    if lamps == [] {
      return [];
    }
    results := ExtractRecords(lamps);
  }

  /** The page's records as the dicts the pagination driver receives. */
  function SectionDicts(nav: Navigation, dom: Dom): (ds: seq<Dict>)
    ensures |ds| == |SectionRecords(nav, dom)|
  {
    var rs := SectionRecords(nav, dom);
    seq(|rs|, i requires 0 <= i < |rs| => ToDict(rs[i]))
  }
}
