/**
 * The loaded category page as the extraction sees it. The browser is not modelled:
 * an element is represented by the answers the extraction obtains when it queries
 * that element, and the page by the answers of its page-wide queries.
 */
module Page {
  import opened Wrappers

  /** The price element `span[data-testid="price"]` of a card. */
  datatype PriceElement = PriceElement(
    text: string,                   // its text
    currencySpan: Option<string>)   // text of the first `ui-XXdez` span inside it, if any

  /** Where reading a card raises something other than "no such element". */
  datatype Fault =
    | Sound          // nothing raises
    | OnUrl          // reading the URL link raises
    | AfterUrl       // the URL is read, then reading the name, price or stock text raises

  /** A product card element. */
  datatype Card = Card(
    urlHref: Option<string>,        // href of `link[itemprop="url"]`; None when the link or the attribute is missing
    nameText: Option<string>,       // text of `div[itemprop="name"]`
    price: Option<PriceElement>,
    metaCurrency: Option<string>,   // `content` of `meta[itemprop="priceCurrency"]`; "" when the attribute is missing
    currencySpans: seq<string>,     // texts of the `span.ui-XXdez` elements anywhere in the card, in document order
    instockText: Option<string>,    // text of `div.MainInfo_count__MmnNN`
    fault: Fault)

  /** A `link[itemprop="url"]` element of the page and its two ancestor lookups. */
  datatype UrlLink = UrlLink(
    href: Option<string>,
    cardAncestor: Option<Card>,     // nearest `div` whose class contains "ProductCardMain_card"
    looseAncestor: Option<Card>)    // nearest `div` whose class contains "ProductCard" or "Card"

  /** A `div[itemprop="name"]` element of the page. */
  datatype NameElement = NameElement(
    productAncestor: Option<Card>,  // nearest `div[itemtype="http://schema.org/Product"]`
    ancestorHref: Option<string>)   // href of the first `link[itemprop="url"]` inside that ancestor

  /** The answers of the page-wide locator queries, each in document order. */
  datatype Dom = Dom(
    mainCards: seq<Card>,           // `div.ProductCardMain_card__KQzzn`
    urlLinks: seq<UrlLink>,         // `link[itemprop="url"]`
    schemaProducts: seq<Card>,      // `div[itemtype="http://schema.org/Product"]`
    nameElements: seq<NameElement>, // `div[itemprop="name"]`
    productCards: seq<Card>)        // `div.ProductCard`

  /** Outcome of `driver.get(url)`: the page title, or a page-load timeout. */
  datatype Navigation = Loaded(title: string) | NavigationTimedOut
}
