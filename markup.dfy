/**
  What the scrapers read from a parsed page. Every BeautifulSoup lookup
  (`soup.find(...)`, `post.find(...)`) is an `Option<Element>`: `None` when the
  element is absent, otherwise the element's text (`get_text()`, `.text`) and
  its attributes.
 */
module Markup {
  import opened Text

  datatype Element = Element(text: string, attrs: map<string, string>)

  /** The idiom `x.get_text().strip() if x else fallback`. */
  function StrippedTextOr(e: Option<Element>, fallback: string): string
  {
    if e.Some? then Strip(e.value.text) else fallback
  }

  /** The idiom `x.get_text().strip().capitalize() if x else fallback`. */
  function CapitalizedTextOr(e: Option<Element>, fallback: string): string
  {
    if e.Some? then Capitalize(Strip(e.value.text)) else fallback
  }

  /** `element[key]`; `None` where Python raises `KeyError`. */
  function Attr(e: Element, key: string): Option<string>
  {
    if key in e.attrs then Some(e.attrs[key]) else None
  }

  /** `element.get(key, fallback)`. */
  function AttrOr(e: Element, key: string, fallback: string): string
  {
    if key in e.attrs then e.attrs[key] else fallback
  }

  /**
    One search-result fragment (`li.ui-search-layout__item`) with the lookups
    main.py and new_main.py make inside it, by the element each one targets.
   */
  datatype Post = Post(
    title: Option<Element>,                 // h2.poly-component__title
    seller: Option<Element>,                // span.poly-component__seller
    previousPrice: Option<Element>,         // s.andes-money-amount--previous
    fraction: Option<Element>,              // span.andes-money-amount__fraction
    currentPrice: Option<Element>,          // span.andes-money-amount--cents-superscript
    discount: Option<Element>,              // span.andes-money-amount__discount
    positiveInstallments: Option<Element>,  // span.poly-price__installments.poly-text-positive
    primaryInstallments: Option<Element>,   // span.poly-price__installments.poly-text-primary
    anchor: Option<Element>,                // the first <a>
    image: Option<Element>                  // the first <img>
  )
}
