/**
  link_scraper.py: visits each product-detail URL and turns the page into one
  record. The HTTP request and the HTML parse are a `fetch` parameter: it
  yields the lookups `scrape_link` makes on the parsed page, or the failure
  `requests` reports (connection error, timeout, error status).
 */
module LinkScraper {
  import opened Text
  import opened Markup
  import opened Prices

  // ---------------------------------------------------------------------------
  // Prefix cleaners
  // ---------------------------------------------------------------------------

  const SOLD_BY := "Vendido por"
  const OFFICIAL_STORE := "Loja oficial"
  /** "Mercadolíder", the badge shown before the seller's sales count. */
  const MERCADOLIDER := "Mercadol\U{ED}der"

  /**
    `clean_seller`: for a seller that is neither empty nor "N/A", the regular
    expression `^(Vendido por|Loja oficial)\s*` (ignoring case) removes one
    such prefix and the whitespace after it, and the rest is stripped.
   */
  function CleanSeller(seller: string): (r: string)
    ensures seller == [] || seller == "N/A" ==> r == seller
    ensures seller != [] && seller != "N/A" ==> Unpadded(r)
  {
    if seller == [] || seller == "N/A" then seller else Strip(RemoveStorePrefix(seller))
  }

  /** The substitution `re.sub(r"^(Vendido por|Loja oficial)\s*", "", seller, flags=re.IGNORECASE)`. */
  function RemoveStorePrefix(seller: string): string
  {
    if StartsWithIgnoreCase(seller, SOLD_BY) then TrimStart(seller[|SOLD_BY|..])
    else if StartsWithIgnoreCase(seller, OFFICIAL_STORE) then TrimStart(seller[|OFFICIAL_STORE|..])
    else seller
  }

  /** The regular expression `^Mercadolíder\s\|\s` under `re.IGNORECASE`: 15 characters. */
  predicate StartsWithMercadolider(s: string)
  {
    |s| >= |MERCADOLIDER| + 3
    && StartsWithIgnoreCase(s, MERCADOLIDER)
    && IsSpace(s[|MERCADOLIDER|])
    && s[|MERCADOLIDER| + 1] == '|'
    && IsSpace(s[|MERCADOLIDER| + 2])
  }

  /** `clean_seller_sales`: the badge prefix removed, then the rest stripped; "" and "N/A" unchanged. */
  function CleanSellerSales(sales: string): (r: string)
    ensures sales == [] || sales == "N/A" ==> r == sales
    ensures sales != [] && sales != "N/A" ==> Unpadded(r)
  {
    if sales == [] || sales == "N/A" then sales else Strip(RemoveBadge(sales))
  }

  /** The substitution `re.sub(r"^Mercadolíder\s\|\s", "", sales, flags=re.IGNORECASE)`. */
  function RemoveBadge(sales: string): string
  {
    if StartsWithMercadolider(sales) then sales[|MERCADOLIDER| + 3..] else sales
  }

  // ---------------------------------------------------------------------------
  // One product page
  // ---------------------------------------------------------------------------

  /** The lookups `scrape_link` makes on a product page, by the element each one targets. */
  datatype DetailPage = DetailPage(
    title: Option<Element>,              // h1.ui-pdp-title
    seller: Option<Element>,             // div.ui-seller-data-header__title-container
    sellerSales: Option<Element>,        // p....ui-seller-data-status__info-title
    previousPrice: Option<Element>,      // s....andes-money-amount--previous...
    fraction: Option<Element>,           // span.andes-money-amount__fraction
    currentPrice: Option<Element>,       // span....andes-money-amount--cents-superscript...
    discount: Option<Element>,           // span.andes-money-amount__discount
    subtitles: Option<Element>,          // div.ui-pdp-price__subtitles
    quantityAvailable: Option<Element>,  // span.ui-pdp-buybox__quantity__available
    quantity: Option<Element>,           // div.ui-pdp-buybox__quantity
    shippingMessage: Option<Element>     // div.ui-vip-shipping-message__text
  )

  /** What the request for one URL gives: the parsed page, or a `RequestException`. */
  datatype FetchResult = Fetched(page: DetailPage) | FetchFailed

  /** The dictionary `scrape_link` returns: the full record, or the placeholder for an unreachable URL. */
  datatype DetailRecord =
    | Detail(title: string, seller: string, sellerSales: string, adType: string,
             pricePrevious: string, priceCurrent: string, discount: string,
             installments: string, qtdAvailable: string, url: string, scrapedAt: string)
    | Unreachable(url: string, scrapedAt: string)

  /** A record as the row the CSV export writes: its keys and values. */
  function Row(r: DetailRecord): map<string, string>
  {
    match r
    case Detail(title, seller, sellerSales, adType, pricePrevious, priceCurrent, discount,
                installments, qtdAvailable, url, scrapedAt) =>
      map["title" := title, "seller" := seller, "seller_sales" := sellerSales, "ad_type" := adType,
          "price_previous" := pricePrevious, "price_current" := priceCurrent, "discount" := discount,
          "installments" := installments, "qtd_available" := qtdAvailable, "url" := url,
          "scraped_at" := scrapedAt]
    case Unreachable(url, scrapedAt) =>
      map["url" := url, "title" := "N/A", "price_previous" := "N/A", "price_current" := "N/A",
          "seller" := "N/A", "seller_sales" := "N/A", "qtd_available" := "N/A",
          "scraped_at" := scrapedAt]
  }

  /**
    The previous price. When the struck-through element is absent, the
    fallback tests the absent element again instead of the fraction, so it
    always yields "N/A", which converts to 0.
   */
  function PreviousPrice(p: DetailPage): string
  {
    var raw := if p.previousPrice.Some? then Strip(p.previousPrice.value.text) else "N/A";
    Normalize(raw)
  }

  /** The current price, normalised; "NA" when the element is absent. */
  function CurrentPrice(p: DetailPage): string
  {
    if p.currentPrice.Some? then Normalize(Strip(p.currentPrice.value.text)) else "NA"
  }

  const PREMIUM := "Premium"
  const CLASSIC := "Classic"
  const INTEREST_FREE := "sem juros"

  /** `installments` and `ad_type`: both "N/A" without the subtitles element. */
  function Installments(subtitles: Option<Element>): (string, string)
  {
    if subtitles.None? then ("N/A", "N/A")
    else
      var t := Strip(subtitles.value.text);
      if t != [] && Contains(Lower(t), INTEREST_FREE) then (t, PREMIUM) else (t, CLASSIC)
  }

  /** "Anúncio pausado": the shipping message of a paused listing. */
  const PAUSED := "An\U{FA}ncio pausado"

  /** The text of an optional element, stripped; "" where Python holds `None` (`not qtd` treats both alike). */
  function StrippedOrEmpty(e: Option<Element>): string
  {
    if e.Some? then Strip(e.value.text) else ""
  }

  /**
    `qtd_available` as first found: the explicit quantity, else the quantity
    box, else "Anúncio pausado" when the shipping message says so, else
    "N/A"; an empty text counts as missing.
   */
  function QuantityText(available: Option<Element>, quantity: Option<Element>, shipping: Option<Element>): string
  {
    var q1 := StrippedOrEmpty(available);
    var q2 := if q1 == [] then StrippedOrEmpty(quantity) else q1;
    var q3 := if q2 == [] && shipping.Some? && Contains(shipping.value.text, PAUSED) then PAUSED else q2;
    if q3 == [] then "N/A" else q3
  }

  /** `qtd_available` as stored: parentheses removed and the text stripped, unless it is "N/A". */
  function Availability(available: Option<Element>, quantity: Option<Element>, shipping: Option<Element>): string
  {
    Finish(QuantityText(available, quantity, shipping))
  }

  /** The clean-up applied to the quantity text: parentheses removed and stripped, "N/A" kept. */
  function Finish(q: string): string
  {
    if q != "N/A" then RemoveParentheses(q) else "N/A"
  }

  /** The clean-up never leaves a parenthesis. */
  lemma FinishWithoutParentheses(q: string)
    ensures '(' !in Finish(q) && ')' !in Finish(q)
  {
    if q != "N/A" {
      NoParentheses(q);
    } else {
      assert "N/A" == ['N', '/', 'A'];
    }
  }

  /** `q.replace("(", "").replace(")", "").strip()`. */
  function RemoveParentheses(q: string): string
  {
    Strip(ReplaceChar(ReplaceChar(q, '(', ""), ')', ""))
  }

  /** `scrape_link(url)` on the outcome of its request, with `scrapedAt` the time stamp. */
  function ScrapeLink(url: string, fetched: FetchResult, scrapedAt: string): DetailRecord
  {
    match fetched
    case FetchFailed => Unreachable(url, scrapedAt)
    case Fetched(p) =>
      var (installments, adType) := Installments(p.subtitles);
      Detail(
        title := CapitalizedTextOr(p.title, "N/A"),
        seller := CleanSeller(CapitalizedTextOr(p.seller, "N/A")),
        sellerSales := CleanSellerSales(CapitalizedTextOr(p.sellerSales, "N/A")),
        adType := adType,
        pricePrevious := PreviousPrice(p),
        priceCurrent := CurrentPrice(p),
        discount := StrippedTextOr(p.discount, "0%"),
        installments := installments,
        qtdAvailable := Availability(p.quantityAvailable, p.quantity, p.shippingMessage),
        url := url,
        scrapedAt := scrapedAt)
  }

  /** The records `scrape_links` appends for `links`, one per link, in order. */
  function ScrapeAll(links: seq<string>, fetch: string -> FetchResult, scrapedAt: string): seq<DetailRecord>
  {
    if links == [] then []
    else [ScrapeLink(links[0], fetch(links[0]), scrapedAt)] + ScrapeAll(links[1..], fetch, scrapedAt)
  }

  // ---------------------------------------------------------------------------
  // The scraper object
  // ---------------------------------------------------------------------------

  class LinkScraper {
    /** The links read from the input CSV's "post link" column. */
    var links: seq<string>
    /** The records scraped so far. */
    var data: seq<DetailRecord>

    constructor (links: seq<string>)
      ensures this.links == links && data == []
    {
      this.links := links;
      data := [];
    }

    /** `scrape_links`: scrape every link in order and append its record. */
    method ScrapeLinks(fetch: string -> FetchResult, scrapedAt: string)
      modifies this
      ensures links == old(links)
      ensures data == old(data) + ScrapeAll(links, fetch, scrapedAt)
    {
      if links == [] {
        return;
      }
      var i := 0;
      while i < |links|
        invariant 0 <= i <= |links|
        invariant links == old(links)
        invariant data == old(data) + ScrapeAll(links[..i], fetch, scrapedAt)
      {
        var link := links[i];
        var result := ScrapeLink(link, fetch(link), scrapedAt);
        ScrapeAllAppend(links[..i], link, fetch, scrapedAt);
        assert links[..i + 1] == links[..i] + [link];
        data := data + [result];
        i := i + 1;
      }
      assert links[..i] == links;
    }
  }

  // ---------------------------------------------------------------------------
  // Properties
  // ---------------------------------------------------------------------------

  lemma {:induction false} ScrapeAllAppend(links: seq<string>, link: string, fetch: string -> FetchResult, scrapedAt: string)
    ensures ScrapeAll(links + [link], fetch, scrapedAt)
         == ScrapeAll(links, fetch, scrapedAt) + [ScrapeLink(link, fetch(link), scrapedAt)]
  {
    if links == [] {
      assert links + [link] == [link];
    } else {
      assert (links + [link])[1..] == links[1..] + [link];
      ScrapeAllAppend(links[1..], link, fetch, scrapedAt);
    }
  }

  /** One record per link, in the order of the links, each carrying its link's URL. */
  lemma {:induction false} ScrapeAllOnePerLink(links: seq<string>, fetch: string -> FetchResult, scrapedAt: string)
    ensures |ScrapeAll(links, fetch, scrapedAt)| == |links|
    ensures forall i :: 0 <= i < |links| ==>
      ScrapeAll(links, fetch, scrapedAt)[i] == ScrapeLink(links[i], fetch(links[i]), scrapedAt)
      && ScrapeAll(links, fetch, scrapedAt)[i].url == links[i]
  {
    if links != [] {
      ScrapeAllOnePerLink(links[1..], fetch, scrapedAt);
      var r := ScrapeAll(links, fetch, scrapedAt);
      forall i | 0 < i < |links|
        ensures r[i] == ScrapeLink(links[i], fetch(links[i]), scrapedAt)
      {
        assert links[i] == links[1..][i - 1];
      }
    }
  }

  /** An unreachable URL still yields a row: "N/A" everywhere except the URL and the time stamp. */
  lemma UnreachableRow(url: string, scrapedAt: string)
    ensures var row := Row(ScrapeLink(url, FetchFailed, scrapedAt));
      && row.Keys == {"url", "title", "price_previous", "price_current", "seller", "seller_sales",
                      "qtd_available", "scraped_at"}
      && row["url"] == url && row["scraped_at"] == scrapedAt
      && forall k :: k in row && k != "url" && k != "scraped_at" ==> row[k] == "N/A"
  {
  }

  /** `clean_seller` removes one "Vendido por", in any case, and the whitespace after it, in front of a clean name. */
  lemma CleanSellerRemovesPrefix(prefix: string, gap: string, name: string)
    requires |prefix| == |SOLD_BY| && StartsWithIgnoreCase(prefix, SOLD_BY)
    requires forall i :: 0 <= i < |gap| ==> IsSpace(gap[i])
    requires Unpadded(name)
    ensures CleanSeller(prefix + gap + name) == name
  {
    var rest := gap + name;
    assert prefix + gap + name == prefix + rest;
    PrefixIgnoringCase(prefix, rest, SOLD_BY);
    TrimStartGap(gap, name);
    StripUnpadded(name);
    CleanSellerSoldBy(prefix + rest);
  }

  lemma CleanSellerSoldBy(s: string)
    requires StartsWithIgnoreCase(s, SOLD_BY)
    ensures CleanSeller(s) == Strip(TrimStart(s[|SOLD_BY|..]))
  {
    assert s != [] && s != "N/A" by {
      assert |s| >= 11;
    }
  }

  /** A text that starts with a case variant of `p` still does after anything is appended. */
  lemma PrefixIgnoringCase(prefix: string, rest: string, p: string)
    requires |prefix| == |p| && StartsWithIgnoreCase(prefix, p)
    ensures StartsWithIgnoreCase(prefix + rest, p)
    ensures (prefix + rest)[|p|..] == rest
  {
    var s := prefix + rest;
    assert forall i :: 0 <= i < |p| ==> s[i] == prefix[i];
  }

  lemma {:induction false} TrimStartGap(gap: string, name: string)
    requires forall i :: 0 <= i < |gap| ==> IsSpace(gap[i])
    requires name == [] || !IsSpace(name[0])
    ensures TrimStart(gap + name) == name
  {
    if gap == [] {
      assert gap + name == name;
    } else {
      assert (gap + name)[1..] == gap[1..] + name;
      TrimStartGap(gap[1..], name);
    }
  }

  /** "Loja oficial", in any case, is removed just like "Vendido por". */
  lemma CleanSellerRemovesStorePrefix(prefix: string, gap: string, name: string)
    requires |prefix| == |OFFICIAL_STORE| && StartsWithIgnoreCase(prefix, OFFICIAL_STORE)
    requires forall i :: 0 <= i < |gap| ==> IsSpace(gap[i])
    requires Unpadded(name)
    ensures CleanSeller(prefix + gap + name) == name
  {
    var rest := gap + name;
    assert prefix + gap + name == prefix + rest;
    PrefixIgnoringCase(prefix, rest, OFFICIAL_STORE);
    TrimStartGap(gap, name);
    StripUnpadded(name);
    CleanSellerOfficialStore(prefix + rest);
  }

  lemma CleanSellerOfficialStore(s: string)
    requires StartsWithIgnoreCase(s, OFFICIAL_STORE)
    ensures CleanSeller(s) == Strip(TrimStart(s[|OFFICIAL_STORE|..]))
  {
    assert !StartsWithIgnoreCase(s, SOLD_BY) by {
      assert LowerChar(s[0]) == LowerChar(OFFICIAL_STORE[0]) == 'l';
    }
    assert s != [] && s != "N/A" by {
      assert |s| >= 12;
    }
  }

  /** Without either prefix, a seller is only stripped. */
  lemma CleanSellerWithoutPrefix(seller: string)
    requires seller != [] && seller != "N/A"
    requires !StartsWithIgnoreCase(seller, SOLD_BY) && !StartsWithIgnoreCase(seller, OFFICIAL_STORE)
    ensures CleanSeller(seller) == Strip(seller)
  {
  }

  /** `clean_seller_sales` removes the 15-character badge in front of the sales count and strips the rest. */
  lemma CleanSellerSalesRemovesBadge(badge: string, left: char, right: char, sales: string)
    requires |badge| == |MERCADOLIDER| && StartsWithIgnoreCase(badge, MERCADOLIDER)
    requires IsSpace(left) && IsSpace(right)
    requires Unpadded(sales)
    ensures CleanSellerSales(badge + [left, '|', right] + sales) == sales
  {
    var rest := [left, '|', right] + sales;
    assert badge + [left, '|', right] + sales == badge + rest;
    PrefixIgnoringCase(badge, rest, MERCADOLIDER);
    var s := badge + rest;
    assert s[|MERCADOLIDER|] == left && s[|MERCADOLIDER| + 1] == '|' && s[|MERCADOLIDER| + 2] == right;
    assert s[|MERCADOLIDER| + 3..] == sales;
    StripUnpadded(sales);
    CleanSellerSalesBadge(s);
  }

  lemma CleanSellerSalesBadge(s: string)
    requires StartsWithMercadolider(s)
    ensures CleanSellerSales(s) == Strip(s[|MERCADOLIDER| + 3..])
  {
    assert s != [] && s != "N/A" by {
      assert |s| >= 15;
    }
  }

  /**
    Without the struck-through element the previous price is always
    "R$ 0,00", whatever the fraction element holds.
   */
  lemma PreviousPriceWithoutElement(p: DetailPage)
    requires p.previousPrice.None?
    ensures PreviousPrice(p) == "R$ 0,00"
  {
    ConvertNotAvailable();
    FormatZero();
  }

  /**
    Both prices are already normalised: normalising either once more changes
    nothing (the current price is "NA" when its element is absent).
   */
  lemma PricesAreNormalized(p: DetailPage)
    ensures Normalize(PreviousPrice(p)) == PreviousPrice(p)
    ensures CurrentPrice(p) == "NA" <==> p.currentPrice.None?
    ensures p.currentPrice.Some? ==> Normalize(CurrentPrice(p)) == CurrentPrice(p)
  {
    var raw := if p.previousPrice.Some? then Strip(p.previousPrice.value.text) else "N/A";
    NormalizeIdempotent(raw);
    if p.currentPrice.Some? {
      var cents := ToCents(ConvertToFloat(Strip(p.currentPrice.value.text)));
      NormalizeIdempotent(Strip(p.currentPrice.value.text));
      FormatStartsWithSymbol(cents);
    }
  }

  lemma FormatStartsWithSymbol(cents: nat)
    ensures FormatToCurrency(cents) != "NA"
  {
    FormatShape(cents);
    var f := FormatToCurrency(cents);
    assert f[..3] == "R$ ";
  }

  /**
    The ad type is "Premium" exactly when the subtitles element is present
    and its text mentions "sem juros" in any case, "Classic" when it is
    present without it, and "N/A" (with "N/A" installments) when it is absent.
   */
  lemma AdTypeRule(subtitles: Option<Element>)
    ensures var (installments, adType) := Installments(subtitles);
      && (adType == PREMIUM <==> subtitles.Some? && Contains(Lower(Strip(subtitles.value.text)), INTEREST_FREE))
      && (adType == CLASSIC <==> subtitles.Some? && !Contains(Lower(Strip(subtitles.value.text)), INTEREST_FREE))
      && (adType == "N/A" <==> subtitles.None?)
      && (subtitles.None? ==> installments == "N/A")
      && (subtitles.Some? ==> installments == Strip(subtitles.value.text))
  {
    if subtitles.Some? {
      var t := Strip(subtitles.value.text);
      if t == [] {
        assert !Contains(Lower(t), INTEREST_FREE);
      }
    }
  }

  /** The availability never keeps a parenthesis. */
  lemma AvailabilityWithoutParentheses(available: Option<Element>, quantity: Option<Element>, shipping: Option<Element>)
    ensures '(' !in Availability(available, quantity, shipping)
    ensures ')' !in Availability(available, quantity, shipping)
  {
    FinishWithoutParentheses(QuantityText(available, quantity, shipping));
  }

  lemma NoParentheses(q: string)
    ensures '(' !in RemoveParentheses(q) && ')' !in RemoveParentheses(q)
  {
    var a := ReplaceChar(q, '(', "");
    var b := ReplaceChar(a, ')', "");
    ReplaceCharRemoves(q, '(', "");
    ReplaceCharKeepsAbsent(a, ')', "", '(');
    ReplaceCharRemoves(a, ')', "");
    StripKeepsAbsent(b, '(');
    StripKeepsAbsent(b, ')');
  }

  /** The explicit quantity wins whenever its text is not blank. */
  lemma AvailabilityPrefersExplicitQuantity(available: Element, quantity: Option<Element>, shipping: Option<Element>)
    requires Strip(available.text) != []
    ensures Availability(Some(available), quantity, shipping) == RemoveParentheses(Strip(available.text))
  {
    NotAvailableIsClean();
  }

  /** Without an explicit quantity, the quantity box decides whenever its text is not blank. */
  lemma AvailabilityFromQuantityBox(available: Option<Element>, quantity: Element, shipping: Option<Element>)
    requires StrippedOrEmpty(available) == []
    requires Strip(quantity.text) != []
    ensures Availability(available, Some(quantity), shipping) == RemoveParentheses(Strip(quantity.text))
  {
    NotAvailableIsClean();
  }

  /** "N/A" survives the parenthesis clean-up unchanged. */
  lemma NotAvailableIsClean()
    ensures RemoveParentheses("N/A") == "N/A"
  {
    NotAvailableHasNoParentheses();
    ReplaceCharAbsent("N/A", '(', "");
    ReplaceCharAbsent("N/A", ')', "");
    StripNotAvailable();
  }

  lemma NotAvailableHasNoParentheses()
    ensures '(' !in "N/A" && ')' !in "N/A"
  {
    assert "N/A" == ['N', '/', 'A'];
  }

  lemma StripNotAvailable()
    ensures Strip("N/A") == "N/A"
  {
    assert "N/A"[0] == 'N' && "N/A"[2] == 'A';
    StripUnpadded("N/A");
  }

  /** Without both quantity elements, a paused listing reads "Anúncio pausado". */
  lemma AvailabilityPaused(available: Option<Element>, quantity: Option<Element>, shipping: Element)
    requires StrippedOrEmpty(available) == [] && StrippedOrEmpty(quantity) == []
    requires Contains(shipping.text, PAUSED)
    ensures Availability(available, quantity, Some(shipping)) == PAUSED
  {
    PausedIsClean();
  }

  lemma PausedIsClean()
    ensures PAUSED != [] && PAUSED != "N/A"
    ensures RemoveParentheses(PAUSED) == PAUSED
  {
    PausedHasNoParentheses();
    ReplaceCharAbsent(PAUSED, '(', "");
    ReplaceCharAbsent(PAUSED, ')', "");
    StripPaused();
  }

  lemma PausedHasNoParentheses()
    ensures '(' !in PAUSED && ')' !in PAUSED
  {
    assert PAUSED == "An\U{FA}ncio" + " pausado";
    assert '(' !in "An\U{FA}ncio" && ')' !in "An\U{FA}ncio";
    assert '(' !in " pausado" && ')' !in " pausado";
  }

  lemma StripPaused()
    ensures Strip(PAUSED) == PAUSED
  {
    StripUnpadded(PAUSED);
  }

  /** With none of the three signs the availability is "N/A". */
  lemma AvailabilityMissing(available: Option<Element>, quantity: Option<Element>, shipping: Option<Element>)
    requires StrippedOrEmpty(available) == [] && StrippedOrEmpty(quantity) == []
    requires shipping.None? || !Contains(shipping.value.text, PAUSED)
    ensures Availability(available, quantity, shipping) == "N/A"
  {
  }
}
