/**
  new_main.py: walks the search-result pages for a query and keeps one record
  per listing fragment it can read, skipping the fragments that raise.
 */
module NewMain {
  import opened Text
  import opened Markup
  import opened Prices
  import opened Search

  // ---------------------------------------------------------------------------
  // extract_mlb_code
  // ---------------------------------------------------------------------------

  /** "MLB-" (4 characters) and the 10 after it. */
  const CODE_LENGTH := 14

  function Min(a: nat, b: nat): nat
  {
    if a <= b then a else b
  }

  /** The position of the first '#' at or after `k`, or the end of `s`. */
  function HashFrom(s: string, k: nat): (j: nat)
    requires k <= |s|
    ensures k <= j <= |s|
    ensures forall i :: k <= i < j ==> s[i] != '#'
    ensures j < |s| ==> s[j] == '#'
    decreases |s| - k
  {
    if k == |s| || s[k] == '#' then k else HashFrom(s, k + 1)
  }

  /**
    `extract_mlb_code(post_link)`: the 14 characters from the first "MLB-"
    (fewer at the end of the link); otherwise what the regular expression
    `MLB[^#]*` finds, from the first "MLB" up to the next '#'; otherwise "N/A".
   */
  function ExtractMlbCode(link: string): string
  {
    match IndexOf(link, "MLB-")
    case Some(i) => link[i..Min(i + CODE_LENGTH, |link|)]
    case None =>
      match IndexOf(link, "MLB")
      case Some(i) => link[i..HashFrom(link, i)]
      case None => "N/A"
  }

  // ---------------------------------------------------------------------------
  // scrape_product
  // ---------------------------------------------------------------------------

  /** The dictionary `scrape_product` returns for a fragment it can read. */
  datatype ProductRecord = Product(
    mlb: string, title: string, seller: string, adType: string,
    pricePrevious: string, priceCurrent: string, discount: string,
    installments: string, date: string, postLink: string, imageLink: string)

  /** A record as the row the CSV export writes: its keys and values. */
  function Row(r: ProductRecord): map<string, string>
  {
    map["mlb" := r.mlb, "title" := r.title, "seller" := r.seller, "ad_type" := r.adType,
        "price_previous" := r.pricePrevious, "price_current" := r.priceCurrent,
        "discount" := r.discount, "installments" := r.installments, "date" := r.date,
        "post link" := r.postLink, "image link" := r.imageLink]
  }

  /** `s[4:]`: empty when `s` has four characters or fewer. */
  function DropFour(s: string): string
  {
    if |s| <= 4 then [] else s[4..]
  }

  /** The seller: the stripped text without its first four characters ("Por "), capitalised. */
  function Seller(e: Option<Element>): string
  {
    if e.Some? then Capitalize(DropFour(Strip(e.value.text))) else "N/A"
  }

  /** The previous price text: the struck-through element, else the fraction; `None` where `.text` raises. */
  function PreviousPriceText(post: Post): Option<string>
  {
    if post.previousPrice.Some? then Some(post.previousPrice.value.text)
    else if post.fraction.Some? then Some(post.fraction.value.text)
    else None
  }

  const PREMIUM := "Premium"
  const CLASSIC := "Classic"

  /** `img.get("data-src", img.get("src", "N/A"))`. */
  function ImageLink(img: Element): string
  {
    AttrOr(img, "data-src", AttrOr(img, "src", "N/A"))
  }

  /**
    `scrape_product(post)`: the record, or `None` where a lookup raises and
    the handler returns `{}` (no previous price nor fraction, no current
    price, no anchor or no "href" on it, no image).
   */
  function ScrapeProduct(post: Post, date: string): Option<ProductRecord>
  {
    match PreviousPriceText(post)
    case None => None
    case Some(previous) =>
      if post.currentPrice.None? || post.anchor.None? || post.image.None? then None
      else
        match Attr(post.anchor.value, "href")
        case None => None
        case Some(link) =>
          var positive := post.positiveInstallments;
          var installments := if positive.Some? then positive else post.primaryInstallments;
          Some(Product(
            mlb := ExtractMlbCode(link),
            title := CapitalizedTextOr(post.title, "N/A"),
            seller := Seller(post.seller),
            adType := if positive.Some? then PREMIUM else CLASSIC,
            pricePrevious := Normalize(previous),
            priceCurrent := Normalize(post.currentPrice.value.text),
            discount := StrippedTextOr(post.discount, "0%"),
            installments := StrippedTextOr(installments, "N/A"),
            date := date,
            postLink := link,
            imageLink := ImageLink(post.image.value)))
  }

  /** `scrape_product` for the run's date, as the function the collection applies to each fragment. */
  function ScrapeAt(date: string): Post -> Option<ProductRecord>
  {
    post => ScrapeProduct(post, date)
  }

  /** The records `extract` yields for `posts`, in order, skipping the fragments it cannot read. */
  function Collect<P, R>(posts: seq<P>, extract: P -> Option<R>): seq<R>
  {
    if posts == [] then [] else Kept(extract(posts[0])) + Collect(posts[1..], extract)
  }

  /** What one fragment adds: its record, or nothing when it cannot be read. */
  function Kept<R>(r: Option<R>): seq<R>
  {
    if r.Some? then [r.value] else []
  }

  /** The records of the fragments `posts`, in order, without the ones `scrape_product` cannot read. */
  function ExtractAll(posts: seq<Post>, date: string): seq<ProductRecord>
  {
    Collect(posts, ScrapeAt(date))
  }

  // ---------------------------------------------------------------------------
  // scraping
  // ---------------------------------------------------------------------------

  class Scraper {
    /** The base URL the country menu set. */
    var baseUrl: string
    /** The records collected by the last `scraping` call. */
    var data: seq<ProductRecord>

    constructor (baseUrl: string)
      ensures this.baseUrl == baseUrl && data == []
    {
      this.baseUrl := baseUrl;
      data := [];
    }

    /**
      `scraping`: build the 201 URLs for `query`, then request them in order;
      stop at the first page without fragments, and keep the record of each
      fragment `scrape_product` can read.
     */
    method Scraping(query: string, fetch: string -> seq<Post>, date: string)
      modifies this
      ensures baseUrl == old(baseUrl)
      ensures data == ExtractAll(Listed(Pages(SearchUrls(baseUrl, Slugify(query)), fetch)), date)
    {
      var slug := Slugify(query);
      var urls := BuildSearchUrls(baseUrl, slug);
      ghost var pages := Pages(urls, fetch);
      PagesAt(urls, fetch);
      data := [];
      var i := 0;
      while i < |urls|
        invariant 0 <= i <= |urls|
        invariant baseUrl == old(baseUrl)
        invariant forall j :: 0 <= j < i ==> pages[j] != []
        invariant data == Collect(Listed(pages[..i]), ScrapeAt(date))
      {
        var content := fetch(urls[i]);
        if content == [] {
          ListedStops(pages, i);
          break;
        }
        assert pages[i] == content;
        AppendRecords(content, ScrapeAt(date));
        assert forall j :: 0 <= j < i + 1 ==> pages[j] != [];
        CollectStep(pages, i, ScrapeAt(date));
        i := i + 1;
      }
      if i == |urls| {
        assert pages[..i] == pages;
      }
    }

    /**
      The inner loop of `scraping` over one page's fragments: append the
      record `scrape` gives each fragment that has one (`scraping` passes
      `scrape_product` for its date).
     */
    method AppendRecords(content: seq<Post>, scrape: Post -> Option<ProductRecord>)
      modifies this
      ensures baseUrl == old(baseUrl)
      ensures data == old(data) + Collect(content, scrape)
    {
      var k := 0;
      while k < |content|
        invariant 0 <= k <= |content|
        invariant baseUrl == old(baseUrl)
        invariant data == old(data) + Collect(content[..k], scrape)
      {
        CollectPrefixStep(content, k, scrape);
        var postData := scrape(content[k]);
        if postData.Some? {
          data := data + [postData.value];
        }
        k := k + 1;
      }
      assert content[..k] == content;
    }
  }

  /** The inner loop's step: one more fragment adds its record, if any. */
  lemma CollectPrefixStep<P, R>(posts: seq<P>, k: nat, extract: P -> Option<R>)
    requires k < |posts|
    ensures Collect(posts[..k + 1], extract) == Collect(posts[..k], extract) + Kept(extract(posts[k]))
  {
    assert posts[..k + 1] == posts[..k] + [posts[k]];
    CollectAppend(posts[..k], posts[k], extract);
  }

  /** The outer loop's step: one more non-empty page adds the records of its fragments. */
  lemma CollectStep<P, R>(pages: seq<seq<P>>, i: nat, extract: P -> Option<R>)
    requires i < |pages| && pages[i] != []
    requires forall j :: 0 <= j < i ==> pages[j] != []
    ensures Collect(Listed(pages[..i + 1]), extract) == Collect(Listed(pages[..i]), extract) + Collect(pages[i], extract)
  {
    assert pages[..i + 1] == pages[..i] + [pages[i]];
    ListedAppend(pages[..i], pages[i]);
    CollectConcat(Listed(pages[..i]), pages[i], extract);
  }

  // ---------------------------------------------------------------------------
  // Properties of extract_mlb_code
  // ---------------------------------------------------------------------------

  /**
    With "MLB-" in the link, the code is the slice of up to 14 characters at
    its first occurrence: it starts with "MLB-" and is cut short only by the
    end of the link.
   */
  lemma MlbCodeWithDash(link: string)
    requires Contains(link, "MLB-")
    ensures var i := IndexOf(link, "MLB-").value; var r := ExtractMlbCode(link);
      && i + |r| <= |link| && r == link[i..i + |r|]
      && |r| == Min(CODE_LENGTH, |link| - i)
      && |r| >= 4 && r[..4] == "MLB-"
  {
    var i := IndexOf(link, "MLB-").value;
    var r := ExtractMlbCode(link);
    assert r == link[i..Min(i + CODE_LENGTH, |link|)];
    assert r[..4] == link[i..i + 4];
  }

  /**
    Without "MLB-", the code runs from the first "MLB" up to, not including,
    the next '#' or the end of the link: it starts with "MLB", holds no '#',
    and is followed by '#' or nothing.
   */
  lemma MlbCodeWithoutDash(link: string)
    requires !Contains(link, "MLB-") && Contains(link, "MLB")
    ensures var i := IndexOf(link, "MLB").value; var r := ExtractMlbCode(link);
      && i + |r| <= |link| && r == link[i..i + |r|]
      && |r| >= 3 && r[..3] == "MLB"
      && '#' !in r
      && (i + |r| == |link| || link[i + |r|] == '#')
  {
    var i := IndexOf(link, "MLB").value;
    var j := HashFrom(link, i);
    var r := ExtractMlbCode(link);
    HashAfterMlb(link, i);
    assert r == link[i..j];
    assert r[..3] == link[i..i + 3];
    forall k | 0 <= k < |r|
      ensures r[k] != '#'
    {
      assert r[k] == link[i + k];
    }
  }

  /** The '#' that ends the code cannot fall inside the "MLB" it starts with. */
  lemma HashAfterMlb(link: string, i: nat)
    requires OccursAt(link, "MLB", i)
    ensures HashFrom(link, i) >= i + 3
  {
    var m := link[i..i + 3];
    assert m == "MLB";
    assert link[i] == m[0] && link[i + 1] == m[1] && link[i + 2] == m[2];
  }

  /** Without "MLB" anywhere the code is "N/A". */
  lemma MlbCodeMissing(link: string)
    requires !Contains(link, "MLB")
    ensures ExtractMlbCode(link) == "N/A"
  {
    if IndexOf(link, "MLB-").Some? {
      var i := IndexOf(link, "MLB-").value;
      assert link[i..i + 4][..3] == link[i..i + 3];
      assert OccursAt(link, "MLB", i);
    }
  }

  /** The "MLB-" branch wins even over an earlier bare "MLB". */
  lemma MlbCodeDashWins()
    ensures ExtractMlbCode("MLB1#MLB-2") == "MLB-2"
  {
    var s := "MLB1#MLB-2";
    assert OccursAt(s, "MLB-", 5) by {
      assert s[5..9] == "MLB-";
    }
    assert !OccursAt(s, "MLB-", 0) by { assert s[3] == '1'; }
    assert !OccursAt(s, "MLB-", 1) by { assert s[1] == 'L'; }
    assert !OccursAt(s, "MLB-", 2) by { assert s[2] == 'B'; }
    assert !OccursAt(s, "MLB-", 3) by { assert s[3] == '1'; }
    assert !OccursAt(s, "MLB-", 4) by { assert s[4] == '#'; }
    assert s[5..10] == "MLB-2";
  }

  // ---------------------------------------------------------------------------
  // Properties of scrape_product
  // ---------------------------------------------------------------------------

  /**
    A fragment yields a record exactly when it has a previous price or a
    fraction, a current price, an anchor with an "href", and an image.
   */
  lemma ScrapeProductDefined(post: Post, date: string)
    ensures ScrapeProduct(post, date).Some? <==>
      && (post.previousPrice.Some? || post.fraction.Some?)
      && post.currentPrice.Some?
      && post.anchor.Some? && "href" in post.anchor.value.attrs
      && post.image.Some?
  {
  }

  /**
    The ad type is "Premium" exactly when the positive-installments element
    exists, and "Classic" otherwise, even with no installments element at all;
    the installments text comes from the positive element, else the primary
    one, else it is "N/A".
   */
  lemma ProductAdType(post: Post, date: string)
    requires ScrapeProduct(post, date).Some?
    ensures var r := ScrapeProduct(post, date).value;
      && (r.adType == PREMIUM <==> post.positiveInstallments.Some?)
      && (r.adType == CLASSIC <==> post.positiveInstallments.None?)
      && r.installments == (if post.positiveInstallments.Some? then Strip(post.positiveInstallments.value.text)
                            else if post.primaryInstallments.Some? then Strip(post.primaryInstallments.value.text)
                            else "N/A")
  {
  }

  /** The image link prefers "data-src", then "src", then "N/A". */
  lemma ProductImage(post: Post, date: string)
    requires ScrapeProduct(post, date).Some?
    ensures var r := ScrapeProduct(post, date).value; var img := post.image.value;
      && ("data-src" in img.attrs ==> r.imageLink == img.attrs["data-src"])
      && ("data-src" !in img.attrs && "src" in img.attrs ==> r.imageLink == img.attrs["src"])
      && ("data-src" !in img.attrs && "src" !in img.attrs ==> r.imageLink == "N/A")
  {
  }

  /**
    The record links back to its fragment: the post link is the anchor's
    "href", the code is extracted from it, the prices are normalised already,
    the discount is stripped or defaults to "0%", the title is capitalised
    or "N/A", and the seller is "N/A" without its element.
   */
  lemma ProductFields(post: Post, date: string)
    requires ScrapeProduct(post, date).Some?
    ensures var r := ScrapeProduct(post, date).value;
      && r.postLink == post.anchor.value.attrs["href"]
      && r.mlb == ExtractMlbCode(r.postLink)
      && Normalize(r.pricePrevious) == r.pricePrevious
      && Normalize(r.priceCurrent) == r.priceCurrent
      && r.discount == (if post.discount.Some? then Strip(post.discount.value.text) else "0%")
      && r.title == (if post.title.Some? then Capitalize(Strip(post.title.value.text)) else "N/A")
      && (post.seller.None? ==> r.seller == "N/A")
      && r.date == date
  {
    NormalizeIdempotent(PreviousPriceText(post).value);
    NormalizeIdempotent(post.currentPrice.value.text);
  }

  /** The seller drops the first four characters of its stripped text ("Por ") and is capitalised. */
  lemma SellerDropsFour(e: Element, word: string, name: string)
    requires |word| == 4 && Strip(e.text) == word + name
    ensures Seller(Some(e)) == Capitalize(name)
  {
    var t := word + name;
    if |t| > 4 {
      assert t[4..] == name;
    }
  }

  /** The row `scrape_product` hands to the CSV export has exactly these eleven columns. */
  lemma ProductRowKeys(r: ProductRecord)
    ensures Row(r).Keys == {"mlb", "title", "seller", "ad_type", "price_previous", "price_current",
                            "discount", "installments", "date", "post link", "image link"}
    ensures Row(r)["mlb"] == r.mlb && Row(r)["date"] == r.date && Row(r)["post link"] == r.postLink
  {
  }

  // ---------------------------------------------------------------------------
  // Properties of the collection
  // ---------------------------------------------------------------------------

  lemma {:induction false} CollectAppend<P, R>(posts: seq<P>, post: P, extract: P -> Option<R>)
    ensures Collect(posts + [post], extract) == Collect(posts, extract) + Kept(extract(post))
  {
    if posts == [] {
      assert posts + [post] == [post];
      assert [post][1..] == [];
    } else {
      assert (posts + [post])[1..] == posts[1..] + [post];
      assert (posts + [post])[0] == posts[0];
      CollectAppend(posts[1..], post, extract);
      var h := Kept(extract(posts[0]));
      assert h + (Collect(posts[1..], extract) + Kept(extract(post)))
          == (h + Collect(posts[1..], extract)) + Kept(extract(post));
    }
  }

  /** Extraction is done fragment by fragment: it distributes over concatenation. */
  lemma {:induction false} CollectConcat<P, R>(a: seq<P>, b: seq<P>, extract: P -> Option<R>)
    ensures Collect(a + b, extract) == Collect(a, extract) + Collect(b, extract)
  {
    if a == [] {
      assert a + b == b;
    } else {
      assert (a + b)[1..] == a[1..] + b;
      CollectConcat(a[1..], b, extract);
    }
  }

  /**
    Every kept record is the record of one of the fragments, there are never
    more records than fragments, and there are as many exactly when every
    fragment can be read.
   */
  lemma {:induction false} CollectSkipsOnlyFailures<P, R>(posts: seq<P>, extract: P -> Option<R>)
    ensures forall r :: r in Collect(posts, extract) ==> exists p :: p in posts && extract(p) == Some(r)
    ensures |Collect(posts, extract)| <= |posts|
    ensures |Collect(posts, extract)| == |posts| <==> forall p :: p in posts ==> extract(p).Some?
  {
    if posts != [] {
      CollectSkipsOnlyFailures(posts[1..], extract);
      forall p | p in posts[1..]
        ensures p in posts
      {
      }
      if (forall p :: p in posts ==> extract(p).Some?) {
        assert forall p :: p in posts[1..] ==> extract(p).Some?;
      }
    }
  }

  /** The same for `scrape_product`: records only come from fragments, and none is lost unless it raised. */
  lemma ExtractAllSkipsOnlyFailures(posts: seq<Post>, date: string)
    ensures forall r :: r in ExtractAll(posts, date) ==> exists p :: p in posts && ScrapeProduct(p, date) == Some(r)
    ensures |ExtractAll(posts, date)| <= |posts|
    ensures |ExtractAll(posts, date)| == |posts| <==> forall p :: p in posts ==> ScrapeProduct(p, date).Some?
  {
    CollectSkipsOnlyFailures(posts, ScrapeAt(date));
    assert forall p :: ScrapeAt(date)(p) == ScrapeProduct(p, date);
  }

  /**
    The records come from the fragments of the pages before the first empty
    page, and a page after it contributes nothing, whatever it holds.
   */
  lemma CollectStopsAtEmptyPage(pages: seq<seq<Post>>, j: nat, date: string)
    requires j < |pages| && pages[j] == []
    ensures ExtractAll(Listed(pages), date) == ExtractAll(Listed(pages[..j]), date)
  {
    ListedStops(pages, j);
  }
}
