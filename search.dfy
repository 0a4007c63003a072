/**
  The listing URLs main.py and new_main.py both walk: the search query turned
  into a slug, the first result page, and then 200 further pages addressed by
  the offset of their first result ("_Desde_51", "_Desde_101", ...).
 */
module Search {
  import opened Text

  /** The base URL the country menu offers for its only option, Brasil. */
  const BRAZIL := "https://lista.mercadolivre.com.br/"

  /** The number of further pages after the first one, and the results on each. */
  const EXTRA_PAGES := 200
  const PAGE_SIZE := 50

  /** `product_name.replace(" ", "-").lower()`. */
  function Slugify(query: string): string
  {
    Lower(ReplaceChar(query, ' ', "-"))
  }

  /** `f"{base_url}{cleaned_name}_Desde_{offset}_NoIndex_True"`. */
  function PageUrl(base: string, slug: string, offset: nat): string
  {
    base + slug + "_Desde_" + NatToString(offset) + "_NoIndex_True"
  }

  /** The URL list `scraping` builds: the bare search, then the pages starting at results 51, 101, ..., 10001. */
  function SearchUrls(base: string, slug: string): seq<string>
  {
    [base + slug] + seq(EXTRA_PAGES, k requires 0 <= k < EXTRA_PAGES => PageUrl(base, slug, PAGE_SIZE * (k + 1) + 1))
  }

  /**
    The loop of `scraping` that builds the URL list: `i` runs over
    `range(0, 10000, 50)` while `page_number` starts at 50 and grows by 50,
    and each round appends the page that starts at result `page_number + 1`.
   */
  method BuildSearchUrls(base: string, slug: string) returns (urls: seq<string>)
    ensures urls == SearchUrls(base, slug)
  {
    urls := [base + slug];
    var pageNumber := 50;
    var i := 0;
    ghost var pages := 0;
    while i < 10000
      invariant i == 50 * pages && pages <= EXTRA_PAGES
      invariant pageNumber == i + 50
      invariant |urls| == pages + 1 && urls[0] == base + slug
      invariant forall k :: 1 <= k < |urls| ==> urls[k] == PageUrl(base, slug, 50 * k + 1)
    {
      urls := urls + [PageUrl(base, slug, pageNumber + 1)];
      pageNumber := pageNumber + 50;
      i := i + 50;
      pages := pages + 1;
    }
    SearchUrlsUnique(base, slug, urls);
  }

  // ---------------------------------------------------------------------------
  // Properties
  // ---------------------------------------------------------------------------

  /**
    There are 201 URLs: the bare search first, and then page k (k = 1..200)
    starting at result 50k + 1, so the offsets run from 51 to 10001.
   */
  lemma SearchUrlsShape(base: string, slug: string)
    ensures var urls := SearchUrls(base, slug);
      && |urls| == 201
      && urls[0] == base + slug
      && (forall k :: 1 <= k <= 200 ==> urls[k] == PageUrl(base, slug, 50 * k + 1))
      && urls[1] == PageUrl(base, slug, 51)
      && urls[200] == PageUrl(base, slug, 10001)
  {
  }

  /** The list is determined by its shape: any 201 URLs laid out as above are the list. */
  lemma SearchUrlsUnique(base: string, slug: string, urls: seq<string>)
    requires |urls| == EXTRA_PAGES + 1 && urls[0] == base + slug
    requires forall k :: 1 <= k < |urls| ==> urls[k] == PageUrl(base, slug, 50 * k + 1)
    ensures urls == SearchUrls(base, slug)
  {
    var expected := SearchUrls(base, slug);
    SearchUrlsShape(base, slug);
    forall k | 0 <= k < |urls|
      ensures urls[k] == expected[k]
    {
    }
  }

  /** Every URL of the list extends the bare search URL. */
  lemma SearchUrlsExtendSearch(base: string, slug: string)
    ensures forall u :: u in SearchUrls(base, slug) ==> |base + slug| <= |u| && u[..|base + slug|] == base + slug
  {
    var urls := SearchUrls(base, slug);
    forall k | 0 < k < |urls|
      ensures |base + slug| <= |urls[k]| && urls[k][..|base + slug|] == base + slug
    {
      PageUrlExtendsSearch(base, slug, PAGE_SIZE * k + 1);
    }
  }

  lemma PageUrlExtendsSearch(base: string, slug: string, offset: nat)
    ensures |base + slug| < |PageUrl(base, slug, offset)|
    ensures PageUrl(base, slug, offset)[..|base + slug|] == base + slug
  {
    var rest := "_Desde_" + NatToString(offset) + "_NoIndex_True";
    assert PageUrl(base, slug, offset) == (base + slug) + rest;
  }

  /** Two page URLs of the same search are equal only when their offsets are. */
  lemma {:induction false} PageUrlInjective(base: string, slug: string, m: nat, n: nat)
    requires PageUrl(base, slug, m) == PageUrl(base, slug, n)
    ensures m == n
  {
    var p := base + slug + "_Desde_";
    var a, b := NatToString(m), NatToString(n);
    var sfx := "_NoIndex_True";
    assert PageUrl(base, slug, m) == p + (a + sfx);
    assert PageUrl(base, slug, n) == p + (b + sfx);
    CancelAffixes(p, a, b, sfx);
    NatToStringInjective(m, n);
  }

  /** Equal strings with the same prefix and suffix have equal middles. */
  lemma CancelAffixes(p: string, a: string, b: string, sfx: string)
    requires p + (a + sfx) == p + (b + sfx)
    ensures a == b
  {
    assert a + sfx == (p + (a + sfx))[|p|..];
    assert b + sfx == (p + (b + sfx))[|p|..];
    assert a == (a + sfx)[..|a|];
    assert b == (b + sfx)[..|b|];
  }

  /** No page is requested twice: the 201 URLs are pairwise distinct. */
  lemma SearchUrlsDistinct(base: string, slug: string)
    ensures var urls := SearchUrls(base, slug);
      forall j, k :: 0 <= j < k < |urls| ==> urls[j] != urls[k]
  {
    var urls := SearchUrls(base, slug);
    forall j, k | 0 <= j < k < |urls|
      ensures urls[j] != urls[k]
    {
      if j == 0 {
        PageUrlExtendsSearch(base, slug, PAGE_SIZE * k + 1);
      } else if urls[j] == urls[k] {
        PageUrlInjective(base, slug, PAGE_SIZE * j + 1, PAGE_SIZE * k + 1);
      }
    }
  }

  /** In Brasil, for the slug "fone-bluetooth", the second URL asks for the page starting at result 51. */
  lemma BrazilExample()
    ensures SearchUrls(BRAZIL, "fone-bluetooth")[0] == "https://lista.mercadolivre.com.br/fone-bluetooth"
    ensures SearchUrls(BRAZIL, "fone-bluetooth")[1]
         == "https://lista.mercadolivre.com.br/fone-bluetooth_Desde_51_NoIndex_True"
  {
    SearchUrlsShape(BRAZIL, "fone-bluetooth");
    BrazilSecondPage();
  }

  lemma BrazilSecondPage()
    ensures PageUrl(BRAZIL, "fone-bluetooth", 51)
         == "https://lista.mercadolivre.com.br/fone-bluetooth_Desde_51_NoIndex_True"
  {
    FirstOffset();
  }

  lemma FirstOffset()
    ensures NatToString(51) == "51"
  {
    assert NatToString(5) == "5";
  }

  /**
    The slug is the query with each space turned into "-" and every letter
    lower-cased: it has the query's length, no space, and lower-casing it
    again changes nothing.
   */
  lemma SlugShape(query: string)
    ensures var slug := Slugify(query);
      && |slug| == |query|
      && (forall i :: 0 <= i < |query| ==> slug[i] == (if query[i] == ' ' then '-' else LowerChar(query[i])))
      && ' ' !in slug
      && Lower(slug) == slug
  {
    ReplaceCharByChar(query, ' ', '-');
    var slug := Slugify(query);
    forall i | 0 <= i < |slug|
      ensures slug[i] != ' ' && LowerChar(slug[i]) == slug[i]
    {
    }
  }

  // ---------------------------------------------------------------------------
  // Walking the result pages
  // ---------------------------------------------------------------------------

  /** The fragment list each URL's page yields, the request and the parse being the function `fetch`. */
  function Pages<P>(urls: seq<string>, fetch: string -> seq<P>): seq<seq<P>>
  {
    if urls == [] then [] else [fetch(urls[0])] + Pages(urls[1..], fetch)
  }

  /** One page per URL, and page `i` is what URL `i` yields. */
  lemma {:induction false} PagesAt<P>(urls: seq<string>, fetch: string -> seq<P>)
    ensures |Pages(urls, fetch)| == |urls|
    ensures forall i :: 0 <= i < |urls| ==> Pages(urls, fetch)[i] == fetch(urls[i])
  {
    if urls != [] {
      PagesAt(urls[1..], fetch);
    }
  }

  /**
    The fragments the page loop visits: those of every page, in page order
    and then fragment order, up to the first page that has none.
   */
  function Listed<P>(pages: seq<seq<P>>): seq<P>
  {
    if pages == [] || pages[0] == [] then [] else pages[0] + Listed(pages[1..])
  }

  /** Visiting one more non-empty page appends its fragments. */
  lemma {:induction false} ListedAppend<P>(pages: seq<seq<P>>, page: seq<P>)
    requires forall j :: 0 <= j < |pages| ==> pages[j] != []
    requires page != []
    ensures Listed(pages + [page]) == Listed(pages) + page
  {
    if pages == [] {
      assert [page][1..] == [];
      assert pages + [page] == [page];
    } else {
      assert (pages + [page])[1..] == pages[1..] + [page];
      ListedAppend(pages[1..], page);
      assert pages[0] + (Listed(pages[1..]) + page) == pages[0] + Listed(pages[1..]) + page;
    }
  }

  /** The walk stops at the first empty page: nothing on or after it is visited. */
  lemma {:induction false} ListedStops<P>(pages: seq<seq<P>>, j: nat)
    requires j < |pages| && pages[j] == []
    ensures Listed(pages) == Listed(pages[..j])
  {
    if j > 0 && pages[0] != [] {
      assert pages[1..][j - 1] == [];
      ListedStops(pages[1..], j - 1);
      assert pages[1..][..j - 1] == pages[..j][1..];
    }
  }

  /** Every visited fragment is on some page that the walk reached, all pages up to it being non-empty. */
  lemma {:induction false} ListedFrom<P>(pages: seq<seq<P>>, x: P)
    requires x in Listed(pages)
    ensures exists j :: 0 <= j < |pages| && x in pages[j] && forall k :: 0 <= k <= j ==> pages[k] != []
  {
    if x !in pages[0] {
      ListedFrom(pages[1..], x);
      var j :| 0 <= j < |pages[1..]| && x in pages[1..][j] && forall k :: 0 <= k <= j ==> pages[1..][k] != [];
      assert x in pages[j + 1];
      forall k | 0 <= k <= j + 1
        ensures pages[k] != []
      {
        if k > 0 { assert pages[k] == pages[1..][k - 1]; }
      }
    }
  }

  /** Before the first empty page the walk splits at any page boundary. */
  lemma {:induction false} ListedSplit<P>(pages: seq<seq<P>>, n: nat)
    requires n <= |pages|
    requires forall j :: 0 <= j < n ==> pages[j] != []
    ensures Listed(pages) == Listed(pages[..n]) + Listed(pages[n..])
  {
    if n > 0 {
      assert pages[1..][..n - 1] == pages[..n][1..];
      assert pages[1..][n - 1..] == pages[n..];
      ListedSplit(pages[1..], n - 1);
      assert pages[0] + (Listed(pages[..n][1..]) + Listed(pages[n..]))
          == pages[0] + Listed(pages[..n][1..]) + Listed(pages[n..]);
    } else {
      assert pages[..0] == [] && pages[0..] == pages;
    }
  }
}
