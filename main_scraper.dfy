/**
  main.py: walks the search-result pages for a query and turns every listing
  fragment into a record inline. Nothing catches a failed lookup there, so a
  fragment that lacks a required element ends the whole run with an
  exception; `data` keeps the records appended before it.
 */
module MainScraper {
  import opened Text
  import opened Markup
  import opened Prices
  import opened Search

  /** The dictionary main.py builds for one fragment. */
  datatype MainRecord = MainRecord(
    title: string, pricePrevious: string, priceCurrent: string, discount: string,
    installments: string, adType: string, seller: string, postLink: string, imageLink: string)

  /** A record as the row the CSV export writes; the ad type's key is written "ad_type:" in the source. */
  function Row(r: MainRecord): map<string, string>
  {
    map["title" := r.title, "price_previous" := r.pricePrevious, "price_current" := r.priceCurrent,
        "discount" := r.discount, "installments" := r.installments, "ad_type:" := r.adType,
        "seller" := r.seller, "post link" := r.postLink, "image link" := r.imageLink]
  }

  const PREMIUM := "premium"
  const CLASSIC := "classic"

  /**
    The image link: `img["data-src"]`, and on any exception `img["src"]`,
    which raises in turn when it is missing or there is no image.
   */
  function ImageLink(image: Option<Element>): Option<string>
  {
    if image.None? then None
    else if "data-src" in image.value.attrs then Some(image.value.attrs["data-src"])
    else Attr(image.value, "src")
  }

  /**
    The body of the inner loop for one fragment: its record, or `None` where a
    lookup raises (no title, no previous price nor fraction, no current price,
    no anchor or no "href", no image or neither image attribute).
   */
  function ExtractPost(post: Post): Option<MainRecord>
  {
    if post.title.None? then None
    else
      var previous :=
        if post.previousPrice.Some? then Some(post.previousPrice.value.text)
        else if post.fraction.Some? then Some(post.fraction.value.text)
        else None;
      if previous.None? || post.currentPrice.None? || post.anchor.None? then None
      else
        match Attr(post.anchor.value, "href")
        case None => None
        case Some(link) =>
          match ImageLink(post.image)
          case None => None
          case Some(image) =>
            var positive := post.positiveInstallments;
            Some(MainRecord(
              title := post.title.value.text,
              pricePrevious := Normalize(previous.value),
              priceCurrent := Normalize(post.currentPrice.value.text),
              discount := StrippedTextOr(post.discount, "0%"),
              installments :=
                if positive.Some? then Strip(positive.value.text)
                else StrippedTextOr(post.primaryInstallments, "N/A"),
              adType := if positive.Some? then PREMIUM else CLASSIC,
              seller := StrippedTextOr(post.seller, "N/A"),
              postLink := link,
              imageLink := image))
  }

  /** The records of a run, and whether it ran to its end (`false`: an exception ended it). */
  datatype Run<R> = Run(records: seq<R>, completed: bool)

  /**
    Handling the fragments `posts` in order with `extract`: one record each,
    up to the first fragment on which `extract` raises (`None`).
   */
  function Walk<P, R>(posts: seq<P>, extract: P -> Option<R>): Run<R>
  {
    if posts == [] then Run([], true)
    else
      match extract(posts[0])
      case None => Run([], false)
      case Some(r) =>
        var rest := Walk(posts[1..], extract);
        Run([r] + rest.records, rest.completed)
  }

  class Scraper {
    /** The base URL the country menu set. */
    var baseUrl: string
    /** The records collected by the last `scraping` call. */
    var data: seq<MainRecord>

    constructor (baseUrl: string)
      ensures this.baseUrl == baseUrl && data == []
    {
      this.baseUrl := baseUrl;
      data := [];
    }

    /**
      `scraping`: build the 201 URLs for `query`, request them in order, stop
      at the first page without fragments, and append one record per
      fragment, counting them in `c` from 1. `completed` is false when a
      fragment raised, which ends the call with the records appended so far.
     */
    method Scraping(query: string, fetch: string -> seq<Post>) returns (completed: bool, c: nat)
      modifies this
      ensures baseUrl == old(baseUrl)
      ensures Run(data, completed) == Walk(Listed(Pages(SearchUrls(baseUrl, Slugify(query)), fetch)), ExtractPost)
      ensures c == |data| + 1
    {
      var slug := Slugify(query);
      var urls := BuildSearchUrls(baseUrl, slug);
      ghost var pages := Pages(urls, fetch);
      PagesAt(urls, fetch);
      data := [];
      c := 1;
      var i := 0;
      while i < |urls|
        invariant 0 <= i <= |urls|
        invariant baseUrl == old(baseUrl)
        invariant forall j :: 0 <= j < i ==> pages[j] != []
        invariant Run(data, true) == Walk(Listed(pages[..i]), ExtractPost)
        invariant c == |data| + 1
      {
        var content := fetch(urls[i]);
        if content == [] {
          ListedStops(pages, i);
          break;
        }
        assert pages[i] == content;
        var ok;
        ok, c := AppendPosts(content, ExtractPost, c);
        assert forall j :: 0 <= j < i + 1 ==> pages[j] != [];
        WalkStep(pages, i, ExtractPost);
        if !ok {
          WalkAbortsAt(pages, i, ExtractPost);
          return false, c;
        }
        i := i + 1;
      }
      if i == |urls| {
        assert pages[..i] == pages;
      }
      completed := true;
    }

    /**
      The inner loop of `scraping` over one page's fragments: append the
      record `extract` gives each one and count it, until a fragment raises
      (`ok` false). `scraping` passes the inline extraction of main.py.
     */
    method AppendPosts(content: seq<Post>, extract: Post -> Option<MainRecord>, c0: nat) returns (ok: bool, c: nat)
      modifies this
      ensures baseUrl == old(baseUrl)
      ensures data == old(data) + Walk(content, extract).records && ok == Walk(content, extract).completed
      ensures c == c0 + |Walk(content, extract).records|
    {
      c := c0;
      var k := 0;
      while k < |content|
        invariant 0 <= k <= |content|
        invariant baseUrl == old(baseUrl)
        invariant Walk(content[..k], extract).completed
        invariant data == old(data) + Walk(content[..k], extract).records
        invariant c == c0 + |Walk(content[..k], extract).records|
      {
        WalkPrefixStep(content, k, extract);
        var postData := extract(content[k]);
        if postData.None? {
          WalkAbortedPrefix(content, k + 1, extract);
          return false, c;
        }
        data := data + [postData.value];
        c := c + 1;
        k := k + 1;
      }
      assert content[..k] == content;
      ok := true;
    }
  }

  // ---------------------------------------------------------------------------
  // Properties
  // ---------------------------------------------------------------------------

  /** Running over two stretches of fragments: the second runs only if the first completed. */
  lemma {:induction false} WalkConcat<P, R>(a: seq<P>, b: seq<P>, extract: P -> Option<R>)
    ensures Walk(a + b, extract)
         == if Walk(a, extract).completed
            then Run(Walk(a, extract).records + Walk(b, extract).records, Walk(b, extract).completed)
            else Walk(a, extract)
  {
    if a == [] {
      assert a + b == b;
    } else {
      assert (a + b)[1..] == a[1..] + b;
      assert (a + b)[0] == a[0];
      if extract(a[0]).Some? {
        WalkConcat(a[1..], b, extract);
      }
    }
  }

  lemma WalkAppend<P, R>(posts: seq<P>, post: P, extract: P -> Option<R>)
    requires Walk(posts, extract).completed
    ensures Walk(posts + [post], extract).completed == extract(post).Some?
    ensures extract(post).Some? ==>
      Walk(posts + [post], extract).records == Walk(posts, extract).records + [extract(post).value]
    ensures extract(post).None? ==> Walk(posts + [post], extract).records == Walk(posts, extract).records
  {
    WalkConcat(posts, [post], extract);
    assert [post][1..] == [];
  }

  /** The inner loop's step: reading fragment `k` after the fragments before it. */
  lemma WalkPrefixStep<P, R>(posts: seq<P>, k: nat, extract: P -> Option<R>)
    requires k < |posts|
    requires Walk(posts[..k], extract).completed
    ensures Walk(posts[..k + 1], extract).completed == extract(posts[k]).Some?
    ensures Walk(posts[..k + 1], extract).records
         == Walk(posts[..k], extract).records + (if extract(posts[k]).Some? then [extract(posts[k]).value] else [])
  {
    assert posts[..k + 1] == posts[..k] + [posts[k]];
    WalkAppend(posts[..k], posts[k], extract);
  }

  /** Once a run has raised, the fragments after that point change nothing. */
  lemma WalkAbortedPrefix<P, R>(posts: seq<P>, n: nat, extract: P -> Option<R>)
    requires n <= |posts|
    requires !Walk(posts[..n], extract).completed
    ensures Walk(posts, extract) == Walk(posts[..n], extract)
  {
    assert posts == posts[..n] + posts[n..];
    WalkConcat(posts[..n], posts[n..], extract);
  }

  /** The outer loop's step over one more non-empty page. */
  lemma WalkStep<P, R>(pages: seq<seq<P>>, i: nat, extract: P -> Option<R>)
    requires i < |pages| && pages[i] != []
    requires forall j :: 0 <= j < i ==> pages[j] != []
    requires Walk(Listed(pages[..i]), extract).completed
    ensures Walk(Listed(pages[..i + 1]), extract)
         == Run(Walk(Listed(pages[..i]), extract).records + Walk(pages[i], extract).records,
                Walk(pages[i], extract).completed)
  {
    assert pages[..i + 1] == pages[..i] + [pages[i]];
    ListedAppend(pages[..i], pages[i]);
    WalkConcat(Listed(pages[..i]), pages[i], extract);
  }

  /** A run that raises on page `i` has the outcome of the pages up to `i`, whatever follows. */
  lemma WalkAbortsAt<P, R>(pages: seq<seq<P>>, i: nat, extract: P -> Option<R>)
    requires i < |pages|
    requires forall j :: 0 <= j < i + 1 ==> pages[j] != []
    requires !Walk(Listed(pages[..i + 1]), extract).completed
    ensures Walk(Listed(pages), extract) == Walk(Listed(pages[..i + 1]), extract)
  {
    ListedSplit(pages, i + 1);
    WalkConcat(Listed(pages[..i + 1]), Listed(pages[i + 1..]), extract);
  }

  /**
    A run that completes has exactly one record per fragment, in the
    fragments' order; it completes exactly when every fragment can be read.
   */
  lemma {:induction false} WalkCompleted<P, R>(posts: seq<P>, extract: P -> Option<R>)
    ensures Walk(posts, extract).completed <==> forall i :: 0 <= i < |posts| ==> extract(posts[i]).Some?
    ensures Walk(posts, extract).completed ==>
      |Walk(posts, extract).records| == |posts|
      && forall i :: 0 <= i < |posts| ==> Some(Walk(posts, extract).records[i]) == extract(posts[i])
  {
    if posts != [] {
      WalkCompleted(posts[1..], extract);
      var w := Walk(posts, extract);
      if extract(posts[0]).Some? {
        forall i | 0 < i < |posts|
          ensures extract(posts[i]) == extract(posts[1..][i - 1])
        {
        }
        if w.completed {
          forall i | 0 <= i < |posts|
            ensures Some(w.records[i]) == extract(posts[i])
          {
            if i > 0 { assert w.records[i] == Walk(posts[1..], extract).records[i - 1]; }
          }
        }
      }
    }
  }

  /**
    A run that raises stops at the first fragment that cannot be read: the
    records are those of the fragments before it, and the rest is not handled.
   */
  lemma {:induction false} WalkAborted<P, R>(posts: seq<P>, extract: P -> Option<R>)
    requires !Walk(posts, extract).completed
    ensures var k := |Walk(posts, extract).records|;
      && k < |posts|
      && extract(posts[k]).None?
      && forall i :: 0 <= i < k ==> Some(Walk(posts, extract).records[i]) == extract(posts[i])
  {
    var w := Walk(posts, extract);
    if extract(posts[0]).Some? {
      WalkAborted(posts[1..], extract);
      var k := |w.records|;
      assert posts[k] == posts[1..][k - 1];
      forall i | 0 <= i < k
        ensures Some(w.records[i]) == extract(posts[i])
      {
        if i > 0 { assert w.records[i] == Walk(posts[1..], extract).records[i - 1]; }
      }
    }
  }

  /**
    A fragment raises exactly when it lacks its title, both the previous
    price and the fraction, the current price, the anchor or its "href", or
    the image or both of its link attributes.
   */
  lemma ExtractPostDefined(post: Post)
    ensures ExtractPost(post).Some? <==>
      && post.title.Some?
      && (post.previousPrice.Some? || post.fraction.Some?)
      && post.currentPrice.Some?
      && post.anchor.Some? && "href" in post.anchor.value.attrs
      && post.image.Some? && ("data-src" in post.image.value.attrs || "src" in post.image.value.attrs)
  {
  }

  /** The row main.py builds has nine columns; the ad type's column is named "ad_type:", colon included. */
  lemma MainRowKeys(r: MainRecord)
    ensures Row(r).Keys == {"title", "price_previous", "price_current", "discount", "installments",
                            "ad_type:", "seller", "post link", "image link"}
    ensures "ad_type" !in Row(r) && Row(r)["ad_type:"] == r.adType
  {
  }

  /**
    The fields of a record: the raw title text, the stripped seller or
    "N/A", "premium" exactly with the positive-installments element, the
    installments from that element, else from the primary one, else "N/A",
    the image's "data-src" before its "src", the stripped discount or "0%",
    and normalised prices.
   */
  lemma PostFields(post: Post)
    requires ExtractPost(post).Some?
    ensures var r := ExtractPost(post).value;
      && r.title == post.title.value.text
      && r.seller == (if post.seller.Some? then Strip(post.seller.value.text) else "N/A")
      && (r.adType == PREMIUM <==> post.positiveInstallments.Some?)
      && (r.adType == CLASSIC <==> post.positiveInstallments.None?)
      && r.installments == (if post.positiveInstallments.Some? then Strip(post.positiveInstallments.value.text)
                            else if post.primaryInstallments.Some? then Strip(post.primaryInstallments.value.text)
                            else "N/A")
      && ("data-src" in post.image.value.attrs ==> r.imageLink == post.image.value.attrs["data-src"])
      && ("data-src" !in post.image.value.attrs ==> r.imageLink == post.image.value.attrs["src"])
      && r.discount == (if post.discount.Some? then Strip(post.discount.value.text) else "0%")
      && Normalize(r.pricePrevious) == r.pricePrevious
      && Normalize(r.priceCurrent) == r.priceCurrent
  {
    var previous := if post.previousPrice.Some? then post.previousPrice.value.text else post.fraction.value.text;
    NormalizeIdempotent(previous);
    NormalizeIdempotent(post.currentPrice.value.text);
  }
}
