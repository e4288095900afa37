/**
 * `crawl_product` and the accumulation loop of `main`. The browser is an
 * oracle: what the search page shows for a query, and what a product
 * page shows for a URL.
 */
module Crawler {
  import opened Wrappers
  import opened Locator
  import opened Extractor

  /**
   * The rendered web as the crawler sees it: the anchors of the search-results
   * page for a query (`None` when they did not load in time, each anchor's
   * `href` attribute possibly missing), and the product page at a URL.
   */
  datatype Browser = Browser(
    searchResults: string -> Option<seq<Option<string>>>,
    productPage: string -> PageView)

  /** The candidate URL for a query, if the search yields one. */
  function CandidateUrl(browser: Browser, query: string): Option<string> {
    var results := browser.searchResults(query);
    if results.None? then None else SelectCandidate(results.value)
  }

  /**
   * `crawl_product`: no record without a candidate URL; otherwise whatever
   * the candidate page yields. A record always names its own query, a URL of
   * the comparison site that the search offered, and ordered extremes. A
   * candidate is never empty, as it holds the site's name, so the emptiness
   * test of the source never discards one.
   */
  function Crawl(browser: Browser, query: string): (r: Option<ProductInfo>)
    ensures CandidateUrl(browser, query).None? ==> r.None?
    ensures r.Some? ==>
              && r.value.query == query
              && CandidateUrl(browser, query) == Some(r.value.url)
              && IsSiteLink(r.value.url)
              && Some(r.value.url) in browser.searchResults(query).value
              && r.value.minPrice <= r.value.maxPrice
    ensures r.Some? ==> r == Extract(query, r.value.url, browser.productPage(r.value.url))
    ensures CandidateUrl(browser, query).Some? ==>
              var url := CandidateUrl(browser, query).value;
              r == Extract(query, url, browser.productPage(url))
  {
    var url := CandidateUrl(browser, query);
    if url.None? || url.value == "" then None
    else Extract(query, url.value, browser.productPage(url.value))
  }

  /** `crawl_product`, calling the locator and the extractor in turn. */
  method CrawlProduct(browser: Browser, query: string) returns (product: Option<ProductInfo>)
    ensures product == Crawl(browser, query)
  {
    var compariUrl := FindCompariUrl(browser.searchResults(query));
    if compariUrl.None? || compariUrl.value == "" {
      return None;
    }
    product := ExtractProductInfo(query, compariUrl.value, browser.productPage(compariUrl.value));
  }

  /** The records of the queries that yield one, in query order. */
  function Successes(browser: Browser, queries: seq<string>): seq<ProductInfo> {
    if |queries| == 0 then []
    else
      var last := Crawl(browser, queries[|queries| - 1]);
      Successes(browser, queries[..|queries| - 1]) + if last.Some? then [last.value] else []
  }

  /**
   * The batch keeps what succeeds and nothing else: at most one record per
   * query, each the record of one of the queries, and every query that yields
   * a record contributes it.
   */
  lemma {:induction false} SuccessesFacts(browser: Browser, queries: seq<string>)
    ensures |Successes(browser, queries)| <= |queries|
    ensures forall p :: p in Successes(browser, queries) ==>
              p.query in queries && Crawl(browser, p.query) == Some(p)
    ensures forall q :: q in queries && Crawl(browser, q).Some? ==>
              Crawl(browser, q).value in Successes(browser, queries)
  {
    if |queries| > 0 {
      var init := queries[..|queries| - 1];
      assert queries == init + [queries[|queries| - 1]];
      SuccessesFacts(browser, init);
    }
  }

  /** The batch is built query by query, so its order is the order of the queries. */
  lemma {:induction false} SuccessesAppend(browser: Browser, a: seq<string>, b: seq<string>)
    ensures Successes(browser, a + b) == Successes(browser, a) + Successes(browser, b)
    decreases |b|
  {
    if |b| == 0 {
      assert a + b == a;
    } else {
      var b' := b[..|b| - 1];
      assert (a + b)[..|a + b| - 1] == a + b';
      assert (a + b)[|a + b| - 1] == b[|b| - 1];
      SuccessesAppend(browser, a, b');
    }
  }

  /**
   * The loop of `main`: crawl each query in order and append the record when
   * there is one. `writeOutput` is whether the results file is written, which
   * happens exactly when at least one record was collected.
   */
  method Run(browser: Browser, queries: seq<string>) returns (products: seq<ProductInfo>, writeOutput: bool)
    ensures products == Successes(browser, queries)
    ensures writeOutput <==> |products| > 0
  {
    products := [];
    for i := 0 to |queries|
      invariant products == Successes(browser, queries[..i])
    {
      assert queries[..i + 1][..i] == queries[..i];
      var product := CrawlProduct(browser, queries[i]);
      if product.Some? {
        products := products + [product.value];
      }
    }
    assert queries[..|queries|] == queries;
    writeOutput := |products| > 0;
  }
}
