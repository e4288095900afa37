/**
 * `extract_product_info_from_compari` once the product page is rendered:
 * the `ProductInfo` record, the noise filter over the price captures, the
 * minimum and maximum, and the offer count with its fallback.
 */
module Extractor {
  import opened Wrappers
  import opened Strings
  import opened PriceParser

  /** The default of the `currency` field. */
  const DEFAULT_CURRENCY := "RON"
  /** Parsed amounts at or below this are treated as noise. */
  const NOISE_LIMIT: real := 10.0

  /** One product's findings, as the `ProductInfo` dataclass (amounts exact). */
  datatype ProductInfo = ProductInfo(
    query: string,
    name: string,
    minPrice: real,
    maxPrice: real,
    offers: nat,
    url: string,
    currency: string)

  /**
   * What the browser yields on the product page: the `<h1>` text (`None` when
   * the wait for it timed out), the numeric captures of the price regex in
   * page order, and the number in front of the first "oferte"/"ofertă", if any.
   */
  datatype PageView = PageView(heading: Option<string>, captures: seq<string>, offerCount: Option<nat>)

  /** A capture parses and is above the noise limit. */
  predicate Survives(capture: string) {
    ParsePrice(capture).Ok? && ParsePrice(capture).value > NOISE_LIMIT
  }

  /** The amounts of the surviving captures, in capture order. */
  function Survivors(captures: seq<string>): seq<real> {
    if |captures| == 0 then []
    else
      var last := captures[|captures| - 1];
      Survivors(captures[..|captures| - 1]) + if Survives(last) then [ParsePrice(last).value] else []
  }

  /**
   * The surviving amounts are exactly the parsed amounts above the noise
   * limit: every one of them comes from some capture, and no surviving
   * capture is lost; there are none exactly when no capture survives.
   */
  lemma {:induction false} SurvivorsFacts(captures: seq<string>)
    ensures |Survivors(captures)| <= |captures|
    ensures forall v :: v in Survivors(captures) ==>
              v > NOISE_LIMIT && exists c :: c in captures && ParsePrice(c) == Ok(v)
    ensures forall c :: c in captures && Survives(c) ==> ParsePrice(c).value in Survivors(captures)
    ensures |Survivors(captures)| == 0 <==> forall c :: c in captures ==> !Survives(c)
  {
    if |captures| > 0 {
      var init, last := captures[..|captures| - 1], captures[|captures| - 1];
      assert captures == init + [last];
      SurvivorsFacts(init);
    }
  }

  /** Filtering is capture by capture, so it keeps the order of the captures. */
  lemma {:induction false} SurvivorsAppend(a: seq<string>, b: seq<string>)
    ensures Survivors(a + b) == Survivors(a) + Survivors(b)
    decreases |b|
  {
    if |b| == 0 {
      assert a + b == a;
    } else {
      var b' := b[..|b| - 1];
      assert (a + b)[..|a + b| - 1] == a + b';
      assert (a + b)[|a + b| - 1] == b[|b| - 1];
      SurvivorsAppend(a, b');
    }
  }

  /** One more capture adds its amount at the end when it survives, and nothing otherwise. */
  lemma SurvivorsSnoc(captures: seq<string>, i: nat)
    requires i < |captures|
    ensures Survivors(captures[..i + 1]) ==
              Survivors(captures[..i]) + if Survives(captures[i]) then [ParsePrice(captures[i]).value] else []
  {
    assert captures[..i + 1][..i] == captures[..i];
  }

  /** `min(prices)`. */
  function Min(prices: seq<real>): (m: real)
    requires |prices| > 0
    ensures m in prices && forall v :: v in prices ==> m <= v
  {
    if |prices| == 1 then prices[0]
    else
      var rest := Min(prices[1..]);
      assert forall v :: v in prices ==> v == prices[0] || v in prices[1..];
      if prices[0] <= rest then prices[0] else rest
  }

  /** `max(prices)`. */
  function Max(prices: seq<real>): (m: real)
    requires |prices| > 0
    ensures m in prices && forall v :: v in prices ==> v <= m
  {
    if |prices| == 1 then prices[0]
    else
      var rest := Max(prices[1..]);
      assert forall v :: v in prices ==> v == prices[0] || v in prices[1..];
      if prices[0] >= rest then prices[0] else rest
  }

  /** The product name: the stripped heading, or the query when there was none. */
  function NameOf(query: string, heading: Option<string>): string {
    match heading
    case Some(h) => Strip(h)
    case None => query
  }

  /**
   * The record the page yields: none when no capture survives; otherwise the
   * extremes of the surviving amounts and the matched offer count, or the
   * number of surviving amounts when nothing matched.
   */
  function Extract(query: string, url: string, page: PageView): (r: Option<ProductInfo>)
    ensures r.None? <==> forall c :: c in page.captures ==> !Survives(c)
    ensures r.Some? ==>
              && r.value.query == query && r.value.url == url
              && r.value.name == NameOf(query, page.heading)
              && r.value.currency == DEFAULT_CURRENCY
              && r.value.minPrice in Survivors(page.captures)
              && r.value.maxPrice in Survivors(page.captures)
              && NOISE_LIMIT < r.value.minPrice <= r.value.maxPrice
              && (forall v :: v in Survivors(page.captures) ==> r.value.minPrice <= v <= r.value.maxPrice)
              && r.value.offers == page.offerCount.GetOr(|Survivors(page.captures)|)
  {
    var prices := Survivors(page.captures);
    SurvivorsFacts(page.captures);
    if |prices| == 0 then None
    else
      Some(ProductInfo(
        query := query,
        name := NameOf(query, page.heading),
        minPrice := Min(prices),
        maxPrice := Max(prices),
        offers := page.offerCount.GetOr(|prices|),
        url := url,
        currency := DEFAULT_CURRENCY))
  }

  /**
   * The extraction: parse every capture, skip the ones that fail to parse,
   * keep the amounts above the noise limit, and build the record from them.
   */
  method ExtractProductInfo(query: string, url: string, page: PageView) returns (info: Option<ProductInfo>)
    ensures info == Extract(query, url, page)
  {
    var name := if page.heading.Some? then Strip(page.heading.value) else query;
    var parsedPrices: seq<real> := [];
    for i := 0 to |page.captures|
      invariant parsedPrices == Survivors(page.captures[..i])
    {
      var capture := page.captures[i];
      SurvivorsSnoc(page.captures, i);
      match ParsePrice(capture)
      case Ok(val) =>
        if val > NOISE_LIMIT {
          parsedPrices := parsedPrices + [val];
        }
      case Err(_) =>
    }
    assert page.captures[..|page.captures|] == page.captures;
    assert parsedPrices == Survivors(page.captures);
    if |parsedPrices| == 0 {
      return None;
    }
    var minPrice := Min(parsedPrices);
    var maxPrice := Max(parsedPrices);
    var offers := if page.offerCount.Some? then page.offerCount.value else |parsedPrices|;
    return Some(ProductInfo(query, name, minPrice, maxPrice, offers, url, DEFAULT_CURRENCY));
  }
}
