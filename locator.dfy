/**
 * The link selection of `find_compari_url_via_google`: from the anchors of a
 * search-results page, pick the first product-page link of the comparison
 * site, else the first link of the site at all.
 */
module Locator {
  import opened Wrappers
  import opened Strings

  /** The comparison site's domain marker. */
  const SITE_MARKER := "compari.ro"
  /** The substring that marks a product detail page on that site. */
  const PRODUCT_MARKER := "-p"

  /** `a.get_attribute("href") or ""`: a missing attribute reads as the empty string. */
  function Href(attribute: Option<string>): string {
    attribute.GetOr("")
  }

  predicate IsSiteLink(href: string) {
    Contains(href, SITE_MARKER)
  }

  predicate IsProductLink(href: string) {
    Contains(href, SITE_MARKER) && Contains(href, PRODUCT_MARKER)
  }

  /** Anchor `i` is the first, in document order, whose href satisfies `p`. */
  predicate IsFirst(links: seq<Option<string>>, i: nat, p: string -> bool) {
    i < |links| && p(Href(links[i])) && forall j :: 0 <= j < i ==> !p(Href(links[j]))
  }

  /** The position of the first anchor whose href satisfies `p`, if any. */
  function FirstIndex(links: seq<Option<string>>, p: string -> bool): (r: Option<nat>)
    ensures r.Some? ==> IsFirst(links, r.value, p)
    ensures r.None? ==> forall j :: 0 <= j < |links| ==> !p(Href(links[j]))
  {
    if |links| == 0 then None
    else if p(Href(links[0])) then Some(0)
    else
      match FirstIndex(links[1..], p)
      case None => None
      case Some(k) => Some(k + 1)
  }

  /**
   * The two-tier choice: the first product-page link if there is one, else
   * the first link of the site, else nothing.
   */
  function SelectCandidate(links: seq<Option<string>>): (r: Option<string>)
    ensures forall i: nat :: IsFirst(links, i, IsProductLink) ==> r == Some(Href(links[i]))
    ensures (forall j :: 0 <= j < |links| ==> !IsProductLink(Href(links[j]))) ==>
              forall i: nat :: IsFirst(links, i, IsSiteLink) ==> r == Some(Href(links[i]))
    ensures r.None? <==> forall j :: 0 <= j < |links| ==> !IsSiteLink(Href(links[j]))
    ensures r.Some? ==> IsSiteLink(r.value) && Some(r.value) in links
  {
    match FirstIndex(links, IsProductLink)
    case Some(i) =>
      assert links[i] == Some(Href(links[i]));
      Some(Href(links[i]))
    case None =>
      match FirstIndex(links, IsSiteLink)
      case Some(i) =>
        assert links[i] == Some(Href(links[i]));
        Some(Href(links[i]))
      case None => None
  }

  /**
   * `find_compari_url_via_google` once the search page is rendered: `None`
   * for `results` stands for the wait for anchors timing out; otherwise two
   * first-match scans over the anchors, product pages first.
   */
  method FindCompariUrl(results: Option<seq<Option<string>>>) returns (url: Option<string>)
    ensures results.None? ==> url.None?
    ensures results.Some? ==> url == SelectCandidate(results.value)
  {
    if results.None? {
      return None;
    }
    var links := results.value;
    for i := 0 to |links|
      invariant forall j :: 0 <= j < i ==> !IsProductLink(Href(links[j]))
    {
      var href := Href(links[i]);
      if Contains(href, SITE_MARKER) && Contains(href, PRODUCT_MARKER) {
        assert IsFirst(links, i, IsProductLink);
        return Some(href);
      }
    }
    for i := 0 to |links|
      invariant forall j :: 0 <= j < i ==> !IsSiteLink(Href(links[j]))
    {
      var href := Href(links[i]);
      if Contains(href, SITE_MARKER) {
        assert IsFirst(links, i, IsSiteLink);
        return Some(href);
      }
    }
    return None;
  }
}
