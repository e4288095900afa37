/**
 * Concrete inputs: the examples of the `parse_price` docstring, the
 * two-tier link choice, and one query crawled end to end.
 */
module Scenarios {
  import opened Wrappers
  import opened Strings
  import opened PriceParser
  import opened Locator
  import opened Extractor
  import opened Crawler

  lemma MantissaSnoc(s: string, d: char)
    requires AllDigits(s) && IsDigit(d)
    ensures AllDigits(s + [d]) && Mantissa(s + [d]) == Mantissa(s) * 10 + DigitValue(d)
  {
    assert (s + [d])[..|s|] == s;
  }

  /** Reading a decimal literal as a quotient. */
  lemma Quotient(m: nat, p: nat, v: real)
    requires p > 0 && v * p as real == m as real
    ensures m as real / p as real == v
  {
  }

  /** A text whose first `k` characters are price characters and the rest are not cleans to its prefix. */
  lemma CleanPrefix(text: string, k: nat)
    requires k <= |text|
    requires AllPriceChars(text[..k])
    requires forall c :: c in text[k..] ==> !IsPriceChar(c)
    ensures Clean(text) == text[..k]
  {
    assert text == text[..k] + text[k..];
    CleanAppend(text[..k], text[k..]);
    CleanKeeps(text[..k]);
    CleanNone(text[k..]);
  }

  /** A dot-free text with its only comma at `k` splits around that comma. */
  lemma CommaPieces(s: string, k: nat) returns (a: string, b: string)
    requires k < |s| && s[k] == ',' && '.' !in s
    requires forall i :: 0 <= i < |s| && i != k ==> s[i] != ','
    ensures RemoveAll(s, '.') == a + [','] + b && ',' !in a && ',' !in b
    ensures a + b == s[..k] + s[k + 1..] && |b| == |s| - k - 1
  {
    RemoveAbsent(s, '.');
    a, b := s[..k], s[k + 1..];
    assert s == a + [','] + b;
  }

  /** "3.569,90 RON" gives 3569.90: the dot groups thousands, the comma marks the decimals. */
  lemma ThousandsAndDecimals(text: string)
    requires text == "3.569,90 RON"
    ensures ParsePrice(text) == Ok(3569.9)
  {
    CleanThousands(text);
    var a, b := ThousandsPieces(Clean(text));
    Amount356990();
    CommaValue(text, a, b);
  }

  lemma CleanThousands(text: string)
    requires text == "3.569,90 RON"
    ensures Clean(text) == "3.569,90"
  {
    assert text[..8] == "3.569,90";
    assert text[8..] == [' ', 'R', 'O', 'N'];
    CleanPrefix(text, 8);
  }

  lemma ThousandsPieces(s: string) returns (a: string, b: string)
    requires s == "3.569,90"
    ensures RemoveAll(s, '.') == a + [','] + b && ',' !in a && ',' !in b
    ensures a + b == "356990" && |b| == 2
  {
    assert s == "3" + ['.'] + "569,90";
    RemoveOne("3", "569,90", '.');
    a, b := "3569", "90";
  }

  lemma Amount356990()
    ensures AllDigits("356990") && Mantissa("356990") as real / Pow10(2) as real == 3569.9
  {
    MantissaSnoc("", '3'); assert "" + ['3'] == "3";
    MantissaSnoc("3", '5'); assert "3" + ['5'] == "35";
    MantissaSnoc("35", '6'); assert "35" + ['6'] == "356";
    MantissaSnoc("356", '9'); assert "356" + ['9'] == "3569";
    MantissaSnoc("3569", '9'); assert "3569" + ['9'] == "35699";
    MantissaSnoc("35699", '0'); assert "35699" + ['0'] == "356990";
    assert Pow10(2) == 100 by {
      assert Pow10(1) == 10;
    }
    Quotient(Mantissa("356990"), Pow10(2), 3569.9);
  }

  /** "2 799,00 lei" gives 2799.00: the space and the word are dropped, the comma marks the decimals. */
  lemma SpacedThousands(text: string)
    requires text == "2 799,00 lei"
    ensures ParsePrice(text) == Ok(2799.0)
  {
    CleanSpaced(text);
    var a, b := SpacedPieces(Clean(text));
    Amount279900();
    CommaValue(text, a, b);
  }

  lemma CleanSpaced(text: string)
    requires text == "2 799,00 lei"
    ensures Clean(text) == "2799,00"
  {
    assert text == "2" + [' '] + "799,00" + [' ', 'l', 'e', 'i'];
    CleanGaps("2", [' '], "799,00", [' ', 'l', 'e', 'i']);
    assert "2" + "799,00" == "2799,00";
  }

  /** Text, filler, text, filler cleans to the two texts joined. */
  lemma CleanGaps(a: string, b: string, c: string, d: string)
    requires AllPriceChars(a) && AllPriceChars(c)
    requires forall x :: x in b + d ==> !IsPriceChar(x)
    ensures Clean(a + b + c + d) == a + c
  {
    assert forall x :: x in b ==> x in b + d;
    assert forall x :: x in d ==> x in b + d;
    CleanAppend(a + b + c, d);
    CleanAppend(a + b, c);
    CleanAppend(a, b);
    CleanKeeps(a);
    CleanNone(b);
    CleanKeeps(c);
    CleanNone(d);
    assert a + [] == a && a + c + [] == a + c;
  }

  lemma SpacedPieces(s: string) returns (a: string, b: string)
    requires s == "2799,00"
    ensures RemoveAll(s, '.') == a + [','] + b && ',' !in a && ',' !in b
    ensures a + b == "279900" && |b| == 2
  {
    a, b := CommaPieces(s, 4);
  }

  lemma Amount279900()
    ensures AllDigits("279900") && Mantissa("279900") as real / Pow10(2) as real == 2799.0
  {
    MantissaSnoc("", '2'); assert "" + ['2'] == "2";
    MantissaSnoc("2", '7'); assert "2" + ['7'] == "27";
    MantissaSnoc("27", '9'); assert "27" + ['9'] == "279";
    MantissaSnoc("279", '9'); assert "279" + ['9'] == "2799";
    MantissaSnoc("2799", '0'); assert "2799" + ['0'] == "27990";
    MantissaSnoc("27990", '0'); assert "27990" + ['0'] == "279900";
    assert Pow10(2) == 100 by {
      assert Pow10(1) == 10;
    }
    Quotient(Mantissa("279900"), Pow10(2), 2799.0);
  }

  /** "4,50 RON" gives 4.50: a lone comma is the decimal separator. */
  lemma CommaDecimals(text: string)
    requires text == "4,50 RON"
    ensures ParsePrice(text) == Ok(4.5)
  {
    assert text[..4] == "4,50";
    assert text[4..] == [' ', 'R', 'O', 'N'];
    CleanPrefix(text, 4);
    var a, b := DecimalPieces(Clean(text));
    Amount450();
    CommaValue(text, a, b);
  }

  lemma DecimalPieces(s: string) returns (a: string, b: string)
    requires s == "4,50"
    ensures RemoveAll(s, '.') == a + [','] + b && ',' !in a && ',' !in b
    ensures a + b == "450" && |b| == 2
  {
    a, b := CommaPieces(s, 1);
  }

  lemma Amount450()
    ensures AllDigits("450") && Mantissa("450") as real / Pow10(2) as real == 4.5
  {
    MantissaSnoc("", '4'); assert "" + ['4'] == "4";
    MantissaSnoc("4", '5'); assert "4" + ['5'] == "45";
    MantissaSnoc("45", '0'); assert "45" + ['0'] == "450";
    assert Pow10(2) == 100 by {
      assert Pow10(1) == 10;
    }
    Quotient(Mantissa("450"), Pow10(2), 4.5);
  }

  /** "1.234.567" gives 1234.567: with dots only, the last one is the decimal point. */
  lemma LastDotDecimal(text: string)
    requires text == "1.234.567"
    ensures ParsePrice(text) == Ok(1234.567)
  {
    var x, b := text[..5], text[6..];
    DottedPieces(text, x, b);
    DotsValue(text, x, b);
    Amount1234567();
  }

  lemma DottedPieces(text: string, x: string, b: string)
    requires text == "1.234.567" && x == text[..5] && b == text[6..]
    ensures Clean(text) == x + ['.'] + b
    ensures ',' !in Clean(text) && '.' !in b && '.' in x
    ensures RemoveAll(x, '.') + b == "1234567"
  {
    assert x == "1.234" && b == "567";
    DottedClean(text, x, b);
    DottedDigits(x, b);
  }

  lemma DottedClean(text: string, x: string, b: string)
    requires text == "1.234.567" && x == "1.234" && b == "567"
    ensures Clean(text) == x + ['.'] + b
    ensures ',' !in Clean(text) && '.' !in b && '.' in x
  {
    assert text == x + ['.'] + b;
    assert AllPriceChars(text) && ',' !in text by {
      assert text == ['1', '.', '2', '3', '4', '.', '5', '6', '7'];
    }
    CleanKeeps(text);
    assert x[1] == '.';
  }

  lemma DottedDigits(x: string, b: string)
    requires x == "1.234" && b == "567"
    ensures RemoveAll(x, '.') + b == "1234567"
  {
    RemoveThousand(x);
    assert "1234" + b == "1234567";
  }

  lemma RemoveThousand(s: string)
    requires s == "1.234"
    ensures RemoveAll(s, '.') == "1234"
  {
    assert s == "1" + ['.'] + "234";
    RemoveOne("1", "234", '.');
  }

  lemma Amount1234567()
    ensures AllDigits("1234567") && Mantissa("1234567") as real / Pow10(3) as real == 1234.567
  {
    MantissaSnoc("", '1'); assert "" + ['1'] == "1";
    MantissaSnoc("1", '2'); assert "1" + ['2'] == "12";
    MantissaSnoc("12", '3'); assert "12" + ['3'] == "123";
    MantissaSnoc("123", '4'); assert "123" + ['4'] == "1234";
    MantissaSnoc("1234", '5'); assert "1234" + ['5'] == "12345";
    MantissaSnoc("12345", '6'); assert "12345" + ['6'] == "123456";
    MantissaSnoc("123456", '7'); assert "123456" + ['7'] == "1234567";
    assert Pow10(3) == 1000 by {
      assert Pow10(1) == 10;
      assert Pow10(2) == 100;
    }
    Quotient(Mantissa("1234567"), Pow10(3), 1234.567);
  }

  /** "1,2,3" is refused: every comma becomes a dot, and "1.2.3" is not a number. */
  lemma TwoCommasRefused(text: string)
    requires text == "1,2,3"
    ensures ParsePrice(text) == Err(NotANumber)
  {
    CleanKeeps(text);
    assert ',' in text by { assert text[1] == ','; }
    CommaSucceeds(text);
    TwoCommas(text);
  }

  lemma TwoCommas(s: string)
    requires s == "1,2,3"
    ensures Count(s, ',') == 2
  {
    assert s == "1," + "2,3";
    CountAppend("1,", "2,3", ',');
    assert "1,"[1..] == [','];
    assert "2,3"[1..] == ",3";
    assert ",3"[1..] == "3";
  }

  /** An empty text and a text without digits or separators are refused for different reasons. */
  lemma Refusals(empty: string, word: string)
    requires empty == "" && word == "RON"
    ensures ParsePrice(empty) == Err(EmptyPrice)
    ensures ParsePrice(word) == Err(NoDigits)
  {
    assert word == ['R', 'O', 'N'];
    CleanNone(word);
  }

  /** A missing `href` is no link of the site. */
  lemma NoHrefNoLink()
    ensures !IsSiteLink(Href(None)) && !IsProductLink(Href(None))
  {
  }

  /** A domain-only link ahead of a product page loses to it. */
  lemma ProductLinkWins(site: string, product: string)
    requires IsSiteLink(site) && !IsProductLink(site) && IsProductLink(product)
    ensures SelectCandidate([Some(site), None, Some(product)]) == Some(product)
  {
    NoHrefNoLink();
    assert IsFirst([Some(site), None, Some(product)], 2, IsProductLink);
  }

  /** Without product pages, the first link of the site is taken. */
  lemma SiteLinkFallback(site: string, other: string)
    requires IsSiteLink(site) && !IsProductLink(site) && !IsSiteLink(other)
    ensures SelectCandidate([Some(other), None, Some(site)]) == Some(site)
  {
    NoHrefNoLink();
    var links := [Some(other), None, Some(site)];
    assert forall j :: 0 <= j < |links| ==> !IsProductLink(Href(links[j]));
    assert IsFirst(links, 2, IsSiteLink);
  }

  /**
   * One query crawled end to end: the search shows a single product page;
   * its two captures read 3569.90 and 4.50, the second of which is noise;
   * the heading timed out and the page announces seven offers.
   */
  lemma CrawlOneQuery(browser: Browser, query: string, product: string, high: string, low: string)
    requires IsProductLink(product)
    requires browser.searchResults(query) == Some([Some(product)])
    requires high == "3.569,90 RON" && low == "4,50 RON"
    requires browser.productPage(product) == PageView(None, [high, low], Some(7))
    ensures Crawl(browser, query) == Some(ProductInfo(query, query, 3569.9, 3569.9, 7, product, DEFAULT_CURRENCY))
  {
    assert IsFirst([Some(product)], 0, IsProductLink);
    assert CandidateUrl(browser, query) == Some(product);
    assert product != "";
    NoiseDropped(high, low);
  }

  /** Of the captures 3569.90 and 4.50, only the first survives the noise filter. */
  lemma NoiseDropped(high: string, low: string)
    requires high == "3.569,90 RON" && low == "4,50 RON"
    ensures Survivors([high, low]) == [3569.9]
  {
    ThousandsAndDecimals(high);
    CommaDecimals(low);
    var captures := [high, low];
    SurvivorsSnoc(captures, 0);
    SurvivorsSnoc(captures, 1);
    assert captures[..0] == [] && captures[..2] == captures;
  }

  /** A query that yields nothing is skipped, and the batch keeps the other's record. */
  lemma BatchSkipsFailure(browser: Browser, queries: seq<string>)
    requires |queries| == 2
    requires Crawl(browser, queries[0]).None? && Crawl(browser, queries[1]).Some?
    ensures Successes(browser, queries) == [Crawl(browser, queries[1]).value]
  {
    var first := queries[..1];
    assert first[..0] == [];
    assert Successes(browser, first) == [];
    assert queries[..|queries| - 1] == first;
  }
}
