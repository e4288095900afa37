# Product price crawler, modelled in Dafny

The crawler takes a list of product queries. For each query it searches the
web for a page on the price-comparison site compari.ro. It picks a
product-page link when one exists and falls back to any link of the site
otherwise. It opens that page, reads every price shown next to "lei" or
"RON", discards amounts of 10 or less as noise, and records the lowest and
highest price, the number of offers and the product's name. The records of
the queries that succeed are collected in query order and written out
when there is at least one.

This project models the deterministic core of that program:

- `wrappers.dfy` (module `Wrappers`): `Option` and `Result`.
- `strings.dfy` (module `Strings`): the Python string operations the core
  uses, for one-character arguments: `count`, `replace`, `split`, `"".join`,
  the substring test `in`, and `strip()`.
- `price_parser.dfy` (module `PriceParser`): `parse_price` as pure
  functions. This covers the cleaning regex, the three-way separator
  heuristic, and `float()` as a reader of decimal strings. Amounts are
  exact rationals (`real`).
- `locator.dfy` (module `Locator`): the link choice of
  `find_compari_url_via_google`. It is an imperative method with the two
  first-match loops of the source, proved against a reference function.
- `extractor.dfy` (module `Extractor`): the `ProductInfo` record and
  `extract_product_info_from_compari` once the page is rendered. It parses
  and filters the price captures in a loop, then takes the extremes and the
  offer count with its fallback.
- `crawler.dfy` (module `Crawler`): `crawl_product`, and the accumulation
  loop of `main`, as a method proved against a reference function.
- `scenarios.dfy` (module `Scenarios`): the docstring examples of
  `parse_price` and a few more concrete inputs, the two link tiers on small
  inputs, and one query crawled end to end.

The `ProductInfo` dataclass (lines 18-26) is the datatype
`Extractor.ProductInfo`. Its amounts are `real` and its offer count is a `nat`.

The browser is a value: `Crawler.Browser` gives the anchors of the search
page for a query and the rendered product page at a URL.

- A wait that times out is `None`.
- A product page is an `Extractor.PageView`, which holds the `<h1>` text,
  the numeric captures of the price regex in page order, and the number
  matched by the offer regex.

## Model

| member | source | states |
|---|---|---|
| Strings.Count | proiect_python/product_price_crawler.py:61 | the count is at most the length, and zero exactly when the character is absent |
| Strings.CountAppend | proiect_python/product_price_crawler.py:61 | counting distributes over concatenation |
| Strings.RemoveAll | proiect_python/product_price_crawler.py:55-58 | `replace(c, "")` leaves no `c` and keeps exactly the other characters that occur |
| Strings.RemoveAllAppend | proiect_python/product_price_crawler.py:55-58 | deletion distributes over concatenation |
| Strings.RemoveAbsent | proiect_python/product_price_crawler.py:55-58 | deleting an absent character is the identity |
| Strings.RemoveOne | proiect_python/product_price_crawler.py:55-58 | deleting the only occurrence joins the two sides |
| Strings.RemoveAllCount | proiect_python/product_price_crawler.py:55-58 | deleting one character keeps the count of every other one |
| Strings.ReplaceAll | proiect_python/product_price_crawler.py:55-58 | `replace(a, b)` keeps the length and replaces position by position |
| Strings.ReplaceAllCount | proiect_python/product_price_crawler.py:55-58 | after replacing `a` by `b` there is no `a`, and the `b`s are the old `b`s plus the old `a`s |
| Strings.ReplaceThenRemove | proiect_python/product_price_crawler.py:55-58 | when `b` is absent, replacing `a` by `b` and deleting `b` equals deleting `a` |
| Strings.ReplaceOne | proiect_python/product_price_crawler.py:55-58 | replacing the only occurrence changes just that position |
| Strings.Split | proiect_python/product_price_crawler.py:62 | `split(sep)` yields one more piece than there are separators, and no piece holds the separator |
| Strings.PrependAppend | proiect_python/product_price_crawler.py:62 | splitting the first character off commutes with appending later pieces |
| Strings.ConcatAppend | proiect_python/product_price_crawler.py:63 | `"".join` distributes over concatenation of the piece lists |
| Strings.ConcatSplit | proiect_python/product_price_crawler.py:62-63 | joining the pieces of a split deletes the separator (join is the inverse of split up to the separator) |
| Strings.SplitNoSep | proiect_python/product_price_crawler.py:62 | a string without the separator splits into itself alone |
| Strings.SplitAt | proiect_python/product_price_crawler.py:62 | splitting at a separator splits the two sides independently |
| Strings.Concat | proiect_python/product_price_crawler.py:63 | `"".join`, defined piece by piece; `ConcatAppend` and `ConcatSplit` give its laws |
| Strings.Contains | proiect_python/product_price_crawler.py:96 | the substring test `in`, defined by recursion on the haystack; `ContainsAt` shows it holds exactly when the needle sits at some offset |
| Strings.ContainsAt | proiect_python/product_price_crawler.py:96 | the substring test holds exactly when the needle sits at some offset |
| Strings.FirstNonSpace | proiect_python/product_price_crawler.py:131 | the index reached is the first non-whitespace position at or after the start, with only whitespace skipped |
| Strings.EndOfNonSpace | proiect_python/product_price_crawler.py:131 | the end reached is just after the last non-whitespace position, with only whitespace cut off |
| Strings.Strip | proiect_python/product_price_crawler.py:131 | the result is a slice of the input with only whitespace around it, and neither starts nor ends with whitespace |
| PriceParser.DigitValue | proiect_python/product_price_crawler.py:65 | a digit's value is below 10 |
| PriceParser.Pow10 | proiect_python/product_price_crawler.py:65 | a power of ten is positive |
| PriceParser.MantissaAppend | proiect_python/product_price_crawler.py:65 | digit strings compose positionally |
| PriceParser.Clean | proiect_python/product_price_crawler.py:48 | the cleaned text holds only digits, `.` and `,`, and keeps every one of them that occurs |
| PriceParser.CleanAppend | proiect_python/product_price_crawler.py:48 | cleaning works character by character, in order |
| PriceParser.CleanKeeps | proiect_python/product_price_crawler.py:48 | text made only of price characters is unchanged |
| PriceParser.CleanNone | proiect_python/product_price_crawler.py:48 | text with no price character cleans to nothing |
| PriceParser.ToNumber | proiect_python/product_price_crawler.py:65 | `float()` on the canonical string yields a non-negative amount, and its only refusal is `NotANumber` |
| PriceParser.IntegerValue | proiect_python/product_price_crawler.py:65 | a non-empty digit string reads as its integer |
| PriceParser.DecimalValue | proiect_python/product_price_crawler.py:65 | digits, a dot and digits read as mantissa over a power of ten |
| PriceParser.ToNumberAccepts | proiect_python/product_price_crawler.py:65 | on digits and dots, `float()` succeeds exactly when there is at most one dot and at least one digit |
| PriceParser.Mantissa | proiect_python/product_price_crawler.py:65 | the integer a digit string denotes, defined digit by digit; `MantissaAppend` gives positional composition and `IntegerValue`/`DecimalValue` tie it to `float()` |
| PriceParser.DigitsOf | proiect_python/product_price_crawler.py:55-58 | the digits of a cleaned text, in order; `NormaliseDigits` shows every branch keeps exactly them |
| PriceParser.CommaAsDecimal | proiect_python/product_price_crawler.py:55-58 | the comma branches' rewrite (delete dots, then commas to dots); `CommaConvention` states its effect |
| PriceParser.KeepLastDot | proiect_python/product_price_crawler.py:62-63 | the dots-only rewrite; `KeepLastDotAt` and `KeepLastDotShape` show it joins the pieces before the last dot and keeps exactly one dot and the same digits |
| PriceParser.Normalise | proiect_python/product_price_crawler.py:53-63 | the three-way heuristic; `NormaliseDigits`, `NormaliseDots`, `PlainUnchanged` and `ParseCanonical` state what each branch yields |
| PriceParser.ParsePrice | proiect_python/product_price_crawler.py:37-65 | a successful parse is a non-negative amount |
| PriceParser.ParsePriceRefusals | proiect_python/product_price_crawler.py:45-51 | the result is `EmptyPrice` exactly for the empty text, and `NoDigits` exactly for a non-empty text without any digit, `.` or `,`; every other refusal is `float()`'s |
| PriceParser.KeepLastDotAt | proiect_python/product_price_crawler.py:60-63 | the pieces before the last dot are joined, and the last dot and what follows are kept |
| PriceParser.LastOccurrence | proiect_python/product_price_crawler.py:60-63 | a string holding the character splits at its last occurrence |
| PriceParser.KeepLastDotShape | proiect_python/product_price_crawler.py:60-63 | the dots-only rewrite leaves exactly one dot and the same digits |
| PriceParser.NormaliseDigits | proiect_python/product_price_crawler.py:53-63 | every branch yields digits and dots only, with the digits of the cleaned text in order |
| PriceParser.CommaConvention | proiect_python/product_price_crawler.py:53-58 | with a comma present, both comma branches delete every dot and turn every comma into a dot: no comma is left, there is one dot per comma, and the digits are kept |
| PriceParser.PlainUnchanged | proiect_python/product_price_crawler.py:59-63 | no comma and at most one dot leaves the text as it is |
| PriceParser.NormaliseDots | proiect_python/product_price_crawler.py:53-63 | the canonical string has one dot per comma, or one dot when there were only dots, or none |
| PriceParser.ParsePriceSucceeds | proiect_python/product_price_crawler.py:37-65 | parsing succeeds exactly when the text is non-empty, the canonical string has at most one dot and there is at least one digit |
| PriceParser.CommaSucceeds | proiect_python/product_price_crawler.py:53-58 | with a comma, parsing succeeds exactly when there is one comma and at least one digit |
| PriceParser.NoCommaSucceeds | proiect_python/product_price_crawler.py:59-63 | without a comma, parsing succeeds exactly when there is a digit |
| PriceParser.CommaValue | proiect_python/product_price_crawler.py:53-58 | with a comma, the amount is the digits before and after the comma over the power of ten that the digits after it give |
| PriceParser.DotsValue | proiect_python/product_price_crawler.py:59-63 | with dots only, the last dot is the decimal point and the earlier dots are dropped |
| PriceParser.ParseCanonical | proiect_python/product_price_crawler.py:37-65 | the canonical string is a fixed point of cleaning and of the heuristic, and parsing it gives the same amount |
| Locator.Href | proiect_python/product_price_crawler.py:95 | a missing `href` reads as the empty string (also line 102); `Scenarios.NoHrefNoLink` shows it is then no link of the site |
| Locator.IsSiteLink | proiect_python/product_price_crawler.py:103 | the fallback test, "compari.ro" in the href; `SelectCandidate` and `FindCompariUrl` show the second loop picks the first link passing it |
| Locator.IsProductLink | proiect_python/product_price_crawler.py:96 | the product-page test, "compari.ro" and "-p" in the href; `SelectCandidate` and `FindCompariUrl` show the first loop picks the first link passing it |
| Locator.FirstIndex | proiect_python/product_price_crawler.py:94-98 | the index found is the first whose href satisfies the test; none found means no href does |
| Locator.SelectCandidate | proiect_python/product_price_crawler.py:93-108 | the first product-page link wins; without one, the first site link wins; nothing exactly when no link is of the site; a result is a site link among the anchors |
| Locator.FindCompariUrl | proiect_python/product_price_crawler.py:85-108 | a timed-out wait gives nothing; otherwise the two loops pick exactly `SelectCandidate` of the anchors |
| Extractor.Survives | proiect_python/product_price_crawler.py:146-149 | a capture parses and exceeds 10; `SurvivorsFacts` shows these are exactly the captures that contribute |
| Extractor.Survivors | proiect_python/product_price_crawler.py:144-151 | the filtered amounts in capture order; `SurvivorsFacts`, `SurvivorsAppend` and `SurvivorsSnoc` give its properties and `ExtractProductInfo`'s loop computes it |
| Extractor.SurvivorsFacts | proiect_python/product_price_crawler.py:144-153 | the surviving amounts are all above 10 and come from some capture; every surviving capture contributes; there are at most as many as captures; none exactly when no capture survives |
| Extractor.SurvivorsAppend | proiect_python/product_price_crawler.py:144-151 | filtering goes capture by capture, so it keeps their order |
| Extractor.SurvivorsSnoc | proiect_python/product_price_crawler.py:145-151 | extending a prefix of the captures by the next one appends that capture's amount when it survives, and nothing otherwise |
| Extractor.NameOf | proiect_python/product_price_crawler.py:127-133 | the stripped `<h1>` text, or the query when the wait timed out; `Extract` and `ExtractProductInfo` put it in the record |
| Extractor.Min | proiect_python/product_price_crawler.py:157 | `min` is a member and a lower bound |
| Extractor.Max | proiect_python/product_price_crawler.py:158 | `max` is a member and an upper bound |
| Extractor.Extract | proiect_python/product_price_crawler.py:126-177 | no record exactly when no capture survives; otherwise the record carries the query, the URL, the stripped heading or the query, "RON", a minimum and a maximum that are surviving amounts bounding all of them with 10 < min <= max, and the matched offer count or else the number of survivors |
| Extractor.ExtractProductInfo | proiect_python/product_price_crawler.py:126-177 | the loop over the captures and the record it builds are exactly `Extract` |
| Crawler.CandidateUrl | proiect_python/product_price_crawler.py:189 | the locator's answer for a query, `None` when the search page timed out; `Crawl` is stated in terms of it |
| Crawler.Crawl | proiect_python/product_price_crawler.py:180-194 | no candidate URL gives no record; a record names its own query and a site URL that the search offered, has min <= max, and is what the page at that URL yields; whenever a candidate URL is found, the result is exactly what the page at that URL yields |
| Crawler.CrawlProduct | proiect_python/product_price_crawler.py:180-194 | calling the locator and then the extractor is exactly `Crawl` |
| Crawler.Successes | proiect_python/product_price_crawler.py:207-213 | the records of the queries that yield one, in query order; `SuccessesFacts` and `SuccessesAppend` give its properties and `Run`'s loop computes it |
| Crawler.SuccessesFacts | proiect_python/product_price_crawler.py:207-213 | at most one record per query; each record is the crawl result of its own query, which is among the queries; every query that yields a record contributes it |
| Crawler.SuccessesAppend | proiect_python/product_price_crawler.py:207-213 | the batch of a concatenation of query lists is the concatenation of the batches, so records keep query order |
| Crawler.Run | proiect_python/product_price_crawler.py:207-229 | the loop collects exactly `Successes`, and the results file is written exactly when at least one record was collected |
| Scenarios.ThousandsAndDecimals | proiect_python/product_price_crawler.py:40 | "3.569,90 RON" parses to 3569.90 |
| Scenarios.SpacedThousands | proiect_python/product_price_crawler.py:41 | "2 799,00 lei" parses to 2799.00 |
| Scenarios.CommaDecimals | proiect_python/product_price_crawler.py:42 | "4,50 RON" parses to 4.50 |
| Scenarios.LastDotDecimal | proiect_python/product_price_crawler.py:59-63 | "1.234.567" parses to 1234.567: the last dot is the decimal point |
| Scenarios.TwoCommasRefused | proiect_python/product_price_crawler.py:53-65 | "1,2,3" is refused, because every comma becomes a dot |
| Scenarios.Refusals | proiect_python/product_price_crawler.py:45-51 | "" fails with `EmptyPrice` and "RON" fails with `NoDigits` |
| Scenarios.NoHrefNoLink | proiect_python/product_price_crawler.py:95 | a missing `href` is not a link of the site |
| Scenarios.ProductLinkWins | proiect_python/product_price_crawler.py:93-98 | a domain-only link ahead of a product link loses to it |
| Scenarios.SiteLinkFallback | proiect_python/product_price_crawler.py:100-105 | with no product link, the first site link is taken |
| Scenarios.CrawlOneQuery | proiect_python/product_price_crawler.py:180-194 | one search result that is a product page, with captures 3569.90 and 4.50 and seven offers announced, gives the record (query, query, 3569.90, 3569.90, 7, url, "RON") |
| Scenarios.NoiseDropped | proiect_python/product_price_crawler.py:145-151 | of the captures 3569.90 and 4.50, only the first survives the noise filter |
| Scenarios.BatchSkipsFailure | proiect_python/product_price_crawler.py:210-213 | a query without a record is skipped, and the other query's record is kept |

## Left out

- Selenium, the browser and the network are not modelled. Starting Chrome (`setup_driver`), loading pages, the 15-second waits, `driver.quit()` and the two-second pause between queries are outside the model. The browser is a parameter, `Crawler.Browser`, and a timeout is `None`.
- The `input()` pauses for captchas and logins, and all console output, are I/O and are left out.
- Building the search URL with `quote_plus` is left out. The query reaches the browser oracle as it is.
- The two regular expressions are not modelled. `Extractor.PageView` takes as inputs the numeric captures of the price pattern and the integer matched by the offer pattern.
- The fixed list of four queries in `main` is left out: `Crawler.Run` takes any list of queries.
- Crawler.Run: the loop of `main` sits in `try`/`finally` (lines 209-216) with no `except`. Any browser error other than the two caught timeouts (lines 87 and 132), for instance `find_element` failing on the `body` at line 136, ends `main` after `driver.quit()`: nothing is printed and `products.json` is not written. The model's `Browser` is total, so `Run` collects exactly `Successes` only for runs in which no such error occurs.
- Writing `products.json` is left out. `Crawler.Run` returns whether the file would be written.
- PriceParser.ParsePrice: amounts are exact rationals. Python's `float` rounding, and comparisons against 10 that rounding could tip, are not modelled.
- PriceParser.IsDigit: only the ASCII digits 0-9 count. Python's `\d` also matches other Unicode decimal digits.
- PriceParser.ToNumber: models `float()` only on strings of digits and dots, the only strings the heuristic yields. On those it accepts exactly the strings with at most one dot and at least one digit. Signs, exponents, `inf`, `nan`, underscores and surrounding whitespace cannot occur after cleaning, so they are not modelled.
- Strings.IsSpace: lists the code points `str.isspace()` accepts. It follows Python's tables, which may change between Python versions; no version's changes are modelled.
- When a comma is present, the separator heuristic deletes every dot and turns every comma into a dot (lines 55 and 58). It does not single out the last comma as the decimal separator. The model does the same, so a text with several commas is refused (`Scenarios.TwoCommasRefused`).
