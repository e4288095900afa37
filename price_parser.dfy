/**
 * `parse_price`: a free-form localized price text (such as "3.569,90 RON")
 * turned into an exact amount. Python's `float()` is modelled by `ToNumber`,
 * which gives the exact decimal value of the string it accepts.
 */
module PriceParser {
  import opened Wrappers
  import opened Strings

  /** The three ways `parse_price` raises `ValueError`. */
  datatype ParseError =
    | EmptyPrice   // the text is empty
    | NoDigits     // nothing is left after cleaning
    | NotANumber   // `float()` refuses the canonical string

  predicate IsDigit(c: char) {
    '0' <= c <= '9'
  }

  /** What the cleaning regex keeps: a digit, `.` or `,`. */
  predicate IsPriceChar(c: char) {
    IsDigit(c) || c == '.' || c == ','
  }

  predicate AllDigits(s: string) {
    forall c :: c in s ==> IsDigit(c)
  }

  predicate AllPriceChars(s: string) {
    forall c :: c in s ==> IsPriceChar(c)
  }

  /** The alphabet of a canonical amount: digits and `.`. */
  predicate DigitsAndDots(s: string) {
    forall c :: c in s ==> IsDigit(c) || c == '.'
  }

  function DigitValue(c: char): (d: nat)
    requires IsDigit(c)
    ensures d < 10
  {
    (c as int) - ('0' as int)
  }

  function Pow10(n: nat): (p: nat)
    ensures p >= 1
  {
    if n == 0 then 1 else 10 * Pow10(n - 1)
  }

  /** The integer a string of decimal digits denotes. */
  function Mantissa(s: string): nat
    requires AllDigits(s)
  {
    if |s| == 0 then 0 else Mantissa(s[..|s| - 1]) * 10 + DigitValue(s[|s| - 1])
  }

  /** Appending a digit to `m * p + n` shifts both parts one place. */
  lemma ShiftDigit(m: nat, p: nat, n: nat, d: nat)
    ensures (m * p + n) * 10 + d == m * (p * 10) + (n * 10 + d)
  {
  }

  /** Digit strings compose positionally: the digits of `b` are the low-order ones. */
  lemma {:induction false} MantissaAppend(a: string, b: string)
    requires AllDigits(a) && AllDigits(b)
    ensures Mantissa(a + b) == Mantissa(a) * Pow10(|b|) + Mantissa(b)
    decreases |b|
  {
    if |b| > 0 {
      var b', d := b[..|b| - 1], b[|b| - 1];
      assert AllDigits(b') by {
        forall c | c in b' ensures c in b { }
      }
      assert (a + b)[..|a + b| - 1] == a + b';
      assert (a + b)[|a + b| - 1] == d;
      MantissaAppend(a, b');
      assert Mantissa(a + b) == Mantissa(a + b') * 10 + DigitValue(d);
      assert Mantissa(b) == Mantissa(b') * 10 + DigitValue(d);
      assert Pow10(|b|) == Pow10(|b'|) * 10;
      ShiftDigit(Mantissa(a), Pow10(|b'|), Mantissa(b'), DigitValue(d));
    } else {
      assert a + b == a;
    }
  }

  /** `re.sub(r"[^\d.,]", "", text)`: keep digits, `.` and `,`, in order. */
  function Clean(s: string): (r: string)
    ensures AllPriceChars(r)
    ensures forall c :: IsPriceChar(c) ==> (c in r <==> c in s)
  {
    if |s| == 0 then [] else (if IsPriceChar(s[0]) then [s[0]] else []) + Clean(s[1..])
  }

  /** Cleaning works character by character: it distributes over concatenation. */
  lemma {:induction false} CleanAppend(a: string, b: string)
    ensures Clean(a + b) == Clean(a) + Clean(b)
  {
    if |a| > 0 {
      assert (a + b)[1..] == a[1..] + b;
      CleanAppend(a[1..], b);
    } else {
      assert a + b == b;
    }
  }

  /** Text made only of digits, `.` and `,` comes out of cleaning unchanged. */
  lemma {:induction false} CleanKeeps(s: string)
    requires AllPriceChars(s)
    ensures Clean(s) == s
  {
    if |s| > 0 {
      assert AllPriceChars(s[1..]) by {
        forall c | c in s[1..] ensures c in s { }
      }
      CleanKeeps(s[1..]);
      assert [s[0]] + s[1..] == s;
    }
  }

  /** Text with no digit, `.` or `,` cleans to nothing. */
  lemma {:induction false} CleanNone(s: string)
    requires forall c :: c in s ==> !IsPriceChar(c)
    ensures Clean(s) == []
  {
    if |s| > 0 {
      assert s[0] in s;
      assert forall c :: c in s[1..] ==> c in s;
      CleanNone(s[1..]);
    }
  }

  /** The digits of a cleaned text: both separators deleted. */
  function DigitsOf(clean: string): string {
    RemoveAll(RemoveAll(clean, '.'), ',')
  }

  /** The comma convention: dots deleted, every comma turned into a dot. */
  function CommaAsDecimal(clean: string): string {
    ReplaceAll(RemoveAll(clean, '.'), ',', '.')
  }

  /** Only dots, more than one: the pieces before the last dot joined, the last dot kept. */
  function KeepLastDot(clean: string): string {
    var parts := Split(clean, '.');
    Concat(parts[..|parts| - 1]) + ['.'] + parts[|parts| - 1]
  }

  /** The separator heuristic applied to the cleaned text. */
  function Normalise(clean: string): string {
    if '.' in clean && ',' in clean then CommaAsDecimal(clean)
    else if ',' in clean then CommaAsDecimal(clean)
    else if Count(clean, '.') > 1 then KeepLastDot(clean)
    else clean
  }

  /**
   * `float()` on a string of digits and dots: an integer, or digits with one
   * dot and at least one digit on either side of it ("12.", ".5", "1.25"),
   * read exactly as the digits scaled down by the number of digits after the dot.
   */
  function ToNumber(s: string): (r: Result<real, ParseError>)
    ensures r.Ok? ==> r.value >= 0.0
    ensures r.Err? ==> r.error == NotANumber
  {
    var parts := Split(s, '.');
    if |parts| == 1 && |parts[0]| > 0 && AllDigits(parts[0]) then
      Ok(Mantissa(parts[0]) as real)
    else if |parts| == 2 && |parts[0]| + |parts[1]| > 0 && AllDigits(parts[0] + parts[1]) then
      Ok(Mantissa(parts[0] + parts[1]) as real / Pow10(|parts[1]|) as real)
    else
      Err(NotANumber)
  }

  /** `parse_price`: the amount a price text denotes, or why it has none. */
  function ParsePrice(text: string): (r: Result<real, ParseError>)
    ensures r.Ok? ==> r.value >= 0.0
  {
    if |text| == 0 then Err(EmptyPrice)
    else
      var clean := Clean(text);
      if |clean| == 0 then Err(NoDigits)
      else ToNumber(Normalise(clean))
  }

  /**
   * The two refusals `parse_price` raises itself: an empty text, and a text
   * without any digit, `.` or `,`. Every other refusal is `float()`'s.
   */
  lemma ParsePriceRefusals(text: string)
    ensures ParsePrice(text) == Err(EmptyPrice) <==> |text| == 0
    ensures ParsePrice(text) == Err(NoDigits) <==>
              |text| > 0 && forall c :: c in text ==> !IsPriceChar(c)
  {
    var clean := Clean(text);
    if |text| > 0 && |clean| > 0 {
      assert clean[0] in clean;
    }
  }

  // ----------------------------------------------------------------------
  // float(): what it accepts and what it yields

  /** A digit string is read as the integer it denotes. */
  lemma IntegerValue(a: string)
    requires AllDigits(a) && |a| > 0
    ensures ToNumber(a) == Ok(Mantissa(a) as real)
  {
    SplitNoSep(a, '.');
  }

  /** Digits, one dot, digits: the mantissa of all digits scaled by the digits after the dot. */
  lemma DecimalValue(a: string, b: string)
    requires AllDigits(a + b) && |a| + |b| > 0
    ensures ToNumber(a + ['.'] + b) == Ok(Mantissa(a + b) as real / Pow10(|b|) as real)
  {
    assert '.' !in a && '.' !in b by {
      forall c | c in a ensures c in a + b { }
      forall c | c in b ensures c in a + b { }
    }
    SplitAt(a, b, '.');
    SplitNoSep(a, '.');
    SplitNoSep(b, '.');
  }

  /** On digits and dots, `float()` succeeds exactly when there is at most one dot and some digit. */
  lemma ToNumberAccepts(s: string)
    requires DigitsAndDots(s)
    ensures ToNumber(s).Ok? <==> Count(s, '.') <= 1 && |RemoveAll(s, '.')| > 0
  {
    var parts := Split(s, '.');
    ConcatSplit(s, '.');
    if Count(s, '.') == 0 {
      SplitNoSep(s, '.');
      RemoveAbsent(s, '.');
    } else if Count(s, '.') == 1 {
      assert Concat(parts) == parts[0] + parts[1] by {
        assert Concat(parts[1..]) == parts[1] + Concat(parts[2..]);
        assert parts[2..] == [];
      }
      forall c | c in parts[0] + parts[1] ensures IsDigit(c) {
        assert c in RemoveAll(s, '.');
      }
    }
  }

  // ----------------------------------------------------------------------
  // The separator heuristic

  /**
   * Collapsing dots: for any split of the text at its LAST dot, the result is
   * the digits before it with their dots deleted, one dot, then what followed.
   */
  lemma KeepLastDotAt(x: string, b: string)
    requires '.' !in b
    ensures KeepLastDot(x + ['.'] + b) == RemoveAll(x, '.') + ['.'] + b
  {
    var parts := Split(x + ['.'] + b, '.');
    SplitAt(x, b, '.');
    SplitNoSep(b, '.');
    ConcatSplit(x, '.');
    assert parts[..|parts| - 1] == Split(x, '.');
  }

  /** Every text with a dot has a last dot. */
  lemma LastOccurrence(s: string, c: char) returns (x: string, b: string)
    requires c in s
    ensures s == x + [c] + b && c !in b
  {
    var i := |s| - 1;
    while s[i] != c
      invariant 0 <= i < |s|
      decreases i
      invariant c in s[..i + 1]
      invariant c !in s[i + 1..]
    {
      assert s[..i + 1] == s[..i] + [s[i]];
      assert s[i..] == [s[i]] + s[i + 1..];
      i := i - 1;
    }
    x, b := s[..i], s[i + 1..];
    assert s == s[..i] + [s[i]] + s[i + 1..];
  }

  /** Collapsing keeps the digits, in order, and leaves exactly one dot. */
  lemma KeepLastDotShape(clean: string)
    requires '.' in clean
    ensures Count(KeepLastDot(clean), '.') == 1
    ensures RemoveAll(KeepLastDot(clean), '.') == RemoveAll(clean, '.')
  {
    var x, b := LastOccurrence(clean, '.');
    KeepLastDotAt(x, b);
    var rx := RemoveAll(x, '.');
    CountAppend(rx + ['.'], b, '.');
    CountAppend(rx, ['.'], '.');
    RemoveAllAppend(rx + ['.'], b, '.');
    RemoveAllAppend(rx, ['.'], '.');
    RemoveAllAppend(x + ['.'], b, '.');
    RemoveAllAppend(x, ['.'], '.');
    RemoveAbsent(rx, '.');
    RemoveAbsent(b, '.');
  }

  /**
   * The heuristic keeps the digits of the cleaned text in their order and
   * produces only digits and dots.
   */
  lemma NormaliseDigits(clean: string)
    requires AllPriceChars(clean)
    ensures DigitsAndDots(Normalise(clean))
    ensures RemoveAll(Normalise(clean), '.') == DigitsOf(clean)
  {
    var r := Normalise(clean);
    if ',' in clean {
      var t := RemoveAll(clean, '.');
      ReplaceThenRemove(t, ',', '.');
      forall c | c in r ensures IsDigit(c) || c == '.' {
        var i :| 0 <= i < |r| && r[i] == c;
        assert t[i] in t;
      }
    } else {
      RemoveAbsent(RemoveAll(clean, '.'), ',');
      if Count(clean, '.') > 1 {
        KeepLastDotShape(clean);
        forall c | c in r ensures IsDigit(c) || c == '.' {
          if c != '.' {
            assert c in RemoveAll(r, '.');
          }
        }
      }
    }
  }

  /**
   * With a comma present the comma convention applies: no dot survives as a
   * grouping mark, and the dots of the result are exactly the former commas.
   */
  lemma CommaConvention(clean: string)
    requires AllPriceChars(clean) && ',' in clean
    ensures Normalise(clean) == CommaAsDecimal(clean)
    ensures ',' !in Normalise(clean)
    ensures Count(Normalise(clean), '.') == Count(clean, ',')
    ensures RemoveAll(Normalise(clean), '.') == DigitsOf(clean)
  {
    var t := RemoveAll(clean, '.');
    ReplaceAllCount(t, ',', '.');
    RemoveAllCount(clean, '.', ',');
    NormaliseDigits(clean);
  }

  /** Text with no comma and at most one dot is already canonical. */
  lemma PlainUnchanged(clean: string)
    requires ',' !in clean && Count(clean, '.') <= 1
    ensures Normalise(clean) == clean
  {
  }

  /** The number of dots in the canonical string. */
  lemma NormaliseDots(clean: string)
    requires AllPriceChars(clean)
    ensures ',' in clean ==> Count(Normalise(clean), '.') == Count(clean, ',')
    ensures ',' !in clean ==> Count(Normalise(clean), '.') == if '.' in clean then 1 else 0
  {
    if ',' in clean {
      CommaConvention(clean);
    } else if Count(clean, '.') > 1 {
      KeepLastDotShape(clean);
    }
  }

  // ----------------------------------------------------------------------
  // parse_price

  /**
   * `parse_price` succeeds exactly on non-empty text whose canonical form has
   * at most one dot and whose cleaned form has a digit.
   */
  lemma ParsePriceSucceeds(text: string)
    ensures ParsePrice(text).Ok? <==>
      |text| > 0 && Count(Normalise(Clean(text)), '.') <= 1 && |DigitsOf(Clean(text))| > 0
  {
    var clean := Clean(text);
    NormaliseDigits(clean);
    ToNumberAccepts(Normalise(clean));
    if |clean| == 0 {
      assert DigitsOf(clean) == [];
    }
  }

  /** With a comma: success needs exactly one comma and a digit (so "1,2,3" is refused). */
  lemma CommaSucceeds(text: string)
    requires ',' in Clean(text)
    ensures ParsePrice(text).Ok? <==> Count(Clean(text), ',') == 1 && |DigitsOf(Clean(text))| > 0
  {
    ParsePriceSucceeds(text);
    CommaConvention(Clean(text));
  }

  /** Without a comma, the only way to fail is to have no digit at all. */
  lemma NoCommaSucceeds(text: string)
    requires |text| > 0 && ',' !in Clean(text)
    ensures ParsePrice(text).Ok? <==> |DigitsOf(Clean(text))| > 0
  {
    ParsePriceSucceeds(text);
    NormaliseDots(Clean(text));
  }

  /**
   * One comma: the dots are grouping marks and the comma is the decimal point,
   * so the amount is the digits read as an integer, scaled by the digits after the comma.
   */
  lemma CommaValue(text: string, a: string, b: string)
    requires |text| > 0
    requires RemoveAll(Clean(text), '.') == a + [','] + b
    requires ',' !in a && ',' !in b && |a| + |b| > 0
    ensures AllDigits(a + b)
    ensures ParsePrice(text) == Ok(Mantissa(a + b) as real / Pow10(|b|) as real)
  {
    var clean := Clean(text);
    var t := RemoveAll(clean, '.');
    assert ',' in t;
    forall c | c in a + b ensures IsDigit(c) {
      assert c in t;
    }
    ReplaceOne(a, b, ',', '.');
    DecimalValue(a, b);
  }

  /**
   * Only dots, several of them: the last dot is the decimal point and the
   * others are deleted; `b` is what follows the last dot.
   */
  lemma DotsValue(text: string, x: string, b: string)
    requires ',' !in Clean(text)
    requires Clean(text) == x + ['.'] + b && '.' !in b && '.' in x
    ensures Normalise(Clean(text)) == RemoveAll(x, '.') + ['.'] + b
    ensures AllDigits(RemoveAll(x, '.') + b)
    ensures |RemoveAll(x, '.')| + |b| > 0 ==>
      ParsePrice(text) == Ok(Mantissa(RemoveAll(x, '.') + b) as real / Pow10(|b|) as real)
  {
    var clean := Clean(text);
    var rx := RemoveAll(x, '.');
    CountAppend(x + ['.'], b, '.');
    CountAppend(x, ['.'], '.');
    KeepLastDotAt(x, b);
    forall c | c in rx + b ensures IsDigit(c) {
      if c in rx { assert c in x; }
      assert c in clean;
    }
    if |rx| + |b| > 0 {
      DecimalValue(rx, b);
    }
  }

  /**
   * The canonical string is a fixed point: cleaning and normalising it again
   * changes nothing, and parsing it yields the same amount.
   */
  lemma ParseCanonical(text: string)
    requires ParsePrice(text).Ok?
    ensures Clean(Normalise(Clean(text))) == Normalise(Clean(text))
    ensures Normalise(Normalise(Clean(text))) == Normalise(Clean(text))
    ensures ParsePrice(Normalise(Clean(text))) == ParsePrice(text)
  {
    var clean := Clean(text);
    var c := Normalise(clean);
    ParsePriceSucceeds(text);
    NormaliseDigits(clean);
    assert AllPriceChars(c);
    CleanKeeps(c);
    assert ',' !in c;
    PlainUnchanged(c);
  }
}
