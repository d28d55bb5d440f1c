/**
 * The field extractors of src/extractors.py, over a product page that has already been parsed
 * and flattened: the document keeps, in document order, exactly the elements each extractor
 * looks at.  What BeautifulSoup's selectors find, and what `get_text` returns for them, is
 * taken as given.
 */
module Extractors {
  import opened Wrappers
  import opened Text
  import opened Dicts
  import opened Helpers

  /**
   * What one `<script type="application/ld+json">` block yields.  A block that fails to parse,
   * is not a JSON object, has no "offers" key or has an `offers.price` that is missing or not a
   * number raises inside the `try` and is skipped: all of those are `Unusable`.  A block that
   * succeeds carries the integer `int(float(offers["price"]))` it converts to.
   */
  datatype LdBlock = Unusable | OfferPrice(price: int)

  /**
   * An `h2` or a `div` of the page, in document order.  A heading carries its `.string`, which
   * BeautifulSoup leaves `None` when the heading has more than one child; a division carries
   * `get_text(" ", strip=True)`.
   */
  datatype FlowElement = Heading2(str: Option<PyStr>) | Division(text: PyStr)

  /** A product page, as the extractors and the record assembly see it. */
  datatype Document = Document(
    ldBlocks: seq<LdBlock>,        // the JSON-LD scripts, in document order
    text: PyStr,                   // soup.get_text(" ", strip=True)
    h1Texts: seq<PyStr>,           // get_text(strip=True) of every h1
    gridRows: seq<seq<PyStr>>,     // per div.grid.grid-cols-2, the get_text(strip=True) of its direct div children
    flow: seq<FlowElement>,        // every h2 and div
    imageSources: seq<Option<PyStr>>)  // per img, its src attribute if it has one

  /** The position of the first element at or after `from` that satisfies `p`. */
  function FindFirst<T>(xs: seq<T>, from: nat, p: T -> bool): (r: Option<nat>)
    requires from <= |xs|
    ensures r.Some? ==> from <= r.value < |xs| && p(xs[r.value])
    ensures r.Some? ==> forall j :: from <= j < r.value ==> !p(xs[j])
    ensures r.None? ==> forall j :: from <= j < |xs| ==> !p(xs[j])
    decreases |xs| - from
  {
    if from == |xs| then None
    else if p(xs[from]) then Some(from)
    else FindFirst(xs, from + 1, p)
  }

  /** `FindFirst` finds the first element that satisfies `p`, whichever that is. */
  lemma FindFirstIs<T>(xs: seq<T>, from: nat, p: T -> bool, i: nat)
    requires from <= i < |xs| && p(xs[i])
    requires forall j :: from <= j < i ==> !p(xs[j])
    ensures FindFirst(xs, from, p) == Some(i)
  {
  }

  // ----- extract_price: the JSON-LD blocks -----

  predicate IsOfferPrice(b: LdBlock) {
    b.OfferPrice?
  }

  /** The price of the first usable JSON-LD block, if any. */
  function FirstOfferPrice(blocks: seq<LdBlock>): (r: Option<int>)
    ensures r.None? <==> forall i :: 0 <= i < |blocks| ==> !blocks[i].OfferPrice?
    ensures r.Some? ==> exists i :: 0 <= i < |blocks| && blocks[i] == OfferPrice(r.value) &&
                                   forall j :: 0 <= j < i ==> !blocks[j].OfferPrice?
  {
    match FindFirst(blocks, 0, IsOfferPrice)
    case None => None
    case Some(i) => Some(blocks[i].price)
  }

  // ----- extract_price: the text fallback -----

  /** The ruble sign `₽`. */
  const RUBLE: CodePoint := 0x20BD
  /** NARROW NO-BREAK SPACE, the thousands separator the page uses besides the plain space. */
  const NARROW_NBSP: CodePoint := 0x202F

  /** The class `[\d\s\u202f]`; U+202F is itself whitespace, so this is digits and whitespace. */
  predicate InPriceRun(c: CodePoint) {
    IsAsciiDigit(c) || IsSpace(c)
  }

  /** The end of the run of `[\d\s\u202f]` characters that starts at `j`. */
  function RunEnd(s: PyStr, j: nat): (e: nat)
    requires j <= |s|
    ensures j <= e <= |s|
    ensures forall k :: j <= k < e ==> InPriceRun(s[k])
    ensures e < |s| ==> !InPriceRun(s[e])
    decreases |s| - j
  {
    if j < |s| && InPriceRun(s[j]) then RunEnd(s, j + 1) else j
  }

  /**
   * The pattern `(\d[\d\s\u202f]+)\s*₽` matches at `i` with the group ending at `g` and the ruble
   * sign at `k`: a digit, at least one class character, whitespace, then `₽`.
   */
  predicate PatternAt(s: PyStr, i: nat, g: nat, k: nat) {
    i + 2 <= g <= k < |s| && IsAsciiDigit(s[i]) &&
    (forall j :: i < j < g ==> InPriceRun(s[j])) &&
    (forall j :: g <= j < k ==> IsSpace(s[j])) &&
    s[k] == RUBLE
  }

  /** The pattern matches at `i`: a digit, a run of two or more class characters, then `₽`. */
  predicate PriceMatchAt(s: PyStr, i: nat) {
    i < |s| && IsAsciiDigit(s[i]) &&
    var e := RunEnd(s, i + 1);
    i + 2 <= e < |s| && s[e] == RUBLE
  }

  /**
   * `PriceMatchAt` is the pattern: it matches at `i` exactly when some group end and ruble sign
   * fit, and then the ruble sign is the first character after the run and the longest group,
   * the one greedy matching picks, ends there as well.
   */
  lemma PriceMatchIsPattern(s: PyStr, i: nat)
    ensures PriceMatchAt(s, i) <==> exists g, k :: PatternAt(s, i, g, k)
    ensures PriceMatchAt(s, i) ==> PatternAt(s, i, RunEnd(s, i + 1), RunEnd(s, i + 1))
    ensures forall g, k :: PatternAt(s, i, g, k) ==> g <= k == RunEnd(s, i + 1)
  {
    forall g, k | PatternAt(s, i, g, k) ensures k == RunEnd(s, i + 1) {
      RunEndAt(s, i + 1, k);
    }
    if PriceMatchAt(s, i) {
      var e := RunEnd(s, i + 1);
      assert PatternAt(s, i, e, e);
    }
  }

  /** A run of class characters ending at a non-class character ends where `RunEnd` says. */
  lemma {:induction false} RunEndAt(s: PyStr, j: nat, k: nat)
    requires j <= k < |s| && !InPriceRun(s[k])
    requires forall m :: j <= m < k ==> InPriceRun(s[m])
    ensures RunEnd(s, j) == k
    decreases k - j
  {
    if j < k {
      RunEndAt(s, j + 1, k);
    }
  }

  /** `re.search`: the leftmost position at or after `from` where the pattern matches. */
  function FindPriceMatch(s: PyStr, from: nat): (r: Option<nat>)
    requires from <= |s|
    ensures r.Some? ==> from <= r.value < |s| && PriceMatchAt(s, r.value)
    ensures r.Some? ==> forall j :: from <= j < r.value ==> !PriceMatchAt(s, j)
    ensures r.None? ==> forall j :: from <= j < |s| ==> !PriceMatchAt(s, j)
    decreases |s| - from
  {
    if from == |s| then None
    else if PriceMatchAt(s, from) then Some(from)
    else FindPriceMatch(s, from + 1)
  }

  /** `m.group(1)` of the match at `i`. */
  function Group(s: PyStr, i: nat): (g: PyStr)
    requires PriceMatchAt(s, i)
    ensures |g| >= 2 && IsAsciiDigit(g[0])
    ensures forall j :: 0 <= j < |g| ==> InPriceRun(g[j])
    ensures i + |g| < |s| && s[i + |g|] == RUBLE && g == s[i..i + |g|]
  {
    s[i..RunEnd(s, i + 1)]
  }

  predicate IsSeparator(c: CodePoint) {
    c == SPACE || c == NARROW_NBSP
  }

  /** `g.replace(" ", "").replace("\u202f", "")` */
  function DropSeparators(g: PyStr): (r: PyStr)
    ensures g != [] && !IsSeparator(g[0]) ==> r != [] && r[0] == g[0]
  {
    if g == [] then [] else (if IsSeparator(g[0]) then [] else [g[0]]) + DropSeparators(g[1..])
  }

  /**
   * What is left after dropping the separators has none, and has every property that all
   * characters of the group share.
   */
  lemma {:induction false} DropSeparatorsKeeps(g: PyStr, p: CodePoint -> bool)
    ensures forall j :: 0 <= j < |DropSeparators(g)| ==> !IsSeparator(DropSeparators(g)[j])
    ensures (forall j :: 0 <= j < |g| ==> p(g[j])) ==>
      forall j :: 0 <= j < |DropSeparators(g)| ==> p(DropSeparators(g)[j])
  {
    if g != [] {
      DropSeparatorsKeeps(g[1..], p);
      var head := if IsSeparator(g[0]) then [] else [g[0]];
      assert DropSeparators(g) == head + DropSeparators(g[1..]);
      if forall j :: 0 <= j < |g| ==> p(g[j]) {
        assert forall j :: 0 <= j < |g[1..]| ==> p(g[1..][j]) by {
          forall j | 0 <= j < |g[1..]| ensures p(g[1..][j]) {
            assert g[1..][j] == g[j + 1];
          }
        }
      }
    }
  }

  /** Removing the separators, which are whitespace, keeps the same non-whitespace text. */
  lemma {:induction false} DropSeparatorsKeepsDigits(g: PyStr)
    ensures NonSpace(DropSeparators(g)) == NonSpace(g)
  {
    if g != [] {
      DropSeparatorsKeepsDigits(g[1..]);
      var head := if IsSeparator(g[0]) then [] else [g[0]];
      NonSpaceAppend(head, DropSeparators(g[1..]));
    }
  }

  /** The number a string of ASCII digits denotes in base 10. */
  function DecimalValue(u: PyStr): (n: nat)
    requires AllDigits(u)
  {
    if u == [] then 0
    else
      var last := u[|u| - 1];
      assert IsAsciiDigit(last);
      DecimalValue(u[..|u| - 1]) * 10 + (last - 0x30)
  }

  /**
   * The `ValueError` that `int()` raises: for a string that is not a decimal literal, or for one
   * whose digits outnumber the interpreter's limit on integer string conversion.
   */
  datatype IntError = InvalidLiteral(literal: PyStr) | ExceedsDigitLimit(literal: PyStr)

  /** `sys.int_info.default_max_str_digits`: the most digits `int()` converts from a string. */
  const MAX_STR_DIGITS: nat := 4300

  predicate AllDigits(u: PyStr) {
    forall i :: 0 <= i < |u| ==> IsAsciiDigit(u[i])
  }

  /**
   * U+001C..U+001F, the information separators.  `str.isspace` and `\s` count them as
   * whitespace, but `int()` does not: it turns non-ASCII whitespace into spaces and then skips
   * only the ASCII whitespace of C, `\t\n\v\f\r` and the space.
   */
  predicate IsInfoSeparator(c: CodePoint) {
    0x1C <= c <= 0x1F
  }

  predicate NoInfoSeparator(t: PyStr) {
    forall i :: 0 <= i < |t| ==> !IsInfoSeparator(t[i])
  }

  /**
   * `int(t)` for a string of ASCII digits and whitespace: surrounding whitespace other than the
   * information separators is ignored, and what is left must be a non-empty run of digits.  A
   * well-formed literal of more than `MAX_STR_DIGITS` digits raises the limit's error; as in
   * CPython 3.12 and later, a malformed one raises the invalid-literal error whatever its length.
   */
  function PyInt(t: PyStr): (r: Result<nat, IntError>)
    requires forall i :: 0 <= i < |t| ==> InPriceRun(t[i])
    ensures r.Failure? ==> r.error.literal == t
    ensures r.Success? <==>
      Strip(t) != [] && AllDigits(Strip(t)) && NoInfoSeparator(t) && |Strip(t)| <= MAX_STR_DIGITS
    ensures r.Success? ==> r.value == DecimalValue(Strip(t))
    ensures r.Failure? ==> (r.error.ExceedsDigitLimit? <==> Strip(t) != [] && AllDigits(Strip(t)) && NoInfoSeparator(t))
  {
    var u := Strip(t);
    if u == [] || !AllDigits(u) || !NoInfoSeparator(t) then Failure(InvalidLiteral(t))
    else if |u| > MAX_STR_DIGITS then Failure(ExceedsDigitLimit(t))
    else Success(DecimalValue(u))
  }

  /** Some whitespace in `x` comes before a digit. */
  predicate SpaceBeforeDigit(x: PyStr) {
    exists a, b :: 0 <= a < b < |x| && IsSpace(x[a]) && IsAsciiDigit(x[b])
  }

  /**
   * `int()` of digits and whitespace that starts with a digit succeeds exactly when no
   * whitespace comes before a digit, none of the whitespace is an information separator and the
   * digits are within the limit, and then reads the digits, the whitespace left out.
   */
  lemma IntOfDigitsAndSpaces(x: PyStr)
    requires x != [] && IsAsciiDigit(x[0])
    requires forall i :: 0 <= i < |x| ==> InPriceRun(x[i])
    ensures PyInt(x).Success? <==>
      !SpaceBeforeDigit(x) && NoInfoSeparator(x) && |NonSpace(x)| <= MAX_STR_DIGITS
    ensures PyInt(x).Success? ==> AllDigits(NonSpace(x)) && PyInt(x).value == DecimalValue(NonSpace(x))
  {
    if AllDigits(Strip(x)) {
      IntOfDigitsThenSpaces(x);
    } else {
      IntOfSpaceInside(x);
    }
  }

  /**
   * When the stripped text is all digits, they are the non-whitespace text, and `int()` reads
   * them unless an information separator follows them or there are too many.
   */
  lemma IntOfDigitsThenSpaces(x: PyStr)
    requires x != [] && IsAsciiDigit(x[0])
    requires forall i :: 0 <= i < |x| ==> InPriceRun(x[i])
    requires AllDigits(Strip(x))
    ensures !SpaceBeforeDigit(x) && AllDigits(NonSpace(x))
    ensures PyInt(x).Success? <==> NoInfoSeparator(x) && |NonSpace(x)| <= MAX_STR_DIGITS
    ensures PyInt(x).Success? ==> PyInt(x).value == DecimalValue(NonSpace(x))
  {
    var u := Strip(x);
    StripDigitLed(x);
    PyIntOfStripped(x, u);
    NoSpaceBeforeDigit(x, u);
    DigitPrefixIsNonSpace(x, u);
  }

  /** When the stripped text is not all digits, a space precedes a digit and `int()` raises. */
  lemma IntOfSpaceInside(x: PyStr)
    requires x != [] && IsAsciiDigit(x[0])
    requires forall i :: 0 <= i < |x| ==> InPriceRun(x[i])
    requires !AllDigits(Strip(x))
    ensures PyInt(x).Failure? && SpaceBeforeDigit(x)
  {
    var u := Strip(x);
    StripDigitLed(x);
    SpaceInsidePrefix(x, u);
    assert PyInt(x).Failure? by {
      PyIntOfStripped(x, u);
    }
  }

  /** `int()` reads the stripped text when it is all digits and not too long, and raises otherwise. */
  lemma PyIntOfStripped(x: PyStr, u: PyStr)
    requires forall i :: 0 <= i < |x| ==> InPriceRun(x[i])
    requires u == Strip(x) && u != []
    ensures AllDigits(u) && NoInfoSeparator(x) && |u| <= MAX_STR_DIGITS ==> PyInt(x) == Success(DecimalValue(u))
    ensures AllDigits(u) && NoInfoSeparator(x) && |u| > MAX_STR_DIGITS ==> PyInt(x) == Failure(ExceedsDigitLimit(x))
    ensures !AllDigits(u) || !NoInfoSeparator(x) ==> PyInt(x) == Failure(InvalidLiteral(x))
  {
  }

  /** When `x` is the digits `u` followed by whitespace, its non-whitespace text is `u`. */
  lemma DigitPrefixIsNonSpace(x: PyStr, u: PyStr)
    requires |u| <= |x| && u == x[..|u|] && AllDigits(u)
    requires forall i :: |u| <= i < |x| ==> IsSpace(x[i])
    ensures NonSpace(x) == u
  {
    var tail := x[|u|..];
    assert x == u + tail;
    NonSpaceOfSpaces(tail);
    NonSpaceAppend(u, tail);
    NonSpaceOfDigits(u);
    assert u + [] == u;
  }

  /** A non-digit, so a space, inside a prefix that ends in a non-space comes before a digit. */
  lemma SpaceInsidePrefix(x: PyStr, u: PyStr)
    requires u != [] && |u| <= |x| && u == x[..|u|] && !AllDigits(u) && !IsSpace(u[|u| - 1])
    requires forall i :: 0 <= i < |x| ==> InPriceRun(x[i])
    ensures SpaceBeforeDigit(x)
  {
    var k :| 0 <= k < |u| && !IsAsciiDigit(u[k]);
    assert IsSpace(x[k]) && IsAsciiDigit(x[|u| - 1]);
  }

  /** `strip()` of a string that starts with a non-space only cuts whitespace off its end. */
  lemma StripDigitLed(x: PyStr)
    requires x != [] && !IsSpace(x[0])
    ensures Strip(x) != [] && Strip(x) == x[..|Strip(x)|]
    ensures forall i :: |Strip(x)| <= i < |x| ==> IsSpace(x[i])
  {
    var a := StripSlice(x);
  }

  /** When the stripped prefix `u` is all digits, every digit of `x` lies in it, before any space. */
  lemma NoSpaceBeforeDigit(x: PyStr, u: PyStr)
    requires |u| <= |x| && u == x[..|u|] && AllDigits(u)
    requires forall i :: |u| <= i < |x| ==> IsSpace(x[i])
    ensures !SpaceBeforeDigit(x)
  {
  }

  lemma {:induction false} NonSpaceOfDigits(u: PyStr)
    requires AllDigits(u)
    ensures NonSpace(u) == u
  {
    if u != [] {
      NonSpaceOfDigits(u[1..]);
    }
  }

  /**
   * The text fallback: the leftmost match of the pattern, its group without plain and narrow
   * no-break spaces, read by `int()`, which is called outside the `try` and so may raise.
   */
  function TextPrice(s: PyStr): (r: Result<Option<int>, IntError>)
    ensures r == Success(None) <==> forall j :: 0 <= j < |s| ==> !PriceMatchAt(s, j)
    ensures r.Success? && r.value.Some? ==> r.value.value >= 0
    ensures FindPriceMatch(s, 0).Some? ==>
      (r.Failure? <==>
        SpaceBeforeDigit(DropSeparators(Group(s, FindPriceMatch(s, 0).value))) ||
        !NoInfoSeparator(Group(s, FindPriceMatch(s, 0).value)) ||
        |NonSpace(Group(s, FindPriceMatch(s, 0).value))| > MAX_STR_DIGITS)
    ensures FindPriceMatch(s, 0).Some? && r.Success? ==>
      AllDigits(NonSpace(Group(s, FindPriceMatch(s, 0).value))) &&
      r == Success(Some(DecimalValue(NonSpace(Group(s, FindPriceMatch(s, 0).value)))))
  {
    match FindPriceMatch(s, 0)
    case None => Success(None)
    case Some(i) =>
      var g := Group(s, i);
      var x := DropSeparators(g);
      DropSeparatorsKeeps(g, InPriceRun);
      IntOfDigitsAndSpaces(x);
      DropSeparatorsKeepsDigits(g);
      DropSeparatorsKeepsInfoSeparators(g);
      match PyInt(x)
      case Success(n) => Success(Some(n))
      case Failure(e) => Failure(e)
  }

  /** Dropping the separators keeps every information separator, and brings in none. */
  lemma {:induction false} DropSeparatorsKeepsInfoSeparators(g: PyStr)
    ensures NoInfoSeparator(DropSeparators(g)) <==> NoInfoSeparator(g)
  {
    if g != [] {
      DropSeparatorsKeepsInfoSeparators(g[1..]);
      var head := if IsSeparator(g[0]) then [] else [g[0]];
      var rest := DropSeparators(g[1..]);
      assert DropSeparators(g) == head + rest;
      if NoInfoSeparator(g) {
        assert NoInfoSeparator(g[1..]) by {
          forall j | 0 <= j < |g[1..]| ensures !IsInfoSeparator(g[1..][j]) {
            assert g[1..][j] == g[j + 1];
          }
        }
      } else {
        var j :| 0 <= j < |g| && IsInfoSeparator(g[j]);
        if j == 0 {
          assert (head + rest)[0] == g[0];
        } else {
          assert g[1..][j - 1] == g[j];
          var m :| 0 <= m < |rest| && IsInfoSeparator(rest[m]);
          assert (head + rest)[|head| + m] == rest[m];
        }
      }
    }
  }

  /**
   * `"12\x1c₽"` raises: the information separator U+001C belongs to `\s` and so to the group,
   * but `int()` does not strip it.
   */
  lemma TextPriceInfoSeparatorRaises()
    ensures TextPrice([0x31, 0x32, 0x1C, 0x20BD]).Failure?
  {
    var s: PyStr := [0x31, 0x32, 0x1C, 0x20BD];
    RunEndAt(s, 1, 3);
    assert PriceMatchAt(s, 0);
    assert FindPriceMatch(s, 0) == Some(0);
    var g := Group(s, 0);
    assert g[2] == 0x1C;
  }

  predicate IsDigitOrSeparator(c: CodePoint) {
    IsAsciiDigit(c) || IsSeparator(c)
  }

  /**
   * When the only whitespace inside the number is plain and narrow no-break spaces, the fallback
   * raises only for too many digits: otherwise it reads the digits of the group as one decimal
   * number.
   */
  lemma TextPriceWithSeparators(s: PyStr, i: nat)
    requires FindPriceMatch(s, 0) == Some(i)
    requires forall j :: 0 <= j < |Group(s, i)| ==> IsDigitOrSeparator(Group(s, i)[j])
    ensures AllDigits(NonSpace(Group(s, i)))
    ensures TextPrice(s).Success? <==> |NonSpace(Group(s, i))| <= MAX_STR_DIGITS
    ensures TextPrice(s).Success? ==> TextPrice(s) == Success(Some(DecimalValue(NonSpace(Group(s, i)))))
  {
    var g := Group(s, i);
    DropSeparatorsKeeps(g, IsDigitOrSeparator);
    var x := DropSeparators(g);
    assert AllDigits(x);
    assert !SpaceBeforeDigit(x);
    DropSeparatorsKeepsDigits(g);
    NonSpaceOfDigits(x);
  }

  /** `"1 234 ₽"` with a no-break space (U+00A0) after the 1 raises: `int()` sees the space inside the number. */
  lemma TextPriceNoBreakSpaceRaises()
    ensures TextPrice([0x31, 0xA0, 0x32, 0x33, 0x34, 0x20, 0x20BD]).Failure?
  {
    var s: PyStr := [0x31, 0xA0, 0x32, 0x33, 0x34, 0x20, 0x20BD];
    RunEndAt(s, 1, 6);
    assert PriceMatchAt(s, 0);
    assert FindPriceMatch(s, 0) == Some(0);
    var g := Group(s, 0);
    assert g == [0x31, 0xA0, 0x32, 0x33, 0x34, 0x20];
    assert DropSeparators(g) == [0x31] + DropSeparators(g[1..]);
    assert DropSeparators(g[1..]) == [0xA0] + DropSeparators(g[2..]) by {
      assert g[1..][1..] == g[2..];
    }
    assert DropSeparators(g[2..]) == [0x32] + DropSeparators(g[3..]) by {
      assert g[2..][1..] == g[3..];
    }
    var x := DropSeparators(g);
    assert x[1] == 0xA0 && x[2] == 0x32;
  }

  /**
   * What `extract_price` returns: the first usable JSON-LD price; only when no block gives one,
   * the text fallback.
   */
  function ExtractedPrice(doc: Document): (r: Result<Option<int>, IntError>)
    ensures FirstOfferPrice(doc.ldBlocks).Some? ==> r == Success(FirstOfferPrice(doc.ldBlocks))
    ensures FirstOfferPrice(doc.ldBlocks).None? ==> r == TextPrice(doc.text)
    ensures r == Success(None) <==>
      (forall i :: 0 <= i < |doc.ldBlocks| ==> !doc.ldBlocks[i].OfferPrice?) &&
      (forall j :: 0 <= j < |doc.text| ==> !PriceMatchAt(doc.text, j))
  {
    match FirstOfferPrice(doc.ldBlocks)
    case Some(p) => Success(Some(p))
    case None => TextPrice(doc.text)
  }

  /** `extract_price`: try the JSON-LD blocks in order, the first with a price wins; else the text. */
  method ExtractPrice(doc: Document) returns (r: Result<Option<int>, IntError>)
    ensures r == ExtractedPrice(doc)
  {
    for i := 0 to |doc.ldBlocks|
      invariant forall j :: 0 <= j < i ==> !doc.ldBlocks[j].OfferPrice?
    {
      if doc.ldBlocks[i].OfferPrice? {
        FindFirstIs(doc.ldBlocks, 0, IsOfferPrice, i);
        return Success(Some(doc.ldBlocks[i].price));
      }
    }
    return TextPrice(doc.text);
  }

  /** When some JSON-LD block has a price, the page text plays no part, and cannot make the call raise. */
  lemma PriceIgnoresTextWhenOffered(doc: Document, text: PyStr)
    requires exists i :: 0 <= i < |doc.ldBlocks| && doc.ldBlocks[i].OfferPrice?
    ensures ExtractedPrice(doc.(text := text)) == ExtractedPrice(doc)
    ensures ExtractedPrice(doc).Success? && ExtractedPrice(doc).value.Some?
  {
  }

  // ----- extract_characteristics -----

  /** A row with exactly two columns gives the item (normalized key, normalized value). */
  function RowEntry(cols: seq<PyStr>): Option<(PyStr, PyStr)> {
    if |cols| == 2 then Some((Normalized(cols[0]), Normalized(cols[1]))) else None
  }

  /** What `extract_characteristics` returns: the dict its loop builds. */
  function ExtractedCharacteristics(rows: seq<seq<PyStr>>): (d: Dict<PyStr, PyStr>)
    ensures DistinctKeys(d)
  {
    Build(rows, RowEntry)
  }

  /** `extract_characteristics`: fill the dict row by row, the later of two equal keys winning. */
  method ExtractCharacteristics(doc: Document) returns (data: Dict<PyStr, PyStr>)
    ensures data == ExtractedCharacteristics(doc.gridRows)
  {
    data := [];
    for i := 0 to |doc.gridRows|
      invariant data == Build(doc.gridRows[..i], RowEntry)
    {
      BuildStep(doc.gridRows, i, RowEntry);
      var cols := doc.gridRows[i];
      if |cols| == 2 {
        data := Assign(data, Normalized(cols[0]), Normalized(cols[1]));
      }
    }
    assert doc.gridRows[..|doc.gridRows|] == doc.gridRows;
  }

  /** The number of rows with exactly two columns. */
  function TwoColumnRows(rows: seq<seq<PyStr>>): (n: nat)
    ensures n <= |rows|
  {
    if rows == [] then 0
    else TwoColumnRows(rows[..|rows| - 1]) + (if |rows[|rows| - 1]| == 2 then 1 else 0)
  }

  /**
   * The extracted dict has one entry per distinct key, at most as many as there are two-column
   * rows; a key is present exactly when some two-column row gives it, and its value comes from
   * the last such row.  Keys and values are well-formed strings.
   */
  lemma {:induction false} CharacteristicsFromRows(rows: seq<seq<PyStr>>, k: PyStr)
    ensures |ExtractedCharacteristics(rows)| <= TwoColumnRows(rows)
    ensures Get(ExtractedCharacteristics(rows), k).None? <==>
      forall i :: 0 <= i < |rows| ==> !(|rows[i]| == 2 && Normalized(rows[i][0]) == k)
    ensures Get(ExtractedCharacteristics(rows), k).Some? ==>
      exists i :: 0 <= i < |rows| && |rows[i]| == 2 && Normalized(rows[i][0]) == k &&
        Get(ExtractedCharacteristics(rows), k).value == Normalized(rows[i][1]) &&
        forall j :: i < j < |rows| ==> !(|rows[j]| == 2 && Normalized(rows[j][0]) == k)
    ensures forall p :: p in ExtractedCharacteristics(rows) ==> WellFormed(p.0) && WellFormed(p.1)
  {
    CountTwoColumnRows(rows);
    BuildLastWins(rows, RowEntry, k);
    assert forall i :: 0 <= i < |rows| ==> (HasKey(RowEntry, rows[i], k) <==> |rows[i]| == 2 && Normalized(rows[i][0]) == k);
    BuildItemsFromEntries(rows, RowEntry);
  }

  lemma {:induction false} CountTwoColumnRows(rows: seq<seq<PyStr>>)
    ensures CountEntries(rows, RowEntry) == TwoColumnRows(rows)
  {
    if rows != [] {
      CountTwoColumnRows(rows[..|rows| - 1]);
    }
  }

  // ----- extract_description -----

  /** "О товаре" */
  const ABOUT_PRODUCT: PyStr := [0x41E, 0x20, 0x442, 0x43E, 0x432, 0x430, 0x440, 0x435]
  /** A division qualifies as the description when its text is longer than this. */
  const DESCRIPTION_MIN := 120

  /** An `h2` whose string is present, non-empty and contains "О товаре". */
  predicate IsAboutHeading(e: FlowElement) {
    e.Heading2? && e.str.Some? && e.str.value != [] && Contains(e.str.value, ABOUT_PRODUCT)
  }

  /** A `div` whose text is non-empty and longer than 120 characters. */
  predicate IsLongDivision(e: FlowElement) {
    e.Division? && e.text != [] && |e.text| > DESCRIPTION_MIN
  }

  /**
   * What `extract_description` returns: the normalized text of the first long division after
   * the first "О товаре" heading, in document order.
   */
  function ExtractedDescription(flow: seq<FlowElement>): (r: Option<PyStr>)
    ensures (forall i :: 0 <= i < |flow| ==> !IsAboutHeading(flow[i])) ==> r.None?
    ensures r.Some? ==> WellFormed(r.value)
  {
    match FindFirst(flow, 0, IsAboutHeading)
    case None => None
    case Some(h) =>
      match FindFirst(flow, h + 1, IsLongDivision)
      case None => None
      case Some(d) => Some(Normalized(flow[d].text))
  }

  /**
   * `extract_description`: after the first "О товаре" heading, walk the following elements and
   * return the normalized text of the first long division.
   */
  method ExtractDescription(flow: seq<FlowElement>) returns (r: Option<PyStr>)
    ensures r == ExtractedDescription(flow)
  {
    var heading := FindFirst(flow, 0, IsAboutHeading);
    if heading.None? {
      return None;
    }
    var h := heading.value;
    var i := h + 1;
    while i < |flow|
      invariant h + 1 <= i <= |flow|
      invariant forall j :: h < j < i ==> !IsLongDivision(flow[j])
    {
      if IsLongDivision(flow[i]) {
        FindFirstIs(flow, h + 1, IsLongDivision, i);
        return Some(Normalized(flow[i].text));
      }
      i := i + 1;
    }
    return None;
  }

  /**
   * With `h` the first "О товаре" heading, the description is the normalized text of the first
   * long division after `h`, and there is none when no long division follows `h`.
   */
  lemma DescriptionAfterHeading(flow: seq<FlowElement>, h: nat, d: nat)
    requires h < |flow| && IsAboutHeading(flow[h])
    requires forall j :: 0 <= j < h ==> !IsAboutHeading(flow[j])
    ensures h < d < |flow| && IsLongDivision(flow[d]) && (forall j :: h < j < d ==> !IsLongDivision(flow[j])) ==>
      ExtractedDescription(flow) == Some(Normalized(flow[d].text))
    ensures (forall j :: h < j < |flow| ==> !IsLongDivision(flow[j])) ==> ExtractedDescription(flow) == None
  {
    FindFirstIs(flow, 0, IsAboutHeading, h);
    if h < d < |flow| && IsLongDivision(flow[d]) && (forall j :: h < j < d ==> !IsLongDivision(flow[j])) {
      FindFirstIs(flow, h + 1, IsLongDivision, d);
    }
  }

  /**
   * A description comes from a division longer than 120 characters; normalization only drops
   * lone surrogates, so it is longer than 120 characters itself when the page text has none.
   */
  lemma DescriptionIsLong(flow: seq<FlowElement>)
    requires forall i :: 0 <= i < |flow| && flow[i].Division? ==> WellFormed(flow[i].text)
    ensures ExtractedDescription(flow).Some? ==> |ExtractedDescription(flow).value| > DESCRIPTION_MIN
  {
  }

  // ----- extract_image_url -----

  predicate HasSource(src: Option<PyStr>) {
    src.Some?
  }

  /** `extract_image_url`: the raw `src` of the first image that has one. */
  function ExtractImageUrl(sources: seq<Option<PyStr>>): (r: Option<PyStr>)
    ensures r.None? <==> forall i :: 0 <= i < |sources| ==> sources[i].None?
    ensures r.Some? ==> exists i :: 0 <= i < |sources| && sources[i] == r &&
                                   forall j :: 0 <= j < i ==> sources[j].None?
  {
    match FindFirst(sources, 0, HasSource)
    case None => None
    case Some(i) => sources[i]
  }
}
