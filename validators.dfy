/** The field and record validators of utils/validators.py. */
module Validators {
  import opened Wrappers
  import opened Text
  import opened Dicts
  import opened Products

  /** `http://` and `https://`, code point by code point. */
  const HTTP: PyStr := [0x68, 0x74, 0x74, 0x70, 0x3A, 0x2F, 0x2F]
  const HTTPS: PyStr := [0x68, 0x74, 0x74, 0x70, 0x73, 0x3A, 0x2F, 0x2F]
  const PRICE_LIMIT := 10_000_000
  const TITLE_MIN := 3
  const TITLE_LIMIT := 500
  const DESCRIPTION_LIMIT := 10000

  /** `validate_url`: present and starting with `http://` or `https://`. */
  function ValidateUrl(url: Option<PyStr>): (ok: bool)
    ensures ok <==> url.Some? && (StartsWith(url.value, HTTP) || StartsWith(url.value, HTTPS))
  {
    if url.None? || url.value == [] then false
    else StartsWith(url.value, HTTP) || StartsWith(url.value, HTTPS)
  }

  /** `validate_price`: present and strictly between 0 and 10 000 000. */
  function ValidatePrice(price: Option<int>): (ok: bool)
    ensures ok ==> price.Some? && 1 <= price.value <= PRICE_LIMIT - 1
    ensures price.Some? && 0 < price.value < PRICE_LIMIT ==> ok
  {
    if price.None? then false
    else price.value > 0 && price.value < PRICE_LIMIT
  }

  /** `validate_title`: present, and 3 to 500 characters once stripped. */
  function ValidateTitle(title: Option<PyStr>): (ok: bool)
    ensures ok <==> title.Some? && TITLE_MIN <= |Strip(title.value)| <= TITLE_LIMIT
    ensures ok ==> TITLE_MIN <= |title.value|
  {
    if title.None? || title.value == [] then false
    else
      var t := Strip(title.value);
      |t| >= TITLE_MIN && |t| <= TITLE_LIMIT
  }

  /** `validate_description`: optional; at most 10000 characters once stripped. */
  function ValidateDescription(description: Option<PyStr>): (ok: bool)
    ensures ok <==> description.None? || |Strip(description.value)| <= DESCRIPTION_LIMIT
    ensures description.Some? && |description.value| <= DESCRIPTION_LIMIT ==> ok
    ensures !ok ==> |description.value| > DESCRIPTION_LIMIT
  {
    if description.None? then true
    else
      var d := Strip(description.value);
      |d| <= DESCRIPTION_LIMIT
  }

  /** `validate_image_url`: optional, but when present (even empty) it must be a valid URL. */
  function ValidateImageUrl(imageUrl: Option<PyStr>): (ok: bool)
    ensures imageUrl.None? ==> ok
    ensures imageUrl.Some? ==> (ok <==> ValidateUrl(imageUrl))
    ensures imageUrl == Some([]) ==> !ok
  {
    if imageUrl.None? then true
    else ValidateUrl(imageUrl)
  }

  /** A dict none of whose keys or values is empty or whitespace only. */
  predicate CharacteristicsValid(c: Characteristics) {
    c.Mapping? && forall i :: 0 <= i < |c.items| ==> !IsBlank(c.items[i].0) && !IsBlank(c.items[i].1)
  }

  /** `validate_characteristics`: a dict whose items are checked in order, stopping at the first bad one. */
  method ValidateCharacteristics(c: Characteristics) returns (ok: bool)
    ensures ok <==> CharacteristicsValid(c)
  {
    if c.NonMapping? {
      return false;
    }
    for i := 0 to |c.items|
      invariant forall j :: 0 <= j < i ==> !IsBlank(c.items[j].0) && !IsBlank(c.items[j].1)
    {
      var (key, value) := c.items[i];
      if key == [] || IsBlank(key) {
        return false;
      }
      if value == [] || IsBlank(value) {
        return false;
      }
    }
    return true;
  }

  /** The checks of `validate_product`, in the order it makes them. */
  datatype Check = UrlCheck | TitleCheck | PriceCheck | DescriptionCheck | ImageUrlCheck | CharacteristicsCheck

  /** How many checks `validate_product` makes. */
  const CHECK_COUNT := 6

  /** The position of a check in the order of `validate_product`. */
  function Rank(c: Check): (n: nat)
    ensures n < CHECK_COUNT
  {
    match c
    case UrlCheck => 0
    case TitleCheck => 1
    case PriceCheck => 2
    case DescriptionCheck => 3
    case ImageUrlCheck => 4
    case CharacteristicsCheck => 5
  }

  /** The error message `validate_product` records when a check fails. */
  function Message(c: Check): string {
    match c
    case UrlCheck => "Неверный или отсутствующий URL товара"
    case TitleCheck => "Неверное или отсутствующее название товара"
    case PriceCheck => "Неверная или отсутствующая цена"
    case DescriptionCheck => "Описание слишком длинное"
    case ImageUrlCheck => "Неверный URL изображения"
    case CharacteristicsCheck => "Неверные характеристики товара"
  }

  /** The product passes the check, the field being read with `product.get`. */
  predicate Passes(p: Product, c: Check) {
    match c
    case UrlCheck => ValidateUrl(p.url)
    case TitleCheck => ValidateTitle(p.title)
    case PriceCheck => ValidatePrice(p.price)
    case DescriptionCheck => ValidateDescription(p.description)
    case ImageUrlCheck => ValidateImageUrl(p.imageUrl)
    case CharacteristicsCheck => CharacteristicsValid(CharacteristicsOrEmpty(p))
  }

  /** The check's verdict as a list: empty when `p` passes it, the check itself when it fails. */
  function IfFails(p: Product, c: Check): (r: seq<Check>)
    ensures r == [] <==> Passes(p, c)
  {
    if Passes(p, c) then [] else [c]
  }

  /** Checks in increasing order of rank, hence each at most once. */
  predicate InOrder(cs: seq<Check>) {
    forall i, j :: 0 <= i < j < |cs| ==> Rank(cs[i]) < Rank(cs[j])
  }

  /** Appending at most one check of rank `n` to checks ranked below `n` keeps them in order. */
  lemma InOrderExtend(a: seq<Check>, b: seq<Check>, n: nat)
    requires InOrder(a) && forall x :: x in a ==> Rank(x) < n
    requires |b| <= 1 && forall x :: x in b ==> Rank(x) == n
    ensures InOrder(a + b) && forall x :: x in a + b ==> Rank(x) <= n
  {
    if |b| == 1 {
      forall i | 0 <= i < |a|
        ensures Rank((a + b)[i]) < Rank((a + b)[|a|])
      {
        assert a[i] in a && b[0] in b;
      }
    }
  }

  /** The checks `p` fails, in the order `validate_product` makes them. */
  function FailedChecks(p: Product): seq<Check> {
    IfFails(p, UrlCheck) + IfFails(p, TitleCheck) + IfFails(p, PriceCheck)
      + IfFails(p, DescriptionCheck) + IfFails(p, ImageUrlCheck) + IfFails(p, CharacteristicsCheck)
  }

  /** The only check `IfFails(p, d)` can hold is `d`, and it holds it when `d` fails. */
  lemma InIfFails(p: Product, c: Check, d: Check)
    ensures c in IfFails(p, d) <==> c == d && !Passes(p, d)
  {
  }

  /** `FailedChecks` lists exactly the checks that fail, at most six of them. */
  lemma FailedChecksMembers(p: Product)
    ensures |FailedChecks(p)| <= CHECK_COUNT
    ensures forall c :: c in FailedChecks(p) <==> !Passes(p, c)
  {
    var f1 := IfFails(p, UrlCheck);
    var f2 := f1 + IfFails(p, TitleCheck);
    var f3 := f2 + IfFails(p, PriceCheck);
    var f4 := f3 + IfFails(p, DescriptionCheck);
    var f5 := f4 + IfFails(p, ImageUrlCheck);
    var f6 := f5 + IfFails(p, CharacteristicsCheck);
    assert FailedChecks(p) == f6;
    forall c
      ensures c in f6 <==> !Passes(p, c)
    {
      InIfFails(p, c, UrlCheck);
      InIfFails(p, c, TitleCheck);
      InIfFails(p, c, PriceCheck);
      InIfFails(p, c, DescriptionCheck);
      InIfFails(p, c, ImageUrlCheck);
      InIfFails(p, c, CharacteristicsCheck);
    }
  }

  /** `FailedChecks` lists the failed checks in the order they are made, hence each once. */
  lemma FailedChecksInOrder(p: Product)
    ensures InOrder(FailedChecks(p))
  {
    var f1 := IfFails(p, UrlCheck);
    var f2 := f1 + IfFails(p, TitleCheck);
    InOrderExtend(f1, IfFails(p, TitleCheck), 1);
    var f3 := f2 + IfFails(p, PriceCheck);
    InOrderExtend(f2, IfFails(p, PriceCheck), 2);
    var f4 := f3 + IfFails(p, DescriptionCheck);
    InOrderExtend(f3, IfFails(p, DescriptionCheck), 3);
    var f5 := f4 + IfFails(p, ImageUrlCheck);
    InOrderExtend(f4, IfFails(p, ImageUrlCheck), 4);
    InOrderExtend(f5, IfFails(p, CharacteristicsCheck), 5);
  }

  /** The message of each check, in order. */
  function Messages(cs: seq<Check>): (r: seq<string>)
    ensures |r| == |cs|
  {
    if cs == [] then [] else Messages(cs[..|cs| - 1]) + [Message(cs[|cs| - 1])]
  }

  /** `Messages` distributes over concatenation. */
  lemma {:induction false} MessagesAppend(a: seq<Check>, b: seq<Check>)
    ensures Messages(a + b) == Messages(a) + Messages(b)
    decreases |b|
  {
    if b == [] {
      assert a + b == a;
    } else {
      var pre := b[..|b| - 1];
      assert (a + b)[..|a + b| - 1] == a + pre;
      MessagesAppend(a, pre);
    }
  }

  /** What `validate_product` appends for a check with verdict `passed`. */
  function Verdict(passed: bool, c: Check): seq<string> {
    if passed then [] else [Message(c)]
  }

  /** The messages of the failed checks, spelled out with the validators `validate_product` calls. */
  lemma FailedMessages(p: Product)
    ensures Messages(FailedChecks(p)) == Verdict(ValidateUrl(p.url), UrlCheck)
      + Verdict(ValidateTitle(p.title), TitleCheck) + Verdict(ValidatePrice(p.price), PriceCheck)
      + Verdict(ValidateDescription(p.description), DescriptionCheck)
      + Verdict(ValidateImageUrl(p.imageUrl), ImageUrlCheck)
      + Verdict(CharacteristicsValid(CharacteristicsOrEmpty(p)), CharacteristicsCheck)
  {
    var f1 := IfFails(p, UrlCheck);
    var f2 := f1 + IfFails(p, TitleCheck);
    var f3 := f2 + IfFails(p, PriceCheck);
    var f4 := f3 + IfFails(p, DescriptionCheck);
    var f5 := f4 + IfFails(p, ImageUrlCheck);
    assert FailedChecks(p) == f5 + IfFails(p, CharacteristicsCheck);
    MessagesAppend(f5, IfFails(p, CharacteristicsCheck));
    MessagesAppend(f4, IfFails(p, ImageUrlCheck));
    MessagesAppend(f3, IfFails(p, DescriptionCheck));
    MessagesAppend(f2, IfFails(p, PriceCheck));
    MessagesAppend(f1, IfFails(p, TitleCheck));
    MessagesOfVerdict(p, UrlCheck);
    MessagesOfVerdict(p, TitleCheck);
    MessagesOfVerdict(p, PriceCheck);
    MessagesOfVerdict(p, DescriptionCheck);
    MessagesOfVerdict(p, ImageUrlCheck);
    MessagesOfVerdict(p, CharacteristicsCheck);
  }

  /** The message list of one check's verdict. */
  lemma MessagesOfVerdict(p: Product, c: Check)
    ensures Messages(IfFails(p, c)) == Verdict(Passes(p, c), c)
  {
    if !Passes(p, c) {
      assert [c][..0] == [];
    }
  }

  /** Appending to the empty list. */
  lemma EmptyAppend<T>(s: seq<T>)
    ensures [] + s == s
  {
  }

  /** One step of `validate_product`: append the check's message when the check failed. */
  method AppendIfFailed(errors: seq<string>, passed: bool, c: Check) returns (r: seq<string>)
    ensures r == errors + Verdict(passed, c)
  {
    r := errors;
    if !passed {
      r := r + [Message(c)];
    }
  }

  /**
   * `validate_product`: one message for each failed check, in the order of the checks, and
   * valid exactly when there are none.
   */
  method ValidateProduct(p: Product) returns (valid: bool, errors: seq<string>)
    ensures errors == Messages(FailedChecks(p))
    ensures valid <==> errors == []
    ensures valid <==> forall c :: Passes(p, c)
  {
    errors := [];
    errors := AppendIfFailed(errors, ValidateUrl(p.url), UrlCheck);
    EmptyAppend(Verdict(ValidateUrl(p.url), UrlCheck));
    errors := AppendIfFailed(errors, ValidateTitle(p.title), TitleCheck);
    errors := AppendIfFailed(errors, ValidatePrice(p.price), PriceCheck);
    errors := AppendIfFailed(errors, ValidateDescription(p.description), DescriptionCheck);
    errors := AppendIfFailed(errors, ValidateImageUrl(p.imageUrl), ImageUrlCheck);
    var characteristicsOk := ValidateCharacteristics(CharacteristicsOrEmpty(p));
    errors := AppendIfFailed(errors, characteristicsOk, CharacteristicsCheck);
    assert errors == Verdict(ValidateUrl(p.url), UrlCheck)
      + Verdict(ValidateTitle(p.title), TitleCheck) + Verdict(ValidatePrice(p.price), PriceCheck)
      + Verdict(ValidateDescription(p.description), DescriptionCheck)
      + Verdict(ValidateImageUrl(p.imageUrl), ImageUrlCheck)
      + Verdict(CharacteristicsValid(CharacteristicsOrEmpty(p)), CharacteristicsCheck);
    FailedMessages(p);
    AllPass(p);
    valid := |errors| == 0;
  }

  /** No message is reported exactly when every check passes. */
  lemma AllPass(p: Product)
    ensures Messages(FailedChecks(p)) == [] <==> forall c :: Passes(p, c)
  {
    var f := FailedChecks(p);
    FailedChecksMembers(p);
    if f != [] {
      assert f[0] in f;
    }
  }

  datatype ValidationError = ValidationError(message: string)

  const ERRORS_PREFIX := "Ошибки валидации: "
  const ERRORS_SEPARATOR := ", "

  /** `validate_product_strict`: raises `ValidationError` listing the messages, comma separated. */
  method ValidateProductStrict(p: Product) returns (r: Result<(), ValidationError>)
    ensures r.Success? <==> forall c :: Passes(p, c)
    ensures r.Failure? ==> r.error.message == ERRORS_PREFIX + Join(ERRORS_SEPARATOR, Messages(FailedChecks(p)))
  {
    var valid, errors := ValidateProduct(p);
    if !valid {
      return Failure(ValidationError(ERRORS_PREFIX + Join(ERRORS_SEPARATOR, errors)));
    }
    return Success(());
  }
}
