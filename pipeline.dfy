/**
 * What main.py does with one product page: the record assembly of src/parser.py, then
 * `clean_product`, then `validate_product`, which decides whether the record is saved.  Loading
 * the page, the database and the image upload are not part of this model.
 */
module Pipeline {
  import opened Wrappers
  import opened Text
  import opened Dicts
  import opened Products
  import opened Helpers
  import opened Extractors
  import opened TextCleaning
  import opened Cleaner
  import opened Validators

  /** The text of the first `h1`, normalized, or `None` when the page has no `h1`. */
  function PageTitle(h1Texts: seq<PyStr>): (r: Option<PyStr>)
    ensures r.None? <==> h1Texts == []
    ensures r.Some? ==> WellFormed(r.value) && r == NormalizeText(Some(h1Texts[0]))
  {
    if h1Texts == [] then None else Some(Normalized(h1Texts[0]))
  }

  /**
   * `parse_product_page` once the page is loaded: the raw record, or the `ValueError` that
   * `extract_price` lets escape.
   */
  function ParseProductPage(url: PyStr, doc: Document): (r: Result<Product, IntError>)
    ensures r.Failure? <==>
      (forall i :: 0 <= i < |doc.ldBlocks| ==> !doc.ldBlocks[i].OfferPrice?) && TextPrice(doc.text).Failure?
    ensures r.Success? ==>
      && r.value.url == Some(url)
      && r.value.title == PageTitle(doc.h1Texts)
      && Success(r.value.price) == ExtractedPrice(doc)
      && r.value.description == ExtractedDescription(doc.flow)
      && r.value.characteristics == Some(Mapping(ExtractedCharacteristics(doc.gridRows)))
      && r.value.imageUrl == NormalizeImageUrl(ExtractImageUrl(doc.imageSources))
    ensures r.Success? ==> (r.value.imageUrl.Some? <==> exists i :: 0 <= i < |doc.imageSources| && doc.imageSources[i].Some?)
  {
    match ExtractedPrice(doc)
    case Failure(e) => Failure(e)
    case Success(price) =>
      Success(Product(
        Some(url),
        PageTitle(doc.h1Texts),
        price,
        ExtractedDescription(doc.flow),
        Some(Mapping(ExtractedCharacteristics(doc.gridRows))),
        NormalizeImageUrl(ExtractImageUrl(doc.imageSources))))
  }

  /** What becomes of one product link. */
  datatype Outcome =
    | Saved(product: Product)        // handed to save_product
    | Rejected(errors: seq<string>)  // skipped, the validation errors reported
    | Failed(error: IntError)        // the exception caught around the whole step

  /** One iteration of the loop in main.py: parse, clean, validate, then save or skip. */
  method ProcessProduct(url: PyStr, doc: Document) returns (o: Outcome)
    ensures ParseProductPage(url, doc).Failure? ==> o == Failed(ParseProductPage(url, doc).error)
    ensures ParseProductPage(url, doc).Success? ==>
      var p := CleanProduct(ParseProductPage(url, doc).value);
      && (o.Saved? <==> forall c :: Passes(p, c))
      && (o.Rejected? <==> !forall c :: Passes(p, c))
      && (o.Saved? ==> o.product == p)
      && (o.Rejected? ==> o.errors == Messages(FailedChecks(p)) && o.errors != [])
  {
    var raw := ParseProductPage(url, doc);
    if raw.Failure? {
      return Failed(raw.error);
    }
    var product := CleanProduct(raw.value);
    var valid, errors := ValidateProduct(product);
    if !valid {
      return Rejected(errors);
    }
    return Saved(product);
  }

  /** Every saved record has an http(s) URL, a title of 3 to 500 characters and a price from 1 to 9 999 999. */
  lemma SavedRecordFields(url: PyStr, doc: Document, p: Product)
    requires ParseProductPage(url, doc).Success? && p == CleanProduct(ParseProductPage(url, doc).value)
    requires forall c :: Passes(p, c)
    ensures p.url == Some(url) && (StartsWith(url, HTTP) || StartsWith(url, HTTPS))
    ensures p.title.Some? && TITLE_MIN <= |p.title.value| <= TITLE_LIMIT
    ensures p.price.Some? && 0 < p.price.value < PRICE_LIMIT
    ensures p.price == ExtractedPrice(doc).value
  {
    assert Passes(p, UrlCheck) && Passes(p, TitleCheck) && Passes(p, PriceCheck);
  }

  /** A cleaned description always passes `validate_description`: cleaning cuts it to the limit. */
  lemma CleanedDescriptionValid(description: Option<PyStr>)
    ensures ValidateDescription(CleanDescription(description))
  {
  }

  /** Cleaning the price neither makes a valid price invalid nor an invalid one valid. */
  lemma CleanedPriceValid(price: Option<int>)
    ensures ValidatePrice(CleanPrice(price)) <==> ValidatePrice(price)
  {
  }

  /**
   * A cleaned title without invisible code points has nothing to strip, so it passes
   * `validate_title` exactly when it has at least three characters.
   */
  lemma CleanedTitleValid(title: Option<PyStr>)
    requires title.Some? ==> NoInvisible(title.value)
    ensures ValidateTitle(CleanTitle(title)) <==> CleanTitle(title).Some? && TITLE_MIN <= |CleanTitle(title).value|
  {
    if CleanTitle(title).Some? {
      CleanTitleTidy(title);
    }
    TidyTitleValid(CleanTitle(title));
  }

  lemma TidyTitleValid(r: Option<PyStr>)
    requires r.Some? ==> Tidy(r.value) && |r.value| <= TITLE_LIMIT
    ensures ValidateTitle(r) <==> r.Some? && TITLE_MIN <= |r.value|
  {
    if r.Some? {
      StripUnchanged(r.value);
    }
  }

  lemma CleanTitleTidy(title: Option<PyStr>)
    requires title.Some? ==> NoInvisible(title.value)
    requires CleanTitle(title).Some?
    ensures Tidy(CleanTitle(title).value)
  {
    var t := CleanText(title).value;
    if |t| > TITLE_MAX {
      assert CleanForm(t) && Tidy(t);
    }
  }

  /**
   * When no key or value has invisible code points, the characteristics that `clean_product`
   * produces pass `validate_characteristics`: every key and value is non-empty and stripped.
   */
  lemma CleanedCharacteristicsValid(c: Characteristics)
    requires c.Mapping? ==> forall i :: 0 <= i < |c.items| ==> NoInvisible(c.items[i].0) && NoInvisible(c.items[i].1)
    ensures CharacteristicsValid(Mapping(CleanedCharacteristics(c)))
  {
    if c.Mapping? {
      var d := CleanedCharacteristics(c);
      BuildItemsFromEntries(c.items, CleanItem);
      forall j | 0 <= j < |d| ensures !IsBlank(d[j].0) && !IsBlank(d[j].1) {
        assert d[j] in d;
        var i :| 0 <= i < |c.items| && CleanItem(c.items[i]) == Some(d[j]);
        CleanItemNotBlank(c.items[i]);
      }
    }
  }

  /** An item without invisible code points that survives cleaning has a non-blank key and value. */
  lemma CleanItemNotBlank(item: (PyStr, PyStr))
    requires NoInvisible(item.0) && NoInvisible(item.1)
    requires CleanItem(item).Some?
    ensures !IsBlank(CleanItem(item).value.0) && !IsBlank(CleanItem(item).value.1)
  {
    var (key, value) := CleanItem(item).value;
    assert Tidy(value);
    StripUnchanged(key);
    StripUnchanged(value);
  }

  /**
   * With invisible code points the cleaned characteristics can fail validation: a key made of a
   * zero-width space, a space and another zero-width space keeps its space through
   * `clean_text`, whose strip runs before the invisible code points are removed, and the key's
   * own strip then leaves it empty.
   */
  lemma CleanedCharacteristicsCanFail(t: PyStr)
    requires t == [0x200B, SPACE, 0x200B]
    ensures !CharacteristicsValid(Mapping(CleanedCharacteristics(Mapping([(t, t)]))))
  {
    BlankKeyItem(t);
    var items := [(t, t)];
    assert items[..0] == [];
    assert Build(items, CleanItem) == Assign([], [], [SPACE]);
  }

  lemma BlankKeyItem(t: PyStr)
    requires t == [0x200B, SPACE, 0x200B]
    ensures CleanItem((t, t)) == Some(([], [SPACE]))
  {
    CleanTextNotIdempotent();
    var u: PyStr := [SPACE];
    assert Strip(u) == [];
  }
}
