/** The field cleaners of cleaners/data_cleaner.py and `clean_product`, which applies them. */
module Cleaner {
  import opened Wrappers
  import opened Text
  import opened Dicts
  import opened Products
  import opened TextCleaning

  /** `clean_price`: a missing or negative price becomes `None`; any other price is kept. */
  function CleanPrice(price: Option<int>): (r: Option<int>)
    ensures r.Some? <==> price.Some? && price.value >= 0
    ensures r.Some? ==> r == price
  {
    if price.None? then None
    else if price.value < 0 then None
    else price
  }

  const TITLE_MAX := 500
  const DESCRIPTION_MAX := 10000
  const ELLIPSIS: PyStr := [DOT, DOT, DOT]

  /** Text longer than `limit` keeps its first `limit - 3` characters followed by `...`. */
  function Shorten(t: PyStr, limit: nat): (r: PyStr)
    requires limit >= 3
    ensures |r| <= limit
    ensures |t| <= limit ==> r == t
    ensures |t| > limit ==> |r| == limit && r[..limit - 3] == t[..limit - 3] && r[limit - 3..] == ELLIPSIS
    ensures CleanForm(t) ==> CleanForm(r)
    ensures CleanForm(t) && Tidy(t) ==> Tidy(r)
  {
    if |t| > limit then
      var r := t[..limit - 3] + ELLIPSIS;
      assert forall i :: 0 <= i < |r| ==> r[i] == if i < limit - 3 then t[i] else DOT;
      r
    else t
  }

  /**
   * `clean_title`: the cleaned title, cut to at most 500 characters, the last three of which are
   * then `...`; `None` when cleaning leaves nothing.
   */
  function CleanTitle(title: Option<PyStr>): (r: Option<PyStr>)
    ensures r.None? <==> CleanText(title).None?
    ensures r.Some? ==> |r.value| <= TITLE_MAX && CleanForm(r.value)
    ensures r.Some? && |CleanText(title).value| <= TITLE_MAX ==> r == CleanText(title)
    ensures r.Some? && |CleanText(title).value| > TITLE_MAX ==>
      && |r.value| == TITLE_MAX
      && r.value[..TITLE_MAX - 3] == CleanText(title).value[..TITLE_MAX - 3]
      && r.value[TITLE_MAX - 3..] == ELLIPSIS
  {
    if title.None? || title.value == [] then None
    else match CleanText(title)
      case None => None
      case Some(t) => Some(Shorten(t, TITLE_MAX))
  }

  /** `clean_description`: as `clean_title`, with a limit of 10000 characters. */
  function CleanDescription(description: Option<PyStr>): (r: Option<PyStr>)
    ensures r.None? <==> CleanText(description).None?
    ensures r.Some? ==> |r.value| <= DESCRIPTION_MAX && CleanForm(r.value)
    ensures r.Some? && |CleanText(description).value| <= DESCRIPTION_MAX ==> r == CleanText(description)
    ensures r.Some? && |CleanText(description).value| > DESCRIPTION_MAX ==>
      && |r.value| == DESCRIPTION_MAX
      && r.value[..DESCRIPTION_MAX - 3] == CleanText(description).value[..DESCRIPTION_MAX - 3]
      && r.value[DESCRIPTION_MAX - 3..] == ELLIPSIS
  {
    if description.None? || description.value == [] then None
    else match CleanText(description)
      case None => None
      case Some(t) => Some(Shorten(t, DESCRIPTION_MAX))
  }

  /** Cleaning an already cleaned title changes nothing, when the title had no invisible code points. */
  lemma CleanTitleIdempotent(title: Option<PyStr>)
    requires title.Some? ==> NoInvisible(title.value)
    ensures CleanTitle(CleanTitle(title)) == CleanTitle(title)
  {
    if CleanTitle(title).Some? {
      CleanTextFixedPoint(CleanTitle(title).value);
    }
  }

  lemma CleanDescriptionIdempotent(description: Option<PyStr>)
    requires description.Some? ==> NoInvisible(description.value)
    ensures CleanDescription(CleanDescription(description)) == CleanDescription(description)
  {
    if CleanDescription(description).Some? {
      CleanTextFixedPoint(CleanDescription(description).value);
    }
  }

  /** `k[0].upper() + k[1:] if len(k) > 1 else k.upper()`: in both cases the first character upper-cased. */
  function CapitalizeFirst(k: PyStr): (r: PyStr)
    requires k != []
    ensures r == UpperChar(k[0]) + k[1..]
  {
    if |k| > 1 then UpperChar(k[0]) + k[1..] else UpperChar(k[0])
  }

  /** A tidy key in clean form stays so when capitalized, and capitalizing it again changes nothing. */
  lemma CapitalizeFirstTidy(k: PyStr)
    requires CleanForm(k) && Tidy(k)
    ensures CleanForm(CapitalizeFirst(k)) && Tidy(CapitalizeFirst(k))
    ensures CapitalizeFirst(CapitalizeFirst(k)) == CapitalizeFirst(k)
  {
    var u := UpperChar(k[0]);
    UpperCharPlain(k[0]);
    var r := CapitalizeFirst(k);
    assert r == u + k[1..];
    CapitalizedForm(u, k, r);
    UpperCharStable(k[0]);
    assert r == [u[0]] + r[1..];
  }

  /** Upper-casing a plain character gives plain characters. */
  lemma UpperCharPlain(c: CodePoint)
    requires !IsSpace(c) && !IsInvisible(c) && !IsSurrogate(c)
    ensures forall i :: 0 <= i < |UpperChar(c)| ==>
      !IsSpace(UpperChar(c)[i]) && !IsInvisible(UpperChar(c)[i]) && !IsSurrogate(UpperChar(c)[i])
  {
  }

  lemma CapitalizedForm(u: PyStr, k: PyStr, r: PyStr)
    requires CleanForm(k) && Tidy(k) && u != []
    requires forall i :: 0 <= i < |u| ==> !IsSpace(u[i]) && !IsInvisible(u[i]) && !IsSurrogate(u[i])
    requires r == u + k[1..]
    ensures CleanForm(r) && Tidy(r)
  {
    forall i | 0 <= i < |r|
      ensures !IsLineBreakOrTab(r[i]) && !IsInvisible(r[i]) && !IsSurrogate(r[i])
      ensures IsSpace(r[i]) ==> r[i] == SPACE
    {
      if i >= |u| {
        assert r[i] == k[i - |u| + 1];
      }
    }
    forall i | 0 <= i < |r| - 1
      ensures !(IsSpace(r[i]) && IsSpace(r[i + 1]))
    {
      if i >= |u| {
        assert r[i] == k[i - |u| + 1] && r[i + 1] == k[i - |u| + 2];
      }
    }
    assert r[|r| - 1] == if |k| > 1 then k[|k| - 1] else u[|u| - 1];
  }

  /** A non-empty key without whitespace at its ends keeps that property when capitalized. */
  lemma CapitalizeFirstStripped(k: PyStr)
    requires k != [] && !IsSpace(k[0]) && !IsSpace(k[|k| - 1])
    ensures Strip(CapitalizeFirst(k)) == CapitalizeFirst(k)
  {
    var u := UpperChar(k[0]);
    var r := CapitalizeFirst(k);
    assert r[0] == u[0];
    assert r[|r| - 1] == if |k| > 1 then k[|k| - 1] else u[|u| - 1];
    StripUnchanged(r);
  }

  /** A cleaned key stripped once more and, unless that leaves nothing, capitalized. */
  function NormalizeKey(key: PyStr): (r: PyStr)
    ensures Strip(key) == [] ==> r == []
    ensures Strip(key) != [] ==> r == UpperChar(Strip(key)[0]) + Strip(key)[1..]
    ensures Strip(r) == r
    ensures CleanForm(key) && Tidy(key) ==> CleanForm(r) && Tidy(r)
  {
    var k := Strip(key);
    if k != [] then
      NormalizeKeyForm(key, k);
      CapitalizeFirst(k)
    else k
  }

  lemma NormalizeKeyForm(key: PyStr, k: PyStr)
    requires k == Strip(key) && k != []
    ensures Strip(CapitalizeFirst(k)) == CapitalizeFirst(k)
    ensures CleanForm(key) && Tidy(key) ==> CleanForm(CapitalizeFirst(k)) && Tidy(CapitalizeFirst(k))
  {
    CapitalizeFirstStripped(k);
    if CleanForm(key) && Tidy(key) {
      StripUnchanged(key);
      CapitalizeFirstTidy(k);
    }
  }

  /** Normalizing a normalized key in clean form changes nothing. */
  lemma NormalizeKeyIdempotent(key: PyStr)
    requires CleanForm(key) && Tidy(key)
    ensures NormalizeKey(NormalizeKey(key)) == NormalizeKey(key)
  {
    StripUnchanged(key);
    CapitalizeFirstTidy(key);
    StripUnchanged(CapitalizeFirst(key));
  }

  /**
   * One item of the loop in `clean_characteristics`: both key and value are cleaned, and the
   * item is skipped unless both are present; the key is then normalized.
   */
  function CleanItem(item: (PyStr, PyStr)): (r: Option<(PyStr, PyStr)>)
    ensures r.Some? <==> CleanText(Some(item.0)).Some? && CleanText(Some(item.1)).Some?
    ensures r.Some? ==> Some(r.value.1) == CleanText(Some(item.1))
    ensures r.Some? ==> r.value.0 == NormalizeKey(CleanText(Some(item.0)).value)
    ensures r.Some? ==> Strip(r.value.0) == r.value.0
    ensures r.Some? && NoInvisible(item.0) ==> CleanForm(r.value.0) && Tidy(r.value.0)
  {
    var key := CleanText(Some(item.0));
    var value := CleanText(Some(item.1));
    if key.None? || value.None? then None
    else Some((NormalizeKey(key.value), value.value))
  }

  /** What `clean_characteristics` returns: `{}` for anything but a dict. */
  function CleanedCharacteristics(c: Characteristics): (d: Dict<PyStr, PyStr>)
    ensures DistinctKeys(d)
    ensures c.NonMapping? ==> d == []
    ensures forall p :: p in d ==> CleanForm(p.1) && Strip(p.0) == p.0
  {
    if c.NonMapping? then []
    else
      BuildItemsFromEntries(c.items, CleanItem);
      Build(c.items, CleanItem)
  }

  /** `clean_characteristics` */
  method CleanCharacteristics(c: Characteristics) returns (cleaned: Dict<PyStr, PyStr>)
    ensures c.NonMapping? ==> cleaned == []
    ensures c.Mapping? ==> cleaned == Build(c.items, CleanItem)
  {
    if c.NonMapping? {
      return [];
    }
    cleaned := [];
    for i := 0 to |c.items|
      invariant cleaned == Build(c.items[..i], CleanItem)
    {
      BuildStep(c.items, i, CleanItem);
      var (key, value) := c.items[i];
      var cleanKey := CleanText(Some(key));
      var cleanValue := CleanText(Some(value));
      if cleanKey.None? || cleanValue.None? {
        assert CleanItem(c.items[i]).None?;
        continue;
      }
      var k := NormalizeKey(cleanKey.value);
      cleaned := Assign(cleaned, k, cleanValue.value);
    }
    assert c.items[..|c.items|] == c.items;
  }

  /**
   * A key is in the cleaned dict exactly when some item's key cleans to it (with a value that
   * cleans to something), and its value is the cleaned value of the last such item.
   */
  lemma CleanedCharacteristicsLastWins(items: Dict<PyStr, PyStr>, k: PyStr)
    ensures Get(CleanedCharacteristics(Mapping(items)), k).None? <==>
      forall i :: 0 <= i < |items| ==> !HasKey(CleanItem, items[i], k)
    ensures Get(CleanedCharacteristics(Mapping(items)), k).Some? ==>
      exists i :: 0 <= i < |items| && HasKey(CleanItem, items[i], k) &&
        Some(Get(CleanedCharacteristics(Mapping(items)), k).value) == CleanText(Some(items[i].1)) &&
        forall j :: i < j < |items| ==> !HasKey(CleanItem, items[j], k)
  {
    BuildLastWins(items, CleanItem, k);
  }

  /** No text of a product field contains an invisible code point. */
  predicate NoInvisibleText(p: Product) {
    && (p.title.Some? ==> NoInvisible(p.title.value))
    && (p.description.Some? ==> NoInvisible(p.description.value))
    && (p.characteristics.Some? && p.characteristics.value.Mapping? ==>
          forall i :: 0 <= i < |p.characteristics.value.items| ==>
            NoInvisible(p.characteristics.value.items[i].0) && NoInvisible(p.characteristics.value.items[i].1))
  }

  /**
   * `clean_product`: the URL and image URL pass through, the other fields are cleaned, and the
   * characteristics are always a dict (a missing entry counts as `{}`).
   */
  function CleanProduct(p: Product): (r: Product)
    ensures r.url == p.url && r.imageUrl == p.imageUrl
    ensures r.title == CleanTitle(p.title) && r.price == CleanPrice(p.price)
    ensures r.description == CleanDescription(p.description)
    ensures r.characteristics == Some(Mapping(CleanedCharacteristics(CharacteristicsOrEmpty(p))))
    ensures p.characteristics.None? ==> r.characteristics == Some(Mapping([]))
    ensures r.title.Some? ==> |r.title.value| <= TITLE_MAX
    ensures r.price.Some? ==> r.price.value >= 0
    ensures r.description.Some? ==> |r.description.value| <= DESCRIPTION_MAX
    ensures r.characteristics.Some? && r.characteristics.value.Mapping?
    ensures DistinctKeys(r.characteristics.value.items)
  {
    Product(
      p.url,
      CleanTitle(p.title),
      CleanPrice(p.price),
      CleanDescription(p.description),
      Some(Mapping(CleanedCharacteristics(CharacteristicsOrEmpty(p)))),
      p.imageUrl)
  }

  /** Cleaning the items of a dict without invisible code points, and cleaning the result again, agree. */
  lemma CleanedCharacteristicsIdempotent(c: Characteristics)
    requires c.Mapping? ==> forall i :: 0 <= i < |c.items| ==> NoInvisible(c.items[i].0) && NoInvisible(c.items[i].1)
    ensures CleanedCharacteristics(Mapping(CleanedCharacteristics(c))) == CleanedCharacteristics(c)
  {
    var d := CleanedCharacteristics(c);
    if c.Mapping? {
      BuildItemsFromEntries(c.items, CleanItem);
      forall i | 0 <= i < |d|
        ensures CleanItem(d[i]) == Some(d[i])
      {
        assert d[i] in d;
        var j :| 0 <= j < |c.items| && CleanItem(c.items[j]) == Some(d[i]);
        CleanItemFixedPoint(c.items[j]);
      }
      BuildOfFixedItems(d, CleanItem);
    }
  }

  /** A cleaned item of text without invisible code points is cleaned to itself. */
  lemma CleanItemFixedPoint(item: (PyStr, PyStr))
    requires NoInvisible(item.0) && NoInvisible(item.1)
    requires CleanItem(item).Some?
    ensures CleanItem(CleanItem(item).value) == CleanItem(item)
  {
    var (k, v) := CleanItem(item).value;
    CleanTextFixedPoint(k);
    CleanTextFixedPoint(v);
    NormalizeKeyIdempotent(CleanText(Some(item.0)).value);
  }

  /** On a product whose texts carry no invisible code points, `clean_product` is idempotent. */
  lemma CleanProductIdempotent(p: Product)
    requires NoInvisibleText(p)
    ensures CleanProduct(CleanProduct(p)) == CleanProduct(p)
  {
    CleanTitleIdempotent(p.title);
    CleanDescriptionIdempotent(p.description);
    CleanedCharacteristicsIdempotent(CharacteristicsOrEmpty(p));
  }
}
