/**
 * The product record that flows from extraction through cleaning to validation: the dict built
 * at src/parser.py:37-44, whose keys every later stage reads with `product.get(...)`.
 */
module Products {
  import opened Wrappers
  import opened Text
  import opened Dicts

  /** The value stored under "characteristics": a dict of strings, or anything else. */
  datatype Characteristics = Mapping(items: Dict<PyStr, PyStr>) | NonMapping

  /**
   * A product record.  For the string and price fields `None` stands both for a missing key and
   * for a key holding `None`, which every stage treats alike.  For "characteristics", which is
   * read with a default of `{}`, `None` is a missing key and a key holding `None` (or any other
   * non-dict) is `Some(NonMapping)`.
   */
  datatype Product = Product(
    url: Option<PyStr>,
    title: Option<PyStr>,
    price: Option<int>,
    description: Option<PyStr>,
    characteristics: Option<Characteristics>,
    imageUrl: Option<PyStr>)

  /** `product.get("characteristics", {})` */
  function CharacteristicsOrEmpty(p: Product): Characteristics {
    if p.characteristics.None? then Mapping([]) else p.characteristics.value
  }
}
