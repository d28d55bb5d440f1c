/** The text and image-URL helpers of utils/helpers.py. */
module Helpers {
  import opened Wrappers
  import opened Text
  import Utf8
  import Base64

  /** A slash and the Base64 encoding of `https:`: the mark of an obfuscated image URL. */
  const MARKER: PyStr := Lit("/aHR0cHM6")
  const JPG: PyStr := Lit(".jpg")

  /**
   * `normalize_text`: `v.encode("utf-8", errors="ignore").decode("utf-8")`.  The round trip
   * through UTF-8 drops exactly the lone surrogates; `None` stays `None`.
   */
  function NormalizeText(v: Option<PyStr>): (r: Option<PyStr>)
    ensures r.None? <==> v.None?
    ensures v.Some? ==> r.value == WithoutSurrogates(v.value)
    ensures v.Some? && WellFormed(v.value) ==> r == v
    ensures r.Some? ==> WellFormed(r.value)
  {
    if v.None? then None
    else
      var bytes := Utf8.EncodeIgnore(v.value);
      Utf8.EncodeIgnoreSkipsSurrogates(v.value);
      Utf8.DecodeEncode(WithoutSurrogates(v.value));
      Some(Utf8.Decode(bytes).value)
  }

  /** `NormalizeText` on a string that is known to be present. */
  function Normalized(s: PyStr): (r: PyStr)
    ensures Some(r) == NormalizeText(Some(s))
    ensures r == WithoutSurrogates(s) && WellFormed(r)
  {
    NormalizeText(Some(s)).value
  }

  /** The part of an obfuscated URL that carries the address: `url.split("/")[-1].split(".jpg")[0]`. */
  function EncodedSegment(url: PyStr): PyStr {
    BeforeFirst(LastSegment(url), JPG)
  }

  /**
   * The address an obfuscated URL carries: its encoded segment decoded as Base64 and then as
   * UTF-8, or `None` when either decoding fails.
   */
  function DecodedAddress(url: PyStr): Option<PyStr> {
    match Base64.Decode(EncodedSegment(url))
    case None => None
    case Some(bytes) => Utf8.Decode(bytes)
  }

  /**
   * `normalize_image_url`: a URL carrying the marker has its last path segment, cut before its
   * first `.jpg`, decoded as Base64 and then as UTF-8; if either decoding fails, or the marker
   * is absent, the URL comes back as it was.
   */
  function NormalizeImageUrl(url: Option<PyStr>): (r: Option<PyStr>)
    ensures url.None? || url.value == [] || !Contains(url.value, MARKER) ==> r == url
    ensures r != url ==> url.Some? && Contains(url.value, MARKER) && r == DecodedAddress(url.value)
    ensures url.Some? && Contains(url.value, MARKER) && DecodedAddress(url.value).None? ==> r == url
    ensures url.Some? && url.value != [] && Contains(url.value, MARKER) && DecodedAddress(url.value).Some? ==>
      r == DecodedAddress(url.value)
    ensures r.Some? <==> url.Some?
  {
    if url.None? || url.value == [] || !Contains(url.value, MARKER) then url
    else match DecodedAddress(url.value)
      case None => url
      case Some(decoded) => Some(decoded)
  }

  /**
   * Round trip: an address that starts with `https:`, encoded as UTF-8 and then Base64 and
   * placed as the last path segment before `.jpg`, is recovered exactly, provided its encoding
   * has no `/` (which would split the segment).
   */
  lemma ImageUrlRoundTrip(prefix: PyStr, s: PyStr)
    requires WellFormed(s) && StartsWith(s, Lit("https:"))
    requires SLASH !in Base64.Encode(Utf8.EncodeIgnore(s))
    ensures NormalizeImageUrl(Some(prefix + [SLASH] + Base64.Encode(Utf8.EncodeIgnore(s)) + JPG)) == Some(s)
  {
    var bytes := Utf8.EncodeIgnore(s);
    var e := Base64.Encode(bytes);
    var url := prefix + [SLASH] + e + JPG;
    EncodingStartsWithMarker(s);
    assert e[..8] == Lit("aHR0cHM6");
    MarkerFollowsPrefix(prefix, e);
    Base64.EncodeHasNoDot(bytes);
    DecodesSegment(prefix, e);
    Base64.DecodeEncode(bytes);
    Utf8.DecodeEncode(s);
    assert url != [] && Contains(url, MARKER);
    assert Base64.Decode(EncodedSegment(url)) == Some(bytes);
  }

  lemma MarkerFollowsPrefix(prefix: PyStr, e: PyStr)
    requires |e| >= 8 && e[..8] == Lit("aHR0cHM6")
    ensures Contains(prefix + [SLASH] + e + JPG, MARKER)
  {
    var url := prefix + [SLASH] + e + JPG;
    assert url[|prefix|..|prefix| + |MARKER|] == [SLASH] + e[..8];
    assert OccursAt(url, MARKER, |prefix|);
  }

  /** The segment taken from `prefix/e.jpg` is `e` when `e` has no `/` and no `.`. */
  lemma DecodesSegment(prefix: PyStr, e: PyStr)
    requires SLASH !in e && DOT !in e
    ensures EncodedSegment(prefix + [SLASH] + e + JPG) == e
  {
    assert JPG == [DOT, 0x6A, 0x70, 0x67];
    assert prefix + [SLASH] + e + JPG == prefix + [SLASH] + (e + JPG);
    LastSegmentAfterSlash(prefix, e + JPG);
    BeforeFirstAppended(e, JPG);
  }

  /** The Base64 form of the UTF-8 of any `https:` address starts with `aHR0cHM6`. */
  lemma EncodingStartsWithMarker(s: PyStr)
    requires StartsWith(s, Lit("https:"))
    ensures Base64.Encode(Utf8.EncodeIgnore(s)) == Lit("aHR0cHM6") + Base64.Encode(Utf8.EncodeIgnore(s[6..]))
  {
    var h, t := Lit("https:"), s[6..];
    assert s == h + t;
    calc {
      Base64.Encode(Utf8.EncodeIgnore(s));
      { Utf8.EncodeIgnoreAppend(h, t); }
      Base64.Encode(Utf8.EncodeIgnore(h) + Utf8.EncodeIgnore(t));
      { HttpsBytes(); }
      Base64.Encode(HTTPS_BYTES + Utf8.EncodeIgnore(t));
      { Base64.EncodeAppend(HTTPS_BYTES, Utf8.EncodeIgnore(t)); }
      Base64.Encode(HTTPS_BYTES) + Base64.Encode(Utf8.EncodeIgnore(t));
      { HttpsEncoding(); }
      Lit("aHR0cHM6") + Base64.Encode(Utf8.EncodeIgnore(t));
    }
  }

  const HTTPS_BYTES: seq<Byte> := [0x68, 0x74, 0x74, 0x70, 0x73, 0x3A]

  lemma HttpsBytes()
    ensures Utf8.EncodeIgnore(Lit("https:")) == HTTPS_BYTES
  {
    assert Lit("https:") == [0x68, 0x74, 0x74, 0x70, 0x73, 0x3A];
  }

  lemma HttpsEncoding()
    ensures Base64.Encode(HTTPS_BYTES) == Lit("aHR0cHM6")
  {
    assert Lit("aHR0cHM6") == [0x61, 0x48, 0x52, 0x30, 0x63, 0x48, 0x4D, 0x36];
    assert HTTPS_BYTES[3..] == [0x70, 0x73, 0x3A];
  }
}
