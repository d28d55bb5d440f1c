/**
 * Python `str` as the sequence of its code points.  Python strings may hold lone surrogates
 * (U+D800..U+DFFF), which Dafny's `char` cannot, so a code point is an integer here.
 * This module holds the few `str` primitives the pipeline uses: whitespace as Python's
 * `str.isspace` and regex `\s` see it, `strip`, `startswith`, `in`, `find` and `join`.
 */
module Text {
  import opened Wrappers

  type CodePoint = c: int | 0 <= c < 0x11_0000
  type PyStr = seq<CodePoint>

  /** Python `bytes`: a sequence of octets. */
  type Byte = b: int | 0 <= b < 0x100

  /** A Dafny string literal as a Python string. */
  function Lit(s: string): (r: PyStr)
    ensures |r| == |s|
    ensures forall i :: 0 <= i < |s| ==> r[i] == s[i] as int
  {
    seq(|s|, i requires 0 <= i < |s| => s[i] as int)
  }

  const SPACE: CodePoint := 0x20
  const SLASH: CodePoint := 0x2F
  const DOT: CodePoint := 0x2E

  predicate IsSurrogate(c: CodePoint) {
    0xD800 <= c <= 0xDFFF
  }

  /** A string without lone surrogates: one that UTF-8 can encode. */
  predicate WellFormed(s: PyStr) {
    forall i :: 0 <= i < |s| ==> !IsSurrogate(s[i])
  }

  /** The string with every surrogate removed, in order. */
  function WithoutSurrogates(s: PyStr): (r: PyStr)
    ensures WellFormed(r)
    ensures |r| <= |s|
    ensures forall c :: c in r <==> c in s && !IsSurrogate(c)
    ensures WellFormed(s) ==> r == s
  {
    if s == [] then []
    else
      assert forall c :: c in s <==> c == s[0] || c in s[1..];
      (if IsSurrogate(s[0]) then [] else [s[0]]) + WithoutSurrogates(s[1..])
  }

  /**
   * Python's `str.isspace()` for one code point, which is also what `\s` matches in a `str`
   * pattern and what `str.strip()` removes: the characters of bidirectional class WS, B or S
   * and those of general category Zs.
   */
  predicate IsSpace(c: CodePoint) {
    || 0x09 <= c <= 0x0D || 0x1C <= c <= 0x20 || c == 0x85 || c == 0xA0 || c == 0x1680
    || 0x2000 <= c <= 0x200A || c == 0x2028 || c == 0x2029 || c == 0x202F || c == 0x205F
    || c == 0x3000
  }

  /** `\n`, `\r` or `\t`. */
  predicate IsLineBreakOrTab(c: CodePoint) {
    c == 0x0A || c == 0x0D || c == 0x09
  }

  /** The zero-width and bidirectional-control code points U+200B..U+200F, U+202A..U+202E, U+2060..U+206F. */
  predicate IsInvisible(c: CodePoint) {
    0x200B <= c <= 0x200F || 0x202A <= c <= 0x202E || 0x2060 <= c <= 0x206F
  }

  predicate IsAsciiDigit(c: CodePoint) {
    0x30 <= c <= 0x39
  }

  predicate NoInvisible(s: PyStr) {
    forall i :: 0 <= i < |s| ==> !IsInvisible(s[i])
  }

  /** The characters of `s` that are not whitespace, in order. */
  function NonSpace(s: PyStr): (r: PyStr)
    ensures forall i :: 0 <= i < |r| ==> !IsSpace(r[i])
    ensures |r| <= |s|
  {
    if s == [] then [] else (if IsSpace(s[0]) then [] else [s[0]]) + NonSpace(s[1..])
  }

  /** An all-whitespace string has no non-whitespace text. */
  lemma {:induction false} NonSpaceOfSpaces(s: PyStr)
    requires forall i :: 0 <= i < |s| ==> IsSpace(s[i])
    ensures NonSpace(s) == []
  {
    if s != [] {
      NonSpaceOfSpaces(s[1..]);
    }
  }

  /** `NonSpace` distributes over concatenation. */
  lemma {:induction false} NonSpaceAppend(s: PyStr, t: PyStr)
    ensures NonSpace(s + t) == NonSpace(s) + NonSpace(t)
  {
    if s == [] {
      assert s + t == t;
    } else {
      assert (s + t)[1..] == s[1..] + t;
      NonSpaceAppend(s[1..], t);
    }
  }

  /**
   * `c.upper()` for one code point, for the scripts product data here is written in: ASCII,
   * the Latin-1 letters (with `ß` becoming `SS` and `ÿ` becoming `Ÿ`, `µ` becoming `Μ`) and the
   * basic Cyrillic alphabet with its `ѐ`..`џ` block.  Every other code point is left as it is.
   */
  function UpperChar(c: CodePoint): (r: PyStr)
    ensures 1 <= |r| <= 2
    ensures IsSpace(c) || IsInvisible(c) || IsSurrogate(c) ==> r == [c]
    ensures r != [c] ==> forall i :: 0 <= i < |r| ==> !IsSpace(r[i]) && !IsInvisible(r[i]) && !IsSurrogate(r[i])
  {
    if 0x61 <= c <= 0x7A then [c - 32]
    else if c == 0xB5 then [0x39C]
    else if c == 0xDF then [0x53, 0x53]
    else if 0xE0 <= c <= 0xFE && c != 0xF7 then [c - 32]
    else if c == 0xFF then [0x178]
    else if 0x430 <= c <= 0x44F then [c - 32]
    else if 0x450 <= c <= 0x45F then [c - 80]
    else [c]
  }

  /** What `UpperChar` produces starts with a character it leaves alone. */
  lemma UpperCharStable(c: CodePoint)
    ensures UpperChar(UpperChar(c)[0]) == [UpperChar(c)[0]]
  {
  }

  /** `s.startswith(p)` */
  predicate StartsWith(s: PyStr, p: PyStr) {
    |p| <= |s| && s[..|p|] == p
  }

  /** `p` occurs in `s` starting at index `i`. */
  predicate OccursAt(s: PyStr, p: PyStr, i: int) {
    0 <= i && i + |p| <= |s| && s[i..i + |p|] == p
  }

  /** `p in s` */
  predicate Contains(s: PyStr, p: PyStr) {
    exists i | 0 <= i <= |s| :: OccursAt(s, p, i)
  }

  /** `s.find(p, from)`: the first index at or after `from` where `p` occurs. */
  function FindFrom(s: PyStr, p: PyStr, from: nat): (r: Option<nat>)
    requires from <= |s|
    ensures r.Some? ==> from <= r.value && OccursAt(s, p, r.value)
    ensures r.Some? ==> forall j :: from <= j < r.value ==> !OccursAt(s, p, j)
    ensures r.None? ==> forall j :: from <= j ==> !OccursAt(s, p, j)
    decreases |s| - from
  {
    if |s| - from < |p| then None
    else if s[from..from + |p|] == p then Some(from)
    else FindFrom(s, p, from + 1)
  }

  /** The part of `s` before the first occurrence of `p`, all of `s` without one: `s.split(p)[0]`. */
  function BeforeFirst(s: PyStr, p: PyStr): (r: PyStr)
    ensures StartsWith(s, r)
    ensures !Contains(s, p) ==> r == s
    ensures Contains(s, p) ==> OccursAt(s, p, |r|) && forall j :: 0 <= j < |r| ==> !OccursAt(s, p, j)
  {
    match FindFrom(s, p, 0)
    case None => s
    case Some(i) => s[..i]
  }

  /** The part of `s` after its last `/`, all of `s` without one: `s.split("/")[-1]`. */
  function LastSegment(s: PyStr): (r: PyStr)
    ensures |r| <= |s| && r == s[|s| - |r|..]
    ensures SLASH !in r
    ensures |r| < |s| ==> s[|s| - |r| - 1] == SLASH
  {
    if s == [] || s[|s| - 1] == SLASH then []
    else LastSegment(s[..|s| - 1]) + [s[|s| - 1]]
  }

  /** After a `/` followed by a slash-free tail, the last segment is that tail. */
  lemma {:induction false} LastSegmentAfterSlash(p: PyStr, t: PyStr)
    requires SLASH !in t
    ensures LastSegment(p + [SLASH] + t) == t
    decreases |t|
  {
    var s := p + [SLASH] + t;
    if t != [] {
      assert s[..|s| - 1] == p + [SLASH] + t[..|t| - 1];
      LastSegmentAfterSlash(p, t[..|t| - 1]);
      assert t == t[..|t| - 1] + [t[|t| - 1]];
    }
  }

  /** When the first character of `p` does not occur in `e`, the first `p` in `e + p` is the appended one. */
  lemma BeforeFirstAppended(e: PyStr, p: PyStr)
    requires p != [] && p[0] !in e
    ensures BeforeFirst(e + p, p) == e
  {
    var s := e + p;
    assert OccursAt(s, p, |e|) by { assert s[|e|..|e| + |p|] == p; }
    var r := BeforeFirst(s, p);
    assert r == s[..|r|] == e;
  }

  /** `s.lstrip()`: the removed prefix is all whitespace and what is left does not start with any. */
  function StripLeading(s: PyStr): (r: PyStr)
    ensures |r| <= |s| && r == s[|s| - |r|..]
    ensures forall i :: 0 <= i < |s| - |r| ==> IsSpace(s[i])
    ensures r != [] ==> !IsSpace(r[0])
  {
    if s != [] && IsSpace(s[0]) then StripLeading(s[1..]) else s
  }

  /** `s.rstrip()`: the removed suffix is all whitespace and what is left does not end with any. */
  function StripTrailing(s: PyStr): (r: PyStr)
    ensures |r| <= |s| && r == s[..|r|]
    ensures forall i :: |r| <= i < |s| ==> IsSpace(s[i])
    ensures r != [] ==> !IsSpace(r[|r| - 1])
  {
    if s != [] && IsSpace(s[|s| - 1]) then StripTrailing(s[..|s| - 1]) else s
  }

  /** `s.strip()` */
  function Strip(s: PyStr): (r: PyStr)
    ensures |r| <= |s|
    ensures r != [] ==> !IsSpace(r[0]) && !IsSpace(r[|r| - 1])
    ensures r == [] <==> forall i :: 0 <= i < |s| ==> IsSpace(s[i])
  {
    var t := StripLeading(s);
    var r := StripTrailing(t);
    StripEnds(s, t, r);
    r
  }

  lemma StripEnds(s: PyStr, t: PyStr, r: PyStr)
    requires t == StripLeading(s) && r == StripTrailing(t)
    ensures r != [] ==> !IsSpace(r[0]) && !IsSpace(r[|r| - 1])
    ensures r == [] <==> forall i :: 0 <= i < |s| ==> IsSpace(s[i])
  {
    assert r != [] ==> r[0] == t[0];
    assert t != [] ==> t[0] == s[|s| - |t|];
  }

  /** `Strip` gives back the slice of `s` between its leading and its trailing whitespace. */
  lemma StripSlice(s: PyStr) returns (a: nat)
    ensures a + |Strip(s)| <= |s| && Strip(s) == s[a..a + |Strip(s)|]
    ensures forall i :: 0 <= i < a ==> IsSpace(s[i])
    ensures forall i :: a + |Strip(s)| <= i < |s| ==> IsSpace(s[i])
  {
    var t := StripLeading(s);
    a := |s| - |t|;
    assert t == s[a..];
    var r := StripTrailing(t);
    forall i | a + |r| <= i < |s| ensures IsSpace(s[i]) {
      assert s[i] == t[i - a];
    }
  }

  /** A string with no whitespace at either end is its own strip. */
  lemma StripUnchanged(s: PyStr)
    requires s != [] ==> !IsSpace(s[0]) && !IsSpace(s[|s| - 1])
    ensures Strip(s) == s
  {
  }

  /** `Strip(s)` is empty exactly when `s` is all whitespace, so Python's `not s.strip()`. */
  predicate IsBlank(s: PyStr) {
    Strip(s) == []
  }

  /** `sep.join(parts)` */
  function Join<T>(sep: seq<T>, parts: seq<seq<T>>): (r: seq<T>)
    ensures parts == [] ==> r == []
    ensures |parts| == 1 ==> r == parts[0]
    ensures |parts| == 2 ==> r == parts[0] + sep + parts[1]
  {
    if parts == [] then []
    else if |parts| == 1 then parts[0]
    else parts[0] + sep + Join(sep, parts[1..])
  }
}
