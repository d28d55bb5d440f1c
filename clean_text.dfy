/**
 * `clean_text` of cleaners/data_cleaner.py, the text normalization every field cleaner starts
 * from, with the passes it makes over the text.
 */
module TextCleaning {
  import opened Wrappers
  import opened Text
  import Helpers

  /** The two character classes whose runs `clean_text` collapses into one space. */
  datatype RunClass = LineBreaksAndTabs | Whitespace

  predicate InClass(c: CodePoint, k: RunClass) {
    match k
    case LineBreaksAndTabs => IsLineBreakOrTab(c)
    case Whitespace => IsSpace(c)
  }

  /** No two characters of class `k` stand next to each other. */
  predicate NoAdjacentInClass(s: PyStr, k: RunClass) {
    forall i, j :: 0 <= i < |s| && 0 <= j < |s| && j == i + 1 ==> !(InClass(s[i], k) && InClass(s[j], k))
  }

  /** `s` without its leading run of characters of class `k`. */
  function DropRun(s: PyStr, k: RunClass): (r: PyStr)
    ensures |r| <= |s| && r == s[|s| - |r|..]
    ensures r != [] ==> !InClass(r[0], k)
    ensures NonSpace(r) == NonSpace(s)
  {
    if s != [] && InClass(s[0], k) then DropRun(s[1..], k) else s
  }

  /**
   * `re.sub(r'[\n\r\t]+', ' ', s)` for `LineBreaksAndTabs` and `re.sub(r'\s+', ' ', s)` for
   * `Whitespace`: each maximal run of characters of the class becomes a single space.  Only
   * whitespace changes; no character of the class is left but a space, never two in a row.
   */
  function CollapseRuns(s: PyStr, k: RunClass): (r: PyStr)
    ensures forall i :: 0 <= i < |r| && InClass(r[i], k) ==> r[i] == SPACE
    ensures NoAdjacentInClass(r, k)
    ensures s != [] && !InClass(s[0], k) ==> r != [] && r[0] == s[0]
    ensures r == [] <==> s == []
    decreases |s|
  {
    if s == [] then []
    else if InClass(s[0], k) then
      var rest := CollapseRuns(DropRun(s[1..], k), k);
      PrependCollapsed(SPACE, rest, k);
      [SPACE] + rest
    else
      var rest := CollapseRuns(s[1..], k);
      PrependCollapsed(s[0], rest, k);
      [s[0]] + rest
  }

  /** A character put in front of collapsed text keeps it collapsed, if it is not a second class character. */
  lemma PrependCollapsed(c: CodePoint, rest: PyStr, k: RunClass)
    requires forall i :: 0 <= i < |rest| && InClass(rest[i], k) ==> rest[i] == SPACE
    requires NoAdjacentInClass(rest, k)
    requires InClass(c, k) ==> c == SPACE && (rest != [] ==> !InClass(rest[0], k))
    ensures forall i :: 0 <= i < |[c] + rest| && InClass(([c] + rest)[i], k) ==> ([c] + rest)[i] == SPACE
    ensures NoAdjacentInClass([c] + rest, k)
  {
    var r := [c] + rest;
    assert r[1..] == rest;
  }

  /** Collapsing keeps the non-whitespace text, and brings in no character but a space. */
  lemma {:induction false} CollapseRunsKeeps(s: PyStr, k: RunClass)
    ensures NonSpace(CollapseRuns(s, k)) == NonSpace(s)
    ensures forall c :: c in CollapseRuns(s, k) ==> c == SPACE || (c in s && !InClass(c, k))
    decreases |s|
  {
    if s != [] {
      var r := CollapseRuns(s, k);
      if InClass(s[0], k) {
        var t := DropRun(s[1..], k);
        CollapseRunsKeeps(t, k);
        assert r == [SPACE] + CollapseRuns(t, k);
        assert NonSpace(r) == NonSpace(CollapseRuns(t, k));
        assert forall c :: c in t ==> c in s;
      } else {
        CollapseRunsKeeps(s[1..], k);
        assert r == [s[0]] + CollapseRuns(s[1..], k);
        assert r[1..] == CollapseRuns(s[1..], k);
        assert forall c :: c in s[1..] ==> c in s;
      }
    }
  }

  /** Collapsing keeps the non-whitespace text. */
  lemma CollapseRunsNonSpace(s: PyStr, k: RunClass)
    ensures NonSpace(CollapseRuns(s, k)) == NonSpace(s)
  {
    CollapseRunsKeeps(s, k);
  }

  /** `re.sub(r'[\u200b-\u200f\u202a-\u202e\u2060-\u206f]', '', s)` */
  function RemoveInvisible(s: PyStr): (r: PyStr)
    ensures NoInvisible(r)
    ensures |r| <= |s|
    ensures forall c :: c in r <==> c in s && !IsInvisible(c)
    ensures NoInvisible(s) ==> r == s
  {
    if s == [] then []
    else
      var rest := RemoveInvisible(s[1..]);
      assert forall c :: c in s <==> c == s[0] || c in s[1..];
      (if IsInvisible(s[0]) then [] else [s[0]]) + rest
  }

  /** What `clean_text` returns: non-empty, one kind of space only, nothing invisible or unencodable. */
  predicate CleanForm(s: PyStr) {
    && s != []
    && forall i :: 0 <= i < |s| ==>
         && !IsLineBreakOrTab(s[i]) && !IsInvisible(s[i]) && !IsSurrogate(s[i])
         && (IsSpace(s[i]) ==> s[i] == SPACE)
  }

  predicate NoAdjacentSpaces(s: PyStr) {
    forall i :: 0 <= i < |s| - 1 ==> !(IsSpace(s[i]) && IsSpace(s[i + 1]))
  }

  /** No whitespace at either end and never two whitespace characters in a row. */
  predicate Tidy(s: PyStr) {
    && (s != [] ==> !IsSpace(s[0]) && !IsSpace(s[|s| - 1]))
    && NoAdjacentSpaces(s)
  }

  /**
   * `clean_text`: empty or missing text gives `None`; otherwise the text is normalized, runs of
   * line breaks and tabs and then runs of whitespace become single spaces, the ends are stripped
   * and invisible code points removed, and an empty result becomes `None`.
   */
  function CleanText(text: Option<PyStr>): (r: Option<PyStr>)
    ensures text.None? || text.value == [] ==> r.None?
    ensures r.Some? ==> CleanForm(r.value)
    ensures r.Some? ==> NonSpace(r.value) == NonSpace(RemoveInvisible(WithoutSurrogates(text.value)))
    ensures r.None? && text.Some? ==> forall c :: c in text.value ==> IsSpace(c) || IsInvisible(c) || IsSurrogate(c)
    ensures text.Some? && NoInvisible(text.value) ==>
      (r.None? <==> forall c :: c in text.value ==> IsSpace(c) || IsSurrogate(c))
    ensures text.Some? && NoInvisible(text.value) && r.Some? ==> Tidy(r.value)
  {
    if text.None? || text.value == [] then None
    else
      var normalized := Helpers.Normalized(text.value);
      var spaced := CollapseRuns(normalized, LineBreaksAndTabs);
      var collapsed := CollapseRuns(spaced, Whitespace);
      var stripped := Strip(collapsed);
      var visible := RemoveInvisible(stripped);
      assert CleanTextTrace(text.value, normalized, spaced, collapsed, stripped, visible);
      CleanTextSteps(text.value, normalized, spaced, collapsed, stripped, visible);
      CleanTextTidySteps(text.value, normalized, spaced, collapsed, stripped, visible);
      if visible != [] then Some(visible) else None
  }

  /**
   * What the docstring of `clean_text` promises, on text without invisible code points: each
   * run of whitespace between words becomes one space and the ends lose theirs, so the result
   * is `' '.join(text.split())` of the normalized text, or `None` when it has no word.
   */
  lemma CleanTextJoinsWords(text: PyStr)
    requires NoInvisible(text)
    ensures CleanText(Some(text)) == JoinedWords(WithoutSurrogates(text))
  {
    if text == [] {
      assert Words([]) == Flush([]) == [];
    } else {
      var normalized := WithoutSurrogates(text);
      var spaced := CollapseRuns(normalized, LineBreaksAndTabs);
      var collapsed := CollapseRuns(spaced, Whitespace);
      var stripped := Strip(collapsed);
      var visible := RemoveInvisible(stripped);
      CleanTextOfTrace(text, normalized, spaced, collapsed, stripped, visible);
      CleanTextWordsSteps(text, normalized, spaced, collapsed, stripped, visible);
    }
  }

  /** `clean_text` step by step: the text is rebound to the result of each rewrite in turn. */
  method CleanTextRewrites(text: Option<PyStr>) returns (r: Option<PyStr>)
    ensures r == CleanText(text)
  {
    if text.None? || text.value == [] {
      return None;
    }
    var t := Helpers.Normalized(text.value);
    ghost var normalized := t;
    t := CollapseRuns(t, LineBreaksAndTabs);
    ghost var spaced := t;
    t := CollapseRuns(t, Whitespace);
    ghost var collapsed := t;
    t := Strip(t);
    ghost var stripped := t;
    t := RemoveInvisible(t);
    CleanTextOfTrace(text.value, normalized, spaced, collapsed, stripped, t);
    r := if t != [] then Some(t) else None;
  }

  /** Collapsing changes nothing where every class character is a lone space. */
  lemma {:induction false} CollapseRunsUnchanged(s: PyStr, k: RunClass)
    requires forall i :: 0 <= i < |s| && InClass(s[i], k) ==> s[i] == SPACE
    requires NoAdjacentInClass(s, k)
    ensures CollapseRuns(s, k) == s
    decreases |s|
  {
    if s != [] {
      var t := s[1..];
      SingleRunsTail(s, k);
      CollapseRunsUnchanged(t, k);
      if InClass(s[0], k) {
        assert t != [] ==> !InClass(t[0], k);
        assert DropRun(t, k) == t;
      }
      assert s == [s[0]] + t;
    }
  }

  /** The tail of text whose class characters are lone spaces is such text too. */
  lemma SingleRunsTail(s: PyStr, k: RunClass)
    requires s != []
    requires forall i :: 0 <= i < |s| && InClass(s[i], k) ==> s[i] == SPACE
    requires NoAdjacentInClass(s, k)
    ensures forall i :: 0 <= i < |s[1..]| && InClass(s[1..][i], k) ==> s[1..][i] == SPACE
    ensures NoAdjacentInClass(s[1..], k)
    ensures |s| > 1 && InClass(s[0], k) ==> !InClass(s[1], k)
  {
    var t := s[1..];
    forall i, j | 0 <= i < |t| && 0 <= j < |t| && j == i + 1
      ensures !(InClass(t[i], k) && InClass(t[j], k))
    {
      assert t[i] == s[i + 1] && t[j] == s[j + 1];
    }
  }

  /** Text already in the form `CleanText` produces, and tidy, comes back unchanged. */
  lemma CleanTextFixedPoint(s: PyStr)
    requires CleanForm(s) && Tidy(s)
    ensures CleanText(Some(s)) == Some(s)
  {
    assert WellFormed(s) && NoInvisible(s);
    assert WithoutSurrogates(s) == s;
    CollapseRunsUnchanged(s, LineBreaksAndTabs);
    CollapseRunsUnchanged(s, Whitespace);
    StripUnchanged(s);
    assert RemoveInvisible(s) == s;
    CleanTextOfTrace(s, s, s, s, s, s);
  }

  /** On text without invisible code points, cleaning twice is cleaning once. */
  lemma CleanTextIdempotent(text: Option<PyStr>)
    requires text.Some? ==> NoInvisible(text.value)
    ensures CleanText(CleanText(text)) == CleanText(text)
  {
    if CleanText(text).Some? {
      CleanTextFixedPoint(CleanText(text).value);
    }
  }

  /**
   * Without that premise idempotence fails: a space between two invisible code points survives
   * the strip, which runs before they are removed, so one pass gives a lone space and a second
   * pass gives `None`.
   */
  lemma CleanTextNotIdempotent()
    ensures CleanText(Some([0x200B, SPACE, 0x200B])) == Some([SPACE])
    ensures CleanText(Some([SPACE])) == None
  {
    var t: PyStr := [0x200B, SPACE, 0x200B];
    assert WellFormed(t);
    CollapseRunsUnchanged(t, LineBreaksAndTabs);
    CollapseRunsUnchanged(t, Whitespace);
    StripUnchanged(t);
    RemoveInvisibleAroundSpace();
    CleanTextOfTrace(t, t, t, t, t, [SPACE]);
    CleanTextOfSpace();
  }

  lemma RemoveInvisibleAroundSpace()
    ensures RemoveInvisible([0x200B, SPACE, 0x200B]) == [SPACE]
  {
    var t: PyStr := [0x200B, SPACE, 0x200B];
    assert t[1..] == [SPACE, 0x200B] && t[1..][1..] == [0x200B] && t[1..][1..][1..] == [];
    assert RemoveInvisible([0x200B]) == [];
    assert RemoveInvisible([SPACE, 0x200B]) == [SPACE];
  }

  /** Whitespace alone cleans to `None`. */
  lemma CleanTextOfSpace()
    ensures CleanText(Some([SPACE])) == None
  {
    var u: PyStr := [SPACE];
    assert WellFormed(u);
    CollapseRunsUnchanged(u, LineBreaksAndTabs);
    CollapseRunsUnchanged(u, Whitespace);
    assert Strip(u) == [];
    CleanTextOfTrace(u, u, u, u, [], []);
  }

  /** `CleanText` on present, non-empty text is the last of its steps, or `None` when that is empty. */
  lemma CleanTextOfTrace(text: PyStr, normalized: PyStr, spaced: PyStr, collapsed: PyStr, stripped: PyStr, visible: PyStr)
    requires text != [] && CleanTextTrace(text, normalized, spaced, collapsed, stripped, visible)
    ensures CleanText(Some(text)) == if visible != [] then Some(visible) else None
  {
  }

  /** The steps of `CleanText` on present, non-empty text, named one by one. */
  predicate CleanTextTrace(text: PyStr, normalized: PyStr, spaced: PyStr, collapsed: PyStr, stripped: PyStr, visible: PyStr) {
    && normalized == WithoutSurrogates(text)
    && spaced == CollapseRuns(normalized, LineBreaksAndTabs)
    && collapsed == CollapseRuns(spaced, Whitespace)
    && stripped == Strip(collapsed)
    && visible == RemoveInvisible(stripped)
  }

  /** The facts that carry each step of `CleanText` over to the next. */
  lemma CleanTextSteps(text: PyStr, normalized: PyStr, spaced: PyStr, collapsed: PyStr, stripped: PyStr, visible: PyStr)
    requires CleanTextTrace(text, normalized, spaced, collapsed, stripped, visible)
    ensures visible != [] ==> CleanForm(visible)
    ensures NonSpace(visible) == NonSpace(RemoveInvisible(normalized))
    ensures visible == [] ==> forall c :: c in text ==> IsSpace(c) || IsInvisible(c) || IsSurrogate(c)
    ensures NoInvisible(text) ==> (visible == [] <==> forall c :: c in text ==> IsSpace(c) || IsSurrogate(c))
  {
    CleanTextNonSpace(normalized, spaced, collapsed, stripped, visible);
    CleanTextForm(text, normalized, spaced, collapsed, stripped, visible);
    CleanTextEmpty(text, normalized, collapsed, stripped, visible);
  }

  /** The steps of `CleanText` keep the non-whitespace text, less the invisible code points. */
  lemma CleanTextNonSpace(normalized: PyStr, spaced: PyStr, collapsed: PyStr, stripped: PyStr, visible: PyStr)
    requires spaced == CollapseRuns(normalized, LineBreaksAndTabs)
    requires collapsed == CollapseRuns(spaced, Whitespace)
    requires stripped == Strip(collapsed) && visible == RemoveInvisible(stripped)
    ensures NonSpace(collapsed) == NonSpace(normalized)
    ensures NonSpace(visible) == NonSpace(RemoveInvisible(normalized))
  {
    CollapseRunsNonSpace(normalized, LineBreaksAndTabs);
    CollapseRunsNonSpace(spaced, Whitespace);
    StripRemoveInvisibleNonSpace(normalized, collapsed, stripped, visible);
  }

  /** Stripping and then removing invisible code points keeps the non-whitespace text, less the invisible ones. */
  lemma StripRemoveInvisibleNonSpace(normalized: PyStr, collapsed: PyStr, stripped: PyStr, visible: PyStr)
    requires NonSpace(collapsed) == NonSpace(normalized)
    requires stripped == Strip(collapsed) && visible == RemoveInvisible(stripped)
    ensures NonSpace(visible) == NonSpace(RemoveInvisible(normalized))
  {
    var a := StripSlice(collapsed);
    NonSpaceRemoveInvisible(normalized, stripped, collapsed, a);
  }

  /** On text without invisible code points, `CleanText` leaves no whitespace at the ends or in pairs. */
  lemma CleanTextTidySteps(text: PyStr, normalized: PyStr, spaced: PyStr, collapsed: PyStr, stripped: PyStr, visible: PyStr)
    requires CleanTextTrace(text, normalized, spaced, collapsed, stripped, visible)
    ensures NoInvisible(text) ==> Tidy(visible) && visible == stripped
  {
    if NoInvisible(text) {
      CollapseRunsKeeps(normalized, LineBreaksAndTabs);
      CollapseRunsKeeps(spaced, Whitespace);
      var a := StripSlice(collapsed);
      assert forall c :: c in stripped ==> c in collapsed;
      NoInvisibleKept(text, normalized, spaced, collapsed, stripped, visible);
      StripKeepsNoAdjacentSpaces(collapsed);
    }
  }

  /** Text without invisible code points reaches the last step of `CleanText` without any. */
  lemma NoInvisibleKept(text: PyStr, normalized: PyStr, spaced: PyStr, collapsed: PyStr, stripped: PyStr, visible: PyStr)
    requires NoInvisible(text)
    requires normalized == WithoutSurrogates(text)
    requires forall c :: c in spaced ==> c == SPACE || c in normalized
    requires forall c :: c in collapsed ==> c == SPACE || c in spaced
    requires forall c :: c in stripped ==> c in collapsed
    requires visible == RemoveInvisible(stripped)
    ensures visible == stripped
  {
    forall i | 0 <= i < |stripped|
      ensures !IsInvisible(stripped[i])
    {
      var c := stripped[i];
      assert c in stripped;
      if c != SPACE {
        assert c in spaced;
        assert c in normalized;
      }
    }
  }

  lemma CleanTextEmpty(text: PyStr, normalized: PyStr, collapsed: PyStr, stripped: PyStr, visible: PyStr)
    requires normalized == WithoutSurrogates(text)
    requires NonSpace(collapsed) == NonSpace(normalized)
    requires stripped == Strip(collapsed) && visible == RemoveInvisible(stripped)
    requires NonSpace(visible) == NonSpace(RemoveInvisible(normalized))
    ensures visible == [] ==> forall c :: c in text ==> IsSpace(c) || IsInvisible(c) || IsSurrogate(c)
    ensures NoInvisible(text) ==> (visible == [] <==> forall c :: c in text ==> IsSpace(c) || IsSurrogate(c))
  {
    if visible == [] {
      NonSpaceEmpty(RemoveInvisible(normalized));
      forall c | c in text
        ensures IsSpace(c) || IsInvisible(c) || IsSurrogate(c)
      {
        if !IsSurrogate(c) && !IsInvisible(c) {
          assert c in normalized;
          assert c in RemoveInvisible(normalized);
        }
      }
    }
    if NoInvisible(text) && forall c :: c in text ==> IsSpace(c) || IsSurrogate(c) {
      assert forall c :: c in normalized ==> IsSpace(c);
      NonSpaceEmpty(normalized);
      NonSpaceEmpty(collapsed);
      assert stripped == [];
    }
  }

  /** Stripping a string with no two whitespace characters in a row makes it tidy. */
  lemma StripKeepsNoAdjacentSpaces(s: PyStr)
    requires NoAdjacentInClass(s, Whitespace)
    ensures Tidy(Strip(s))
  {
    var a := StripSlice(s);
    NoAdjacentSpacesOfSlice(s, a, Strip(s));
  }

  lemma NoAdjacentSpacesOfSlice(s: PyStr, a: nat, t: PyStr)
    requires a + |t| <= |s| && t == s[a..a + |t|]
    requires NoAdjacentInClass(s, Whitespace)
    ensures NoAdjacentSpaces(t)
  {
    forall i | 0 <= i < |t| - 1
      ensures !(IsSpace(t[i]) && IsSpace(t[i + 1]))
    {
      assert t[i] == s[a + i] && t[i + 1] == s[a + i + 1];
      assert !(InClass(s[a + i], Whitespace) && InClass(s[a + i + 1], Whitespace));
    }
  }

  /** Every step of `CleanText` brings in no character but a space, so its result has the clean form. */
  lemma CleanTextForm(text: PyStr, normalized: PyStr, spaced: PyStr, collapsed: PyStr, stripped: PyStr, visible: PyStr)
    requires CleanTextTrace(text, normalized, spaced, collapsed, stripped, visible)
    ensures visible != [] ==> CleanForm(visible)
  {
    CollapseRunsKeeps(normalized, LineBreaksAndTabs);
    CollapseRunsKeeps(spaced, Whitespace);
    var a := StripSlice(collapsed);
    assert forall c :: c in stripped ==> c in collapsed;
    CleanFormOfSteps(normalized, spaced, collapsed, stripped, visible);
  }

  lemma CleanFormOfSteps(normalized: PyStr, spaced: PyStr, collapsed: PyStr, stripped: PyStr, visible: PyStr)
    requires WellFormed(normalized)
    requires forall c :: c in spaced ==> c == SPACE || (c in normalized && !IsLineBreakOrTab(c))
    requires forall c :: c in collapsed ==> c == SPACE || (c in spaced && !IsSpace(c))
    requires forall c :: c in stripped ==> c in collapsed
    requires visible == RemoveInvisible(stripped)
    ensures visible != [] ==> CleanForm(visible)
  {
    forall i | 0 <= i < |visible|
      ensures !IsLineBreakOrTab(visible[i]) && !IsInvisible(visible[i]) && !IsSurrogate(visible[i])
      ensures IsSpace(visible[i]) ==> visible[i] == SPACE
    {
      var c := visible[i];
      assert c in visible;
      assert c in collapsed;
      if c != SPACE {
        assert c in spaced && !IsSpace(c);
        assert c in normalized;
      }
    }
  }

  /** A string has no non-whitespace text exactly when it is all whitespace. */
  lemma {:induction false} NonSpaceEmpty(s: PyStr)
    ensures NonSpace(s) == [] <==> forall c :: c in s ==> IsSpace(c)
  {
    if s != [] {
      NonSpaceEmpty(s[1..]);
      assert forall c :: c in s <==> c == s[0] || c in s[1..];
    }
  }

  /** Stripping the ends and removing invisible code points keep the same non-whitespace text. */
  lemma NonSpaceRemoveInvisible(normalized: PyStr, stripped: PyStr, collapsed: PyStr, a: nat)
    requires a + |stripped| <= |collapsed| && stripped == collapsed[a..a + |stripped|]
    requires forall i :: 0 <= i < a ==> IsSpace(collapsed[i])
    requires forall i :: a + |stripped| <= i < |collapsed| ==> IsSpace(collapsed[i])
    requires NonSpace(collapsed) == NonSpace(normalized)
    ensures NonSpace(RemoveInvisible(stripped)) == NonSpace(RemoveInvisible(normalized))
  {
    NonSpaceOfSpaces(collapsed[..a]);
    NonSpaceOfSpaces(collapsed[a + |stripped|..]);
    assert collapsed == collapsed[..a] + stripped + collapsed[a + |stripped|..];
    NonSpaceAppend(collapsed[..a], stripped);
    NonSpaceAppend(collapsed[..a] + stripped, collapsed[a + |stripped|..]);
    assert NonSpace(stripped) == NonSpace(normalized);
    NonSpaceCommutes(stripped);
    NonSpaceCommutes(normalized);
  }

  /** Removing invisible code points and removing whitespace can be done in either order. */
  lemma {:induction false} NonSpaceCommutes(s: PyStr)
    ensures NonSpace(RemoveInvisible(s)) == RemoveInvisible(NonSpace(s))
  {
    if s != [] {
      NonSpaceCommutes(s[1..]);
      var head := if IsInvisible(s[0]) then [] else [s[0]];
      var rest := RemoveInvisible(s[1..]);
      assert RemoveInvisible(s) == head + rest;
      NonSpaceAppend(head, rest);
      var head' := if IsSpace(s[0]) then [] else [s[0]];
      var rest' := NonSpace(s[1..]);
      RemoveInvisibleAppend(head', rest');
    }
  }

  lemma {:induction false} RemoveInvisibleAppend(s: PyStr, t: PyStr)
    ensures RemoveInvisible(s + t) == RemoveInvisible(s) + RemoveInvisible(t)
  {
    if s == [] {
      assert s + t == t;
    } else {
      assert (s + t)[1..] == s[1..] + t;
      RemoveInvisibleAppend(s[1..], t);
    }
  }

  // ----- reference definitions: `re.split` and `str.split` -----

  /**
   * `re.split` on runs of characters of class `k`, scanned one character at a time: `piece` is
   * the text read since the last run, and `inRun` says whether the scan is inside a run.
   */
  function SplitRuns(s: PyStr, k: RunClass, piece: PyStr, inRun: bool): (r: seq<PyStr>)
    ensures r != []
    decreases |s|
  {
    if s == [] then [piece]
    else if InClass(s[0], k) then
      (if inRun then [] else [piece]) + SplitRuns(s[1..], k, [], true)
    else SplitRuns(s[1..], k, piece + [s[0]], false)
  }

  /** No piece the scan gives holds a class character, if the piece it started with holds none. */
  lemma {:induction false} SplitRunsPieces(s: PyStr, k: RunClass, piece: PyStr, inRun: bool)
    requires forall j :: 0 <= j < |piece| ==> !InClass(piece[j], k)
    ensures forall i, j :: 0 <= i < |SplitRuns(s, k, piece, inRun)| && 0 <= j < |SplitRuns(s, k, piece, inRun)[i]| ==>
      !InClass(SplitRuns(s, k, piece, inRun)[i][j], k)
    decreases |s|
  {
    if s != [] {
      if InClass(s[0], k) {
        SplitRunsPieces(s[1..], k, [], true);
      } else {
        var next := piece + [s[0]];
        assert forall j :: 0 <= j < |next| ==> next[j] == if j < |piece| then piece[j] else s[0];
        SplitRunsPieces(s[1..], k, next, false);
      }
    }
  }

  /**
   * `re.split(r'[\n\r\t]+', s)` or `re.split(r'\s+', s)`: the stretches between runs of class
   * characters, none holding one, with an empty first or last piece when `s` starts or ends
   * with a run.
   */
  function Segments(s: PyStr, k: RunClass): (r: seq<PyStr>)
    ensures r != []
    ensures forall i, j :: 0 <= i < |r| && 0 <= j < |r[i]| ==> !InClass(r[i][j], k)
  {
    SplitRunsPieces(s, k, [], false);
    SplitRuns(s, k, [], false)
  }

  /** `re.sub(class+, ' ', s)` is `' '.join(re.split(class+, s))`: every run becomes exactly one space. */
  lemma CollapseRunsJoinsSegments(s: PyStr, k: RunClass)
    ensures CollapseRuns(s, k) == Join([SPACE], Segments(s, k))
  {
    JoinSplitRuns(s, k, []);
  }

  /** Inside a run, the scan skips to where `DropRun` stops. */
  lemma {:induction false} SplitRunsInRun(s: PyStr, k: RunClass)
    ensures SplitRuns(s, k, [], true) == SplitRuns(DropRun(s, k), k, [], false)
    decreases |s|
  {
    if s != [] {
      if InClass(s[0], k) {
        SplitRunsInRun(s[1..], k);
      } else {
        assert [] + [s[0]] == [s[0]];
      }
    }
  }

  lemma {:induction false} JoinSplitRuns(s: PyStr, k: RunClass, piece: PyStr)
    ensures Join([SPACE], SplitRuns(s, k, piece, false)) == piece + CollapseRuns(s, k)
    decreases |s|
  {
    if s == [] {
      assert piece + [] == piece;
    } else if InClass(s[0], k) {
      var d := DropRun(s[1..], k);
      JoinSplitRuns(d, k, []);
      JoinSplitRunsAtRun(s, k, piece, d);
    } else {
      JoinSplitRuns(s[1..], k, piece + [s[0]]);
      assert CollapseRuns(s, k) == [s[0]] + CollapseRuns(s[1..], k);
    }
  }

  /** The step of `JoinSplitRuns` at a run: the run becomes the space between two pieces. */
  lemma JoinSplitRunsAtRun(s: PyStr, k: RunClass, piece: PyStr, d: PyStr)
    requires s != [] && InClass(s[0], k) && d == DropRun(s[1..], k)
    requires Join([SPACE], SplitRuns(d, k, [], false)) == [] + CollapseRuns(d, k)
    ensures Join([SPACE], SplitRuns(s, k, piece, false)) == piece + CollapseRuns(s, k)
  {
    var rest := SplitRuns(d, k, [], false);
    var c := CollapseRuns(d, k);
    SplitRunsAtRun(s, k, piece);
    JoinRunStep(piece, rest, c);
    CollapseRunsAtRun(s, k);
  }

  lemma SplitRunsAtRun(s: PyStr, k: RunClass, piece: PyStr)
    requires s != [] && InClass(s[0], k)
    ensures SplitRuns(s, k, piece, false) == [piece] + SplitRuns(DropRun(s[1..], k), k, [], false)
  {
    SplitRunsInRun(s[1..], k);
  }

  /** A piece and a run put in front of joined pieces `c`. */
  lemma JoinRunStep(piece: PyStr, rest: seq<PyStr>, c: PyStr)
    requires rest != [] && Join([SPACE], rest) == [] + c
    ensures Join([SPACE], [piece] + rest) == piece + ([SPACE] + c)
  {
    JoinCons([SPACE], piece, rest);
    assert [] + c == c;
  }

  lemma CollapseRunsAtRun(s: PyStr, k: RunClass)
    requires s != [] && InClass(s[0], k)
    ensures CollapseRuns(s, k) == [SPACE] + CollapseRuns(DropRun(s[1..], k), k)
  {
  }

  /** `' '.join` of a first part in front of at least one more. */
  lemma JoinCons(sep: PyStr, first: PyStr, rest: seq<PyStr>)
    requires rest != []
    ensures Join(sep, [first] + rest) == first + sep + Join(sep, rest)
  {
    assert ([first] + rest)[1..] == rest;
  }

  /** One word of `str.split()` ends, if one was being read. */
  function Flush(word: PyStr): seq<PyStr> {
    if word == [] then [] else [word]
  }

  /** `str.split()` scanned one character at a time: `word` is the word read so far. */
  function SplitWords(s: PyStr, word: PyStr): seq<PyStr>
    decreases |s|
  {
    if s == [] then Flush(word)
    else if IsSpace(s[0]) then Flush(word) + SplitWords(s[1..], [])
    else SplitWords(s[1..], word + [s[0]])
  }

  /** Every word the scan gives is non-empty, and without whitespace if the word it started with is. */
  lemma {:induction false} SplitWordsWords(s: PyStr, word: PyStr)
    requires forall j :: 0 <= j < |word| ==> !IsSpace(word[j])
    ensures forall i :: 0 <= i < |SplitWords(s, word)| ==> SplitWords(s, word)[i] != []
    ensures forall i, j :: 0 <= i < |SplitWords(s, word)| && 0 <= j < |SplitWords(s, word)[i]| ==>
      !IsSpace(SplitWords(s, word)[i][j])
    decreases |s|
  {
    if s != [] {
      if IsSpace(s[0]) {
        SplitWordsWords(s[1..], []);
      } else {
        var next := word + [s[0]];
        assert forall j :: 0 <= j < |next| ==> next[j] == if j < |word| then word[j] else s[0];
        SplitWordsWords(s[1..], next);
      }
    }
  }

  /** `s.split()`: the maximal stretches of `s` without whitespace, each non-empty. */
  function Words(s: PyStr): (r: seq<PyStr>)
    ensures forall i :: 0 <= i < |r| ==> r[i] != []
    ensures forall i, j :: 0 <= i < |r| && 0 <= j < |r[i]| ==> !IsSpace(r[i][j])
  {
    SplitWordsWords(s, []);
    SplitWords(s, [])
  }

  /** Whitespace before any word is skipped. */
  lemma {:induction false} WordsDropRun(s: PyStr, k: RunClass)
    ensures SplitWords(DropRun(s, k), []) == SplitWords(s, [])
    decreases |s|
  {
    if s != [] && InClass(s[0], k) {
      WordsDropRun(s[1..], k);
    }
  }

  /** Collapsing runs of whitespace, of either class, keeps the words. */
  lemma {:induction false} WordsCollapseRuns(s: PyStr, k: RunClass, word: PyStr)
    ensures SplitWords(CollapseRuns(s, k), word) == SplitWords(s, word)
    decreases |s|
  {
    if s != [] {
      var r := CollapseRuns(s, k);
      if InClass(s[0], k) {
        var d := DropRun(s[1..], k);
        assert r[0] == SPACE && r[1..] == CollapseRuns(d, k);
        WordsCollapseRuns(d, k, []);
        WordsDropRun(s[1..], k);
      } else {
        assert r[0] == s[0] && r[1..] == CollapseRuns(s[1..], k);
        WordsCollapseRuns(s[1..], k, []);
        WordsCollapseRuns(s[1..], k, word + [s[0]]);
      }
    }
  }

  /** Leading whitespace holds no word. */
  lemma {:induction false} WordsAfterSpaces(p: PyStr, t: PyStr)
    requires forall i :: 0 <= i < |p| ==> IsSpace(p[i])
    ensures SplitWords(p + t, []) == SplitWords(t, [])
    decreases |p|
  {
    if p != [] {
      assert (p + t)[0] == p[0] && (p + t)[1..] == p[1..] + t;
      assert SplitWords(p + t, []) == Flush([]) + SplitWords(p[1..] + t, []);
      assert Flush([]) == [];
      WordsAfterSpaces(p[1..], t);
    } else {
      assert p + t == t;
    }
  }

  /** Trailing whitespace only ends the last word. */
  lemma {:induction false} WordsBeforeSpaces(t: PyStr, p: PyStr, word: PyStr)
    requires forall i :: 0 <= i < |p| ==> IsSpace(p[i])
    ensures SplitWords(t + p, word) == SplitWords(t, word)
    decreases |t|
  {
    if t == [] {
      assert t + p == p;
      if p != [] {
        WordsAfterSpaces(p[1..], []);
        assert p[1..] + [] == p[1..];
      }
    } else {
      assert (t + p)[0] == t[0] && (t + p)[1..] == t[1..] + p;
      WordsBeforeSpaces(t[1..], p, []);
      WordsBeforeSpaces(t[1..], p, word + [t[0]]);
    }
  }

  /** Stripping keeps the words. */
  lemma WordsStrip(s: PyStr)
    ensures Words(Strip(s)) == Words(s)
  {
    var a := StripSlice(s);
    WordsOfSlice(s, a, Strip(s));
  }

  /** A slice with only whitespace around it has the same words. */
  lemma WordsOfSlice(s: PyStr, a: nat, t: PyStr)
    requires a + |t| <= |s| && t == s[a..a + |t|]
    requires forall i :: 0 <= i < a ==> IsSpace(s[i])
    requires forall i :: a + |t| <= i < |s| ==> IsSpace(s[i])
    ensures Words(t) == Words(s)
  {
    var p, q := s[..a], s[a + |t|..];
    assert s == p + (t + q);
    assert forall i :: 0 <= i < |p| ==> IsSpace(p[i]);
    assert forall i :: 0 <= i < |q| ==> IsSpace(q[i]) by {
      forall i | 0 <= i < |q| ensures IsSpace(q[i]) {
        assert q[i] == s[a + |t| + i];
      }
    }
    WordsAroundSpaces(p, t, q);
  }

  lemma WordsAroundSpaces(p: PyStr, t: PyStr, q: PyStr)
    requires forall i :: 0 <= i < |p| ==> IsSpace(p[i])
    requires forall i :: 0 <= i < |q| ==> IsSpace(q[i])
    ensures Words(p + (t + q)) == Words(t)
  {
    WordsAfterSpaces(p, t + q);
    WordsBeforeSpaces(t, q, []);
  }

  /** `' '.join(s.split())`, or `None` when `s` has no word. */
  function JoinedWords(s: PyStr): Option<PyStr> {
    if Words(s) == [] then None else Some(Join([SPACE], Words(s)))
  }

  /**
   * On text without invisible code points, the steps of `CleanText` give the words of the
   * normalized text joined by single spaces.
   */
  lemma CleanTextWordsSteps(text: PyStr, normalized: PyStr, spaced: PyStr, collapsed: PyStr, stripped: PyStr, visible: PyStr)
    requires CleanTextTrace(text, normalized, spaced, collapsed, stripped, visible)
    ensures NoInvisible(text) ==> (if visible != [] then Some(visible) else None) == JoinedWords(normalized)
  {
    if NoInvisible(text) {
      CleanTextTidySteps(text, normalized, spaced, collapsed, stripped, visible);
      CleanTextForm(text, normalized, spaced, collapsed, stripped, visible);
      WordsOfSteps(normalized, spaced, collapsed, stripped);
      JoinWordsOfTidy(visible, []);
      assert Join([SPACE], Words(normalized)) == visible;
      if visible == [] {
        assert Words(visible) == Flush([]) == [];
      }
    }
  }

  /** Tidy text whose only whitespace is the space is the space-joined list of its words. */
  lemma {:induction false} JoinWordsOfTidy(t: PyStr, word: PyStr)
    requires forall i :: 0 <= i < |t| && IsSpace(t[i]) ==> t[i] == SPACE
    requires NoAdjacentSpaces(t)
    requires t != [] ==> !IsSpace(t[|t| - 1])
    requires word == [] && t != [] ==> !IsSpace(t[0])
    ensures Join([SPACE], SplitWords(t, word)) == word + t
    decreases |t|
  {
    if t == [] {
      assert word + t == word;
    } else {
      var u := t[1..];
      if IsSpace(t[0]) {
        var rest := SplitWords(u, []);
        assert Join([SPACE], rest) == u by {
          assert forall i :: 0 <= i < |u| ==> u[i] == t[i + 1];
          assert u != [] && !IsSpace(u[0]);
          JoinWordsOfTidy(u, []);
        }
        assert rest != [];
        assert SplitWords(t, word) == [word] + rest;
        JoinCons([SPACE], word, rest);
        assert t == [SPACE] + u;
      } else {
        assert Join([SPACE], SplitWords(u, word + [t[0]])) == word + [t[0]] + u by {
          assert forall i :: 0 <= i < |u| ==> u[i] == t[i + 1];
          JoinWordsOfTidy(u, word + [t[0]]);
        }
        assert t == [t[0]] + u;
      }
    }
  }

  /** The words survive each step of `CleanText` up to the strip. */
  lemma WordsOfSteps(normalized: PyStr, spaced: PyStr, collapsed: PyStr, stripped: PyStr)
    requires spaced == CollapseRuns(normalized, LineBreaksAndTabs)
    requires collapsed == CollapseRuns(spaced, Whitespace)
    requires stripped == Strip(collapsed)
    ensures Words(stripped) == Words(normalized)
  {
    WordsCollapseRuns(normalized, LineBreaksAndTabs, []);
    WordsCollapseRuns(spaced, Whitespace, []);
    WordsStrip(collapsed);
  }
}
