/** The three clean-up steps applied to the input documents before any
    markup is converted: removing zero-width spaces, removing the title
    heading of the body, and cutting the body at its "Citation" section. */
module Utilities {
  import opened Text

  const ZeroWidthSpace: char := '\U{200B}'

  // ----------------------------------------------------------------------
  // sanitize_unicode
  // ----------------------------------------------------------------------

  /** Every U+200B removed, every other character kept in order. */
  function SanitizeUnicode(s: string): (r: string)
    ensures ZeroWidthSpace !in r
    ensures multiset(r) == multiset(s)[ZeroWidthSpace := 0]
    decreases |s|
  {
    if s == [] then []
    else
      assert s == [s[0]] + s[1..];
      (if s[0] == ZeroWidthSpace then [] else [s[0]]) + SanitizeUnicode(s[1..])
  }

  /** Removal works character by character: it distributes over concatenation. */
  lemma {:induction false} SanitizeConcat(a: string, b: string)
    ensures SanitizeUnicode(a + b) == SanitizeUnicode(a) + SanitizeUnicode(b)
    decreases |a|
  {
    if a != [] {
      var x := a + b;
      assert x[0] == a[0];
      assert x[1..] == a[1..] + b;
      var head := if a[0] == ZeroWidthSpace then "" else [a[0]];
      assert SanitizeUnicode(x) == head + SanitizeUnicode(a[1..] + b);
      SanitizeConcat(a[1..], b);
      assert SanitizeUnicode(a) == head + SanitizeUnicode(a[1..]);
      assert head + (SanitizeUnicode(a[1..]) + SanitizeUnicode(b))
          == (head + SanitizeUnicode(a[1..])) + SanitizeUnicode(b);
    } else {
      assert a + b == b;
    }
  }

  /** Text without a zero-width space is left as it is. */
  lemma {:induction false} SanitizeIdentity(s: string)
    requires ZeroWidthSpace !in s
    ensures SanitizeUnicode(s) == s
    decreases |s|
  {
    if s != [] {
      assert s[0] in s;
      assert forall c :: c in s[1..] ==> c in s;
      SanitizeIdentity(s[1..]);
    }
  }

  lemma SanitizeIdempotent(s: string)
    ensures SanitizeUnicode(SanitizeUnicode(s)) == SanitizeUnicode(s)
  {
    SanitizeIdentity(SanitizeUnicode(s));
  }

  // ----------------------------------------------------------------------
  // strip_title: the pattern ^\s*#\s+.*\n+ (no flags), replaced by ""
  // ----------------------------------------------------------------------

  /** `s[..f]` matches the title pattern, split as: whitespace `s[..w]`, the
      `#` at `w`, at least one whitespace character `s[w + 1..b]`, a line
      tail `s[b..c]` without line boundary, and at least one line boundary
      `s[c..f]`. */
  ghost predicate TitleSplit(s: string, w: int, b: int, c: int, f: int) {
    && 0 <= w && w + 2 <= b <= c < f <= |s|
    && AllSpace(s, 0, w) && s[w] == '#'
    && AllSpace(s, w + 1, b)
    && (forall k :: b <= k < c ==> s[k] != '\n')
    && (forall k :: c <= k < f ==> s[k] == '\n')
  }

  ghost predicate TitleMatch(s: string, f: int) {
    exists w, b, c :: TitleSplit(s, w, b, c, f)
  }

  /** End of the run of line boundaries that starts at `i`. */
  function SkipNewlines(s: string, i: nat): (j: nat)
    requires i <= |s|
    ensures i <= j <= |s|
    ensures forall k :: i <= k < j ==> s[k] == '\n'
    ensures j < |s| ==> s[j] != '\n'
    decreases |s| - i
  {
    if i < |s| && s[i] == '\n' then SkipNewlines(s, i + 1) else i
  }

  /** The last index in `[lo, hi)` that holds a line boundary. */
  function LastNewline(s: string, lo: nat, hi: nat): (r: Option<nat>)
    requires lo <= hi <= |s|
    ensures r.Some? ==> lo <= r.value < hi && s[r.value] == '\n'
                        && forall k :: r.value < k < hi ==> s[k] != '\n'
    ensures r.None? ==> forall k :: lo <= k < hi ==> s[k] != '\n'
    decreases hi
  {
    if hi == lo then None
    else if s[hi - 1] == '\n' then Some(hi - 1)
    else LastNewline(s, lo, hi - 1)
  }

  /** End of the match of the title pattern at the start of `s`, found the way
      a backtracking matcher finds it: `\s*` and `\s+` take all the
      whitespace they can; when no line boundary follows, `\s+` gives back
      whitespace up to its last line boundary. */
  function TitleEnd(s: string): Option<nat> {
    var w := SkipSpace(s, 0);
    if w < |s| && s[w] == '#' then
      var q := SkipSpace(s, w + 1);
      if q < w + 2 then None
      else
        var e := IndexOf(s, '\n', q);
        if e < |s| then Some(SkipNewlines(s, e))
        else
          match LastNewline(s, w + 2, q)
          case Some(k) => Some(SkipNewlines(s, k))
          case None => None
    else None
  }

  /** The match the backtracking matcher picks is the longest prefix of `s`
      the title pattern matches, and there is none when it reports none. */
  lemma TitleEndIsLongestMatch(s: string)
    ensures TitleEnd(s).Some? ==>
              && TitleMatch(s, TitleEnd(s).value)
              && forall f :: TitleMatch(s, f) ==> f <= TitleEnd(s).value
    ensures TitleEnd(s).None? ==> forall f :: !TitleMatch(s, f)
  {
    var w := SkipSpace(s, 0);
    if w < |s| && s[w] == '#' && SkipSpace(s, w + 1) >= w + 2 {
      var q := SkipSpace(s, w + 1);
      var e := IndexOf(s, '\n', q);
      if e < |s| {
        LongestAfter(s, e);
      } else if LastNewline(s, w + 2, q).Some? {
        LongestAfter(s, LastNewline(s, w + 2, q).value);
      } else {
        NoTitleMatch(s);
      }
    } else {
      NoTitleMatch(s);
    }
  }

  /** Every split puts the `#` after the leading whitespace, ends its `\s+`
      within the whitespace run after the `#`, and has a line boundary at
      `c`. */
  lemma SplitShape(s: string, w: int, b: int, c: int, f: int)
    requires TitleSplit(s, w, b, c, f)
    ensures w == SkipSpace(s, 0) && s[w] == '#'
    ensures w + 2 <= b <= SkipSpace(s, w + 1) && b <= c < f && s[c] == '\n'
  {
    SkipSpaceRun(s, 0);
    assert !IsSpace('#');
    SkipSpaceUnique(s, 0, w);
    SkipSpaceMaximal(s, w + 1, b);
  }

  /** When the matcher ends its `.*` at the newline `x`, every match ends by
      the end of the run of newlines from `x`, and that end is a match. */
  lemma LongestAfter(s: string, x: nat)
    requires SkipSpace(s, 0) < |s| && s[SkipSpace(s, 0)] == '#'
    requires SkipSpace(s, SkipSpace(s, 0) + 1) >= SkipSpace(s, 0) + 2
    requires x < |s| && s[x] == '\n'
    requires x >= SkipSpace(s, SkipSpace(s, 0) + 1) ==>
               x == IndexOf(s, '\n', SkipSpace(s, SkipSpace(s, 0) + 1))
    requires x < SkipSpace(s, SkipSpace(s, 0) + 1) ==>
               && x >= SkipSpace(s, 0) + 2
               && IndexOf(s, '\n', SkipSpace(s, SkipSpace(s, 0) + 1)) == |s|
               && forall k :: x < k < SkipSpace(s, SkipSpace(s, 0) + 1) ==> s[k] != '\n'
    ensures TitleMatch(s, SkipNewlines(s, x))
    ensures forall f :: TitleMatch(s, f) ==> f <= SkipNewlines(s, x)
  {
    var w := SkipSpace(s, 0);
    var q := SkipSpace(s, w + 1);
    var f := SkipNewlines(s, x);
    SkipSpaceRun(s, 0);
    SkipSpaceRun(s, w + 1);
    if x >= q {
      assert TitleSplit(s, w, q, x, f);
    } else {
      assert TitleSplit(s, w, x, x, f);
    }
    forall f' | TitleMatch(s, f') ensures f' <= f {
      var w', b', c' :| TitleSplit(s, w', b', c', f');
      SplitShape(s, w', b', c', f');
      assert c' <= x;
      if x < f' {
        NewlineRunBound(s, c', f', x);
      }
    }
  }

  /** When the matcher finds no `#`, too little whitespace after it, or no
      line boundary for `\n+`, nothing matches. */
  lemma NoTitleMatch(s: string)
    requires var w := SkipSpace(s, 0);
      !(w < |s| && s[w] == '#' && SkipSpace(s, w + 1) >= w + 2)
      || (&& IndexOf(s, '\n', SkipSpace(s, w + 1)) == |s|
          && LastNewline(s, w + 2, SkipSpace(s, w + 1)).None?)
    ensures forall f :: !TitleMatch(s, f)
  {
    forall f | TitleMatch(s, f) ensures false {
      var w', b', c' :| TitleSplit(s, w', b', c', f);
      SplitShape(s, w', b', c', f);
    }
  }

  /** A run of line boundaries through `e` ends no later than `SkipNewlines` from `e`. */
  lemma NewlineRunBound(s: string, c: nat, f: nat, e: nat)
    requires c <= e < f <= |s|
    requires forall k :: c <= k < f ==> s[k] == '\n'
    ensures f <= SkipNewlines(s, e)
  {
  }

  /** `strip_title`: the matched prefix removed, or `s` when nothing matches. */
  function StripTitle(s: string): (r: string)
    ensures |r| <= |s| && r == s[|s| - |r|..]
    ensures (forall f :: !TitleMatch(s, f)) ==> r == s
    ensures forall f :: TitleMatch(s, f) ==> |r| <= |s| - f
    ensures r != s ==> TitleMatch(s, |s| - |r|)
  {
    TitleEndIsLongestMatch(s);
    match TitleEnd(s)
    case Some(f) => s[f..]
    case None => s
  }

  lemma StripTitleSome(s: string, f: nat)
    requires TitleEnd(s) == Some(f)
    ensures f <= |s| && StripTitle(s) == s[f..]
  {
  }

  lemma StripTitleNone(s: string)
    requires TitleEnd(s) == None
    ensures StripTitle(s) == s
  {
  }

  /** A title line and the blank line after it are removed, whatever
      follows them. */
  lemma TitleThenBody(b: string)
    requires b == [] || b[0] != '\n'
    ensures StripTitle("# Title\n\n" + b) == b
  {
    var s := "# Title\n\n" + b;
    TitleEndTitle(s, b);
    StripTitleSome(s, 9);
    assert s[9..] == b;
  }

  lemma TitleEndTitle(s: string, b: string)
    requires s == "# Title\n\n" + b && (b == [] || b[0] != '\n')
    ensures TitleEnd(s) == Some(9)
  {
    TitleChars(s, b);
    assert SkipSpace(s, 0) == 0;
    assert SkipSpace(s, 2) == 2;
    assert SkipSpace(s, 1) == 2;
    IndexOfUnique(s, '\n', 2, 7);
    assert SkipNewlines(s, 9) == 9;
    assert SkipNewlines(s, 7) == 9;
  }

  lemma TitleChars(s: string, b: string)
    requires s == "# Title\n\n" + b
    ensures |s| >= 9 && s[0] == '#' && s[1] == ' ' && s[2] == 'T' && s[7] == '\n' && s[8] == '\n'
    ensures forall k :: 2 <= k < 7 ==> s[k] != '\n'
    ensures 9 < |s| ==> s[9] == b[0]
  {
  }

  /** A second-level heading is not a title. */
  lemma StripTitleExample2()
    ensures StripTitle("## Title\nBody") == "## Title\nBody"
  {
    var s := "## Title\nBody";
    TitleEndExample2(s);
    StripTitleNone(s);
  }

  lemma TitleEndExample2(s: string)
    requires s == "## Title\nBody"
    ensures TitleEnd(s) == None
  {
    assert SkipSpace(s, 0) == 0;
    assert SkipSpace(s, 1) == 1;
  }

  /** A title without a line boundary after it is not removed. */
  lemma StripTitleExample3()
    ensures StripTitle("# Title") == "# Title"
  {
    var s := "# Title";
    TitleEndExample3(s);
    StripTitleNone(s);
  }

  lemma TitleEndExample3(s: string)
    requires s == "# Title"
    ensures TitleEnd(s) == None
  {
    assert SkipSpace(s, 0) == 0;
    assert SkipSpace(s, 2) == 2;
    assert SkipSpace(s, 1) == 2;
    assert IndexOf(s, '\n', 2) == 7;
    assert LastNewline(s, 2, 2) == None;
  }

  // ----------------------------------------------------------------------
  // strip_citation_section: the pattern \n##\s+Citation[\s\S]*$ replaced by ""
  // ----------------------------------------------------------------------

  /** `\n##\s+Citation` matches at `i`, read the way the matcher reads it:
      `\s+` takes the whole whitespace run, which "Citation" must follow. */
  predicate CitationAt(s: string, i: nat) {
    && i + 3 <= |s| && s[i] == '\n' && s[i + 1] == '#' && s[i + 2] == '#'
    && var q := SkipSpace(s, i + 3);
       q > i + 3 && q + 8 <= |s| && s[q..q + 8] == "Citation"
  }

  /** The pattern read as a language: a line boundary, `##`, one or more
      whitespace characters, then `Citation`. */
  ghost predicate CitationMatch(s: string, i: int) {
    exists q :: CitationSplit(s, i, q)
  }

  ghost predicate CitationSplit(s: string, i: int, q: int) {
    && 0 <= i && i + 3 < q && q + 8 <= |s| && s[i..i + 3] == "\n##"
    && AllSpace(s, i + 3, q) && s[q..q + 8] == "Citation"
  }

  lemma CitationAtIsMatch(s: string, i: nat)
    ensures CitationAt(s, i) <==> CitationMatch(s, i)
  {
    if CitationMatch(s, i) {
      var q :| CitationSplit(s, i, q);
      assert s[i] == s[i..i + 3][0];
      var q' := SkipSpace(s, i + 3);
      assert s[q] == "Citation"[0];
      SkipSpaceUnique(s, i + 3, q);
    }
    if CitationAt(s, i) {
      var q := SkipSpace(s, i + 3);
      SkipSpaceRun(s, i + 3);
      assert s[i..i + 3] == "\n##";
      assert CitationSplit(s, i, q);
    }
  }

  /** Leftmost position at or after `i` where the pattern matches. */
  function FindCitation(s: string, i: nat): (r: Option<nat>)
    requires i <= |s|
    ensures r.Some? ==> i <= r.value < |s| && CitationAt(s, r.value)
                        && forall k :: i <= k < r.value ==> !CitationAt(s, k)
    ensures r.None? ==> forall k :: i <= k <= |s| ==> !CitationAt(s, k)
    decreases |s| - i
  {
    if i == |s| then None
    else if CitationAt(s, i) then Some(i)
    else FindCitation(s, i + 1)
  }

  /** `strip_citation_section`: `s` cut just before the leftmost match, or
      `s` itself when the pattern matches nowhere. */
  function StripCitationSection(s: string): (r: string)
    ensures |r| <= |s| && r == s[..|r|]
    ensures r == s <==> forall k :: 0 <= k < |s| ==> !CitationAt(s, k)
    ensures r != s ==> CitationAt(s, |r|)
    ensures forall k :: 0 <= k < |r| ==> !CitationAt(s, k)
  {
    match FindCitation(s, 0)
    case Some(i) => s[..i]
    case None => s
  }

  /** A match inside a prefix is a match in the whole text. */
  lemma CitationAtPrefix(s: string, n: nat, i: nat)
    requires n <= |s|
    requires CitationAt(s[..n], i)
    ensures CitationAt(s, i)
  {
    var p := s[..n];
    var q := SkipSpace(p, i + 3);
    SkipSpaceRun(p, i + 3);
    var w := p[q..q + 8];
    assert w == "Citation";
    assert p[q] == w[0] == 'C';
    assert AllSpace(s, i + 3, q) by {
      forall k | i + 3 <= k < q ensures IsSpace(s[k]) {
        assert s[k] == p[k];
      }
    }
    SkipSpaceUnique(s, i + 3, q);
    assert s[q..q + 8] == p[q..q + 8];
  }

  /** Text without `#`, then a line boundary that begins the "Citation"
      heading: the text is kept, the heading and all after it are cut. */
  lemma CutBeforeCitation(a: string, r: string)
    requires '#' !in a && r != [] && r[0] != '#' && CitationAt(a + r, |a|)
    ensures StripCitationSection(a + r) == a
  {
    var y := a + r;
    forall k | 0 <= k < |a| ensures !CitationAt(y, k) {
      if k + 1 < |a| {
        assert y[k + 1] == a[k + 1] && a[k + 1] in a;
      } else {
        assert y[k + 1] == r[0];
      }
    }
    assert y[..|a|] == a;
  }

  /** `\n## Citation` is a match of the pattern. */
  lemma CitationHeadingAt(a: string, t: string)
    ensures CitationAt(a + "\n## Citation" + t, |a|)
  {
    var y := a + "\n## Citation" + t;
    var i := |a|;
    assert y[i..i + 12] == "\n## Citation";
    assert y[i] == '\n' && y[i + 1] == '#' && y[i + 2] == '#' && y[i + 3] == ' ' && y[i + 4] == 'C';
    SkipSpaceUnique(y, i + 3, i + 4);
    assert y[i + 4..i + 12] == "Citation";
  }

  /** The cut text holds no "Citation" heading, so cutting twice changes nothing. */
  lemma {:induction false} StripCitationIdempotent(s: string)
    ensures var r := StripCitationSection(s);
      (forall k :: 0 <= k < |r| ==> !CitationAt(r, k)) && StripCitationSection(r) == r
  {
    var r := StripCitationSection(s);
    forall k | 0 <= k < |r| ensures !CitationAt(r, k) {
      assert r == s[..|r|];
      if CitationAt(r, k) {
        CitationAtPrefix(s, |r|, k);
      }
    }
  }
}
