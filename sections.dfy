/** `convert_sections`: the substitution `^###\s+(.*)$` -> `\subsection*{...}`
    and then `^##\s+(.*)$` -> `\section*{...}`, both with MULTILINE. `^`
    holds at the start of the text and after each '\n'; `\s+` may run
    across line boundaries, `.*` stops at the next one. */
module Sections {
  import opened Text

  /** The `#` characters a heading pattern starts with. */
  predicate IsMark(mark: string) {
    |mark| > 0 && forall k :: 0 <= k < |mark| ==> mark[k] == '#'
  }

  /** `mark\s+` matches at the start of `s`. */
  predicate HeadingAt(s: string, mark: string) {
    |mark| < |s| && s[..|mark|] == mark && IsSpace(s[|mark|])
  }

  /** The text a heading line contributes: everything after `mark` and the
      whitespace that follows it. */
  function HeadingTitle(line: string, mark: string): string
    requires HeadingAt(line, mark)
  {
    line[SkipSpace(line, |mark|)..]
  }

  /** `\name*{title}`. */
  function Command(name: string, title: string): string {
    "\\" + name + "*{" + title + "}"
  }

  /** One MULTILINE substitution of `^mark\s+(.*)$` by `\name*{\1}`, scanned
      left to right; `atStart` says whether `^` holds before `s[0]`. After a
      replaced span `^` does not hold: the span ends in a title character,
      or at the end of the text. */
  function HeadingPass(s: string, mark: string, name: string, atStart: bool): string
    decreases |s|
  {
    if s == [] then []
    else if atStart && HeadingAt(s, mark) then
      var q := SkipSpace(s, |mark|);
      var e := IndexOf(s, '\n', q);
      Command(name, s[q..e]) + HeadingPass(s[e..], mark, name, false)
    else [s[0]] + HeadingPass(s[1..], mark, name, s[0] == '\n')
  }

  /** `convert_sections`: third-level headings first, then second-level ones. */
  function ConvertSections(s: string): string {
    HeadingPass(HeadingPass(s, "###", "subsection", true), "##", "section", true)
  }

  /** A pass leaves text without `#` as it is. */
  lemma {:induction false} PassIdentity(s: string, mark: string, name: string, atStart: bool)
    requires IsMark(mark) && '#' !in s
    ensures HeadingPass(s, mark, name, atStart) == s
    decreases |s|
  {
    if s != [] {
      assert s[0] != '#' by {
        assert s[0] in s;
      }
      assert !HeadingAt(s, mark) by {
        if |mark| < |s| {
          assert s[..|mark|][0] == s[0];
        }
      }
      assert '#' !in s[1..] by {
        assert forall c :: c in s[1..] ==> c in s;
      }
      PassIdentity(s[1..], mark, name, s[0] == '\n');
    }
  }

  /** `convert_sections` leaves text without `#` as it is. */
  lemma SectionsIdentity(s: string)
    requires '#' !in s
    ensures ConvertSections(s) == s
  {
    SectionsIdentityAt(s, "###", "##");
  }

  lemma SectionsIdentityAt(s: string, m1: string, m2: string)
    requires '#' !in s && m1 == "###" && m2 == "##"
    ensures HeadingPass(HeadingPass(s, m1, "subsection", true), m2, "section", true) == s
  {
    assert IsMark(m1) && IsMark(m2);
    PassIdentity(s, m1, "subsection", true);
    PassIdentity(s, m2, "section", true);
  }

  // ----------------------------------------------------------------------
  // Line by line
  // ----------------------------------------------------------------------

  /** A line that is `mark` followed by whitespace only, or by nothing. Only
      on such a line can `\s+` reach past the line boundary, so that the
      title is taken from the next line that is not blank. */
  predicate BlankHeading(line: string, mark: string) {
    |mark| <= |line| && line[..|mark|] == mark && SkipSpace(line, |mark|) == |line|
  }

  /** What a pass does to a single line that is not a blank heading. */
  function HeadingLine(line: string, mark: string, name: string): string {
    if HeadingAt(line, mark) then Command(name, HeadingTitle(line, mark)) else line
  }

  /** What `convert_sections` does to a single line: `### T` and `## T`
      become commands titled `T`; a `###` line is never taken by the `##`
      rule; every other line, `#### T` and `##T` among them, is kept. */
  function SectionLine(line: string): (r: string)
    ensures HeadingAt(line, "###") ==> r == Command("subsection", HeadingTitle(line, "###"))
    ensures HeadingAt(line, "##") && !HeadingAt(line, "###") ==> r == Command("section", HeadingTitle(line, "##"))
    ensures !HeadingAt(line, "##") && !HeadingAt(line, "###") ==> r == line
  {
    HeadingLine(HeadingLine(line, "###", "subsection"), "##", "section")
  }

  function MapHeadingLine(lines: seq<string>, mark: string, name: string): (r: seq<string>)
    ensures |r| == |lines|
    ensures forall i :: 0 <= i < |lines| ==> r[i] == HeadingLine(lines[i], mark, name)
  {
    seq(|lines|, i requires 0 <= i < |lines| => HeadingLine(lines[i], mark, name))
  }

  /** Outside `^`, scanning copies a line unchanged. */
  lemma {:induction false} PassPlain(l: string, rest: string, mark: string, name: string)
    requires '\n' !in l
    ensures HeadingPass(l + rest, mark, name, false) == l + HeadingPass(rest, mark, name, false)
    decreases |l|
  {
    if l != [] {
      var s := l + rest;
      assert s[0] == l[0] && s[0] != '\n';
      assert s[1..] == l[1..] + rest;
      assert '\n' !in l[1..] by {
        assert forall c :: c in l[1..] ==> c in l;
      }
      PassPlain(l[1..], rest, mark, name);
      assert [l[0]] + (l[1..] + HeadingPass(rest, mark, name, false))
          == l + HeadingPass(rest, mark, name, false);
    } else {
      assert l + rest == rest;
    }
  }

  /** After a line boundary `^` holds again. */
  lemma PassNewline(r: string, mark: string, name: string)
    ensures HeadingPass("\n" + r, mark, name, false) == "\n" + HeadingPass(r, mark, name, true)
  {
    assert ("\n" + r)[1..] == r;
  }

  /** A heading line that is not blank is replaced within the line. */
  lemma PassHeadingLine(l: string, rest: string, mark: string, name: string)
    requires IsMark(mark) && '\n' !in l && HeadingAt(l, mark) && !BlankHeading(l, mark)
    requires rest == [] || rest[0] == '\n'
    ensures HeadingPass(l + rest, mark, name, true) == HeadingLine(l, mark, name) + HeadingPass(rest, mark, name, false)
  {
    var s := l + rest;
    assert s[..|mark|] == l[..|mark|];
    assert HeadingAt(s, mark);
    var ql := SkipSpace(l, |mark|);
    SkipSpaceRun(l, |mark|);
    assert ql < |l|;
    assert forall k :: 0 <= k < |l| ==> s[k] == l[k];
    assert SkipSpace(s, |mark|) == ql by {
      SkipSpaceUnique(s, |mark|, ql);
    }
    assert forall k :: 0 <= k < |l| ==> l[k] != '\n' by {
      forall k | 0 <= k < |l| ensures l[k] != '\n' {
        assert l[k] in l;
      }
    }
    assert IndexOf(s, '\n', ql) == |l| by {
      IndexOfUnique(s, '\n', ql, |l|);
    }
    assert s[ql..|l|] == l[ql..];
    assert s[|l|..] == rest;
  }

  /** A line that is not a heading is copied. */
  lemma PassOtherLine(l: string, rest: string, mark: string, name: string)
    requires IsMark(mark) && '\n' !in l && !HeadingAt(l, mark) && !BlankHeading(l, mark)
    requires rest == [] || rest[0] == '\n'
    ensures HeadingPass(l + rest, mark, name, true) == l + HeadingPass(rest, mark, name, false)
  {
    NotHeadingJoined(l, rest, mark);
    if l == [] {
      assert l + rest == rest;
      PassEmptyLine(rest, mark, name);
    } else {
      PassCopyLine(l, rest, mark, name);
    }
  }

  /** An empty line: `^` holding or not makes no difference. */
  lemma PassEmptyLine(rest: string, mark: string, name: string)
    requires IsMark(mark) && !HeadingAt(rest, mark)
    requires rest == [] || rest[0] == '\n'
    ensures HeadingPass(rest, mark, name, true) == HeadingPass(rest, mark, name, false)
  {
    if rest != [] {
      PassCopy(rest, mark, name, true);
      PassCopy(rest, mark, name, false);
    }
  }

  lemma PassCopyLine(l: string, rest: string, mark: string, name: string)
    requires l != [] && '\n' !in l && !HeadingAt(l + rest, mark)
    ensures HeadingPass(l + rest, mark, name, true) == l + HeadingPass(rest, mark, name, false)
  {
    var s := l + rest;
    PassCopy(s, mark, name, true);
    NoNewlineTail(l);
    assert s[1..] == l[1..] + rest;
    PassPlain(l[1..], rest, mark, name);
    ConsAssoc(l, HeadingPass(rest, mark, name, false));
  }

  lemma NoNewlineTail(l: string)
    requires l != [] && '\n' !in l
    ensures l[0] != '\n' && '\n' !in l[1..]
  {
    assert l[0] in l;
    assert forall c :: c in l[1..] ==> c in l;
  }

  /** Where the pattern does not match, one character is copied. */
  lemma PassCopy(s: string, mark: string, name: string, atStart: bool)
    requires s != [] && !(atStart && HeadingAt(s, mark))
    ensures HeadingPass(s, mark, name, atStart) == [s[0]] + HeadingPass(s[1..], mark, name, s[0] == '\n')
  {
  }

  /** A line that is neither a heading nor a blank heading does not become
      one when a line boundary or the end of the text follows it. */
  lemma NotHeadingJoined(l: string, rest: string, mark: string)
    requires IsMark(mark) && '\n' !in l && !HeadingAt(l, mark) && !BlankHeading(l, mark)
    requires rest == [] || rest[0] == '\n'
    ensures !HeadingAt(l + rest, mark)
  {
    var s := l + rest;
    if |mark| < |l| {
      assert s[..|mark|] == l[..|mark|];
      assert s[|mark|] == l[|mark|];
    } else if |mark| == |l| {
      if s[..|mark|] == mark {
        assert l == s[..|mark|];
        assert SkipSpace(l, |mark|) == |l|;
      }
    } else if |mark| < |s| {
      assert s[|l|] == '\n' && mark[|l|] == '#';
      assert s[..|mark|][|l|] == '\n';
    }
  }

  /** The first line of the text is replaced, or copied, on its own. */
  lemma PassFirstLine(l: string, rest: string, mark: string, name: string)
    requires IsMark(mark) && '\n' !in l && !BlankHeading(l, mark)
    requires rest == [] || rest[0] == '\n'
    ensures HeadingPass(l + rest, mark, name, true) == HeadingLine(l, mark, name) + HeadingPass(rest, mark, name, false)
  {
    if HeadingAt(l, mark) {
      PassHeadingLine(l, rest, mark, name);
    } else {
      PassOtherLine(l, rest, mark, name);
    }
  }

  lemma PassConsLine(l: string, tail: string, mark: string, name: string)
    requires IsMark(mark) && '\n' !in l && !BlankHeading(l, mark)
    ensures HeadingPass(l + "\n" + tail, mark, name, true)
         == HeadingLine(l, mark, name) + "\n" + HeadingPass(tail, mark, name, true)
  {
    assert l + "\n" + tail == l + ("\n" + tail);
    PassFirstLine(l, "\n" + tail, mark, name);
    PassNewline(tail, mark, name);
  }

  /** Lines free of line boundaries, none of them a blank `mark` heading. */
  predicate PlainLines(lines: seq<string>, mark: string) {
    forall i :: 0 <= i < |lines| ==> '\n' !in lines[i] && !BlankHeading(lines[i], mark)
  }

  /** Over text with no blank heading line, a pass is the line-wise map. */
  lemma {:induction false} PassLines(lines: seq<string>, mark: string, name: string)
    requires IsMark(mark) && |lines| >= 1
    requires PlainLines(lines, mark)
    ensures HeadingPass(Join(lines), mark, name, true) == Join(MapHeadingLine(lines, mark, name))
    decreases |lines|
  {
    var l := lines[0];
    var out := MapHeadingLine(lines, mark, name);
    if |lines| == 1 {
      assert Join(lines) == l + "";
      PassFirstLine(l, "", mark, name);
      assert HeadingPass("", mark, name, false) == "";
    } else {
      var tail := Join(lines[1..]);
      assert Join(lines) == l + "\n" + tail;
      PassConsLine(l, tail, mark, name);
      PassLines(lines[1..], mark, name);
      assert out[1..] == MapHeadingLine(lines[1..], mark, name);
      assert Join(out) == out[0] + "\n" + Join(out[1..]);
    }
  }

  /** `convert_sections` over text none of whose lines is a blank `###` or
      `##` heading maps each line by `SectionLine`: `### T` becomes
      `\subsection*{T}`, `## T` becomes `\section*{T}`, every other line is
      kept. */
  lemma ConvertSectionsByLine(s: string)
    requires forall i :: 0 <= i < |Split(s)| ==>
      !BlankHeading(Split(s)[i], "###") && !BlankHeading(Split(s)[i], "##")
    ensures ConvertSections(s) == Join(SectionLines(Split(s)))
  {
    var lines := Split(s);
    assert PlainLines(lines, "###") && PlainLines(lines, "##");
    ConvertSectionsLines(lines);
  }

  /** The line-wise map of `convert_sections`. */
  function SectionLines(lines: seq<string>): (r: seq<string>)
    ensures |r| == |lines|
    ensures forall i :: 0 <= i < |lines| ==> r[i] == SectionLine(lines[i])
  {
    seq(|lines|, i requires 0 <= i < |lines| => SectionLine(lines[i]))
  }

  lemma ConvertSectionsLines(lines: seq<string>)
    requires |lines| >= 1
    requires PlainLines(lines, "###") && PlainLines(lines, "##")
    ensures ConvertSections(Join(lines)) == Join(SectionLines(lines))
  {
    MidLines(lines);
    SectionPasses(lines, "###", "##");
  }

  lemma SectionPasses(lines: seq<string>, m1: string, m2: string)
    requires |lines| >= 1 && m1 == "###" && m2 == "##"
    requires PlainLines(lines, m1) && PlainLines(MapHeadingLine(lines, m1, "subsection"), m2)
    ensures HeadingPass(HeadingPass(Join(lines), m1, "subsection", true), m2, "section", true)
         == Join(SectionLines(lines))
  {
    assert IsMark(m1) && IsMark(m2);
    TwoPasses(lines, m1, "subsection", m2, "section");
    assert MapHeadingLine(MapHeadingLine(lines, m1, "subsection"), m2, "section")
        == SectionLines(lines);
  }

  /** Two passes over text with no blank heading lines for either of them. */
  lemma TwoPasses(lines: seq<string>, m1: string, n1: string, m2: string, n2: string)
    requires IsMark(m1) && IsMark(m2) && |lines| >= 1
    requires PlainLines(lines, m1) && PlainLines(MapHeadingLine(lines, m1, n1), m2)
    ensures HeadingPass(HeadingPass(Join(lines), m1, n1, true), m2, n2, true)
         == Join(MapHeadingLine(MapHeadingLine(lines, m1, n1), m2, n2))
  {
    PassLines(lines, m1, n1);
    PassLines(MapHeadingLine(lines, m1, n1), m2, n2);
  }

  lemma MidLines(lines: seq<string>)
    requires PlainLines(lines, "##")
    ensures PlainLines(MapHeadingLine(lines, "###", "subsection"), "##")
  {
    var mid := MapHeadingLine(lines, "###", "subsection");
    forall i | 0 <= i < |mid| ensures '\n' !in mid[i] && !BlankHeading(mid[i], "##") {
      SubsectionLine(lines[i]);
    }
  }

  /** After the first pass a line is still one line, and not a blank `##`
      heading unless it was one; a line the `###` pass made is left alone
      by the `##` pass. */
  lemma SubsectionLine(l: string)
    requires '\n' !in l && !BlankHeading(l, "##")
    ensures var m := HeadingLine(l, "###", "subsection");
      '\n' !in m && !BlankHeading(m, "##")
    ensures var m := HeadingLine(l, "###", "subsection");
      HeadingAt(l, "###") ==> !HeadingAt(m, "##") && HeadingLine(m, "##", "section") == m
  {
    if HeadingAt(l, "###") {
      var t := HeadingTitle(l, "###");
      assert forall c :: c in t ==> c in l;
      CommandIsNoHeading("subsection", t);
    }
  }

  /** A command line starts with a backslash: no pattern matches it. */
  lemma CommandIsNoHeading(name: string, t: string)
    requires '\n' !in name && '\n' !in t
    ensures '\n' !in Command(name, t)
    ensures !BlankHeading(Command(name, t), "##") && !HeadingAt(Command(name, t), "##")
  {
    var c := Command(name, t);
    assert c == "\\" + (name + "*{" + t + "}");
    assert c[0] == '\\';
    assert c[..2][0] == '\\';
  }

  /** `\s+` reaches over a line boundary: a `##` line with nothing after it
      takes the next line as its title. */
  lemma BlankHeadingTakesNextLine(t: string)
    requires t != [] && '\n' !in t && '#' !in t && !IsSpace(t[0])
    ensures ConvertSections("##\n" + t) == Command("section", t)
  {
    var s := "##\n" + t;
    BlankFirstPass(s, t, "###");
    BlankSecondPass(s, t, "##");
  }

  lemma BlankFirstPass(s: string, t: string, m1: string)
    requires m1 == "###" && s == "##\n" + t && '#' !in t
    ensures HeadingPass(s, m1, "subsection", true) == s
  {
    assert s[..3][2] == '\n';
    PassCopy(s, m1, "subsection", true);
    assert s[1..] == "#\n" + t;
    PassCopy(s[1..], m1, "subsection", false);
    assert s[1..][1..] == "\n" + t;
    PassNewline(t, m1, "subsection");
    PassIdentity(t, m1, "subsection", true);
  }

  lemma BlankSecondPass(s: string, t: string, m2: string)
    requires m2 == "##" && s == "##\n" + t && t != [] && '\n' !in t && !IsSpace(t[0])
    ensures HeadingPass(s, m2, "section", true) == Command("section", t)
  {
    assert s[..2] == m2 && IsSpace(s[2]);
    assert s[3] == t[0];
    SkipSpaceUnique(s, 2, 3);
    assert forall k :: 3 <= k < |s| ==> s[k] == t[k - 3];
    assert forall k :: 3 <= k < |s| ==> s[k] != '\n' by {
      forall k | 3 <= k < |s| ensures s[k] != '\n' {
        assert t[k - 3] in t;
      }
    }
    IndexOfUnique(s, '\n', 3, |s|);
    assert s[3..|s|] == t;
    assert s[|s|..] == [];
  }

  /** Examples of the line mapping, among them the `####` and the missing
      space cases that stay as they are. */
  lemma SubsectionExample()
    ensures SectionLine("### Results") == "\\subsection*{Results}"
  {
    var l := "### Results";
    SubsectionExampleParts(l);
  }

  lemma SubsectionExampleParts(l: string)
    requires l == "### Results"
    ensures HeadingAt(l, "###") && HeadingTitle(l, "###") == "Results"
  {
    assert l[..3] == "###" && IsSpace(l[3]);
    assert SkipSpace(l, 4) == 4;
    assert SkipSpace(l, 3) == 4;
    assert l[4..] == "Results";
  }

  lemma SectionExample()
    ensures SectionLine("## Method") == "\\section*{Method}"
  {
    var l := "## Method";
    assert l[2] == ' ' && l[..3][2] == ' ';
    assert !HeadingAt(l, "###");
    assert l[..2] == "##" && IsSpace(l[2]);
    assert SkipSpace(l, 3) == 3;
    assert SkipSpace(l, 2) == 3;
    assert l[3..] == "Method";
  }

  lemma KeptExamples()
    ensures SectionLine("#### Deep") == "#### Deep"
    ensures SectionLine("##Tight") == "##Tight"
  {
    var d := "#### Deep";
    assert !IsSpace(d[3]) && !IsSpace(d[2]);
    assert !HeadingAt(d, "###") && !HeadingAt(d, "##");
    var t := "##Tight";
    assert t[..3][2] == 'T';
    assert !IsSpace(t[2]);
    assert !HeadingAt(t, "###") && !HeadingAt(t, "##");
  }
}
