/** `transpile`: the abstract, the body and the optional appendix are
    converted and put between the fixed preamble and postamble. Reading the
    three files, writing the result and running the LaTeX tools are not
    modelled: the file contents are parameters, a missing appendix file is
    `None`, and the document is returned. */
module Transpiler {
  import opened Text
  import opened Utilities
  import opened Pipeline
  import opened Appendix
  import opened Citations

  /** The fixed text before the abstract. */
  const Preamble: string := @"
\documentclass[11pt]{article}

% ----------------- Packages -----------------
\usepackage[utf8]{inputenc}
\usepackage[T1]{fontenc}
\usepackage{lmodern}
\usepackage{amsmath, amssymb}
\usepackage{graphicx}
\usepackage{hyperref}
\usepackage{geometry}
\usepackage{cite}

\geometry{a4paper, margin=1in}

\title{Learning Dynamics}
\author{Eric Hermosis \\ \texttt{eric.hermosis@gmail.com}}
\date{\today}

\begin{document}
\maketitle
"

  /** The fixed text after the body and the appendix. */
  const Postamble: string := @"
\newpage
\bibliographystyle{unsrt}
\bibliography{references}
\end{document}
"

  const AbstractOpen: string := "\n\\begin{abstract}\n"
  const AbstractClose: string := "\n\\end{abstract}\n\n"
  const AppendixOpen: string := "\n\\newpage\n\\appendix\n\n"

  /** The document around the three converted parts. */
  function Document(abstractTex: string, bodyTex: string, appendixTex: string): string {
    Preamble + AbstractOpen + abstractTex + AbstractClose + bodyTex + appendixTex + Postamble
  }

  /** The abstract as it is converted: stripped first, then sanitized. */
  function AbstractText(abstractMd: string): string {
    SanitizeUnicode(Strip(abstractMd))
  }

  /** The body as it is converted: sanitized, title line removed, citation
      section cut off. */
  function BodyText(indexMd: string): string {
    StripCitationSection(StripTitle(SanitizeUnicode(indexMd)))
  }

  /** What the appendix contributes: nothing when there is no appendix file. */
  function AppendixTex(appendixMd: Option<string>): string {
    match appendixMd
    case None => ""
    case Some(a) => AppendixOpen + Latex(Join(AppendixLines(SplitLines(SanitizeUnicode(a)))))
  }

  /** `transpile`, without the file system and the LaTeX tools. */
  method Transpile(abstractMd: string, indexMd: string, appendixMd: Option<string>)
    returns (latex: string)
    ensures latex == Document(Latex(AbstractText(abstractMd)), Latex(BodyText(indexMd)),
                              AppendixTex(appendixMd))
  {
    var abstractPlain := SanitizeUnicode(Strip(abstractMd));
    var body := SanitizeUnicode(indexMd);
    body := StripTitle(body);
    body := StripCitationSection(body);
    var abstractTex := MarkdownToLatex(abstractPlain);
    var bodyTex := MarkdownToLatex(body);
    var appendixTex := "";
    if appendixMd.Some? {
      var appendix := SanitizeUnicode(appendixMd.value);
      var converted := ConvertAppendix(appendix);
      appendixTex := AppendixOpen + converted;
    }
    latex := Preamble + AbstractOpen + abstractTex + AbstractClose + bodyTex + appendixTex + Postamble;
  }

  /** `b` occurs in `s` at `i`. */
  predicate SliceAt(s: string, i: nat, b: string) {
    i + |b| <= |s| && s[i..i + |b|] == b
  }

  /** The converted body holds no zero-width space and no citation heading,
      and is a contiguous piece of the sanitized input. */
  lemma BodyTextShape(indexMd: string)
    ensures ZeroWidthSpace !in BodyText(indexMd)
    ensures forall k :: 0 <= k < |BodyText(indexMd)| ==> !CitationAt(BodyText(indexMd), k)
    ensures exists i :: SliceAt(SanitizeUnicode(indexMd), i, BodyText(indexMd))
  {
    var san := SanitizeUnicode(indexMd);
    var t := StripTitle(san);
    var b := StripCitationSection(t);
    SliceOfSuffix(san, t, b);
    NoZeroWidth(san, t, b);
    StripCitationIdempotent(t);
  }

  lemma SliceOfSuffix(san: string, t: string, b: string)
    requires |t| <= |san| && t == san[|san| - |t|..] && |b| <= |t| && b == t[..|b|]
    ensures SliceAt(san, |san| - |t|, b)
  {
  }

  lemma NoZeroWidth(san: string, t: string, b: string)
    requires ZeroWidthSpace !in san
    requires |t| <= |san| && t == san[|san| - |t|..] && |b| <= |t| && b == t[..|b|]
    ensures ZeroWidthSpace !in b
  {
    assert forall c :: c in b ==> c in t;
    assert forall c :: c in t ==> c in san;
  }

  /** The parts can be read back from the document: it starts with the
      preamble, the abstract follows the opening of the abstract
      environment, and it ends with the appendix and the postamble. */
  lemma DocumentParts(a: string, b: string, c: string)
    ensures var d := Document(a, b, c);
      var n := |Preamble| + |AbstractOpen|;
      && d[..|Preamble|] == Preamble
      && d[|Preamble|..n] == AbstractOpen
      && d[n..n + |a|] == a
      && d[n + |a|..n + |a| + |AbstractClose|] == AbstractClose
      && d[|d| - |c| - |Postamble|..] == c + Postamble
  {
    FrameParts(Preamble, AbstractOpen, a, AbstractClose, b, c, Postamble);
  }

  lemma FrameParts(pre: string, open: string, a: string, close: string, b: string, c: string, post: string)
    ensures var d := pre + open + a + close + b + c + post;
      var n := |pre| + |open|;
      && d[..|pre|] == pre
      && d[|pre|..n] == open
      && d[n..n + |a|] == a
      && d[n + |a|..n + |a| + |close|] == close
      && d[|d| - |c| - |post|..] == c + post
  {
    var d := pre + open + a + close + b + c + post;
    assert d == pre + open + a + close + b + (c + post);
  }

  /** A body made of a title, one line that cites `key`, and a "Citation"
      section comes out as that line with `\cite{key}`: the title, the blank
      line after it, the section and everything after the section are gone. */
  lemma CitedBody(p: string, key: string, q: string, t: string)
    requires PlainChars(p) && PlainChars(key) && PlainChars(q) && key != []
    requires ZeroWidthSpace !in p && ZeroWidthSpace !in key && ZeroWidthSpace !in q
    requires p != [] && !IsSpace(p[0]) && p[0] != '-'
    ensures var line := p + "[@" + key + "]" + q + "\n";
      Latex(BodyText("# Title\n\n" + line + "\n## Citation" + t)) == p + Cite(key) + q
  {
    var line := p + "[@" + key + "]" + q + "\n";
    PlainFacts(p);
    PlainFacts(key);
    PlainFacts(q);
    LineFacts(p, key, q);
    BodyStages("# Title\n\n", line, "\n## Citation", t);
    CitationLineEnd(p, key, q);
  }

  lemma LineFacts(p: string, key: string, q: string)
    requires p != [] && '#' !in p && '#' !in key && '#' !in q
    requires ZeroWidthSpace !in p && ZeroWidthSpace !in key && ZeroWidthSpace !in q
    ensures var line := p + "[@" + key + "]" + q + "\n";
      line[0] == p[0] && '#' !in line && ZeroWidthSpace !in line
  {
    var line := p + "[@" + key + "]" + q + "\n";
    assert forall c :: c in line ==> c in p || c in "[@]\n" || c in key || c in q;
  }

  /** The body stages on a title, a line and a "Citation" section. */
  lemma BodyStages(h: string, line: string, c: string, t: string)
    requires h == "# Title\n\n" && c == "\n## Citation"
    requires line != [] && line[0] != '\n' && '#' !in line && ZeroWidthSpace !in line
    ensures BodyText(h + line + c + t) == line
  {
    var u := SanitizeUnicode(t);
    HeadFree(h, line, c);
    SanitizeStage(h, line, c, t);
    TitleThenBody(line + c + u);
    CutStage(line, c, u);
  }

  lemma SanitizeStage(h: string, line: string, c: string, t: string)
    requires ZeroWidthSpace !in h + line + c
    ensures SanitizeUnicode(h + line + c + t) == h + (line + c + SanitizeUnicode(t))
  {
    var u := SanitizeUnicode(t);
    SanitizeKeepsFront(h + line + c, t);
    AppendAssoc(h, line, c);
    AppendAssoc(h, line + c, u);
    AppendAssoc(line, c, u);
  }

  /** The title and the section heading hold no zero-width space. */
  lemma HeadFree(h: string, line: string, c: string)
    requires h == "# Title\n\n" && c == "\n## Citation" && ZeroWidthSpace !in line
    ensures ZeroWidthSpace !in h + line + c
  {
    assert ZeroWidthSpace !in h && ZeroWidthSpace !in c;
    assert forall x :: x in h + line + c ==> x in h || x in line || x in c;
  }

  /** A front free of zero-width spaces passes sanitizing unchanged. */
  lemma SanitizeKeepsFront(a: string, t: string)
    requires ZeroWidthSpace !in a
    ensures SanitizeUnicode(a + t) == a + SanitizeUnicode(t)
  {
    SanitizeConcat(a, t);
    SanitizeIdentity(a);
  }

  lemma CutStage(line: string, c: string, u: string)
    requires c == "\n## Citation" && '#' !in line
    ensures StripCitationSection(line + c + u) == line
  {
    CitationHeadingAt(line, u);
    assert line + c + u == line + (c + u);
    CutBeforeCitation(line, c + u);
  }

  /** The abstract is stripped before it is sanitized, so a zero-width space
      at its front shields the whitespace after it, which the other order
      would remove. */
  lemma AbstractStripOrder(x: string)
    requires x != [] && ZeroWidthSpace !in x && !IsSpace(x[0]) && !IsSpace(x[|x| - 1])
    ensures AbstractText([ZeroWidthSpace, ' '] + x) == [' '] + x
    ensures Strip(SanitizeUnicode([ZeroWidthSpace, ' '] + x)) == x
  {
    var s := [ZeroWidthSpace, ' '] + x;
    StripKeeps(s);
    assert s == [ZeroWidthSpace] + ([' '] + x);
    SanitizeConcat([ZeroWidthSpace], [' '] + x);
    assert SanitizeUnicode([ZeroWidthSpace]) == [] by {
      assert [ZeroWidthSpace][1..] == [];
    }
    assert ZeroWidthSpace !in [' '] + x;
    SanitizeIdentity([' '] + x);
    StripOneSpace(x);
  }

  /** Text that neither starts nor ends with whitespace is its own strip. */
  lemma StripKeeps(s: string)
    requires s != [] && !IsSpace(s[0]) && !IsSpace(s[|s| - 1])
    ensures Strip(s) == s
  {
    assert SkipSpace(s, 0) == 0;
    assert TrimEnd(s, 0, |s|) == |s|;
    assert s[0..|s|] == s;
  }

  lemma StripOneSpace(x: string)
    requires x != [] && !IsSpace(x[0]) && !IsSpace(x[|x| - 1])
    ensures Strip([' '] + x) == x
  {
    var s := [' '] + x;
    assert s[1] == x[0];
    SkipSpaceUnique(s, 0, 1);
    assert TrimEnd(s, 1, |s|) == |s|;
    assert s[1..] == x;
  }
}
