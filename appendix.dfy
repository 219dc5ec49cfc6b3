/** `convert_appendix`: a first pass over the lines of the appendix turns
    the first `## T` line into `\section*{Appendix: T}` and every `### T`
    line into `\subsection*{T}`; the result then goes through
    `markdown_to_latex`. */
module Appendix {
  import opened Text
  import opened Sections
  import opened Pipeline

  /** `re.match(r"^##\s+(.*)$", line)` on one line. */
  predicate SectionHead(line: string) {
    HeadingAt(line, "##")
  }

  /** `re.match(r"^###\s+(.*)$", line)` on one line. */
  predicate SubsectionHead(line: string) {
    HeadingAt(line, "###")
  }

  /** Line `j` is the first `## T` line. On one line `^##\s+(.*)$` is
      `HeadingAt`, and the title is the rest of the line after the
      whitespace. */
  predicate FirstSection(ls: seq<string>, j: nat)
    requires j < |ls|
  {
    SectionHead(ls[j]) && forall k :: 0 <= k < j ==> !SectionHead(ls[k])
  }

  /** What the first pass makes of line `j`. */
  function AppendixLine(ls: seq<string>, j: nat): string
    requires j < |ls|
  {
    if FirstSection(ls, j) then Command("section", "Appendix: " + HeadingTitle(ls[j], "##"))
    else if SubsectionHead(ls[j]) then Command("subsection", HeadingTitle(ls[j], "###"))
    else ls[j]
  }

  function AppendixLines(ls: seq<string>): (r: seq<string>)
    ensures |r| == |ls|
    ensures forall j :: 0 <= j < |ls| ==> r[j] == AppendixLine(ls, j)
  {
    seq(|ls|, j requires 0 <= j < |ls| => AppendixLine(ls, j))
  }

  /** `convert_appendix`, one line at a time, with the source's flag for
      "no `##` line seen yet". */
  method ConvertAppendix(text: string) returns (r: string)
    ensures r == Latex(Join(AppendixLines(SplitLines(text))))
  {
    var out := AppendixPass(SplitLines(text));
    r := MarkdownToLatex(Join(out));
  }

  /** The loop of `convert_appendix` over the lines of the appendix. */
  method AppendixPass(lines: seq<string>) returns (out: seq<string>)
    ensures out == AppendixLines(lines)
  {
    out := [];
    var first := true;
    var i := 0;
    while i < |lines|
      invariant 0 <= i <= |lines| && |out| == i
      invariant forall j :: 0 <= j < i ==> out[j] == AppendixLine(lines, j)
      invariant first == NoSectionBefore(lines, i)
    {
      var line := lines[i];
      var x;
      AppendixStep(lines, i);
      if SectionHead(line) && first {
        x := Command("section", "Appendix: " + HeadingTitle(line, "##"));
        first := false;
      } else if SubsectionHead(line) {
        x := Command("subsection", HeadingTitle(line, "###"));
      } else {
        x := line;
      }
      out := out + [x];
      i := i + 1;
    }
    assert out == AppendixLines(lines);
  }

  /** No `##` heading among the first `i` lines. */
  predicate NoSectionBefore(ls: seq<string>, i: nat)
    requires i <= |ls|
  {
    forall k :: 0 <= k < i ==> !SectionHead(ls[k])
  }

  /** One step of the pass. */
  lemma AppendixStep(ls: seq<string>, i: nat)
    requires i < |ls|
    ensures AppendixLine(ls, i)
         == if SectionHead(ls[i]) && NoSectionBefore(ls, i) then
              Command("section", "Appendix: " + HeadingTitle(ls[i], "##"))
            else if SubsectionHead(ls[i]) then Command("subsection", HeadingTitle(ls[i], "###"))
            else ls[i]
    ensures NoSectionBefore(ls, i + 1) == (NoSectionBefore(ls, i) && !SectionHead(ls[i]))
  {
  }

  /** At most one line becomes the appendix section. */
  lemma OneAppendixSection(ls: seq<string>, j: nat, k: nat)
    requires j < |ls| && k < |ls| && FirstSection(ls, j) && FirstSection(ls, k)
    ensures j == k
  {
  }

  /** When some line is a `##` heading, one of them is the first. */
  lemma {:induction false} FirstSectionExists(ls: seq<string>, i: nat)
    requires i < |ls| && SectionHead(ls[i])
    ensures exists j :: 0 <= j <= i && FirstSection(ls, j)
    decreases i
  {
    if !FirstSection(ls, i) {
      var k :| 0 <= k < i && SectionHead(ls[k]);
      FirstSectionExists(ls, k);
    }
  }

  /** The pass agrees with `convert_sections` line by line, except that the
      first `##` line gets the `Appendix: ` prefix and later `##` lines are
      left for `markdown_to_latex`. */
  lemma AppendixAgreesWithSections(ls: seq<string>, j: nat)
    requires j < |ls|
    ensures FirstSection(ls, j) ==>
      AppendixLine(ls, j) == Command("section", "Appendix: " + HeadingTitle(ls[j], "##"))
    ensures SectionHead(ls[j]) && !FirstSection(ls, j) ==>
      AppendixLine(ls, j) == ls[j]
      && SectionLine(AppendixLine(ls, j)) == Command("section", HeadingTitle(ls[j], "##"))
    ensures !SectionHead(ls[j]) ==> AppendixLine(ls, j) == SectionLine(ls[j])
  {
    if SectionHead(ls[j]) {
      NotBoth(ls[j]);
    }
  }

  /** No line is both a `##` and a `###` heading. */
  lemma NotBoth(line: string)
    requires HeadingAt(line, "##")
    ensures !HeadingAt(line, "###")
  {
    assert IsSpace(line[2]);
    if |line| > 3 {
      assert line[..3][2] == line[2];
    }
  }
}
