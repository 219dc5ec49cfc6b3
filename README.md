# learning-dynamics: Markdown to LaTeX, modelled in Dafny

This project models `generate.py` of the learning-dynamics repository. That
script turns three Markdown files into one LaTeX article:

- the abstract (`abstract.md`);
- the body (`index.md`);
- an optional appendix (`appendix.md`).

Before conversion:

- every zero-width space (U+200B) is removed;
- the abstract is stripped of surrounding whitespace;
- the body loses its `# Title` line and everything from its `## Citation` heading on.

The conversion, `markdown_to_latex`, runs five rewrites in a fixed order:

1. `$$ … $$` spans become `equation` environments;
2. `###` and `##` headings become `\subsection*` and `\section*`;
3. runs of bullet lines become `itemize` environments;
4. `[@key]` becomes `\cite{key}`;
5. `&` and `%` are escaped.

The appendix first gets its own line pass: the first `##` heading becomes
`\section*{Appendix: …}` and every `###` heading becomes `\subsection*{…}`.
The converted parts are then placed between a fixed preamble and postamble.

Each regular expression of the source is modelled by a scanner written out
by hand. Its meaning is then proved against a declarative description:

- for `strip_title`, the longest prefix the pattern matches;
- for `strip_citation_section`, the first place where the pattern matches;
- for the other rewrites, characters copied unchanged or lines mapped one by one.

The modules follow the script's sections:

| file | module | models |
|---|---|---|
| `text.dfy` | `Text` | Python's `\s`, `str.strip`, `"\n".join`, `splitlines` |
| `utilities.dfy` | `Utilities` | `sanitize_unicode`, `strip_title`, `strip_citation_section` |
| `math_blocks.dfy` | `MathBlocks` | `convert_math` |
| `sections.dfy` | `Sections` | `convert_sections` |
| `lists.dfy` | `Lists` | `convert_lists` (a method with the source's loop and flag) |
| `list_runs.dfy` | `ListRuns` | what `convert_lists` makes of a run of bullet lines |
| `citations.dfy` | `Citations` | `convert_citations` |
| `escaping.dfy` | `Escaping` | `cleanup` |
| `pipeline.dfy` | `Pipeline` | `markdown_to_latex` |
| `appendix.dfy` | `Appendix` | `convert_appendix` (a method with the source's loop and flag) |
| `transpiler.dfy` | `Transpiler` | `transpile`, `PREAMBLE`, `POSTAMBLE` |

Where the code's behaviour differs from a plain reading of its purpose, the
model follows the code:

- A heading or a bullet is recognised after any `\s+`, not only after one space. In `convert_sections` that whitespace may run over a line boundary. So a heading with no title (`##` and then a newline) takes the next line as its title (`Sections.BlankHeadingTakesNextLine`).
- A list item's text is `line.lstrip("- ").strip()`. Repeated dashes and spaces are removed, but a tab before the dash keeps the dash: `"\t- three"` gives `"- three"` (`Lists.ItemTextTab`).
- `strip_title` matches only at the very start of the text, and only when a line boundary ends the title. `"# Title"` with no newline is kept (`Utilities.StripTitleExample3`). `"## Title"` is not a title (`Utilities.StripTitleExample2`).
- A citation key must not be empty (`[@]` is kept). A key may contain `[` and line boundaries: it ends at the first `]`.
- A later `##` line of the appendix is left alone by the appendix pass. It still becomes a `\section*` in the generic pass that follows (`Appendix.AppendixAgreesWithSections`).
- `convert_lists` splits and re-joins the text, so a trailing newline is lost.
- `cleanup` also escapes an `&` written inside an equation.

## Model

| member | source | states |
|---|---|---|
| Text.StripIsStrip | learning-dynamics/generate.py:58 | `Strip(s)` is `s` without its leading and trailing whitespace, and starts and ends with a non-whitespace character when it is not empty (`str.strip`) |
| Text.SplitLines | learning-dynamics/generate.py:69 | no piece holds a line boundary, there are no pieces exactly for the empty text, and joining the pieces with newlines gives back the text without its final newline |
| Text.SplitJoin | learning-dynamics/generate.py:84 | splitting the join of newline-free lines gives back the same lines |
| Utilities.SanitizeUnicode | learning-dynamics/generate.py:50-52 | the result holds no U+200B, and its multiset of characters is the input's without U+200B |
| Utilities.SanitizeConcat | learning-dynamics/generate.py:51 | removal distributes over concatenation |
| Utilities.SanitizeIdentity | learning-dynamics/generate.py:51 | text without U+200B is unchanged |
| Utilities.SanitizeIdempotent | learning-dynamics/generate.py:50-52 | sanitizing twice is sanitizing once |
| Utilities.TitleEndIsLongestMatch | learning-dynamics/generate.py:45 | the end the scanner finds is a match of `^\s*#\s+.*\n+` at the start of the text and no match is longer; when the scanner finds none, nothing matches |
| Utilities.StripTitle | learning-dynamics/generate.py:44-45 | the result is a suffix of the input; the input is kept when nothing matches; otherwise exactly a longest matching prefix is removed |
| Utilities.TitleThenBody | learning-dynamics/generate.py:44-45 | `"# Title\n\n" + b` loses the title and the blank line and keeps `b` when `b` does not begin with a newline |
| Utilities.StripTitleExample2 | learning-dynamics/generate.py:45 | a `##` heading is not a title: `"## Title\nBody"` is kept |
| Utilities.StripTitleExample3 | learning-dynamics/generate.py:45 | a title with no line boundary after it is kept |
| Utilities.CitationAtIsMatch | learning-dynamics/generate.py:48 | the scanner's test at `i` holds exactly when `\n##\s+Citation` matches at `i` |
| Utilities.FindCitation | learning-dynamics/generate.py:48 | the position found matches, and no earlier one does; none is found only when no position from `i` on matches |
| Utilities.StripCitationSection | learning-dynamics/generate.py:47-48 | the result is a prefix of the input; it equals the input exactly when no citation heading occurs; otherwise the cut is at the first citation heading |
| Utilities.CutBeforeCitation | learning-dynamics/generate.py:48 | text without `#` followed by a citation heading is cut right before the heading |
| Utilities.StripCitationIdempotent | learning-dynamics/generate.py:47-48 | the cut text holds no citation heading, so cutting again changes nothing |
| MathBlocks.FindDollars | learning-dynamics/generate.py:59 | the closing `$$` found is the first one at or after `i`; none is found only when there is none |
| MathBlocks.MathIdentity | learning-dynamics/generate.py:56-59 | text without `$$` is unchanged |
| MathBlocks.MathPrefix | learning-dynamics/generate.py:59 | a prefix in which no `$$` starts is copied, and the scan goes on after it |
| MathBlocks.MathSpan | learning-dynamics/generate.py:57-59 | `$$m$$` becomes `\begin{equation}\n` + strip(m) + `\n\end{equation}`, with `m` the shortest span (non-greedy, across lines) |
| MathBlocks.MathPair | learning-dynamics/generate.py:56-59 | text before a math span is kept, the span becomes an equation, the rest is scanned on |
| MathBlocks.MathUnpaired | learning-dynamics/generate.py:59 | an opening `$$` with no closing `$$` after it is kept as it is |
| Sections.PassIdentity | learning-dynamics/generate.py:63-65 | one heading pass leaves text without `#` unchanged |
| Sections.SectionsIdentity | learning-dynamics/generate.py:61-66 | `convert_sections` leaves text without `#` unchanged |
| Sections.SectionLine | learning-dynamics/generate.py:62-65 | a `### T` line becomes `\subsection*{T}`; otherwise a `## T` line becomes `\section*{T}`; any other line is kept |
| Sections.PassLines | learning-dynamics/generate.py:63 | a multiline heading pass over joined lines with no blank heading maps each line on its own |
| Sections.ConvertSectionsByLine | learning-dynamics/generate.py:61-66 | on text with no blank heading lines, `convert_sections` maps each line by `SectionLine` |
| Sections.SubsectionLine | learning-dynamics/generate.py:63-65 | a line made by the `###` pass is one line, is no `##` heading, and is left unchanged by the `##` pass |
| Sections.CommandIsNoHeading | learning-dynamics/generate.py:63-65 | a generated command is one line and no heading |
| Sections.BlankHeadingTakesNextLine | learning-dynamics/generate.py:65 | `"##\n" + t` becomes `\section*{t}`: `\s+` crosses the line boundary |
| Sections.SubsectionExample | learning-dynamics/generate.py:63 | `### Results` becomes `\subsection*{Results}` |
| Sections.SectionExample | learning-dynamics/generate.py:65 | `## Method` becomes `\section*{Method}` |
| Sections.KeptExamples | learning-dynamics/generate.py:63-65 | `#### Deep` and `##Tight` are kept |
| Lists.ItemTextShape | learning-dynamics/generate.py:76 | the item text is the strip of what follows the leading dashes and spaces |
| Lists.ConvertLists | learning-dynamics/generate.py:68-84 | the loop's result is the join of `ListOut` over the lines of the text |
| Lists.ListLines | learning-dynamics/generate.py:70-83 | the loop, with its `in_list` flag, emits exactly `ListOut(lines, false)` |
| Lists.ListOutItemized | learning-dynamics/generate.py:72-83 | every `\begin{itemize}` is closed by an `\end{itemize}`; environments do not nest and are never empty; only item lines occur inside one; one never closes right before the next opens (which line each output line comes from is stated by `Lists.ListOutContents` and `ListRuns.MaximalRun`) |
| Lists.ListOutContents | learning-dynamics/generate.py:71-83 | with the delimiters removed, the output is the input line by line: bullets as `\item` lines, all other lines unchanged |
| Lists.ListOutIdentity | learning-dynamics/generate.py:77-81 | lines with no bullet are emitted unchanged |
| ListRuns.BulletRun | learning-dynamics/generate.py:72-76 | a run of bullet lines of any length gives `\begin{itemize}` (only when no environment is open yet) and one `\item` per line, in order, and leaves the environment open for what follows |
| ListRuns.RunClose | learning-dynamics/generate.py:77-83 | an open environment is closed right before the next line that is no bullet, or at the end of the text |
| ListRuns.MaximalRun | learning-dynamics/generate.py:71-83 | a maximal run of N bullet lines, entered with no environment open, becomes exactly one `\begin{itemize}`, its N items and one `\end{itemize}`, and the line after the run follows unchanged |
| Lists.ListOutRunShape | learning-dynamics/generate.py:72-81 | a run of two bullets between two other lines gives one `\begin{itemize}`, two items and one `\end{itemize}`, and the next line follows unchanged |
| Lists.ItemTextDash | learning-dynamics/generate.py:76 | `- one` gives `one` |
| Lists.ItemTextDashes | learning-dynamics/generate.py:76 | `- - two ` gives `two` |
| Lists.ItemTextTab | learning-dynamics/generate.py:76 | `\t- three` gives `- three` |
| Lists.BulletExamples | learning-dynamics/generate.py:72 | `- x` and `  -\tx` are bullets; `-x` and `x - y` are not |
| Citations.CitationsIdentity | learning-dynamics/generate.py:86-87 | text without `[@` is unchanged |
| Citations.UnclosedIdentity | learning-dynamics/generate.py:87 | text without `]` is unchanged |
| Citations.CitationsPrefix | learning-dynamics/generate.py:87 | a prefix in which no `[@` starts is copied, and the scan goes on after it |
| Citations.CitationSpan | learning-dynamics/generate.py:87 | `[@key]` with a non-empty key free of `]` becomes `\cite{key}` |
| Citations.CitationPair | learning-dynamics/generate.py:87 | text before a citation is kept, the citation becomes `\cite{key}`, the rest is scanned on |
| Citations.EmptyKeyKept | learning-dynamics/generate.py:87 | `[@]` is no citation and is kept |
| Citations.AdjacentCitations | learning-dynamics/generate.py:87 | two citations next to each other both become commands |
| Escaping.CleanupIsEscaped | learning-dynamics/generate.py:89-90 | the two replacements equal escaping each character once: the `\` added for `&` is never treated again |
| Escaping.CleanupIdentity | learning-dynamics/generate.py:90 | text without `&` and `%` is unchanged |
| Escaping.EscapedLength | learning-dynamics/generate.py:90 | each `&` and each `%` adds one character |
| Escaping.EscapedGuarded | learning-dynamics/generate.py:90 | every `&` and `%` in the output comes right after a `\` |
| Escaping.UnescapeCleanup | learning-dynamics/generate.py:89-90 | reading `\&` and `\%` back gives the input: nothing is lost |
| Escaping.CleanupTwice | learning-dynamics/generate.py:90 | `cleanup` is not idempotent: a second run escapes `&` again |
| Pipeline.MarkdownToLatex | learning-dynamics/generate.py:92-97 | the five stages run in the source's order |
| Pipeline.CitationLine | learning-dynamics/generate.py:92-97 | a plain line with one citation comes out with the citation as `\cite{key}` and the rest unchanged |
| Pipeline.CitationLineEnd | learning-dynamics/generate.py:92-97 | the same for the line followed by a newline, which the list stage drops |
| Pipeline.UntouchedLine | learning-dynamics/generate.py:93-95 | a plain line passes math, sections and lists unchanged |
| Pipeline.PlainText | learning-dynamics/generate.py:92-97 | text none of the stages reacts to comes out unchanged, apart from a final newline |
| Appendix.ConvertAppendix | learning-dynamics/generate.py:101-120 | the result is `markdown_to_latex` of the joined lines of the line pass |
| Appendix.AppendixPass | learning-dynamics/generate.py:107-119 | the loop, with its `first_section` flag, maps line `j` to `AppendixLine(lines, j)` |
| Appendix.OneAppendixSection | learning-dynamics/generate.py:111-113 | at most one line becomes the appendix section |
| Appendix.FirstSectionExists | learning-dynamics/generate.py:110-113 | when any line is a `##` heading, the first of them becomes the appendix section |
| Appendix.AppendixAgreesWithSections | learning-dynamics/generate.py:110-119 | the first `##` line gets `Appendix: ` before its title; a later `##` line is kept by the pass and becomes `\section*` in the generic pass; other lines are mapped the way `convert_sections` maps them |
| Appendix.NotBoth | learning-dynamics/generate.py:110-117 | no line is both a `##` and a `###` heading |
| Transpiler.Transpile | learning-dynamics/generate.py:124-146 | the document is the preamble, the abstract environment around the converted abstract, the converted body, the appendix block when there is an appendix, and the postamble |
| Transpiler.BodyTextShape | learning-dynamics/generate.py:126-128 | the prepared body holds no U+200B and no citation heading, and is a contiguous piece of the sanitized input |
| Transpiler.DocumentParts | learning-dynamics/generate.py:138-146 | the document starts with the preamble and the opening of the abstract environment, then holds the abstract and the closing of the environment, and ends with the appendix and the postamble |
| Transpiler.AbstractStripOrder | learning-dynamics/generate.py:125 | the abstract is stripped before it is sanitized, so a space behind a leading U+200B is kept |
| Transpiler.CitedBody | learning-dynamics/generate.py:126-131 | a body of a title, one line citing `key`, and a `## Citation` section comes out as that line with `\cite{key}` alone |

## Left out

- Reading the three files, `Path.exists`, writing `article.tex` and the message printed after it (lines 5-10, 125-126, 134-135, 148-149): the file contents are parameters, a missing appendix is `None`, and `Transpiler.Transpile` returns the document.
- Running `pdflatex` and `bibtex` and reporting their failure (lines 151-160): these are external programs.
- Python's regular-expression engine in general: each of the seven patterns, used at nine places, is modelled by its own scanner.
- `splitlines` also splits at `\r`, `\r\n`, form feed and other Unicode line separators. The model splits at `\n` only.
- File decoding: texts are sequences of characters, and UTF-8 is not modelled.
- Sections.ConvertSectionsByLine: requires that no line is a blank heading (a mark followed only by whitespace). There, `\s+` runs into the next line. `Sections.BlankHeadingTakesNextLine` states that case.
- Lists.ListOutItemized: requires that no input line is itself `\begin{itemize}` or `\end{itemize}`. Otherwise the output cannot be read back unambiguously.
- Lists.ListOutContents: has the same requirement as `Lists.ListOutItemized`, for the same reason.
