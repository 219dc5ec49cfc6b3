/** `markdown_to_latex`: math, then sections, then lists, then citations,
    then the escaping of `&` and `%`. */
module Pipeline {
  import opened Text
  import opened MathBlocks
  import opened Sections
  import opened Lists
  import opened Citations
  import opened Escaping

  /** What `convert_lists` returns for `s`. */
  function ListText(s: string): string {
    Join(ListOut(SplitLines(s), false))
  }

  /** The LaTeX `markdown_to_latex` produces for `s`. */
  function Latex(s: string): string {
    Cleanup(ConvertCitations(ListText(ConvertSections(ConvertMath(s)))))
  }

  /** `markdown_to_latex`: the stages applied in the source's order. */
  method MarkdownToLatex(text: string) returns (r: string)
    ensures r == Latex(text)
  {
    var t := ConvertMath(text);
    t := ConvertSections(t);
    t := ConvertLists(t);
    t := ConvertCitations(t);
    r := Cleanup(t);
  }

  /** None of the characters any stage reacts to. */
  predicate PlainChars(s: string) {
    forall i :: 0 <= i < |s| ==> s[i] !in "$#[]&%\n"
  }

  lemma PlainFacts(s: string)
    requires PlainChars(s)
    ensures '$' !in s && '#' !in s && '\n' !in s && '&' !in s && '%' !in s
    ensures '[' !in s && ']' !in s && FreeOfPair(s, '[', '@')
  {
    forall c | c in s ensures c !in "$#[]&%\n" {
      var i :| 0 <= i < |s| && s[i] == c;
    }
    forall i | 0 <= i < |s| - 1 ensures s[i] != '[' {
      assert s[i] in s;
    }
  }

  /** A line `p[@key]q` with no other special character becomes
      `p\cite{key}q`, unless it starts a bullet. */
  lemma CitationLine(p: string, key: string, q: string)
    requires PlainChars(p) && PlainChars(key) && PlainChars(q) && key != []
    requires p == [] || (!IsSpace(p[0]) && p[0] != '-')
    ensures Latex(p + "[@" + key + "]" + q) == p + Cite(key) + q
  {
    var s := p + "[@" + key + "]" + q;
    PlainFacts(p);
    PlainFacts(key);
    PlainFacts(q);
    LineChars(p, key, q);
    assert s[0] == if p == [] then '[' else p[0];
    UntouchedLine(s);
    CitationPair(p, key, q);
    CitationsIdentity(q);
    CiteChars(p, key, q);
    CleanupIdentity(p + Cite(key) + q);
  }

  lemma LineChars(p: string, key: string, q: string)
    requires '$' !in p && '#' !in p && '\n' !in p
    requires '$' !in key && '#' !in key && '\n' !in key
    requires '$' !in q && '#' !in q && '\n' !in q
    ensures var s := p + "[@" + key + "]" + q;
      '#' !in s && '\n' !in s && FreeOfPair(s, '$', '$')
  {
    var s := p + "[@" + key + "]" + q;
    assert forall c :: c in s ==> c in p || c in "[@]" || c in key || c in q;
    forall i | 0 <= i < |s| - 1 ensures s[i] != '$' {
      assert s[i] in s;
    }
  }

  lemma CiteChars(p: string, key: string, q: string)
    requires '&' !in p && '%' !in p && '&' !in key && '%' !in key && '&' !in q && '%' !in q
    ensures '&' !in p + Cite(key) + q && '%' !in p + Cite(key) + q
  {
    var c := p + Cite(key) + q;
    assert forall x :: x in c ==> x in p || x in Cite(key) || x in q;
    assert forall x :: x in Cite(key) ==> x in "\\cite{}" || x in key;
  }

  /** The same line with a final line boundary: the boundary is lost. */
  lemma CitationLineEnd(p: string, key: string, q: string)
    requires PlainChars(p) && PlainChars(key) && PlainChars(q) && key != []
    requires p == [] || (!IsSpace(p[0]) && p[0] != '-')
    ensures Latex(p + "[@" + key + "]" + q + "\n") == p + Cite(key) + q
  {
    var s := p + "[@" + key + "]" + q;
    PlainFacts(p);
    PlainFacts(key);
    PlainFacts(q);
    LineChars(p, key, q);
    assert s[0] == if p == [] then '[' else p[0];
    UntouchedLineEnd(s);
    CitationPair(p, key, q);
    CitationsIdentity(q);
    CiteChars(p, key, q);
    CleanupIdentity(p + Cite(key) + q);
  }

  lemma UntouchedLineEnd(s: string)
    requires FreeOfPair(s, '$', '$') && '#' !in s && '\n' !in s
    requires s != [] && !IsSpace(s[0]) && s[0] != '-'
    ensures ListText(ConvertSections(ConvertMath(s + "\n"))) == s
  {
    EndChars(s);
    MathIdentity(s + "\n");
    SectionsIdentity(s + "\n");
    assert SkipSpace(s, 0) == 0;
    ListTextOfLine(s);
  }

  lemma EndChars(s: string)
    requires FreeOfPair(s, '$', '$') && '#' !in s
    ensures FreeOfPair(s + "\n", '$', '$') && '#' !in s + "\n"
  {
    var t := s + "\n";
    forall i | 0 <= i < |t| - 1 ensures !(t[i] == '$' && t[i + 1] == '$') {
      if i + 1 < |s| {
        assert t[i] == s[i] && t[i + 1] == s[i + 1];
      } else {
        assert t[i + 1] == '\n';
      }
    }
    assert forall c :: c in t ==> c in s || c == '\n';
  }

  /** One line that is no bullet, with its final boundary, comes out without
      the boundary. */
  lemma ListTextOfLine(s: string)
    requires '\n' !in s && !IsBullet(s)
    ensures ListText(s + "\n") == s
  {
    LineWithEnd(s);
    ListOutStep([s], false);
    assert [s][1..] == [];
  }

  /** A single line with no `$$` and no `#` that does not start a bullet
      passes the first three stages unchanged. */
  lemma UntouchedLine(s: string)
    requires FreeOfPair(s, '$', '$') && '#' !in s && '\n' !in s
    requires s != [] && !IsSpace(s[0]) && s[0] != '-'
    ensures ListText(ConvertSections(ConvertMath(s))) == s
  {
    MathIdentity(s);
    SectionsIdentity(s);
    SingleLine(s);
    assert SkipSpace(s, 0) == 0;
    assert !IsBullet(s);
    ListOutStep([s], false);
    assert [s][1..] == [];
  }

  /** Text in which no stage finds anything to do comes out as its lines
      joined again: only a final line boundary is lost. */
  lemma PlainText(s: string)
    requires FreeOfPair(s, '$', '$') && '#' !in s && FreeOfPair(s, '[', '@')
    requires '&' !in s && '%' !in s
    requires forall i :: 0 <= i < |SplitLines(s)| ==> !IsBullet(SplitLines(s)[i])
    ensures Latex(s) == if |s| > 0 && s[|s| - 1] == '\n' then s[..|s| - 1] else s
  {
    MathIdentity(s);
    SectionsIdentity(s);
    ListOutIdentity(SplitLines(s));
    var t := Join(SplitLines(s));
    assert ListText(s) == t;
    assert t == s[..|t|];
    FreeOfPairPrefix(s, |t|, '[', '@');
    CitationsIdentity(t);
    assert forall c :: c in t ==> c in s;
    CleanupIdentity(t);
  }
}
