/** `convert_lists`: the text is split into lines; each maximal run of lines
    that start a bullet (`^\s*-\s+`) becomes an `itemize` environment with
    one `\item` per line, and every other line is kept. */
module Lists {
  import opened Text

  const Begin: string := "\\begin{itemize}"
  const End: string := "\\end{itemize}"
  /** What each item line starts with. */
  const ItemPrefix: string := "  \\item "

  /** `re.match(r"^\s*-\s+", line)`: optional whitespace, a dash, at least one
      whitespace character. */
  predicate IsBullet(line: string) {
    var p := SkipSpace(line, 0);
    p + 1 < |line| && line[p] == '-' && IsSpace(line[p + 1])
  }

  /** Index of the first character that is neither '-' nor ' ' at or
      after `i`. */
  function SkipDashSpace(s: string, i: nat): (j: nat)
    requires i <= |s|
    ensures i <= j <= |s|
    ensures j < |s| ==> s[j] != '-' && s[j] != ' '
    decreases |s| - i
  {
    if i < |s| && (s[i] == '-' || s[i] == ' ') then SkipDashSpace(s, i + 1) else i
  }

  /** Everything `SkipDashSpace` skips is a dash or a space. */
  lemma {:induction false} SkipDashSpaceRun(s: string, i: nat)
    requires i <= |s|
    ensures forall k :: i <= k < SkipDashSpace(s, i) ==> s[k] == '-' || s[k] == ' '
    decreases |s| - i
  {
    if i < |s| && (s[i] == '-' || s[i] == ' ') {
      SkipDashSpaceRun(s, i + 1);
    }
  }

  /** `line.lstrip("- ").strip()`: leading dashes and spaces go first, then
      whitespace at both ends. A tab before the dash therefore keeps the
      dash. */
  function ItemText(line: string): string {
    Strip(line[SkipDashSpace(line, 0)..])
  }

  /** The item text is what is left of the line once its leading dashes and
      spaces are dropped, then stripped. */
  lemma ItemTextShape(line: string)
    ensures exists j :: 0 <= j <= |line| && IsStripOf(line[j..], ItemText(line))
                        && (forall k :: 0 <= k < j ==> line[k] == '-' || line[k] == ' ')
                        && (j < |line| ==> line[j] != '-' && line[j] != ' ')
  {
    var j := SkipDashSpace(line, 0);
    SkipDashSpaceRun(line, 0);
    StripIsStrip(line[j..]);
  }

  function Item(line: string): string {
    ItemPrefix + ItemText(line)
  }

  /** The lines one input line contributes; `open` says whether an
      environment is open before it. */
  function Lead(line: string, open: bool): seq<string> {
    if IsBullet(line) then (if open then [] else [Begin]) + [Item(line)]
    else (if open then [End] else []) + [line]
  }

  /** The lines `convert_lists` emits for `ls`, an environment being open
      before the first of them when `open` holds. */
  function ListOut(ls: seq<string>, open: bool): seq<string>
    decreases |ls|
  {
    if ls == [] then (if open then [End] else [])
    else Lead(ls[0], open) + ListOut(ls[1..], IsBullet(ls[0]))
  }

  lemma ListOutStep(ls: seq<string>, open: bool)
    requires ls != []
    ensures ListOut(ls, open) == Lead(ls[0], open) + ListOut(ls[1..], IsBullet(ls[0]))
  {
  }

  /** `convert_lists`, one line at a time, as the source does it. */
  method ConvertLists(text: string) returns (r: string)
    ensures r == Join(ListOut(SplitLines(text), false))
  {
    var out := ListLines(SplitLines(text));
    r := Join(out);
  }

  /** The loop of `convert_lists` over the lines of the text. */
  method ListLines(lines: seq<string>) returns (out: seq<string>)
    ensures out == ListOut(lines, false)
  {
    out := [];
    var inList := false;
    var i := 0;
    while i < |lines|
      invariant 0 <= i <= |lines|
      invariant out + ListOut(lines[i..], inList) == ListOut(lines, false)
    {
      var line := lines[i];
      ghost var before, was := out, inList;
      if IsBullet(line) {
        if !inList {
          out := out + [Begin];
          inList := true;
        }
        out := out + [Item(line)];
      } else {
        if inList {
          out := out + [End];
          inList := false;
        }
        out := out + [line];
      }
      ListLoopStep(lines, i, before, was, out);
      i := i + 1;
    }
    ListLoopEnd(lines, i, inList, out);
    if inList {
      out := out + [End];
    }
  }

  /** What one turn of the loop appends, branch by branch. */
  function Emit(before: seq<string>, line: string, open: bool): seq<string> {
    if IsBullet(line) then (if open then before else before + [Begin]) + [Item(line)]
    else (if open then before + [End] else before) + [line]
  }

  lemma EmitIsLead(before: seq<string>, line: string, open: bool)
    ensures Emit(before, line, open) == before + Lead(line, open)
  {
    if IsBullet(line) && !open {
      AppendAssoc(before, [Begin], [Item(line)]);
    } else if !IsBullet(line) && open {
      AppendAssoc(before, [End], [line]);
    }
  }

  /** One turn of the loop keeps the invariant. */
  lemma ListLoopStep(lines: seq<string>, i: nat, before: seq<string>, open: bool, out: seq<string>)
    requires i < |lines| && before + ListOut(lines[i..], open) == ListOut(lines, false)
    requires out == Emit(before, lines[i], open)
    ensures out + ListOut(lines[i + 1..], IsBullet(lines[i])) == ListOut(lines, false)
  {
    EmitIsLead(before, lines[i], open);
    assert lines[i..][1..] == lines[i + 1..];
    ListOutStep(lines[i..], open);
    AppendAssoc(before, Lead(lines[i], open), ListOut(lines[i + 1..], IsBullet(lines[i])));
  }

  lemma ListLoopEnd(lines: seq<string>, i: nat, open: bool, out: seq<string>)
    requires i == |lines| && out + ListOut(lines[i..], open) == ListOut(lines, false)
    ensures (if open then out + [End] else out) == ListOut(lines, false)
  {
    assert lines[i..] == [];
    if !open {
      assert out + [] == out;
    }
  }

  // ----------------------------------------------------------------------
  // What the emitted lines look like
  // ----------------------------------------------------------------------

  /** No line of `ls` is itself an environment delimiter. */
  predicate NoDelimiters(ls: seq<string>) {
    forall i :: 0 <= i < |ls| ==> ls[i] != Begin && ls[i] != End
  }

  predicate IsItemLine(x: string) {
    |ItemPrefix| <= |x| && x[..|ItemPrefix|] == ItemPrefix
  }

  /** Well-formed `itemize` environments: they open only when closed and
      close only when open, none is empty, nothing but item lines appears
      inside one, and one never closes right before the next opens; at the
      end none is open. */
  predicate Itemized(out: seq<string>, open: bool)
    decreases |out|
  {
    if out == [] then !open
    else if out[0] == Begin then
      !open && |out| > 1 && out[1] != End && Itemized(out[1..], true)
    else if out[0] == End then
      open && (|out| == 1 || out[1] != Begin) && Itemized(out[1..], false)
    else
      (open ==> IsItemLine(out[0])) && Itemized(out[1..], open)
  }

  lemma ItemIsNoDelimiter(line: string)
    ensures IsItemLine(Item(line)) && Item(line) != Begin && Item(line) != End
  {
    var x := Item(line);
    assert x[..|ItemPrefix|] == ItemPrefix;
    assert x[0] == ' ';
  }

  lemma ItemizedCons(x: string, rest: seq<string>, open: bool)
    requires x != Begin && x != End && (open ==> IsItemLine(x)) && Itemized(rest, open)
    ensures Itemized([x] + rest, open)
  {
    assert ([x] + rest)[1..] == rest;
  }

  lemma ItemizedBegin(rest: seq<string>)
    requires Itemized(rest, true) && rest != [] && rest[0] != End
    ensures Itemized([Begin] + rest, false)
  {
    assert ([Begin] + rest)[1..] == rest;
  }

  lemma ItemizedEnd(rest: seq<string>)
    requires Itemized(rest, false) && (rest == [] || rest[0] != Begin)
    ensures Itemized([End] + rest, true)
  {
    assert ([End] + rest)[1..] == rest;
  }

  lemma NoDelimitersTail(ls: seq<string>)
    requires ls != [] && NoDelimiters(ls)
    ensures ls[0] != Begin && ls[0] != End && NoDelimiters(ls[1..])
  {
    forall i | 0 <= i < |ls[1..]| ensures ls[1..][i] != Begin && ls[1..][i] != End {
      assert ls[1..][i] == ls[i + 1];
    }
  }

  /** Over lines that are not delimiters themselves, the output is made of
      well-formed environments, one per maximal run of bullet lines. */
  lemma {:induction false} ListOutItemized(ls: seq<string>, open: bool)
    requires NoDelimiters(ls)
    ensures Itemized(ListOut(ls, open), open)
    decreases |ls|
  {
    if ls == [] {
      if open {
        ItemizedEnd([]);
        assert [End] + [] == [End];
      }
    } else {
      var l := ls[0];
      var rest := ListOut(ls[1..], IsBullet(l));
      NoDelimitersTail(ls);
      ListOutItemized(ls[1..], IsBullet(l));
      ListOutStep(ls, open);
      if IsBullet(l) {
        var x := Item(l);
        ItemIsNoDelimiter(l);
        ItemizedCons(x, rest, true);
        if !open {
          ItemizedBegin([x] + rest);
          AppendAssoc([Begin], [x], rest);
        } else {
          assert [] + [x] == [x];
        }
      } else {
        ItemizedCons(l, rest, false);
        if open {
          ItemizedEnd([l] + rest);
          AppendAssoc([End], [l], rest);
        } else {
          assert [] + [l] == [l];
        }
      }
    }
  }

  /** The lines left when the delimiters are taken out. */
  function Undelimit(out: seq<string>): (r: seq<string>)
    ensures |r| <= |out|
    decreases |out|
  {
    if out == [] then []
    else if out[0] == Begin || out[0] == End then Undelimit(out[1..])
    else [out[0]] + Undelimit(out[1..])
  }

  lemma UndelimitCons(x: string, rest: seq<string>)
    ensures Undelimit([x] + rest)
         == if x == Begin || x == End then Undelimit(rest) else [x] + Undelimit(rest)
  {
    assert ([x] + rest)[1..] == rest;
  }

  /** Each input line on its own: a bullet line becomes its item. */
  function LineImage(line: string): string {
    if IsBullet(line) then Item(line) else line
  }

  function LineImages(ls: seq<string>): (r: seq<string>)
    ensures |r| == |ls|
    ensures forall i :: 0 <= i < |ls| ==> r[i] == LineImage(ls[i])
  {
    seq(|ls|, i requires 0 <= i < |ls| => LineImage(ls[i]))
  }

  /** Taking the delimiters out of the output leaves the input lines, in
      order, with every bullet line turned into its item. */
  lemma {:induction false} ListOutContents(ls: seq<string>, open: bool)
    requires NoDelimiters(ls)
    ensures Undelimit(ListOut(ls, open)) == LineImages(ls)
    decreases |ls|
  {
    if ls == [] {
      if open {
        UndelimitCons(End, []);
        assert [End] + [] == [End];
      }
    } else {
      NoDelimitersTail(ls);
      ListOutContents(ls[1..], IsBullet(ls[0]));
      ListOutStep(ls, open);
      LeadUndelimit(ls[0], open, ListOut(ls[1..], IsBullet(ls[0])));
      LineImagesCons(ls);
    }
  }

  lemma LineImagesCons(ls: seq<string>)
    requires ls != []
    ensures LineImages(ls) == [LineImage(ls[0])] + LineImages(ls[1..])
  {
  }

  /** The delimiters one line adds are dropped again. */
  lemma LeadUndelimit(l: string, open: bool, rest: seq<string>)
    requires l != Begin && l != End
    ensures Undelimit(Lead(l, open) + rest) == [LineImage(l)] + Undelimit(rest)
  {
    var y := LineImage(l);
    ItemIsNoDelimiter(l);
    UndelimitCons(y, rest);
    if (IsBullet(l) && !open) || (!IsBullet(l) && open) {
      var d := if open then End else Begin;
      assert Lead(l, open) == [d] + [y];
      AppendAssoc([d], [y], rest);
      UndelimitCons(d, [y] + rest);
    } else {
      assert Lead(l, open) == [y];
    }
  }

  /** Text with no bullet line is only re-split into lines. */
  lemma {:induction false} ListOutIdentity(ls: seq<string>)
    requires forall i :: 0 <= i < |ls| ==> !IsBullet(ls[i])
    ensures ListOut(ls, false) == ls
    decreases |ls|
  {
    if ls != [] {
      assert !IsBullet(ls[0]);
      assert forall i :: 0 <= i < |ls[1..]| ==> !IsBullet(ls[1..][i]) by {
        forall i | 0 <= i < |ls[1..]| ensures !IsBullet(ls[1..][i]) {
          assert ls[1..][i] == ls[i + 1];
        }
      }
      ListOutIdentity(ls[1..]);
      assert [ls[0]] + ls[1..] == ls;
    }
  }

  /** Item texts: dashes and spaces go first, whitespace at both ends next;
      a tab before the dash keeps the dash. */
  lemma ItemTextDash()
    ensures ItemText("- one") == "one"
  {
    var a := "- one";
    assert SkipDashSpace(a, 2) == 2;
    assert SkipDashSpace(a, 0) == 2;
    assert a[2..] == "one";
    assert SkipSpace("one", 0) == 0;
    assert TrimEnd("one", 0, 3) == 3;
  }

  lemma ItemTextDashes()
    ensures ItemText("- - two ") == "two"
  {
    var b := "- - two ";
    assert SkipDashSpace(b, 4) == 4;
    assert SkipDashSpace(b, 0) == 4;
    assert b[4..] == "two ";
    assert SkipSpace("two ", 0) == 0;
    assert TrimEnd("two ", 0, 3) == 3;
    assert TrimEnd("two ", 0, 4) == 3;
    assert "two "[0..3] == "two";
  }

  lemma ItemTextTab()
    ensures ItemText("\t- three") == "- three"
  {
    var c := "\t- three";
    assert SkipDashSpace(c, 0) == 0;
    assert c[0..] == c;
    assert SkipSpace(c, 1) == 1;
    assert SkipSpace(c, 0) == 1;
    assert TrimEnd(c, 1, |c|) == |c|;
    assert c[1..|c|] == "- three";
  }

  /** A run of two bullet lines between two plain lines becomes one
      environment with two items. */
  lemma ListOutRunShape(a: string, x: string, y: string, b: string)
    requires !IsBullet(a) && IsBullet(x) && IsBullet(y) && !IsBullet(b)
    ensures ListOut([a, x, y, b], false) == [a, Begin, Item(x), Item(y), End, b]
  {
    var ls := [a, x, y, b];
    assert ls[1..] == [x, y, b];
    RunShapeTail(x, y, b);
    ListOutStep(ls, false);
  }

  lemma RunShapeTail(x: string, y: string, b: string)
    requires IsBullet(x) && IsBullet(y) && !IsBullet(b)
    ensures ListOut([x, y, b], false) == [Begin, Item(x), Item(y), End, b]
  {
    assert [x, y, b][1..] == [y, b] && [y, b][1..] == [b] && [b][1..] == [];
    ListOutStep([b], true);
    assert ListOut([b], true) == [End, b];
    ListOutStep([y, b], true);
    ListOutStep([x, y, b], false);
  }

  lemma BulletExamples()
    ensures IsBullet("- x") && IsBullet("  -\tx") && !IsBullet("-x") && !IsBullet("x - y")
  {
    assert SkipSpace("- x", 0) == 0;
    assert SkipSpace("  -\tx", 0) == 2;
    assert SkipSpace("-x", 0) == 0;
    assert SkipSpace("x - y", 0) == 0;
  }
}
