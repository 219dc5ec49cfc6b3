/** Character classes, scanning helpers and line splitting shared by every
    stage of the transpiler. Strings are `seq<char>`; a "line boundary" is
    the character '\n' only. */
module Text {

  datatype Option<T> = None | Some(value: T)

  /** The characters Python's `\s` matches in a str pattern; the same set
      is removed by `str.strip()` with no argument. The zero-width space
      U+200B is not among them. */
  predicate IsSpace(c: char) {
    || c == ' '
    || ('\t' <= c <= '\r')
    || ('\U{1C}' <= c <= '\U{1F}')
    || c == '\U{85}' || c == '\U{A0}' || c == '\U{1680}'
    || ('\U{2000}' <= c <= '\U{200A}')
    || c == '\U{2028}' || c == '\U{2029}' || c == '\U{202F}'
    || c == '\U{205F}' || c == '\U{3000}'
  }

  ghost predicate AllSpace(s: string, lo: int, hi: int)
    requires 0 <= lo <= hi <= |s|
  {
    forall k :: lo <= k < hi ==> IsSpace(s[k])
  }

  /** End of the maximal run of whitespace that starts at `i`. */
  function SkipSpace(s: string, i: nat): (j: nat)
    requires i <= |s|
    ensures i <= j <= |s|
    ensures j < |s| ==> !IsSpace(s[j])
    decreases |s| - i
  {
    if i < |s| && IsSpace(s[i]) then SkipSpace(s, i + 1) else i
  }

  /** Everything `SkipSpace` skips is whitespace. */
  lemma {:induction false} SkipSpaceRun(s: string, i: nat)
    requires i <= |s|
    ensures AllSpace(s, i, SkipSpace(s, i))
    decreases |s| - i
  {
    if i < |s| && IsSpace(s[i]) {
      SkipSpaceRun(s, i + 1);
    }
  }

  /** A whitespace run that stops at a non-space is the one `SkipSpace` finds. */
  lemma SkipSpaceUnique(s: string, i: nat, j: nat)
    requires i <= j < |s| && AllSpace(s, i, j) && !IsSpace(s[j])
    ensures SkipSpace(s, i) == j
    decreases j - i
  {
    if i < j {
      SkipSpaceUnique(s, i + 1, j);
    }
  }

  lemma SkipSpaceMaximal(s: string, i: nat, j: nat)
    requires i <= j <= |s| && AllSpace(s, i, j)
    ensures j <= SkipSpace(s, i)
  {
  }

  lemma IndexOfUnique(s: string, c: char, i: nat, j: nat)
    requires i <= j <= |s|
    requires forall k :: i <= k < j ==> s[k] != c
    requires j < |s| ==> s[j] == c
    ensures IndexOf(s, c, i) == j
  {
  }

  /** First index at or after `i` that holds `c`, or `|s|` when there is none. */
  function IndexOf(s: string, c: char, i: nat): (j: nat)
    requires i <= |s|
    ensures i <= j <= |s|
    ensures forall k :: i <= k < j ==> s[k] != c
    ensures j < |s| ==> s[j] == c
    decreases |s| - i
  {
    if i < |s| && s[i] != c then IndexOf(s, c, i + 1) else i
  }

  /** Start of the maximal run of whitespace that ends at `hi`, not below `lo`. */
  function TrimEnd(s: string, lo: nat, hi: nat): (e: nat)
    requires lo <= hi <= |s|
    ensures lo <= e <= hi
    ensures e > lo ==> !IsSpace(s[e - 1])
    decreases hi
  {
    if hi > lo && IsSpace(s[hi - 1]) then TrimEnd(s, lo, hi - 1) else hi
  }

  /** Everything `TrimEnd` cuts off is whitespace. */
  lemma {:induction false} TrimEndRun(s: string, lo: nat, hi: nat)
    requires lo <= hi <= |s|
    ensures AllSpace(s, TrimEnd(s, lo, hi), hi)
    decreases hi
  {
    if hi > lo && IsSpace(s[hi - 1]) {
      TrimEndRun(s, lo, hi - 1);
    }
  }

  /** `r` is `s` with leading and trailing whitespace removed. */
  ghost predicate IsStripOf(s: string, r: string) {
    && (r == [] || (!IsSpace(r[0]) && !IsSpace(r[|r| - 1])))
    && exists i :: 0 <= i <= |s| - |r| && s[i..i + |r|] == r
                   && AllSpace(s, 0, i) && AllSpace(s, i + |r|, |s|)
  }

  /** Python's `str.strip()`. */
  function Strip(s: string): string {
    s[SkipSpace(s, 0)..TrimEnd(s, SkipSpace(s, 0), |s|)]
  }

  /** `Strip` removes exactly the leading and trailing whitespace. */
  lemma StripIsStrip(s: string)
    ensures IsStripOf(s, Strip(s))
  {
    var i := SkipSpace(s, 0);
    SkipSpaceRun(s, 0);
    TrimEndRun(s, i, |s|);
  }

  /** `"\n".join(lines)`. */
  function Join(lines: seq<string>): string {
    if |lines| == 0 then ""
    else if |lines| == 1 then lines[0]
    else lines[0] + "\n" + Join(lines[1..])
  }

  /** `s.split("\n")`: the pieces between line boundaries, in order. */
  function Split(s: string): (lines: seq<string>)
    ensures |lines| >= 1
    ensures forall i :: 0 <= i < |lines| ==> '\n' !in lines[i]
    ensures Join(lines) == s
    decreases |s|
  {
    var k := IndexOf(s, '\n', 0);
    if k == |s| then [s]
    else
      var rest := Split(s[k + 1..]);
      assert ([s[..k]] + rest)[1..] == rest;
      assert s[..k] + "\n" + s[k + 1..] == s;
      [s[..k]] + rest
  }

  /** `s.splitlines()` with '\n' as the only line boundary: the pieces
      between boundaries, where a final boundary ends the last line instead
      of starting an empty one, and empty text has no lines. */
  function SplitLines(s: string): (lines: seq<string>)
    ensures forall i :: 0 <= i < |lines| ==> '\n' !in lines[i]
    ensures (lines == []) == (s == [])
    ensures Join(lines) == if |s| > 0 && s[|s| - 1] == '\n' then s[..|s| - 1] else s
    decreases |s|
  {
    if s == [] then []
    else
      var k := IndexOf(s, '\n', 0);
      if k == |s| then [s]
      else
        var rest := SplitLines(s[k + 1..]);
        LinesCons(s, k, rest);
        [s[..k]] + rest
  }

  /** One line followed by the lines of the text after its boundary. */
  lemma LinesCons(s: string, k: nat, rest: seq<string>)
    requires k < |s| && s[k] == '\n' && forall j :: 0 <= j < k ==> s[j] != '\n'
    requires (rest == []) == (s[k + 1..] == [])
    requires Join(rest) == var t := s[k + 1..]; if |t| > 0 && t[|t| - 1] == '\n' then t[..|t| - 1] else t
    ensures Join([s[..k]] + rest) == if s[|s| - 1] == '\n' then s[..|s| - 1] else s
  {
    var t := s[k + 1..];
    var lines := [s[..k]] + rest;
    if rest == [] {
      assert k == |s| - 1;
    } else {
      assert lines[1..] == rest;
      assert Join(lines) == s[..k] + "\n" + Join(rest);
      assert s == s[..k] + "\n" + t;
      if t[|t| - 1] == '\n' {
        assert s[..|s| - 1] == s[..k] + "\n" + t[..|t| - 1];
      }
    }
  }

  /** Splitting at line boundaries undoes joining lines that hold none. */
  lemma {:induction false} SplitJoin(lines: seq<string>)
    requires |lines| >= 1
    requires forall i :: 0 <= i < |lines| ==> '\n' !in lines[i]
    ensures Split(Join(lines)) == lines
    decreases |lines|
  {
    var s := Join(lines);
    var l := lines[0];
    if |lines| == 1 {
      NoNewlineIndex(l);
    } else {
      assert s == l + "\n" + Join(lines[1..]);
      var k := IndexOf(s, '\n', 0);
      assert s[|l|] == '\n';
      NoNewlineIndex(l);
      assert forall j :: 0 <= j < |l| ==> s[j] == l[j];
      assert k == |l|;
      assert s[..k] == l;
      assert s[k + 1..] == Join(lines[1..]);
      SplitJoin(lines[1..]);
    }
  }

  /** Text without a line boundary is one line. */
  lemma SingleLine(s: string)
    requires s != [] && '\n' !in s
    ensures SplitLines(s) == [s]
  {
    NoNewlineIndex(s);
  }

  /** A line and its final boundary make one line. */
  lemma LineWithEnd(s: string)
    requires '\n' !in s
    ensures SplitLines(s + "\n") == [s]
  {
    var t := s + "\n";
    NoNewlineIndex(s);
    assert forall j :: 0 <= j < |s| ==> t[j] == s[j];
    IndexOfUnique(t, '\n', 0, |s|);
    assert t[..|s|] == s;
    assert t[|s| + 1..] == [];
  }

  lemma NoNewlineIndex(l: string)
    requires '\n' !in l
    ensures forall j :: 0 <= j < |l| ==> l[j] != '\n'
    ensures IndexOf(l, '\n', 0) == |l|
  {
  }

  lemma AppendAssoc<T>(a: seq<T>, b: seq<T>, c: seq<T>)
    ensures a + (b + c) == (a + b) + c
  {
  }

  /** No occurrence of the two-character sequence `a b` in `s`. */
  predicate FreeOfPair(s: string, a: char, b: char) {
    forall i :: 0 <= i < |s| - 1 ==> !(s[i] == a && s[i + 1] == b)
  }

  lemma FreeOfPairPrefix(s: string, n: nat, a: char, b: char)
    requires n <= |s| && FreeOfPair(s, a, b)
    ensures FreeOfPair(s[..n], a, b)
  {
    forall i | 0 <= i < n - 1 ensures !(s[..n][i] == a && s[..n][i + 1] == b) {
      assert s[..n][i] == s[i] && s[..n][i + 1] == s[i + 1];
    }
  }

  lemma FreeOfPairTail(s: string, a: char, b: char)
    requires s != [] && FreeOfPair(s, a, b)
    ensures FreeOfPair(s[1..], a, b)
  {
    forall i | 0 <= i < |s[1..]| - 1 ensures !(s[1..][i] == a && s[1..][i + 1] == b) {
      assert s[1..][i] == s[i + 1] && s[1..][i + 1] == s[i + 2];
    }
  }

  /** Putting the first character back in front. */
  lemma ConsAssoc(p: string, y: string)
    requires p != []
    ensures [p[0]] + (p[1..] + y) == p + y
  {
    AppendAssoc([p[0]], p[1..], y);
    assert [p[0]] + p[1..] == p;
  }
}
