/** `convert_citations`: the substitution of `\[@([^\]]+)\]` by `\cite{\1}`.
    The key is every character up to the first ']' after the `[@`, line
    boundaries and `[` included, and must not be empty. */
module Citations {
  import opened Text

  /** `\cite{key}`. */
  function Cite(key: string): string {
    "\\cite{" + key + "}"
  }

  /** A citation starts at the front of `s`: `[@`, a non-empty key, `]`. */
  predicate CitationFront(s: string) {
    |s| >= 2 && s[0] == '[' && s[1] == '@' && 2 < IndexOf(s, ']', 2) < |s|
  }

  /** The substitution, scanned left to right. */
  function ConvertCitations(s: string): string
    decreases |s|
  {
    if s == [] then []
    else if CitationFront(s) then
      var k := IndexOf(s, ']', 2);
      Cite(s[2..k]) + ConvertCitations(s[k + 1..])
    else [s[0]] + ConvertCitations(s[1..])
  }

  /** Text without `[@` is left as it is. */
  lemma {:induction false} CitationsIdentity(s: string)
    requires FreeOfPair(s, '[', '@')
    ensures ConvertCitations(s) == s
    decreases |s|
  {
    if s != [] {
      assert !CitationFront(s);
      assert FreeOfPair(s[1..], '[', '@') by {
        forall i | 0 <= i < |s[1..]| - 1 ensures !(s[1..][i] == '[' && s[1..][i + 1] == '@') {
          assert s[1..][i] == s[i + 1] && s[1..][i + 1] == s[i + 2];
        }
      }
      CitationsIdentity(s[1..]);
    }
  }

  /** Text without a closing bracket is left as it is. */
  lemma {:induction false} UnclosedIdentity(s: string)
    requires ']' !in s
    ensures ConvertCitations(s) == s
    decreases |s|
  {
    if s != [] {
      if |s| >= 2 {
        NoCharIndex(s, ']', 2);
      }
      assert !CitationFront(s);
      assert ']' !in s[1..] by {
        assert forall c :: c in s[1..] ==> c in s;
      }
      UnclosedIdentity(s[1..]);
    }
  }

  lemma NoCharIndex(s: string, c: char, i: nat)
    requires i <= |s| && c !in s
    ensures IndexOf(s, c, i) == |s|
  {
    forall k | 0 <= k < |s| ensures s[k] != c {
      assert s[k] in s;
    }
  }

  /** Scanning copies a prefix in which no `[@` starts. */
  lemma {:induction false} CitationsPrefix(p: string, x: string)
    requires FreeOfPair(p, '[', '@')
    requires p == [] || x == [] || p[|p| - 1] != '[' || x[0] != '@'
    ensures ConvertCitations(p + x) == p + ConvertCitations(x)
    decreases |p|
  {
    if p == [] {
      assert p + x == x;
    } else {
      var s := p + x;
      assert s[1..] == p[1..] + x;
      CitationNoOpen(p, x);
      CitationCopy(s);
      FreeOfPairTail(p, '[', '@');
      CitationsPrefix(p[1..], x);
      ConsAssoc(p, ConvertCitations(x));
    }
  }

  lemma CitationNoOpen(p: string, x: string)
    requires p != [] && FreeOfPair(p, '[', '@')
    requires x == [] || p[|p| - 1] != '[' || x[0] != '@'
    ensures !CitationFront(p + x) && (p + x)[0] == p[0]
  {
    var s := p + x;
    if |p| > 1 {
      assert s[1] == p[1];
    } else if x != [] {
      assert s[1] == x[0];
    }
  }

  /** Where no citation starts, one character is copied. */
  lemma CitationCopy(s: string)
    requires s != [] && !CitationFront(s)
    ensures ConvertCitations(s) == [s[0]] + ConvertCitations(s[1..])
  {
  }

  /** A citation with a non-empty key free of `]` becomes `\cite{key}`, and
      the text after it is scanned on. */
  lemma CitationSpan(key: string, rest: string)
    requires key != [] && ']' !in key
    ensures ConvertCitations("[@" + key + "]" + rest) == Cite(key) + ConvertCitations(rest)
  {
    var s := "[@" + key + "]" + rest;
    var k := 2 + |key|;
    forall j | 2 <= j < k ensures s[j] != ']' {
      assert s[j] == key[j - 2];
      assert key[j - 2] in key;
    }
    assert s[k] == ']';
    IndexOfUnique(s, ']', 2, k);
    assert CitationFront(s);
    assert s[2..k] == key;
    assert s[k + 1..] == rest;
  }

  /** Text before a citation is kept, the citation is replaced, the rest
      is scanned on. */
  lemma CitationPair(p: string, key: string, rest: string)
    requires FreeOfPair(p, '[', '@') && key != [] && ']' !in key
    ensures ConvertCitations(p + "[@" + key + "]" + rest)
         == p + Cite(key) + ConvertCitations(rest)
  {
    var y := "[@" + key + "]" + rest;
    assert p + "[@" + key + "]" + rest == p + y;
    CitationsPrefix(p, y);
    CitationSpan(key, rest);
  }

  /** An empty key is no citation: `[@]` is kept. */
  lemma EmptyKeyKept(rest: string)
    ensures ConvertCitations("[@]" + rest) == "[@]" + ConvertCitations(rest)
  {
    var s := "[@]" + rest;
    assert s[2] == ']';
    IndexOfUnique(s, ']', 2, 2);
    assert !CitationFront(s);
    var s1 := s[1..];
    assert s1 == "@]" + rest;
    assert !CitationFront(s1);
    var s2 := s1[1..];
    assert s2 == "]" + rest;
    assert !CitationFront(s2);
    assert s2[1..] == rest;
    assert ConvertCitations(s2) == "]" + ConvertCitations(rest);
    assert ConvertCitations(s1) == "@" + ConvertCitations(s2);
    assert ConvertCitations(s) == "[" + ConvertCitations(s1);
  }

  /** Two citations next to each other both become commands. */
  lemma AdjacentCitations(a: string, b: string)
    requires a != [] && ']' !in a && b != [] && ']' !in b
    ensures ConvertCitations("[@" + a + "][@" + b + "]") == Cite(a) + Cite(b)
  {
    CitationSpan(a, "[@" + b + "]");
    assert "[@" + a + "][@" + b + "]" == "[@" + a + "]" + ("[@" + b + "]");
    CitationSpan(b, "");
    assert "[@" + b + "]" + "" == "[@" + b + "]";
  }
}
