/** `cleanup`: every `&` becomes `\&`, and then every `%` becomes `\%`.
    Nothing else is escaped. */
module Escaping {

  /** `s.replace(c, repl)` for a single character `c`. */
  function ReplaceChar(s: string, c: char, repl: string): (r: string)
    ensures c !in repl ==> c !in r
    decreases |s|
  {
    if s == [] then []
    else (if s[0] == c then repl else [s[0]]) + ReplaceChar(s[1..], c, repl)
  }

  /** `cleanup`: the two replacements, in the source's order. */
  function Cleanup(s: string): string {
    ReplaceChar(ReplaceChar(s, '&', "\\&"), '%', "\\%")
  }

  /** How one character is escaped. */
  function EscapeChar(c: char): string {
    if c == '&' then "\\&" else if c == '%' then "\\%" else [c]
  }

  /** Escape every character on its own, in a single pass. */
  function Escaped(s: string): (r: string)
    decreases |s|
  {
    if s == [] then [] else EscapeChar(s[0]) + Escaped(s[1..])
  }

  lemma {:induction false} ReplaceConcat(a: string, b: string, c: char, repl: string)
    ensures ReplaceChar(a + b, c, repl) == ReplaceChar(a, c, repl) + ReplaceChar(b, c, repl)
    decreases |a|
  {
    if a == [] {
      assert a + b == b;
    } else {
      assert (a + b)[0] == a[0];
      assert (a + b)[1..] == a[1..] + b;
      ReplaceConcat(a[1..], b, c, repl);
      var h := if a[0] == c then repl else [a[0]];
      assert h + (ReplaceChar(a[1..], c, repl) + ReplaceChar(b, c, repl))
          == (h + ReplaceChar(a[1..], c, repl)) + ReplaceChar(b, c, repl);
    }
  }

  /** The two passes do what one pass escaping each character does: the
      `\` the first pass inserts is never touched by the second. */
  lemma {:induction false} CleanupIsEscaped(s: string)
    ensures Cleanup(s) == Escaped(s)
    decreases |s|
  {
    if s != [] {
      var h := if s[0] == '&' then "\\&" else [s[0]];
      var t := ReplaceChar(s[1..], '&', "\\&");
      assert ReplaceChar(s, '&', "\\&") == h + t;
      ReplaceConcat(h, t, '%', "\\%");
      if s[0] == '&' {
        assert ReplaceChar(h, '%', "\\%") == "\\&" by {
          assert h[1..] == "&" && h[1..][1..] == [];
        }
      } else {
        assert ReplaceChar(h, '%', "\\%") == EscapeChar(s[0]) by {
          assert h[1..] == [];
        }
      }
      CleanupIsEscaped(s[1..]);
    }
  }

  /** Text without `&` and `%` is left as it is. */
  lemma CleanupIdentity(s: string)
    requires '&' !in s && '%' !in s
    ensures Cleanup(s) == s
  {
    CleanupIsEscaped(s);
    EscapedIdentity(s);
  }

  lemma {:induction false} EscapedIdentity(s: string)
    requires '&' !in s && '%' !in s
    ensures Escaped(s) == s
    decreases |s|
  {
    if s != [] {
      assert s[0] in s;
      assert '&' !in s[1..] && '%' !in s[1..] by {
        assert forall c :: c in s[1..] ==> c in s;
      }
      EscapedIdentity(s[1..]);
      assert [s[0]] + s[1..] == s;
    }
  }

  /** The count of `c` in `s`. */
  function Count(s: string, c: char): nat {
    multiset(s)[c]
  }

  /** Each `&` and each `%` costs one character more. */
  lemma {:induction false} EscapedLength(s: string)
    ensures |Escaped(s)| == |s| + Count(s, '&') + Count(s, '%')
    decreases |s|
  {
    if s != [] {
      assert s == [s[0]] + s[1..];
      assert multiset(s) == multiset([s[0]]) + multiset(s[1..]);
      EscapedLength(s[1..]);
    }
  }

  /** Every `&` and `%` of the escaped text comes right after a `\`. */
  predicate Guarded(r: string) {
    forall i :: 0 <= i < |r| && (r[i] == '&' || r[i] == '%') ==> i > 0 && r[i - 1] == '\\'
  }

  lemma {:induction false} EscapedGuarded(s: string)
    ensures Guarded(Escaped(s))
    ensures Escaped(s) != [] ==> Escaped(s)[0] != '&' && Escaped(s)[0] != '%'
    decreases |s|
  {
    if s != [] {
      var h := EscapeChar(s[0]);
      var t := Escaped(s[1..]);
      EscapedGuarded(s[1..]);
      var r := h + t;
      forall i | 0 <= i < |r| && (r[i] == '&' || r[i] == '%') ensures i > 0 && r[i - 1] == '\\' {
        if i >= |h| {
          var j := i - |h|;
          assert t[j] == r[i];
          assert j > 0;
          assert r[i - 1] == t[j - 1];
        }
      }
    }
  }

  /** Reading the escaped text back: `\&` and `\%` give the character after
      the backslash, anything else is copied. */
  function Unescape(t: string): string
    decreases |t|
  {
    if t == [] then []
    else if |t| >= 2 && t[0] == '\\' && (t[1] == '&' || t[1] == '%') then [t[1]] + Unescape(t[2..])
    else [t[0]] + Unescape(t[1..])
  }

  /** `cleanup` loses nothing: `Unescape` recovers its input. */
  lemma {:induction false} UnescapeEscaped(s: string)
    ensures Unescape(Escaped(s)) == s
    decreases |s|
  {
    if s != [] {
      var h := EscapeChar(s[0]);
      var t := Escaped(s[1..]);
      EscapedGuarded(s[1..]);
      UnescapeEscaped(s[1..]);
      var r := h + t;
      if s[0] == '&' || s[0] == '%' {
        assert r[0] == '\\' && r[1] == s[0];
        assert r[2..] == t;
      } else {
        assert r[0] == s[0];
        assert r[1..] == t;
        if s[0] == '\\' && |r| >= 2 {
          assert r[1] == t[0];
        }
      }
    }
  }

  lemma UnescapeCleanup(s: string)
    ensures Unescape(Cleanup(s)) == s
  {
    CleanupIsEscaped(s);
    UnescapeEscaped(s);
  }

  /** A second `cleanup` escapes the `&` once more, behind the backslash
      the first one inserted: `cleanup` is not idempotent. */
  lemma CleanupTwice()
    ensures Cleanup("&") == "\\&"
    ensures Cleanup(Cleanup("&")) == "\\\\&"
  {
    CleanupIsEscaped("&");
    assert "&"[1..] == [];
    CleanupIsEscaped("\\&");
    assert "\\&"[1..] == "&";
  }
}
