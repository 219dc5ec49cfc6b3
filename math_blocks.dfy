/** `convert_math`: every `$$ ... $$` span (the pattern `\$\$(.*?)\$\$` with
    DOTALL, so a span may cross line boundaries) becomes an `equation`
    environment around the stripped inner text. */
module MathBlocks {
  import opened Text

  /** A `$$` delimiter starts at `i`. */
  predicate DollarsAt(s: string, i: nat) {
    i + 1 < |s| && s[i] == '$' && s[i + 1] == '$'
  }

  /** The first delimiter at or after `i`: where the lazy `.*?` stops. */
  function FindDollars(s: string, i: nat): (r: Option<nat>)
    requires i <= |s|
    ensures r.Some? ==> i <= r.value && DollarsAt(s, r.value)
                        && forall k :: i <= k < r.value ==> !DollarsAt(s, k)
    ensures r.None? ==> forall k :: i <= k < |s| ==> !DollarsAt(s, k)
    decreases |s| - i
  {
    if i == |s| then None
    else if DollarsAt(s, i) then Some(i)
    else FindDollars(s, i + 1)
  }

  function Equation(inner: string): string {
    "\\begin{equation}\n" + inner + "\n\\end{equation}"
  }

  /** The substitution scanned left to right: at a delimiter that has a
      closing delimiter after it the span is replaced and scanning resumes
      after the closing one; anywhere else one character is copied. */
  function ConvertMath(s: string): string
    decreases |s|
  {
    if s == [] then []
    else if DollarsAt(s, 0) && FindDollars(s, 2).Some? then
      var j := FindDollars(s, 2).value;
      Equation(Strip(s[2..j])) + ConvertMath(s[j + 2..])
    else [s[0]] + ConvertMath(s[1..])
  }

  /** `p` holds no delimiter and does not end in a `$` that could pair with a
      `$` right after it. */
  predicate NoOpening(p: string) {
    FreeOfPair(p, '$', '$') && (p == [] || p[|p| - 1] != '$')
  }

  /** Text without `$$` is left as it is. */
  lemma {:induction false} MathIdentity(s: string)
    requires FreeOfPair(s, '$', '$')
    ensures ConvertMath(s) == s
    decreases |s|
  {
    if s != [] {
      assert !DollarsAt(s, 0);
      MathIdentity(s[1..]);
    }
  }

  /** Scanning copies a prefix in which no delimiter starts. */
  lemma {:induction false} MathPrefix(p: string, x: string)
    requires FreeOfPair(p, '$', '$')
    requires p == [] || x == [] || p[|p| - 1] != '$' || x[0] != '$'
    ensures ConvertMath(p + x) == p + ConvertMath(x)
    decreases |p|
  {
    if p == [] {
      assert p + x == x;
    } else {
      var s := p + x;
      assert s[1..] == p[1..] + x;
      MathNoOpen(p, x);
      MathCopy(s);
      FreeOfPairTail(p, '$', '$');
      MathPrefix(p[1..], x);
      ConsAssoc(p, ConvertMath(x));
    }
  }

  /** No delimiter starts at the front of `p + x`. */
  lemma MathNoOpen(p: string, x: string)
    requires p != [] && FreeOfPair(p, '$', '$')
    requires x == [] || p[|p| - 1] != '$' || x[0] != '$'
    ensures !DollarsAt(p + x, 0) && (p + x)[0] == p[0]
  {
    var s := p + x;
    if |p| > 1 {
      assert s[1] == p[1];
    } else if x != [] {
      assert s[1] == x[0];
    }
  }

  /** Where no span starts, one character is copied. */
  lemma MathCopy(s: string)
    requires s != [] && !DollarsAt(s, 0)
    ensures ConvertMath(s) == [s[0]] + ConvertMath(s[1..])
  {
  }

  /** Each delimiter pairs with the next one: the first span is replaced by an
      equation around its stripped inner text, and the rest is scanned on. */
  lemma MathPair(p: string, m: string, rest: string)
    requires NoOpening(p) && NoOpening(m)
    ensures ConvertMath(p + "$$" + m + "$$" + rest)
         == p + Equation(Strip(m)) + ConvertMath(rest)
  {
    var y := "$$" + m + "$$" + rest;
    assert p + "$$" + m + "$$" + rest == p + y;
    MathPrefix(p, y);
    MathSpan(m, rest);
  }

  lemma MathSpan(m: string, rest: string)
    requires NoOpening(m)
    ensures ConvertMath("$$" + m + "$$" + rest) == Equation(Strip(m)) + ConvertMath(rest)
  {
    var y := "$$" + m + "$$" + rest;
    var j := 2 + |m|;
    SpanInterior(m, rest);
    assert DollarsAt(y, j);
    FindDollarsAt(y, 2, j);
    assert DollarsAt(y, 0);
    MathOpen(y);
    assert y[2..j] == m;
    assert y[j + 2..] == rest;
  }

  /** No delimiter starts inside the span. */
  lemma SpanInterior(m: string, rest: string)
    requires NoOpening(m)
    ensures forall k :: 2 <= k < 2 + |m| ==> !DollarsAt("$$" + m + "$$" + rest, k)
  {
    var y := "$$" + m + "$$" + rest;
    var j := 2 + |m|;
    forall k | 2 <= k < j ensures !DollarsAt(y, k) {
      assert y[k] == m[k - 2];
      if k + 1 < j {
        assert y[k + 1] == m[k - 1];
      }
    }
  }

  lemma {:induction false} FindDollarsAt(s: string, i: nat, j: nat)
    requires i <= j && DollarsAt(s, j) && forall k :: i <= k < j ==> !DollarsAt(s, k)
    ensures FindDollars(s, i) == Some(j)
    decreases j - i
  {
    if i < j {
      FindDollarsAt(s, i + 1, j);
    }
  }

  /** Where a span starts and closes, it is replaced. */
  lemma MathOpen(s: string)
    requires DollarsAt(s, 0) && FindDollars(s, 2).Some?
    ensures var j := FindDollars(s, 2).value;
      ConvertMath(s) == Equation(Strip(s[2..j])) + ConvertMath(s[j + 2..])
  {
  }

  /** A delimiter with no closing delimiter after it stays in the text. */
  lemma MathUnpaired(p: string, t: string)
    requires NoOpening(p) && FreeOfPair(t, '$', '$')
    ensures ConvertMath(p + "$$" + t) == p + "$$" + t
  {
    var y := "$$" + t;
    assert p + "$$" + t == p + y;
    MathPrefix(p, y);
    UnpairedOpen(t);
    MathIdentity(t);
    assert "$" + ("$" + t) == y;
  }

  /** `$$t` with no `$$` in `t` is copied character by character. */
  lemma UnpairedOpen(t: string)
    requires FreeOfPair(t, '$', '$')
    ensures ConvertMath("$$" + t) == "$" + ("$" + ConvertMath(t))
  {
    var y := "$$" + t;
    var z := "$" + t;
    forall k | 2 <= k < |y| ensures !DollarsAt(y, k) {
      assert y[k] == t[k - 2];
      if k + 1 < |y| {
        assert y[k + 1] == t[k - 1];
      }
    }
    assert FindDollars(y, 2).None?;
    assert y[1..] == z;
    MathCopyAfter(y);
    UnpairedDollar(t);
  }

  lemma MathCopyAfter(s: string)
    requires s != [] && !(DollarsAt(s, 0) && FindDollars(s, 2).Some?)
    ensures ConvertMath(s) == [s[0]] + ConvertMath(s[1..])
  {
  }

  /** `$t` with no `$$` in `t` gives `$` and the scan of `t`. */
  lemma UnpairedDollar(t: string)
    requires FreeOfPair(t, '$', '$')
    ensures ConvertMath("$" + t) == "$" + ConvertMath(t)
  {
    var z := "$" + t;
    forall k | 2 <= k < |z| ensures !DollarsAt(z, k) {
      assert z[k] == t[k - 1];
      if k + 1 < |z| {
        assert z[k + 1] == t[k];
      }
    }
    assert |z| >= 2 ==> FindDollars(z, 2).None?;
    assert z[1..] == t;
    MathCopyAfter(z);
  }
}
