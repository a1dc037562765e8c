/**
 * Package-name normalisation (`normalize` in tools/find-build-systems.py):
 * every run of '-', '_' or '.' becomes a single '-', then the name is
 * lower-cased. The result is the key of the knowledge base.
 */
module Names {

  predicate IsSeparator(c: char) {
    c == '-' || c == '_' || c == '.'
  }

  predicate IsUpper(c: char) {
    'A' <= c <= 'Z'
  }

  function LowerChar(c: char): (r: char)
    ensures !IsUpper(r)
    ensures IsSeparator(r) <==> IsSeparator(c)
    ensures r == '-' <==> c == '-'
    ensures !IsUpper(c) ==> r == c
  {
    if IsUpper(c) then (c as int + 32) as char else c
  }

  /** Python's `s.lower()`, restricted to ASCII letters. */
  function Lower(s: string): (r: string)
    ensures |r| == |s|
    ensures forall i :: 0 <= i < |s| ==> r[i] == LowerChar(s[i])
  {
    if |s| == 0 then "" else [LowerChar(s[0])] + Lower(s[1..])
  }

  /** `s` without the run of separators at its front. */
  function DropSeparators(s: string): (r: string)
    ensures |r| <= |s| && r == s[|s| - |r|..]
    ensures |r| == 0 || !IsSeparator(r[0])
    ensures forall i :: 0 <= i < |s| - |r| ==> IsSeparator(s[i])
    ensures |s| > 0 && IsSeparator(s[0]) ==> |r| < |s|
  {
    if |s| > 0 && IsSeparator(s[0]) then DropSeparators(s[1..]) else s
  }

  /**
   * Python's `re.sub(r"[-_.]+", "-", s)`: each maximal run of separators is
   * replaced by one '-'. The result has no '_' or '.', never two adjacent
   * '-', and starts with '-' exactly when `s` starts with a separator.
   */
  function CollapseSeparators(s: string): (r: string)
    ensures forall i :: 0 <= i < |r| ==> r[i] != '_' && r[i] != '.'
    ensures forall i :: 0 <= i < |r| - 1 ==> !(r[i] == '-' && r[i + 1] == '-')
    ensures |r| > 0 <==> |s| > 0
    ensures |r| > 0 ==> (r[0] == '-' <==> IsSeparator(s[0]))
    decreases |s|
  {
    if |s| == 0 then ""
    else if IsSeparator(s[0]) then
      var rest := DropSeparators(s);
      var tail := CollapseSeparators(rest);
      var r := "-" + tail;
      assert forall i :: 1 <= i < |r| ==> r[i] == tail[i - 1];
      r
    else
      var tail := CollapseSeparators(s[1..]);
      var r := [s[0]] + tail;
      assert forall i :: 1 <= i < |r| ==> r[i] == tail[i - 1];
      r
  }

  /** A canonical key: no '_' or '.', no upper-case ASCII letter, never two adjacent '-'. */
  predicate IsNormal(s: string) {
    && (forall i :: 0 <= i < |s| ==> s[i] != '_' && s[i] != '.' && !IsUpper(s[i]))
    && (forall i :: 0 <= i < |s| - 1 ==> !(s[i] == '-' && s[i + 1] == '-'))
  }

  /** `normalize(name)` of tools/find-build-systems.py. */
  function Normalize(name: string): (r: string)
    ensures IsNormal(r)
    ensures |r| <= |name|
  {
    CollapseLength(name);
    Lower(CollapseSeparators(name))
  }

  lemma {:induction false} CollapseLength(s: string)
    ensures |CollapseSeparators(s)| <= |s|
    decreases |s|
  {
    if |s| > 0 {
      if IsSeparator(s[0]) {
        CollapseLength(DropSeparators(s));
      } else {
        CollapseLength(s[1..]);
      }
    }
  }

  /** A canonical key is left as it is. */
  lemma {:induction false} CollapseOfNormal(s: string)
    requires IsNormal(s)
    ensures CollapseSeparators(s) == s
    decreases |s|
  {
    if |s| > 0 {
      assert IsNormal(s[1..]);
      CollapseOfNormal(s[1..]);
      if IsSeparator(s[0]) {
        assert s[0] == '-';
        assert |s| > 1 ==> !IsSeparator(s[1]);
        assert DropSeparators(s) == s[1..];
      }
      assert s == [s[0]] + s[1..];
    }
  }

  lemma NormalizeFixesNormal(s: string)
    requires IsNormal(s)
    ensures Normalize(s) == s
  {
    CollapseOfNormal(s);
  }

  /** Normalising twice gives the same key as normalising once. */
  lemma NormalizeIdempotent(name: string)
    ensures Normalize(Normalize(name)) == Normalize(name)
  {
    NormalizeFixesNormal(Normalize(name));
  }

  /** `s` with every separator removed. */
  function WithoutSeparators(s: string): (r: string)
    ensures forall i :: 0 <= i < |r| ==> !IsSeparator(r[i])
  {
    if |s| == 0 then ""
    else if IsSeparator(s[0]) then WithoutSeparators(s[1..])
    else [s[0]] + WithoutSeparators(s[1..])
  }

  lemma {:induction false} DropKeepsLetters(s: string)
    ensures WithoutSeparators(DropSeparators(s)) == WithoutSeparators(s)
    decreases |s|
  {
    if |s| > 0 && IsSeparator(s[0]) {
      DropKeepsLetters(s[1..]);
    }
  }

  lemma {:induction false} CollapseKeepsLetters(s: string)
    ensures WithoutSeparators(CollapseSeparators(s)) == WithoutSeparators(s)
    decreases |s|
  {
    if |s| > 0 {
      if IsSeparator(s[0]) {
        var rest := DropSeparators(s);
        CollapseKeepsLetters(rest);
        DropKeepsLetters(s);
        assert ("-" + CollapseSeparators(rest))[1..] == CollapseSeparators(rest);
      } else {
        CollapseKeepsLetters(s[1..]);
        assert ([s[0]] + CollapseSeparators(s[1..]))[1..] == CollapseSeparators(s[1..]);
      }
    }
  }

  lemma {:induction false} LowerKeepsLetters(s: string)
    ensures WithoutSeparators(Lower(s)) == Lower(WithoutSeparators(s))
  {
    if |s| > 0 {
      LowerKeepsLetters(s[1..]);
      assert Lower(s)[1..] == Lower(s[1..]);
    }
  }

  /**
   * Normalisation only rewrites separators and case: the characters that
   * are not separators survive, lower-cased, in their original order.
   */
  lemma NormalizeKeepsLetters(name: string)
    ensures WithoutSeparators(Normalize(name)) == Lower(WithoutSeparators(name))
  {
    LowerKeepsLetters(CollapseSeparators(name));
    CollapseKeepsLetters(name);
  }

  /** Dropping the leading separators of `x + z`: they run into `z` exactly when `x` is all separators. */
  lemma {:induction false} DropAppend(x: string, z: string)
    ensures |DropSeparators(x)| == 0 ==> DropSeparators(x + z) == DropSeparators(z)
    ensures |DropSeparators(x)| > 0 ==> DropSeparators(x + z) == DropSeparators(x) + z
    decreases |x|
  {
    if |x| == 0 {
      assert x + z == z;
    } else if IsSeparator(x[0]) {
      assert (x + z)[1..] == x[1..] + z;
      DropAppend(x[1..], z);
    }
  }

  /** Behind a leading separator, the rest of the separator run merges with the tail or not. */
  lemma CollapseAfterSeparator(x: string, z: string)
    requires |x| > 0 && IsSeparator(x[0])
    ensures |DropSeparators(x)| == 0 ==> CollapseSeparators(x + z) == "-" + CollapseSeparators(DropSeparators(z))
    ensures |DropSeparators(x)| > 0 ==> CollapseSeparators(x + z) == "-" + CollapseSeparators(DropSeparators(x) + z)
  {
    assert (x + z)[0] == x[0];
    DropAppend(x, z);
  }

  /** Behind a leading non-separator, that character is kept. */
  lemma CollapseAfterLetter(x: string, z: string)
    requires |x| > 0 && !IsSeparator(x[0])
    ensures CollapseSeparators(x + z) == [x[0]] + CollapseSeparators(x[1..] + z)
  {
    assert (x + z)[0] == x[0] && (x + z)[1..] == x[1..] + z;
  }

  /**
   * Two tails that both start with a separator and agree after their leading
   * separators collapse alike behind any prefix.
   */
  lemma {:induction false} CollapseCongruence(x: string, z1: string, z2: string)
    requires |z1| > 0 && IsSeparator(z1[0]) && |z2| > 0 && IsSeparator(z2[0])
    requires DropSeparators(z1) == DropSeparators(z2)
    ensures CollapseSeparators(x + z1) == CollapseSeparators(x + z2)
    decreases |x|
  {
    if |x| == 0 {
      assert x + z1 == z1 && x + z2 == z2;
    } else if IsSeparator(x[0]) {
      CollapseAfterSeparator(x, z1);
      CollapseAfterSeparator(x, z2);
      if |DropSeparators(x)| > 0 {
        CollapseCongruence(DropSeparators(x), z1, z2);
      }
    } else {
      CollapseAfterLetter(x, z1);
      CollapseAfterLetter(x, z2);
      CollapseCongruence(x[1..], z1, z2);
    }
  }

  /** A run of separators in front of `y` drops to what a single `-` in front of `y` drops to. */
  lemma RunDrops(run: string, y: string)
    requires |run| > 0 && forall i :: 0 <= i < |run| ==> IsSeparator(run[i])
    ensures (run + y)[0] == run[0]
    ensures DropSeparators(run + y) == DropSeparators("-" + y)
  {
    assert |DropSeparators(run)| == 0;
    DropAppend(run, y);
    assert ("-" + y)[1..] == y;
  }

  /** A non-empty run of separators collapses like a single `-`, wherever it sits. */
  lemma CollapseRun(x: string, run: string, y: string)
    requires |run| > 0 && forall i :: 0 <= i < |run| ==> IsSeparator(run[i])
    ensures CollapseSeparators(x + run + y) == CollapseSeparators(x + "-" + y)
  {
    RunDrops(run, y);
    CollapseCongruence(x, run + y, "-" + y);
    assert x + run + y == x + (run + y);
    assert x + "-" + y == x + ("-" + y);
  }

  /** Any non-empty run of separators inside a name normalises like a single `-`. */
  lemma NormalizeRun(x: string, run: string, y: string)
    requires |run| > 0 && forall i :: 0 <= i < |run| ==> IsSeparator(run[i])
    ensures Normalize(x + run + y) == Normalize(x + "-" + y)
  {
    CollapseRun(x, run, y);
  }

  /** `s` and `t` have separators at the same places and agree elsewhere up to case. */
  predicate SameUpToCase(s: string, t: string) {
    && |s| == |t|
    && forall i :: 0 <= i < |s| ==>
         (IsSeparator(s[i]) <==> IsSeparator(t[i])) && (!IsSeparator(s[i]) ==> LowerChar(s[i]) == LowerChar(t[i]))
  }

  lemma SameUpToCaseTail(s: string, t: string)
    requires SameUpToCase(s, t) && |s| > 0
    ensures SameUpToCase(s[1..], t[1..])
  {
    forall i | 0 <= i < |s| - 1 ensures s[1..][i] == s[i + 1] && t[1..][i] == t[i + 1] { }
  }

  lemma SameUpToCaseCons(c: char, d: char, a: string, b: string)
    requires SameUpToCase(a, b)
    requires (IsSeparator(c) <==> IsSeparator(d)) && (!IsSeparator(c) ==> LowerChar(c) == LowerChar(d))
    ensures SameUpToCase([c] + a, [d] + b)
  {
    forall i | 1 <= i < |a| + 1 ensures ([c] + a)[i] == a[i - 1] && ([d] + b)[i] == b[i - 1] { }
  }

  lemma {:induction false} DropSameUpToCase(s: string, t: string)
    requires SameUpToCase(s, t)
    ensures SameUpToCase(DropSeparators(s), DropSeparators(t))
    decreases |s|
  {
    if |s| > 0 && IsSeparator(s[0]) {
      SameUpToCaseTail(s, t);
      DropSameUpToCase(s[1..], t[1..]);
    }
  }

  /** Collapsing keeps two names the same up to case, with every separator now a `-`. */
  lemma {:induction false} CollapseSameUpToCase(s: string, t: string)
    requires SameUpToCase(s, t)
    ensures SameUpToCase(CollapseSeparators(s), CollapseSeparators(t))
    decreases |s|
  {
    if |s| > 0 {
      if IsSeparator(s[0]) {
        DropSameUpToCase(s, t);
        CollapseSameUpToCase(DropSeparators(s), DropSeparators(t));
        SameUpToCaseCons('-', '-', CollapseSeparators(DropSeparators(s)), CollapseSeparators(DropSeparators(t)));
      } else {
        SameUpToCaseTail(s, t);
        CollapseSameUpToCase(s[1..], t[1..]);
        SameUpToCaseCons(s[0], t[0], CollapseSeparators(s[1..]), CollapseSeparators(t[1..]));
      }
    }
  }

  /**
   * Names that differ only in the case of their letters and in which
   * separators they use get the same key.
   */
  lemma NormalizeFoldsVariants(s: string, t: string)
    requires SameUpToCase(s, t)
    ensures Normalize(s) == Normalize(t)
  {
    var a, b := CollapseSeparators(s), CollapseSeparators(t);
    CollapseSameUpToCase(s, t);
    forall i | 0 <= i < |a| ensures LowerChar(a[i]) == LowerChar(b[i]) {
      if IsSeparator(a[i]) {
        assert a[i] == '-' && b[i] == '-';
      }
    }
  }

  lemma FooBarVariants()
    ensures SameUpToCase("Foo-Bar", "foo-bar")
  {
    var s, t := "Foo-Bar", "foo-bar";
    assert LowerChar(s[0]) == t[0] && LowerChar(s[4]) == t[4];
    forall i | 0 <= i < |s| ensures (IsSeparator(s[i]) <==> IsSeparator(t[i])) && (!IsSeparator(s[i]) ==> LowerChar(s[i]) == LowerChar(t[i])) {
      if i != 0 && i != 4 {
        assert s[i] == t[i];
      }
    }
  }

  /** `Foo_.Bar` and `foo-bar` share one key. */
  lemma NormalizeExample()
    ensures Normalize("Foo_.Bar") == Normalize("foo-bar")
  {
    assert "Foo_.Bar" == "Foo" + "_." + "Bar";
    assert "Foo-Bar" == "Foo" + "-" + "Bar";
    NormalizeRun("Foo", "_.", "Bar");
    FooBarVariants();
    NormalizeFoldsVariants("Foo-Bar", "foo-bar");
  }
}
