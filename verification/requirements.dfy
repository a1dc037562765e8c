/**
 * The entries of a package's build-system list and `merge_systems` of
 * tools/find-build-systems.py, which puts one such list into canonical form.
 */
module Requirements {

  import opened Lex

  /**
   * A plain string names a build system; a table carries a `buildSystem`
   * name and further conditions (`from`, `until`, ...) kept verbatim.
   */
  datatype Req = Simple(name: string) | Conditional(buildSystem: string, extra: map<string, string>)

  /** `[i for i in s if isinstance(i, dict)]`: the table entries, in their order. */
  function Conditionals(s: seq<Req>): (r: seq<Req>)
    ensures forall q :: q in r <==> q in s && q.Conditional?
    ensures forall i :: 0 <= i < |r| ==> r[i].Conditional?
  {
    if |s| == 0 then []
    else (if s[0].Conditional? then [s[0]] else []) + Conditionals(s[1..])
  }

  /** The names of the plain-string entries, in their order. */
  function SimpleNames(s: seq<Req>): (r: seq<string>)
    ensures forall x :: x in r <==> Simple(x) in s
  {
    if |s| == 0 then []
    else (if s[0].Simple? then [s[0].name] else []) + SimpleNames(s[1..])
  }

  /** `{i["buildSystem"] for i in complex}`: names that a table entry claims. */
  function ShadowedNames(s: seq<Req>): set<string> {
    set q | q in s && q.Conditional? :: q.buildSystem
  }

  /** The names of `names` that no table entry claims, in their order. */
  function Unshadowed(names: seq<string>, shadowed: set<string>): (r: seq<string>)
    ensures forall x :: x in r <==> x in names && x !in shadowed
  {
    if |names| == 0 then []
    else (if names[0] in shadowed then [] else [names[0]]) + Unshadowed(names[1..], shadowed)
  }

  function AsSimple(names: seq<string>): (r: seq<Req>)
    ensures |r| == |names|
    ensures forall i :: 0 <= i < |r| ==> r[i] == Simple(names[i])
  {
    seq(|names|, i requires 0 <= i < |names| => Simple(names[i]))
  }

  lemma {:induction false} SimpleNamesOfSimple(names: seq<string>)
    ensures SimpleNames(AsSimple(names)) == names
    ensures Conditionals(AsSimple(names)) == []
  {
    if |names| > 0 {
      SimpleNamesOfSimple(names[1..]);
      assert AsSimple(names)[1..] == AsSimple(names[1..]);
    }
  }

  /**
   * `merge_systems(s)`: the table entries in their original order, then the
   * distinct plain names that no table entry claims, in ascending order.
   */
  function MergeSystems(s: seq<Req>): (r: seq<Req>)
    ensures |Conditionals(s)| <= |r|
    ensures r[..|Conditionals(s)|] == Conditionals(s)
    ensures forall i :: |Conditionals(s)| <= i < |r| ==> r[i].Simple?
    ensures StrictlySorted(SimpleNames(r))
    ensures forall q: Req :: q.Conditional? ==> (q in r <==> q in s)
    ensures forall x :: Simple(x) in r <==> Simple(x) in s && x !in ShadowedNames(s)
    ensures ShadowedNames(r) == ShadowedNames(s)
  {
    var complex := Conditionals(s);
    var names := SortUnique(Unshadowed(SimpleNames(s), ShadowedNames(s)));
    CanonicalShape(complex, names);
    ShadowedByConditionals(s);
    complex + AsSimple(names)
  }

  /** The table entries alone decide which names are shadowed. */
  lemma ShadowedByConditionals(s: seq<Req>)
    ensures ShadowedNames(Conditionals(s)) == ShadowedNames(s)
  {
    var c := Conditionals(s);
    forall x ensures x in ShadowedNames(c) <==> x in ShadowedNames(s) {
      if x in ShadowedNames(s) {
        var q :| q in s && q.Conditional? && q.buildSystem == x;
        assert q in c;
      }
    }
  }

  /** Table entries followed by plain names: what each part contributes. */
  lemma CanonicalShape(c: seq<Req>, names: seq<string>)
    requires forall i :: 0 <= i < |c| ==> c[i].Conditional?
    ensures var r := c + AsSimple(names);
      && r[..|c|] == c
      && (forall i :: |c| <= i < |r| ==> r[i].Simple?)
      && Conditionals(r) == c
      && SimpleNames(r) == names
      && ShadowedNames(r) == ShadowedNames(c)
  {
    var t := AsSimple(names);
    var r := c + t;
    assert r[..|c|] == c;
    assert forall i :: |c| <= i < |r| ==> r[i] == t[i - |c|];
    ConditionalsAppend(c, t);
    SimpleNamesAppend(c, t);
    SimpleNamesOfSimple(names);
    ConditionalsOfConditionals(c);
    assert Conditionals(r) == c;
    ShadowedByConditionals(r);
  }

  lemma {:induction false} ConditionalsAppend(a: seq<Req>, b: seq<Req>)
    ensures Conditionals(a + b) == Conditionals(a) + Conditionals(b)
  {
    if |a| == 0 {
      assert a + b == b;
    } else {
      assert (a + b)[1..] == a[1..] + b;
      ConditionalsAppend(a[1..], b);
    }
  }

  lemma {:induction false} SimpleNamesAppend(a: seq<Req>, b: seq<Req>)
    ensures SimpleNames(a + b) == SimpleNames(a) + SimpleNames(b)
  {
    if |a| == 0 {
      assert a + b == b;
    } else {
      assert (a + b)[1..] == a[1..] + b;
      SimpleNamesAppend(a[1..], b);
    }
  }

  lemma {:induction false} ConditionalsOfConditionals(s: seq<Req>)
    requires forall i :: 0 <= i < |s| ==> s[i].Conditional?
    ensures Conditionals(s) == s
    ensures SimpleNames(s) == []
  {
    if |s| > 0 {
      var t := s[1..];
      assert forall i :: 0 <= i < |t| ==> t[i] == s[i + 1];
      ConditionalsOfConditionals(t);
      assert Conditionals(s) == [s[0]] + Conditionals(t);
      assert s == [s[0]] + t;
    }
  }

  /**
   * `merge_systems` only looks at the table entries in order and at the set
   * of plain names no table entry claims.
   */
  lemma MergeSystemsDeterminedBy(a: seq<Req>, b: seq<Req>)
    requires Conditionals(a) == Conditionals(b)
    requires forall x :: Simple(x) in a && x !in ShadowedNames(a) <==> Simple(x) in b && x !in ShadowedNames(b)
    ensures MergeSystems(a) == MergeSystems(b)
  {
    assert ShadowedNames(a) == ShadowedNames(b) by {
      assert forall q: Req :: q in a && q.Conditional? <==> q in b && q.Conditional? by {
        forall q: Req ensures q in a && q.Conditional? <==> q in b && q.Conditional? {
          assert q in Conditionals(a) <==> q in Conditionals(b);
        }
      }
    }
    var na := SortUnique(Unshadowed(SimpleNames(a), ShadowedNames(a)));
    var nb := SortUnique(Unshadowed(SimpleNames(b), ShadowedNames(b)));
    StrictlySortedEqual(na, nb);
  }

  /** Canonicalising a canonical list changes nothing. */
  lemma MergeSystemsIdempotent(s: seq<Req>)
    ensures MergeSystems(MergeSystems(s)) == MergeSystems(s)
  {
    var r := MergeSystems(s);
    var c := Conditionals(s);
    var names := SortUnique(Unshadowed(SimpleNames(s), ShadowedNames(s)));
    assert r == c + AsSimple(names);
    CanonicalShape(c, names);
    MergeSystemsDeterminedBy(r, s);
  }

  lemma {:induction false} ConditionalsOfSimple(s: seq<Req>)
    requires forall q :: q in s ==> q.Simple?
    ensures Conditionals(s) == []
  {
    if |s| > 0 {
      assert s[0] in s;
      ConditionalsOfSimple(s[1..]);
    }
  }

  /**
   * Appending plain names that were already in the list before it was
   * canonicalised, and canonicalising again, gives the same list.
   */
  lemma MergeSystemsAbsorbs(s: seq<Req>, extra: seq<Req>)
    requires forall q :: q in extra ==> q.Simple? && q in s
    ensures MergeSystems(MergeSystems(s) + extra) == MergeSystems(s)
  {
    var m := MergeSystems(s);
    var a := m + extra;
    var c := Conditionals(s);
    var names := SortUnique(Unshadowed(SimpleNames(s), ShadowedNames(s)));
    assert m == c + AsSimple(names);
    CanonicalShape(c, names);
    ConditionalsAppend(m, extra);
    ConditionalsOfSimple(extra);
    assert Conditionals(a) == Conditionals(m);
    ShadowedByConditionals(a);
    ShadowedByConditionals(m);
    MergeSystemsDeterminedBy(a, m);
    MergeSystemsIdempotent(s);
  }

  /** Conditionals and shadowed names of a list followed by plain names only. */
  lemma PlainSuffix(a: seq<Req>, c: seq<Req>)
    requires forall q :: q in c ==> q.Simple?
    ensures Conditionals(a + c) == Conditionals(a)
    ensures ShadowedNames(a + c) == ShadowedNames(a)
  {
    ConditionalsAppend(a, c);
    ConditionalsOfSimple(c);
    assert Conditionals(a + c) == Conditionals(a);
    ShadowedByConditionals(a + c);
    ShadowedByConditionals(a);
  }

  /**
   * Canonicalising, appending plain names and canonicalising again is the
   * same as appending them first: `merge_systems` can be applied once at the end.
   */
  lemma MergeSystemsFlatten(a: seq<Req>, c: seq<Req>)
    requires forall q :: q in c ==> q.Simple?
    ensures MergeSystems(MergeSystems(a) + c) == MergeSystems(a + c)
  {
    var m := MergeSystems(a);
    PlainSuffix(m, c);
    PlainSuffix(a, c);
    var cs := Conditionals(a);
    var names := SortUnique(Unshadowed(SimpleNames(a), ShadowedNames(a)));
    assert m == cs + AsSimple(names);
    CanonicalShape(cs, names);
    MergeSystemsDeterminedBy(m + c, a + c);
  }

  /** The order in which two lists of plain names are appended does not matter. */
  lemma MergeSystemsSwap(a: seq<Req>, b: seq<Req>, c: seq<Req>)
    requires forall q :: q in b ==> q.Simple?
    requires forall q :: q in c ==> q.Simple?
    ensures MergeSystems(a + b + c) == MergeSystems(a + c + b)
  {
    PlainSuffix(a, b);
    PlainSuffix(a, c);
    PlainSuffix(a + b, c);
    PlainSuffix(a + c, b);
    MergeSystemsDeterminedBy(a + b + c, a + c + b);
  }
}
