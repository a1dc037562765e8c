/**
 * The knowledge base of build systems and `merge` of
 * tools/find-build-systems.py, which folds a fresh detection run into the
 * previous knowledge base. The knowledge base is a dictionary from package
 * name to a list of requirements; `merge` output is written out as JSON,
 * so the order of its keys is part of what it produces.
 */
module KnowledgeBase {

  import opened Wrappers
  import Seqs
  import opened Lex
  import opened Dicts
  import opened Names
  import opened Requirements

  /** Names that never get an entry. */
  const BLOCKLIST: set<string> := {"poetry", "poetry-core"}

  type Kb = Dict<seq<Req>>

  /** Every entry under the key the merge loop files it under, `normalize(attr)`. */
  function Filed(entries: Kb): (r: Kb)
    ensures |r| == |entries|
    ensures forall i :: 0 <= i < |r| ==> r[i] == (Normalize(entries[i].0), entries[i].1)
  {
    seq(|entries|, i requires 0 <= i < |entries| => (Normalize(entries[i].0), entries[i].1))
  }

  /** The keys `merge` can produce from `entries`. */
  function NormalizedKeys(entries: Kb): (r: seq<string>)
    ensures |r| == |entries|
    ensures forall i :: 0 <= i < |r| ==> r[i] == Normalize(entries[i].0) && IsNormal(r[i])
  {
    Keys(Filed(entries))
  }

  lemma FiledAppend(a: Kb, b: Kb)
    ensures Filed(a + b) == Filed(a) + Filed(b)
  {
  }

  /** Every requirement listed under key `k`, in the order of the entries. */
  function Collected(entries: Kb, k: string): seq<Req> {
    if |entries| == 0 then []
    else (if entries[0].0 == k then entries[0].1 else []) + Collected(entries[1..], k)
  }

  lemma {:induction false} CollectedAppend(a: Kb, b: Kb, k: string)
    ensures Collected(a + b, k) == Collected(a, k) + Collected(b, k)
  {
    if |a| == 0 {
      assert a + b == b;
    } else {
      assert (a + b)[1..] == a[1..] + b;
      CollectedAppend(a[1..], b, k);
    }
  }

  lemma {:induction false} CollectedAbsent(entries: Kb, k: string)
    ensures k !in Keys(entries) ==> Collected(entries, k) == []
  {
    if |entries| > 0 {
      assert Keys(entries[1..]) == Keys(entries)[1..];
      CollectedAbsent(entries[1..], k);
    }
  }

  /** Whatever an entry lists is collected under its key. */
  lemma {:induction false} CollectedContains(entries: Kb, j: nat, q: Req)
    requires j < |entries| && q in entries[j].1
    ensures q in Collected(entries, entries[j].0)
  {
    if j > 0 {
      CollectedContains(entries[1..], j - 1, q);
    }
  }

  /** Whatever is collected under `k` was listed by an entry with key `k`. */
  lemma {:induction false} CollectedFrom(entries: Kb, k: string, q: Req)
    requires q in Collected(entries, k)
    ensures exists j :: 0 <= j < |entries| && entries[j].0 == k && q in entries[j].1
  {
    assert |entries| > 0;
    if !(entries[0].0 == k && q in entries[0].1) {
      CollectedFrom(entries[1..], k, q);
      var j :| 0 <= j < |entries| - 1 && entries[1..][j].0 == k && q in entries[1..][j].1;
      assert entries[1..][j] == entries[j + 1];
    }
  }

  /**
   * The accumulation loop of `merge` over the filed entries: each list is
   * appended to `content.setdefault(attr, [])`.
   */
  function Accumulate(entries: Kb): (r: map<string, seq<Req>>)
    ensures forall k :: k in r <==> k in Keys(entries)
  {
    if |entries| == 0 then map[]
    else
      var acc := Accumulate(entries[..|entries| - 1]);
      var (k, systems) := entries[|entries| - 1];
      assert Keys(entries) == Keys(entries[..|entries| - 1]) + [k];
      acc[k := (if k in acc then acc[k] else []) + systems]
  }

  /** The accumulated content holds every key of the entries, with its lists in entry order. */
  lemma {:induction false} AccumulateCollects(entries: Kb, k: string)
    ensures k in Accumulate(entries) <==> k in Keys(entries)
    ensures k in Accumulate(entries) ==> Accumulate(entries)[k] == Collected(entries, k)
  {
    if |entries| > 0 {
      var init, last := entries[..|entries| - 1], entries[|entries| - 1];
      AccumulateCollects(init, k);
      Seqs.InitLast(entries);
      assert Keys(entries) == Keys(init) + [last.0];
      CollectedAppend(init, [last], k);
      assert [last][1..] == [];
      CollectedAbsent(init, k);
    }
  }

  lemma AccumulateCollectsAll(entries: Kb)
    ensures forall k :: k in Accumulate(entries) <==> k in Keys(entries)
    ensures forall k :: k in Accumulate(entries) ==> Accumulate(entries)[k] == Collected(entries, k)
  {
    forall k ensures k in Accumulate(entries) <==> k in Keys(entries)
      ensures k in Accumulate(entries) ==> Accumulate(entries)[k] == Collected(entries, k)
    {
      AccumulateCollects(entries, k);
    }
  }

  /** The keys the filed entries of both knowledge bases produce. */
  lemma FiledKeys(prev: Kb, next: Kb)
    ensures forall k :: k in Keys(Filed(prev + next)) <==> k in NormalizedKeys(prev) || k in NormalizedKeys(next)
    ensures forall k :: k in Keys(Filed(prev + next)) ==> IsNormal(k)
  {
    FiledAppend(prev, next);
    assert Keys(Filed(prev + next)) == NormalizedKeys(prev) + NormalizedKeys(next);
  }

  /** `sorted(content.keys())` without the blocklisted names. */
  function MergedKeys(entries: Kb): (keys: seq<string>)
    ensures StrictlySorted(keys)
    ensures forall k :: k in keys <==> k in Keys(entries) && k !in BLOCKLIST
  {
    Without(SortUnique(Keys(entries)), BLOCKLIST)
  }

  /** `{attr: merge_systems(content[attr]) for attr in keys}`. */
  function Canonical(keys: seq<string>, content: map<string, seq<Req>>): (r: Kb)
    requires forall i :: 0 <= i < |keys| ==> keys[i] in content
    ensures |r| == |keys| && Keys(r) == keys
    ensures forall i :: 0 <= i < |r| ==> r[i].1 == MergeSystems(content[keys[i]])
  {
    var r := seq(|keys|, i requires 0 <= i < |keys| => (keys[i], MergeSystems(content[keys[i]])));
    assert Keys(r) == keys;
    r
  }

  /** `merge(prev_content, new_content)`. */
  function Merge(prev: Kb, next: Kb): (r: Kb)
    ensures StrictlySorted(Keys(r))
    ensures forall i :: 0 <= i < |r| ==> IsNormal(r[i].0) && r[i].0 !in BLOCKLIST
    ensures forall k :: k in Keys(r) <==> k !in BLOCKLIST && (k in NormalizedKeys(prev) || k in NormalizedKeys(next))
    ensures forall i :: 0 <= i < |r| ==> r[i].1 == MergeSystems(Collected(Filed(prev + next), r[i].0))
  {
    var entries := Filed(prev + next);
    var content := Accumulate(entries);
    AccumulateCollectsAll(entries);
    FiledKeys(prev, next);
    var keys := MergedKeys(entries);
    Canonical(keys, content)
  }

  lemma SortedKeysDistinct(s: seq<string>)
    requires StrictlySorted(s)
    ensures Distinct(s)
  {
    forall i, j | 0 <= i < j < |s| ensures s[i] != s[j] {
      LessIrreflexive(s[i]);
    }
  }

  /**
   * What `merge` files under a key: nothing for a blocklisted or unseen key,
   * otherwise the canonical form of everything listed under a name with
   * that normalisation in `prev` and then in `next`.
   */
  lemma MergeLookup(prev: Kb, next: Kb, k: string)
    ensures k in BLOCKLIST || (k !in NormalizedKeys(prev) && k !in NormalizedKeys(next))
      ==> Lookup(Merge(prev, next), k) == None
    ensures k !in BLOCKLIST && (k in NormalizedKeys(prev) || k in NormalizedKeys(next))
      ==> Lookup(Merge(prev, next), k) == Some(MergeSystems(Collected(Filed(prev + next), k)))
  {
    var r := Merge(prev, next);
    LookupFindsStored(r, k);
    if k in Keys(r) {
      var i :| 0 <= i < |r| && Keys(r)[i] == k;
      SortedKeysDistinct(Keys(r));
      LookupStored(r, i);
    }
  }

  /** A requirement is kept, or is a plain name that a table entry now claims. */
  predicate Covers(systems: seq<Req>, q: Req) {
    q in systems || (q.Simple? && q.name in ShadowedNames(systems))
  }

  /**
   * `merge` is strictly additive: whatever `prev` or `next` lists under a
   * name that is not blocklisted is still covered under the normalised name.
   */
  lemma MergeIsAdditive(prev: Kb, next: Kb, attr: string, systems: seq<Req>, q: Req)
    requires (attr, systems) in prev + next && q in systems
    requires Normalize(attr) !in BLOCKLIST
    ensures Lookup(Merge(prev, next), Normalize(attr)).Some?
    ensures Covers(Lookup(Merge(prev, next), Normalize(attr)).value, q)
  {
    var entries := prev + next;
    var k := Normalize(attr);
    var j :| 0 <= j < |entries| && entries[j] == (attr, systems);
    FiledAppend(prev, next);
    assert Filed(entries)[j] == (k, systems);
    CollectedContains(Filed(entries), j, q);
    MergeLookup(prev, next, k);
  }

  /** Everything `merge` files under a key was listed under a name with that normalisation. */
  lemma MergeInventsNothing(prev: Kb, next: Kb, k: string, q: Req)
    requires Lookup(Merge(prev, next), k).Some?
    requires q in Lookup(Merge(prev, next), k).value
    ensures exists j :: 0 <= j < |prev + next| && Normalize((prev + next)[j].0) == k && q in (prev + next)[j].1
  {
    var entries := Filed(prev + next);
    var c := Collected(entries, k);
    MergeLookup(prev, next, k);
    assert q in MergeSystems(c);
    if q.Simple? {
      assert Simple(q.name) in MergeSystems(c);
    }
    assert q in c;
    CollectedFrom(entries, k, q);
    var j :| 0 <= j < |entries| && entries[j].0 == k && q in entries[j].1;
    assert entries[j] == (Normalize((prev + next)[j].0), (prev + next)[j].1);
  }

  lemma {:induction false} CollectedOfDistinct(m: Kb, i: nat)
    requires i < |m| && Distinct(Keys(m))
    ensures Collected(m, m[i].0) == m[i].1
  {
    DistinctTail(m);
    var rest := m[1..];
    if i == 0 {
      CollectedAbsent(rest, m[0].0);
      assert Collected(m, m[0].0) == m[0].1 + Collected(rest, m[0].0);
      assert m[0].1 + [] == m[0].1;
    } else {
      assert Keys(m)[0] != Keys(m)[i];
      assert rest[i - 1] == m[i];
      assert Collected(m, m[i].0) == [] + Collected(rest, m[i].0);
      CollectedOfDistinct(rest, i - 1);
    }
  }

  /** Only plain build-system names, as a detection run produces. */
  predicate AllSimple(entries: Kb) {
    forall j, q :: 0 <= j < |entries| && q in entries[j].1 ==> q.Simple?
  }

  /** The output of `merge` is already filed under its own keys. */
  lemma MergeIsFiled(prev: Kb, next: Kb)
    ensures Filed(Merge(prev, next)) == Merge(prev, next)
  {
    var m := Merge(prev, next);
    forall j | 0 <= j < |m| ensures Filed(m)[j] == m[j] {
      NormalizeFixesNormal(m[j].0);
    }
  }

  /**
   * Merging the same detection run again into the merged knowledge base
   * changes nothing.
   */
  lemma MergeIdempotentOnFresh(prev: Kb, detected: Kb)
    requires AllSimple(detected)
    ensures Merge(Merge(prev, detected), detected) == Merge(prev, detected)
  {
    var m := Merge(prev, detected);
    var m2 := Merge(m, detected);
    MergeIsFiled(prev, detected);
    StrictlySortedEqual(Keys(m2), Keys(m));
    forall i | 0 <= i < |m| ensures m2[i] == m[i] {
      assert Keys(m2)[i] == m[i].0;
      RemergedEntry(prev, detected, i);
    }
  }

  /** One entry of the merged knowledge base is unchanged by merging the run again. */
  lemma RemergedEntry(prev: Kb, detected: Kb, i: nat)
    requires AllSimple(detected)
    requires i < |Merge(prev, detected)|
    requires Filed(Merge(prev, detected)) == Merge(prev, detected)
    ensures MergeSystems(Collected(Filed(Merge(prev, detected) + detected), Merge(prev, detected)[i].0))
      == Merge(prev, detected)[i].1
  {
    var m := Merge(prev, detected);
    var k := m[i].0;
    var fd := Filed(detected);
    var before := Collected(Filed(prev + detected), k);
    assert m[i].1 == MergeSystems(before);
    SortedKeysDistinct(Keys(m));
    FiledAppend(m, detected);
    CollectedAppend(m, fd, k);
    CollectedOfDistinct(m, i);
    assert Collected(Filed(m + detected), k) == MergeSystems(before) + Collected(fd, k);
    SimpleAgain(prev, detected, k);
    MergeSystemsAbsorbs(before, Collected(fd, k));
  }

  /** What a detection run lists under `k` is plain names, already collected with `prev`. */
  lemma SimpleAgain(prev: Kb, detected: Kb, k: string)
    requires AllSimple(detected)
    ensures forall q :: q in Collected(Filed(detected), k) ==> q.Simple? && q in Collected(Filed(prev + detected), k)
  {
    var fd := Filed(detected);
    FiledAppend(prev, detected);
    CollectedAppend(Filed(prev), fd, k);
    forall q | q in Collected(fd, k) ensures q.Simple? {
      CollectedFrom(fd, k, q);
      var j :| 0 <= j < |fd| && fd[j].0 == k && q in fd[j].1;
      assert q in detected[j].1;
    }
  }

  /** What a merged knowledge base holds under a name that is not blocklisted, seen as filed entries. */
  lemma MergedCollected(prev: Kb, next: Kb, k: string)
    requires k !in BLOCKLIST
    ensures Collected(Merge(prev, next), k) == MergeSystems(Collected(Filed(prev + next), k))
  {
    var m := Merge(prev, next);
    if k in Keys(m) {
      var i :| 0 <= i < |m| && Keys(m)[i] == k;
      SortedKeysDistinct(Keys(m));
      CollectedOfDistinct(m, i);
    } else {
      CollectedAbsent(m, k);
      FiledKeys(prev, next);
      CollectedAbsent(Filed(prev + next), k);
      assert MergeSystems([]) == [];
    }
  }

  /** Entries filed after a merge are collected after what the merge holds. */
  lemma RemergeCollected(prev: Kb, next: Kb, more: Kb, k: string)
    requires k !in BLOCKLIST
    ensures Collected(Filed(Merge(prev, next) + more), k)
      == MergeSystems(Collected(Filed(prev + next), k)) + Collected(Filed(more), k)
  {
    var m := Merge(prev, next);
    MergeIsFiled(prev, next);
    FiledAppend(m, more);
    CollectedAppend(m, Filed(more), k);
    MergedCollected(prev, next, k);
  }

  /** The keys of the filed entries of `a` followed by `b`. */
  lemma NormalizedKeysAppend(a: Kb, b: Kb)
    ensures NormalizedKeys(a + b) == NormalizedKeys(a) + NormalizedKeys(b)
  {
    FiledAppend(a, b);
  }

  /** Everything listed under `k` by `a` and then by `b`. */
  lemma CollectedFiledAppend(a: Kb, b: Kb, k: string)
    ensures Collected(Filed(a + b), k) == Collected(Filed(a), k) + Collected(Filed(b), k)
  {
    FiledAppend(a, b);
    CollectedAppend(Filed(a), Filed(b), k);
  }

  /**
   * Merging a detection run into an already merged knowledge base is the
   * same as merging both runs at once.
   */
  lemma MergeTwice(prev: Kb, first: Kb, second: Kb)
    requires AllSimple(second)
    ensures Merge(Merge(prev, first), second) == Merge(prev, first + second)
  {
    var m := Merge(prev, first);
    var l := Merge(m, second);
    var r := Merge(prev, first + second);
    MergeIsFiled(prev, first);
    assert NormalizedKeys(m) == Keys(m);
    NormalizedKeysAppend(first, second);
    StrictlySortedEqual(Keys(l), Keys(r));
    forall i | 0 <= i < |l| ensures l[i] == r[i] {
      assert Keys(l)[i] == Keys(r)[i];
      TwiceEntry(prev, first, second, l[i].0);
    }
  }

  /** One key of `MergeTwice`. */
  lemma TwiceEntry(prev: Kb, first: Kb, second: Kb, k: string)
    requires AllSimple(second) && k !in BLOCKLIST
    ensures MergeSystems(Collected(Filed(Merge(prev, first) + second), k))
      == MergeSystems(Collected(Filed(prev + (first + second)), k))
  {
    RemergeFlatten(prev, first, second, k);
    CollectedFiledAssoc(prev, first, second, k);
  }

  lemma RemergeFlatten(prev: Kb, first: Kb, second: Kb, k: string)
    requires AllSimple(second) && k !in BLOCKLIST
    ensures MergeSystems(Collected(Filed(Merge(prev, first) + second), k))
      == MergeSystems(Collected(Filed(prev + first), k) + Collected(Filed(second), k))
  {
    var a := Collected(Filed(prev + first), k);
    var c := Collected(Filed(second), k);
    RemergeCollected(prev, first, second, k);
    SimpleAgain(prev, second, k);
    MergeSystemsFlatten(a, c);
  }

  lemma CollectedFiledAssoc(prev: Kb, first: Kb, second: Kb, k: string)
    ensures Collected(Filed(prev + (first + second)), k)
      == Collected(Filed(prev + first), k) + Collected(Filed(second), k)
  {
    assert prev + (first + second) == (prev + first) + second;
    CollectedFiledAppend(prev + first, second, k);
  }

  /** The order in which two detection runs are merged in does not matter. */
  lemma MergeOrderIrrelevant(prev: Kb, first: Kb, second: Kb)
    requires AllSimple(first) && AllSimple(second)
    ensures Merge(Merge(prev, first), second) == Merge(Merge(prev, second), first)
  {
    MergeTwice(prev, first, second);
    MergeTwice(prev, second, first);
    var l := Merge(prev, first + second);
    var r := Merge(prev, second + first);
    NormalizedKeysAppend(first, second);
    NormalizedKeysAppend(second, first);
    StrictlySortedEqual(Keys(l), Keys(r));
    forall i | 0 <= i < |l| ensures l[i] == r[i] {
      assert Keys(l)[i] == Keys(r)[i];
      SwappedEntry(prev, first, second, l[i].0);
    }
  }

  /** One key of `MergeOrderIrrelevant`. */
  lemma SwappedEntry(prev: Kb, first: Kb, second: Kb, k: string)
    requires AllSimple(first) && AllSimple(second)
    ensures MergeSystems(Collected(Filed(prev + (first + second)), k))
      == MergeSystems(Collected(Filed(prev + (second + first)), k))
  {
    var p := Collected(Filed(prev), k);
    var a := Collected(Filed(first), k);
    var b := Collected(Filed(second), k);
    CollectedFiledAppend(prev, first + second, k);
    CollectedFiledAppend(first, second, k);
    CollectedFiledAppend(prev, second + first, k);
    CollectedFiledAppend(second, first, k);
    SimpleAgain(prev, first, k);
    SimpleAgain(prev, second, k);
    Seqs.Assoc(p, a, b);
    Seqs.Assoc(p, b, a);
    MergeSystemsSwap(p, a, b);
  }

  /**
   * A table entry for a build system wins over the plain name: once any
   * entry lists a table for `X` under a name, the merged list under that
   * name holds no plain `X`, whoever contributed it.
   */
  lemma MergeShadowsPlainName(prev: Kb, next: Kb, attr: string, systems: seq<Req>, q: Req)
    requires (attr, systems) in prev + next && q in systems && q.Conditional?
    requires Normalize(attr) !in BLOCKLIST
    ensures Lookup(Merge(prev, next), Normalize(attr)).Some?
    ensures q in Lookup(Merge(prev, next), Normalize(attr)).value
    ensures Simple(q.buildSystem) !in Lookup(Merge(prev, next), Normalize(attr)).value
  {
    MergeIsAdditive(prev, next, attr, systems, q);
    var c := Collected(Filed(prev + next), Normalize(attr));
    MergeLookup(prev, next, Normalize(attr));
    var m := MergeSystems(c);
    assert q in m;
    assert q.buildSystem in ShadowedNames(m);
  }
}
