/**
 * Python dictionaries with string keys, as association lists in insertion
 * order. A dictionary built by Python never repeats a key (`DistinctKeys`);
 * the operations below keep that invariant and agree with Python's on it.
 */
module Dicts {

  import opened Wrappers
  import Seqs

  type Dict<V> = seq<(string, V)>

  /** The keys in iteration order: Python's `list(d.keys())`. */
  function Keys<V>(d: Dict<V>): (ks: seq<string>)
    ensures |ks| == |d|
    ensures forall i :: 0 <= i < |d| ==> ks[i] == d[i].0
  {
    if |d| == 0 then [] else [d[0].0] + Keys(d[1..])
  }

  predicate Distinct(s: seq<string>) {
    forall i, j :: 0 <= i < j < |s| ==> s[i] != s[j]
  }

  /** Python never stores a key twice. */
  predicate DistinctKeys<V>(d: Dict<V>) {
    Distinct(Keys(d))
  }

  /** Python's `d.get(k)`: the value stored under `k`, if any. */
  function Lookup<V>(d: Dict<V>, k: string): Option<V> {
    if |d| == 0 then None
    else if d[0].0 == k then Some(d[0].1)
    else Lookup(d[1..], k)
  }

  /** A key is found exactly when it is stored, and what is found was stored under it. */
  lemma {:induction false} LookupFindsStored<V>(d: Dict<V>, k: string)
    ensures Lookup(d, k).None? <==> k !in Keys(d)
    ensures Lookup(d, k).Some? ==> (k, Lookup(d, k).value) in d
  {
    if |d| > 0 {
      LookupFindsStored(d[1..], k);
      assert Keys(d) == [d[0].0] + Keys(d[1..]);
    }
  }

  /** In a dictionary every stored pair is found again by its key. */
  lemma {:induction false} LookupStored<V>(d: Dict<V>, i: nat)
    requires DistinctKeys(d) && i < |d|
    ensures Lookup(d, d[i].0) == Some(d[i].1)
  {
    if i > 0 {
      assert d[0].0 != d[i].0;
      LookupStored(d[1..], i - 1);
    }
  }

  /** Python's `d[k] = v`: an existing key keeps its place, a new key goes last. */
  function Put<V>(d: Dict<V>, k: string, v: V): (r: Dict<V>)
    ensures Lookup(r, k) == Some(v)
    ensures forall k' :: k' != k ==> Lookup(r, k') == Lookup(d, k')
    ensures k in Keys(d) ==> Keys(r) == Keys(d)
    ensures k !in Keys(d) ==> Keys(r) == Keys(d) + [k]
  {
    if |d| == 0 then [(k, v)]
    else if d[0].0 == k then
      var r := [(k, v)] + d[1..];
      assert r[1..] == d[1..];
      assert Keys(r) == [k] + Keys(d[1..]);
      r
    else
      var rest := Put(d[1..], k, v);
      var r := [d[0]] + rest;
      assert r[1..] == rest;
      assert Keys(r) == [d[0].0] + Keys(rest);
      assert Keys(d) == [d[0].0] + Keys(d[1..]);
      r
  }

  /** Storing the value a key already has changes nothing. */
  lemma {:induction false} PutStored<V>(d: Dict<V>, k: string, v: V)
    requires Lookup(d, k) == Some(v)
    ensures Put(d, k, v) == d
  {
    if d[0].0 == k {
      assert d == [(k, v)] + d[1..];
    } else {
      PutStored(d[1..], k, v);
      assert d == [d[0]] + d[1..];
    }
  }

  lemma PutKeepsDistinct<V>(d: Dict<V>, k: string, v: V)
    requires DistinctKeys(d)
    ensures DistinctKeys(Put(d, k, v))
  {
    var ks := Keys(Put(d, k, v));
    if k !in Keys(d) {
      forall i, j | 0 <= i < j < |ks| ensures ks[i] != ks[j] {
        if j == |ks| - 1 {
          assert ks[i] in Keys(d);
        }
      }
    }
  }

  /** Python's `d.pop(k, None)` (and `del d[k]` once `k` is known present). */
  function Remove<V>(d: Dict<V>, k: string): (r: Dict<V>)
    ensures k !in Keys(r)
    ensures forall k' :: k' != k ==> Lookup(r, k') == Lookup(d, k')
    ensures forall k' :: k' in Keys(r) <==> k' in Keys(d) && k' != k
    ensures k !in Keys(d) ==> r == d
    ensures Seqs.IsSubseq(Keys(r), Keys(d))
  {
    if |d| == 0 then []
    else if d[0].0 == k then
      assert Keys(d) == [d[0].0] + Keys(d[1..]);
      Remove(d[1..], k)
    else
      var rest := Remove(d[1..], k);
      var r := [d[0]] + rest;
      assert r[1..] == rest;
      assert Keys(r) == [d[0].0] + Keys(rest);
      assert Keys(d) == [d[0].0] + Keys(d[1..]);
      assert k !in Keys(d[1..]) ==> d == [d[0]] + d[1..];
      r
  }

  /** The keys of a dictionary with one more entry at its end. */
  lemma KeysSnoc<V>(d: Dict<V>, e: (string, V))
    ensures Keys(d + [e]) == Keys(d) + [e.0]
  {
  }

  /** A key not yet present is stored at the end. */
  lemma {:induction false} PutAbsent<V>(d: Dict<V>, k: string, v: V)
    requires k !in Keys(d)
    ensures Put(d, k, v) == d + [(k, v)]
  {
    if |d| > 0 {
      assert Keys(d) == [d[0].0] + Keys(d[1..]);
      assert d[0].0 != k && k !in Keys(d[1..]);
      PutAbsent(d[1..], k, v);
      assert Put(d, k, v) == [d[0]] + Put(d[1..], k, v);
      assert d + [(k, v)] == [d[0]] + (d[1..] + [(k, v)]);
    }
  }

  /** Removing another key leaves the last entry last. */
  lemma {:induction false} RemoveSnoc<V>(d: Dict<V>, k: string, e: (string, V))
    requires e.0 != k
    ensures Remove(d + [e], k) == Remove(d, k) + [e]
  {
    if |d| == 0 {
      assert Remove([e], k) == [e] + Remove([e][1..], k);
    } else {
      assert (d + [e])[0] == d[0] && (d + [e])[1..] == d[1..] + [e];
      RemoveSnoc(d[1..], k, e);
    }
  }

  lemma DistinctCons(x: string, s: seq<string>)
    requires Distinct(s) && x !in s
    ensures Distinct([x] + s)
  {
    var t := [x] + s;
    forall i, j | 0 <= i < j < |t| ensures t[i] != t[j] {
      assert t[j] == s[j - 1];
      if i > 0 {
        assert t[i] == s[i - 1];
      }
    }
  }

  /** The rest of a dictionary after its first entry is a dictionary without that key. */
  lemma DistinctTail<V>(d: Dict<V>)
    requires DistinctKeys(d) && |d| > 0
    ensures DistinctKeys(d[1..]) && d[0].0 !in Keys(d[1..])
  {
    var ks := Keys(d);
    assert Keys(d[1..]) == ks[1..];
    forall i, j | 0 <= i < j < |ks| - 1 ensures ks[1..][i] != ks[1..][j] {
      assert ks[1..][i] == ks[i + 1] && ks[1..][j] == ks[j + 1];
    }
    forall i | 0 <= i < |ks| - 1 ensures ks[1..][i] != d[0].0 {
      assert ks[1..][i] == ks[i + 1];
    }
  }

  lemma {:induction false} RemoveKeepsDistinct<V>(d: Dict<V>, k: string)
    requires DistinctKeys(d)
    ensures DistinctKeys(Remove(d, k))
  {
    if |d| > 0 {
      DistinctTail(d);
      RemoveKeepsDistinct(d[1..], k);
      if d[0].0 != k {
        var rest := Remove(d[1..], k);
        assert Keys([d[0]] + rest) == [d[0].0] + Keys(rest);
        DistinctCons(d[0].0, Keys(rest));
      }
    }
  }

  /**
   * Python's `{k: v for k, v in ps}`: a repeated key keeps the place of its
   * first pair and the value of its last.
   */
  function FromPairs<V>(ps: seq<(string, V)>): (r: Dict<V>)
    ensures DistinctKeys(r)
  {
    if |ps| == 0 then []
    else
      var prev := FromPairs(ps[..|ps| - 1]);
      PutKeepsDistinct(prev, ps[|ps| - 1].0, ps[|ps| - 1].1);
      Put(prev, ps[|ps| - 1].0, ps[|ps| - 1].1)
  }

  /** The keys of the comprehension are the keys of the pairs. */
  lemma {:induction false} FromPairsKeys<V>(ps: seq<(string, V)>)
    ensures forall k :: k in Keys(FromPairs(ps)) <==> k in Keys(ps)
  {
    if |ps| > 0 {
      var init := ps[..|ps| - 1];
      FromPairsKeys(init);
      assert Keys(ps) == Keys(init) + [ps[|ps| - 1].0];
    }
  }

  /** Each key is bound to the value of its last pair. */
  lemma {:induction false} FromPairsLookup<V>(ps: seq<(string, V)>, i: nat)
    requires i < |ps| && IsLastWithKey(ps, i)
    ensures Lookup(FromPairs(ps), ps[i].0) == Some(ps[i].1)
  {
    var init, last := ps[..|ps| - 1], ps[|ps| - 1];
    if i < |ps| - 1 {
      assert ps[i] == init[i];
      assert ps[i].0 != last.0;
      assert IsLastWithKey(init, i);
      FromPairsLookup(init, i);
    }
  }

  /** No later pair of `ps` has the key of pair `i`. */
  predicate IsLastWithKey<V>(ps: seq<(string, V)>, i: nat)
    requires i < |ps|
  {
    forall j :: i < j < |ps| ==> ps[j].0 != ps[i].0
  }
}
