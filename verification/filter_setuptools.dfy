/**
 * overrides/filter_setuptools.py: strips `setuptools` and `setuptools-scm`
 * from every build-system list of the knowledge base, dropping packages
 * whose list becomes empty.
 */
module FilterSetuptools {

  import opened Wrappers
  import opened Dicts
  import opened Requirements
  import Seqs

  /** A knowledge-base value: a list of requirements, or any other JSON value, kept verbatim. */
  datatype Entry = Systems(items: seq<Req>) | Other(raw: string)

  /** The plain names the script removes; a table entry is never equal to a string. */
  predicate Dropped(q: Req) {
    q.Simple? && (q.name == "setuptools" || q.name == "setuptools-scm")
  }

  /** `[x for x in v if x != "setuptools" and x != "setuptools-scm"]`. */
  function WithoutSetuptools(v: seq<Req>): (r: seq<Req>)
    ensures forall q :: multiset(r)[q] == if Dropped(q) then 0 else multiset(v)[q]
    ensures Seqs.IsSubseq(r, v)
  {
    if |v| == 0 then []
    else
      var rest := WithoutSetuptools(v[1..]);
      assert v == [v[0]] + v[1..];
      if Dropped(v[0]) then rest
      else
        assert ([v[0]] + rest)[1..] == rest;
        [v[0]] + rest
  }

  /** The body of the loop for one key: `None` when the key is left out of the output. */
  function FilterEntry(e: Entry): Option<Entry> {
    match e
      case Other(_) => Some(e)
      case Systems(v) =>
        var w := WithoutSetuptools(v);
        if w == [] then None else Some(Systems(w))
  }

  /** The loop over `input.items()`, collecting `output` in input order. */
  function Filter(input: Dict<Entry>): (r: Dict<Entry>)
    ensures Seqs.IsSubseq(Keys(r), Keys(input))
  {
    if |input| == 0 then []
    else
      var rest := Filter(input[1..]);
      assert Keys(input) == [input[0].0] + Keys(input[1..]);
      match FilterEntry(input[0].1)
        case None => rest
        case Some(e) =>
          assert Keys([(input[0].0, e)] + rest) == [input[0].0] + Keys(rest);
          [(input[0].0, e)] + rest
  }

  /**
   * Per key: a list loses exactly the removed names and its key is dropped
   * when nothing is left; any other value is copied.
   */
  lemma {:induction false} FilterLookup(input: Dict<Entry>, k: string)
    requires DistinctKeys(input)
    ensures Lookup(Filter(input), k) == match Lookup(input, k)
      case None => None
      case Some(e) => FilterEntry(e)
  {
    if |input| > 0 {
      DistinctTail(input);
      FilterLookup(input[1..], k);
      if input[0].0 == k {
        LookupFindsStored(input[1..], k);
        Seqs.SubseqMembers(Keys(Filter(input[1..])), Keys(input[1..]));
        LookupFindsStored(Filter(input[1..]), k);
      }
    }
  }

  /** Table entries survive the filter, even one whose `buildSystem` is `setuptools`. */
  lemma FilterKeepsConditionals(input: Dict<Entry>, k: string, v: seq<Req>, q: Req)
    requires DistinctKeys(input)
    requires Lookup(input, k) == Some(Systems(v)) && q in v && q.Conditional?
    ensures Lookup(Filter(input), k) == Some(Systems(WithoutSetuptools(v)))
    ensures q in WithoutSetuptools(v)
  {
    FilterLookup(input, k);
    assert multiset(v)[q] > 0;
    assert q in multiset(WithoutSetuptools(v));
  }

  lemma WithoutSetuptoolsIdempotent(v: seq<Req>)
    ensures WithoutSetuptools(WithoutSetuptools(v)) == WithoutSetuptools(v)
  {
    var w := WithoutSetuptools(v);
    forall q | q in w ensures !Dropped(q) {
      assert multiset(w)[q] > 0;
    }
    WithoutNothingDropped(w);
  }

  lemma {:induction false} WithoutNothingDropped(v: seq<Req>)
    requires forall q :: q in v ==> !Dropped(q)
    ensures WithoutSetuptools(v) == v
  {
    if |v| > 0 {
      assert v[0] in v;
      WithoutNothingDropped(v[1..]);
      assert v == [v[0]] + v[1..];
    }
  }

  /** Filtering an already filtered knowledge base changes nothing. */
  lemma {:induction false} FilterIdempotent(input: Dict<Entry>)
    ensures Filter(Filter(input)) == Filter(input)
  {
    if |input| > 0 {
      var rest := Filter(input[1..]);
      FilterIdempotent(input[1..]);
      match FilterEntry(input[0].1)
        case None =>
        case Some(e) =>
          if e.Systems? {
            WithoutSetuptoolsIdempotent(input[0].1.items);
          }
          var r := [(input[0].0, e)] + rest;
          assert r[1..] == rest;
    }
  }
}
