/**
 * `main` of tools/find-build-systems.py without its file and process I/O:
 * the previous knowledge base (absent when the output file does not exist
 * yet) is merged with a fresh detection run.
 */
module Pipeline {

  import opened Wrappers
  import opened Lex
  import opened Dicts
  import opened Names
  import opened Requirements
  import opened Discovery
  import opened KnowledgeBase

  /** Detected build systems as knowledge-base entries: every name is a plain string. */
  function AsRequirements(d: Dict<seq<string>>): (r: Kb)
    ensures |r| == |d|
    ensures forall i :: 0 <= i < |r| ==> r[i] == (d[i].0, AsSimple(d[i].1))
    ensures AllSimple(r)
  {
    seq(|d|, i requires 0 <= i < |d| => (d[i].0, AsSimple(d[i].1)))
  }

  /** One run: `merge(prev_content, get_build_systems(known_systems))`. */
  function Update(previous: Option<Kb>, known: KnownSystems, jobs: seq<Job>): (r: Kb)
    ensures StrictlySorted(Keys(r))
    ensures forall i :: 0 <= i < |r| ==> IsNormal(r[i].0) && r[i].0 !in BLOCKLIST
    ensures previous.Some? ==> forall k :: k in NormalizedKeys(previous.value) && k !in BLOCKLIST ==> k in Keys(r)
  {
    var prev := if previous.Some? then previous.value else [];
    Merge(prev, AsRequirements(GetBuildSystems(known, jobs)))
  }

  /** A run never loses what an earlier generation recorded. */
  lemma UpdateKeepsPrevious(previous: Kb, known: KnownSystems, jobs: seq<Job>, attr: string, systems: seq<Req>, q: Req)
    requires (attr, systems) in previous && q in systems
    requires Normalize(attr) !in BLOCKLIST
    ensures Lookup(Update(Some(previous), known, jobs), Normalize(attr)).Some?
    ensures Covers(Lookup(Update(Some(previous), known, jobs), Normalize(attr)).value, q)
  {
    MergeIsAdditive(previous, AsRequirements(GetBuildSystems(known, jobs)), attr, systems, q);
  }

  /** Every build system detected for a package is recorded under its normalised name. */
  lemma UpdateRecordsDetections(previous: Option<Kb>, known: KnownSystems, jobs: seq<Job>, a: string, systems: seq<string>, x: string)
    requires Detected(known, jobs, a) == Some(systems) && x in systems
    requires Normalize(a) !in BLOCKLIST
    ensures Lookup(Update(previous, known, jobs), Normalize(a)).Some?
    ensures Covers(Lookup(Update(previous, known, jobs), Normalize(a)).value, Simple(x))
  {
    var prev := if previous.Some? then previous.value else [];
    var found := GetBuildSystems(known, jobs);
    GetBuildSystemsDetects(known, jobs, a);
    LookupFindsStored(found, a);
    var i :| 0 <= i < |found| && found[i] == (a, systems);
    var entries := AsRequirements(found);
    assert entries[i] == (a, AsSimple(systems));
    assert (a, AsSimple(systems)) in prev + entries;
    var j :| 0 <= j < |systems| && systems[j] == x;
    assert AsSimple(systems)[j] == Simple(x);
    MergeIsAdditive(prev, entries, a, AsSimple(systems), Simple(x));
  }

  /** Running again over the same packages reproduces the knowledge base just written. */
  lemma UpdateIdempotent(previous: Option<Kb>, known: KnownSystems, jobs: seq<Job>)
    ensures Update(Some(Update(previous, known, jobs)), known, jobs) == Update(previous, known, jobs)
  {
    var prev := if previous.Some? then previous.value else [];
    MergeIdempotentOnFresh(prev, AsRequirements(GetBuildSystems(known, jobs)));
  }
}
