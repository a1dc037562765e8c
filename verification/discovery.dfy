/**
 * Detection of build systems (`check_drv` and `get_build_systems` of
 * tools/find-build-systems.py). A derivation is seen only through the set
 * of drv paths among its direct inputs; the evaluator's stream of packages
 * arrives as a sequence of (attribute, input drvs) jobs.
 */
module Discovery {

  import opened Wrappers
  import opened Dicts
  import Seqs

  /** Packages whose build systems are maintained by hand, never detected. */
  const SKIP_ATTRS: set<string> := {
    "typing-extensions", "argon2-cffi", "packaging", "poetry",
    "flit-core", "jsonschema", "platformdirs", "traitlets"
  }

  /** The known build systems: attribute name to the drv path it evaluates to, in table order. */
  type KnownSystems = Dict<string>

  /** One package of the evaluator's stream: its attribute and the input drvs of its derivation. */
  type Job = (string, set<string>)

  /**
   * `check_drv`: the attributes of the known systems whose drv path is a
   * direct input of the package, in the table's order.
   */
  function CheckDrv(known: KnownSystems, inputDrvs: set<string>): (r: seq<string>)
    ensures forall a :: a in r <==> exists i :: 0 <= i < |known| && known[i].0 == a && known[i].1 in inputDrvs
    ensures Seqs.IsSubseq(r, Keys(known))
    ensures DistinctKeys(known) ==> Distinct(r)
  {
    if |known| == 0 then []
    else
      var rest := CheckDrv(known[1..], inputDrvs);
      assert Keys(known) == [known[0].0] + Keys(known[1..]);
      assert Keys(known[1..]) == Keys(known)[1..];
      assert forall a :: a in rest ==> a in Keys(known[1..]);
      if known[0].1 in inputDrvs then
        assert DistinctKeys(known) ==> Distinct([known[0].0] + rest) by {
          if DistinctKeys(known) {
            assert DistinctKeys(known[1..]);
            assert known[0].0 !in Keys(known[1..]);
            DistinctCons(known[0].0, rest);
          }
        }
        [known[0].0] + rest
      else
        rest
  }

  /** The input drvs of the last job for attribute `a`: the one a dict comprehension keeps. */
  function LastInputs(jobs: seq<Job>, a: string): Option<set<string>> {
    if |jobs| == 0 then None
    else if jobs[|jobs| - 1].0 == a then Some(jobs[|jobs| - 1].1)
    else LastInputs(jobs[..|jobs| - 1], a)
  }

  /** What detection promises for attribute `a`. */
  function Detected(known: KnownSystems, jobs: seq<Job>, a: string): Option<seq<string>> {
    if a in SKIP_ATTRS then None
    else match LastInputs(jobs, a)
      case None => None
      case Some(inputs) =>
        var systems := CheckDrv(known, inputs);
        if systems == [] then None else Some(systems)
  }

  /** The pairs the futures comprehension collects: every job whose attribute is not skipped. */
  function Submitted(known: KnownSystems, jobs: seq<Job>): seq<(string, seq<string>)> {
    if |jobs| == 0 then []
    else
      var (attr, inputs) := jobs[|jobs| - 1];
      Submitted(known, jobs[..|jobs| - 1]) + (if attr in SKIP_ATTRS then [] else [(attr, CheckDrv(known, inputs))])
  }

  /** `{attr: systems for attr, systems in d.items() if systems}`. */
  function NonEmpty(d: Dict<seq<string>>): (r: Dict<seq<string>>)
    ensures forall i :: 0 <= i < |r| ==> r[i].1 != [] && r[i] in d
    ensures Seqs.IsSubseq(r, d)
  {
    if |d| == 0 then []
    else if d[0].1 == [] then NonEmpty(d[1..])
    else [d[0]] + NonEmpty(d[1..])
  }

  /** `get_build_systems(known_systems)` with the evaluator's stream given as `jobs`. */
  function GetBuildSystems(known: KnownSystems, jobs: seq<Job>): (r: Dict<seq<string>>)
    ensures forall i :: 0 <= i < |r| ==> r[i].0 !in SKIP_ATTRS && r[i].1 != []
    ensures DistinctKeys(r)
  {
    var futures := FromPairs(Submitted(known, jobs));
    NonEmptyKeepsDistinct(futures);
    SubmittedSkipsNothing(known, jobs);
    FromPairsKeys(Submitted(known, jobs));
    NonEmpty(futures)
  }

  lemma {:induction false} SubmittedSkipsNothing(known: KnownSystems, jobs: seq<Job>)
    ensures forall a :: a in Keys(Submitted(known, jobs)) ==> a !in SKIP_ATTRS
  {
    if |jobs| > 0 {
      SubmittedSkipsNothing(known, jobs[..|jobs| - 1]);
    }
  }

  lemma {:induction false} NonEmptyKeys(d: Dict<seq<string>>)
    ensures forall k :: k in Keys(NonEmpty(d)) ==> k in Keys(d)
  {
    if |d| > 0 {
      NonEmptyKeys(d[1..]);
      assert Keys(d) == [d[0].0] + Keys(d[1..]);
      if d[0].1 != [] {
        assert Keys(NonEmpty(d)) == [d[0].0] + Keys(NonEmpty(d[1..]));
      }
    }
  }

  lemma {:induction false} NonEmptyKeepsDistinct(d: Dict<seq<string>>)
    requires DistinctKeys(d)
    ensures DistinctKeys(NonEmpty(d))
  {
    if |d| > 0 {
      DistinctTail(d);
      NonEmptyKeepsDistinct(d[1..]);
      if d[0].1 != [] {
        var rest := NonEmpty(d[1..]);
        assert Keys([d[0]] + rest) == [d[0].0] + Keys(rest);
        NonEmptyKeys(d[1..]);
        DistinctCons(d[0].0, Keys(rest));
      }
    }
  }

  /** Dropping the empty lists of a dictionary leaves every other entry where it was. */
  lemma {:induction false} NonEmptyLookup(d: Dict<seq<string>>, a: string)
    requires DistinctKeys(d)
    ensures Lookup(NonEmpty(d), a) == if Lookup(d, a) == Some([]) then None else Lookup(d, a)
  {
    if |d| > 0 {
      DistinctTail(d);
      NonEmptyLookup(d[1..], a);
      if d[0].0 == a {
        LookupFindsStored(d[1..], a);
        var rest := NonEmpty(d[1..]);
        LookupFindsStored(rest, a);
        NonEmptyKeys(d[1..]);
      }
    }
  }

  /** The dictionary comprehension over the stream keeps, per attribute, the detection of its last job. */
  lemma {:induction false} FuturesLookup(known: KnownSystems, jobs: seq<Job>, a: string)
    requires a !in SKIP_ATTRS
    ensures Lookup(FromPairs(Submitted(known, jobs)), a) ==
      match LastInputs(jobs, a)
        case None => None
        case Some(inputs) => Some(CheckDrv(known, inputs))
  {
    if |jobs| > 0 {
      var init := jobs[..|jobs| - 1];
      var attr, inputs := jobs[|jobs| - 1].0, jobs[|jobs| - 1].1;
      FuturesLookup(known, init, a);
      var before := Submitted(known, init);
      if attr !in SKIP_ATTRS {
        var p := (attr, CheckDrv(known, inputs));
        assert Submitted(known, jobs) == before + [p];
        assert (before + [p])[..|before|] == before;
        assert FromPairs(before + [p]) == Put(FromPairs(before), attr, p.1);
      } else {
        assert Submitted(known, jobs) == before;
        assert attr != a;
      }
    }
  }

  /**
   * `get_build_systems` reports an attribute exactly when it is not skipped,
   * appears in the stream, and the derivation of its last job has a known
   * build system among its direct inputs; it then reports that job's
   * `check_drv` result.
   */
  lemma GetBuildSystemsDetects(known: KnownSystems, jobs: seq<Job>, a: string)
    ensures Lookup(GetBuildSystems(known, jobs), a) == Detected(known, jobs, a)
  {
    var futures := FromPairs(Submitted(known, jobs));
    NonEmptyLookup(futures, a);
    if a in SKIP_ATTRS {
      SubmittedSkipsNothing(known, jobs);
      FromPairsKeys(Submitted(known, jobs));
      LookupFindsStored(futures, a);
    } else {
      FuturesLookup(known, jobs, a);
    }
  }
}
