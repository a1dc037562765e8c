/**
 * pyproject-without-path.py: every dependency table that has a `path` key
 * loses it and is pinned to `version = '*'`. Unlike the wheel hook, a
 * document without `tool.poetry.dependencies` is an error.
 */
module WithoutPath {

  import opened Wrappers
  import opened Dicts
  import opened Documents
  import Seqs

  /**
   * The exceptions that escape the script: a `KeyError` when the
   * dependency table is missing, a `TypeError` for subscripting a non-table
   * on the way to it, and an `AttributeError` for `.values()` on a
   * dependencies value that is not a table.
   */
  datatype ScriptError = NoDependencies | NotSubscriptable | NoValues

  /** `del dep['path']` then `dep['version'] = '*'`. */
  function Unpin(f: Dict<Value>): (r: Dict<Value>)
    ensures Lookup(r, "version") == Some(Str("*"))
    ensures "path" !in Keys(r)
    ensures forall k :: k != "version" && k != "path" ==> Lookup(r, k) == Lookup(f, k)
    ensures forall k :: k in Keys(r) <==> k == "version" || (k in Keys(f) && k != "path")
    ensures "version" in Keys(f) ==> Seqs.IsSubseq(Keys(r), Keys(f))
    ensures "version" !in Keys(f) ==>
      |r| > 0 && r[|r| - 1].0 == "version" && Seqs.IsSubseq(Keys(r)[..|r| - 1], Keys(f))
  {
    var kept := Remove(f, "path");
    var r := Put(kept, "version", Str("*"));
    if "version" in Keys(kept) then r
    else
      assert Keys(r)[..|r| - 1] == Keys(kept);
      assert r[|r| - 1].0 == Keys(r)[|r| - 1];
      r
  }

  /** Unpinning a table whose keys are distinct leaves them distinct. */
  lemma UnpinKeepsDistinct(f: Dict<Value>)
    requires DistinctKeys(f)
    ensures DistinctKeys(Unpin(f))
  {
    RemoveKeepsDistinct(f, "path");
    PutKeepsDistinct(Remove(f, "path"), "version", Str("*"));
  }

  /** A dependency table with a `path` key. */
  predicate IsPathDependency(dep: Value) {
    dep.Table? && "path" in Keys(dep.fields)
  }

  /** The loop body for one dependency: a path dependency is rewritten, anything else kept. */
  function RewriteDependency(dep: Value): (r: Value)
    ensures r == dep <==> !IsPathDependency(dep)
    ensures IsPathDependency(dep) ==> r == Table(Unpin(dep.fields))
  {
    if IsPathDependency(dep) then Table(Unpin(dep.fields)) else dep
  }

  /** The loop over `deps.values()`. */
  function RewriteAll(deps: Dict<Value>): (r: Dict<Value>)
    ensures |r| == |deps| && Keys(r) == Keys(deps)
    ensures forall i :: 0 <= i < |deps| ==> r[i].1 == RewriteDependency(deps[i].1)
  {
    if |deps| == 0 then []
    else [(deps[0].0, RewriteDependency(deps[0].1))] + RewriteAll(deps[1..])
  }

  /** The script with JSON parsing and printing left out. */
  function Apply(doc: Value): (r: Result<Value, ScriptError>)
    ensures GetPath(doc, DEPENDENCIES) == Missing ==> r == Err(NoDependencies)
    ensures GetPath(doc, DEPENDENCIES) == NotTable ==> r == Err(NotSubscriptable)
    ensures GetPath(doc, DEPENDENCIES).Found? && !GetPath(doc, DEPENDENCIES).value.Table? ==> r == Err(NoValues)
    ensures r.Ok? <==> GetPath(doc, DEPENDENCIES).Found? && GetPath(doc, DEPENDENCIES).value.Table?
  {
    match GetPath(doc, DEPENDENCIES)
      case Missing => Err(NoDependencies)
      case NotTable => Err(NotSubscriptable)
      case Found(deps) =>
        if !deps.Table? then Err(NoValues)
        else Ok(SetPath(doc, DEPENDENCIES, Table(RewriteAll(deps.fields))))
  }

  lemma RewriteDependencyIdempotent(dep: Value)
    ensures RewriteDependency(RewriteDependency(dep)) == RewriteDependency(dep)
  {
  }

  lemma {:induction false} RewriteAllIdempotent(deps: Dict<Value>)
    ensures RewriteAll(RewriteAll(deps)) == RewriteAll(deps)
  {
    if |deps| > 0 {
      RewriteDependencyIdempotent(deps[0].1);
      RewriteAllIdempotent(deps[1..]);
      var r := RewriteAll(deps);
      assert r[1..] == RewriteAll(deps[1..]);
    }
  }

  /** The dependency table after a successful run: same names, each dependency rewritten on its own. */
  lemma ApplyRewritesEach(doc: Value, deps: Dict<Value>)
    requires GetPath(doc, DEPENDENCIES) == Found(Table(deps))
    ensures Apply(doc).Ok?
    ensures GetPath(Apply(doc).value, DEPENDENCIES) == Found(Table(RewriteAll(deps)))
  {
    SetPathGet(doc, DEPENDENCIES, Table(RewriteAll(deps)));
  }

  /** Nothing outside the dependency table changes. */
  lemma ApplyFrame(doc: Value, other: seq<string>, i: nat)
    requires Apply(doc).Ok?
    requires i < |DEPENDENCIES| && i < |other| && DEPENDENCIES[..i] == other[..i] && DEPENDENCIES[i] != other[i]
    ensures GetPath(Apply(doc).value, other) == GetPath(doc, other)
  {
    var deps := GetPath(doc, DEPENDENCIES).value;
    SetPathFrame(doc, DEPENDENCIES, Table(RewriteAll(deps.fields)), other, i);
  }

  /** Every table on the way to the dependency table keeps its keys in order. */
  lemma ApplyKeepsKeyOrder(doc: Value)
    requires Apply(doc).Ok?
    ensures KeysKeptAlong(Apply(doc).value, doc, DEPENDENCIES)
  {
    var deps := GetPath(doc, DEPENDENCIES).value;
    SetPathKeepsKeys(doc, DEPENDENCIES, Table(RewriteAll(deps.fields)));
  }

  /** A second pass over the output changes nothing. */
  lemma ApplyIdempotent(doc: Value)
    requires Apply(doc).Ok?
    ensures Apply(Apply(doc).value) == Apply(doc)
  {
    var deps := GetPath(doc, DEPENDENCIES).value.fields;
    var out := SetPath(doc, DEPENDENCIES, Table(RewriteAll(deps)));
    SetPathGet(doc, DEPENDENCIES, Table(RewriteAll(deps)));
    RewriteAllIdempotent(deps);
    SetPathStored(out, DEPENDENCIES);
  }
}
