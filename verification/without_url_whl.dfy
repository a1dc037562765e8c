/**
 * hooks/pyproject-without-url-whl.py: every dependency table whose `url`
 * ends in `whl` is pinned to `version = "*"` and loses `url` and `develop`.
 * A document without `tool.poetry.dependencies` passes through unchanged.
 */
module WithoutUrlWhl {

  import opened Wrappers
  import opened Dicts
  import opened Text
  import opened Documents
  import Seqs

  /**
   * The exceptions that escape `main`: a `TypeError` for subscripting a
   * non-table on the way to the dependencies, an `AttributeError` for
   * `.values()` on a dependencies value that is not a table, and one for
   * `.endswith` on a `url` that is not a string.
   */
  datatype HookError = NotSubscriptable | NoValues | UrlNotString

  /** `d[key] = v` followed by `d.pop(drop1, None)` and `d.pop(drop2, None)`. */
  function SetThenDrop<V>(d: Dict<V>, key: string, v: V, drop1: string, drop2: string): (r: Dict<V>)
    requires key != drop1 && key != drop2
    ensures Lookup(r, key) == Some(v)
    ensures drop1 !in Keys(r) && drop2 !in Keys(r)
    ensures forall k :: k != key && k != drop1 && k != drop2 ==> Lookup(r, k) == Lookup(d, k)
    ensures forall k :: k in Keys(r) <==> k == key || (k in Keys(d) && k != drop1 && k != drop2)
    ensures key in Keys(d) ==> Seqs.IsSubseq(Keys(r), Keys(d))
    ensures key !in Keys(d) ==>
      |r| > 0 && r[|r| - 1].0 == key && Seqs.IsSubseq(Keys(r)[..|r| - 1], Keys(d))
  {
    var stored := Put(d, key, v);
    assert forall k :: k in Keys(stored) <==> k == key || k in Keys(d);
    var r := Remove(Remove(stored, drop1), drop2);
    SetThenDropOrder(d, key, v, drop1, drop2);
    r
  }

  /** The kept keys keep their order, and a new `key` stays at the end. */
  lemma SetThenDropOrder<V>(d: Dict<V>, key: string, v: V, drop1: string, drop2: string)
    requires key != drop1 && key != drop2
    ensures var r := Remove(Remove(Put(d, key, v), drop1), drop2);
      && (key in Keys(d) ==> Seqs.IsSubseq(Keys(r), Keys(d)))
      && (key !in Keys(d) ==>
            |r| > 0 && r[|r| - 1].0 == key && Seqs.IsSubseq(Keys(r)[..|r| - 1], Keys(d)))
  {
    var stored := Put(d, key, v);
    var once := Remove(stored, drop1);
    var r := Remove(once, drop2);
    if key in Keys(d) {
      Seqs.SubseqTrans(Keys(r), Keys(once), Keys(stored));
    } else {
      PutAbsent(d, key, v);
      RemoveSnoc(d, drop1, (key, v));
      RemoveSnoc(Remove(d, drop1), drop2, (key, v));
      var kept := Remove(Remove(d, drop1), drop2);
      assert r == kept + [(key, v)];
      KeysSnoc(kept, (key, v));
      assert Keys(r)[..|r| - 1] == Keys(kept);
      Seqs.SubseqTrans(Keys(kept), Keys(Remove(d, drop1)), Keys(d));
    }
  }

  /** `dep["version"] = "*"; dep.pop("url", None); dep.pop("develop", None)`. */
  function PinWheel(f: Dict<Value>): (r: Dict<Value>)
    ensures Lookup(r, "version") == Some(Str("*"))
    ensures "url" !in Keys(r) && "develop" !in Keys(r)
    ensures forall k :: k != "version" && k != "url" && k != "develop" ==> Lookup(r, k) == Lookup(f, k)
    ensures forall k :: k in Keys(r) <==> k == "version" || (k in Keys(f) && k != "url" && k != "develop")
    ensures "version" in Keys(f) ==> Seqs.IsSubseq(Keys(r), Keys(f))
    ensures "version" !in Keys(f) ==>
      |r| > 0 && r[|r| - 1].0 == "version" && Seqs.IsSubseq(Keys(r)[..|r| - 1], Keys(f))
  {
    SetThenDrop(f, "version", Str("*"), "url", "develop")
  }

  /** A dependency table whose `url` is a string ending in `whl`. */
  predicate IsWheelDependency(dep: Value) {
    dep.Table? && Lookup(dep.fields, "url").Some? && Lookup(dep.fields, "url").value.Str?
    && EndsWith(Lookup(dep.fields, "url").value.text, "whl")
  }

  /**
   * The loop body for one dependency: it fails only on a table whose `url`
   * is not a string, pins a wheel dependency and leaves anything else alone.
   */
  function RewriteDependency(dep: Value): (r: Result<Value, HookError>)
    ensures r.Err? <==> dep.Table? && Lookup(dep.fields, "url").Some? && !Lookup(dep.fields, "url").value.Str?
    ensures r.Ok? ==> (r.value == dep <==> !IsWheelDependency(dep))
    ensures IsWheelDependency(dep) ==> r == Ok(Table(PinWheel(dep.fields)))
  {
    match dep
      case Table(f) =>
        var url: Option<Value> := Lookup(f, "url");
        LookupFindsStored(f, "url");
        (match url
           case None => Ok(dep)
           case Some(Str(u)) => if EndsWith(u, "whl") then Ok(Table(PinWheel(f))) else Ok(dep)
           case Some(_) => Err(UrlNotString))
      case _ => Ok(dep)
  }

  /** The loop over `deps.values()`: the first failure stops it. */
  function RewriteAll(deps: Dict<Value>): (r: Result<Dict<Value>, HookError>)
    ensures r.Ok? <==> forall i :: 0 <= i < |deps| ==> RewriteDependency(deps[i].1).Ok?
    ensures r.Ok? ==> |r.value| == |deps| && Keys(r.value) == Keys(deps)
    ensures r.Ok? ==> forall i :: 0 <= i < |deps| ==> r.value[i].1 == RewriteDependency(deps[i].1).value
  {
    if |deps| == 0 then Ok([])
    else match RewriteDependency(deps[0].1)
      case Err(e) => Err(e)
      case Ok(d) =>
        match RewriteAll(deps[1..])
          case Err(e) => Err(e)
          case Ok(rest) => Ok([(deps[0].0, d)] + rest)
  }

  /** `main` with the TOML parsing and printing left out. */
  function Apply(doc: Value): (r: Result<Value, HookError>)
    ensures GetPath(doc, DEPENDENCIES) == Missing ==> r == Ok(doc)
    ensures GetPath(doc, DEPENDENCIES) == NotTable ==> r == Err(NotSubscriptable)
    ensures GetPath(doc, DEPENDENCIES).Found? && !GetPath(doc, DEPENDENCIES).value.Table? ==> r == Err(NoValues)
    ensures r.Ok? <==>
      || GetPath(doc, DEPENDENCIES).Missing?
      || (&& GetPath(doc, DEPENDENCIES).Found?
          && GetPath(doc, DEPENDENCIES).value.Table?
          && RewriteAll(GetPath(doc, DEPENDENCIES).value.fields).Ok?)
  {
    match GetPath(doc, DEPENDENCIES)
      case Missing => Ok(doc)
      case NotTable => Err(NotSubscriptable)
      case Found(deps) =>
        if !deps.Table? then Err(NoValues)
        else match RewriteAll(deps.fields)
          case Err(e) => Err(e)
          case Ok(rewritten) => Ok(SetPath(doc, DEPENDENCIES, Table(rewritten)))
  }

  /** A rewritten dependency is left alone by a second pass. */
  lemma RewriteDependencyIdempotent(dep: Value)
    requires RewriteDependency(dep).Ok?
    ensures RewriteDependency(RewriteDependency(dep).value) == RewriteDependency(dep)
  {
    var r := RewriteDependency(dep).value;
    if r != dep {
      assert Lookup(r.fields, "url") == None by {
        LookupFindsStored(r.fields, "url");
      }
    }
  }

  lemma {:induction false} RewriteAllIdempotent(deps: Dict<Value>)
    requires RewriteAll(deps).Ok?
    ensures RewriteAll(RewriteAll(deps).value) == RewriteAll(deps)
  {
    if |deps| > 0 {
      RewriteDependencyIdempotent(deps[0].1);
      RewriteAllIdempotent(deps[1..]);
      var r := RewriteAll(deps).value;
      assert r[1..] == RewriteAll(deps[1..]).value;
    }
  }

  /** The dependency table after a successful run: same names, each dependency rewritten on its own. */
  lemma ApplyRewritesEach(doc: Value, deps: Dict<Value>)
    requires GetPath(doc, DEPENDENCIES) == Found(Table(deps))
    requires Apply(doc).Ok?
    ensures RewriteAll(deps).Ok?
    ensures GetPath(Apply(doc).value, DEPENDENCIES) == Found(Table(RewriteAll(deps).value))
  {
    SetPathGet(doc, DEPENDENCIES, Table(RewriteAll(deps).value));
  }

  /** Nothing outside the dependency table changes. */
  lemma ApplyFrame(doc: Value, other: seq<string>, i: nat)
    requires Apply(doc).Ok?
    requires i < |DEPENDENCIES| && i < |other| && DEPENDENCIES[..i] == other[..i] && DEPENDENCIES[i] != other[i]
    ensures GetPath(Apply(doc).value, other) == GetPath(doc, other)
  {
    if GetPath(doc, DEPENDENCIES).Found? {
      var deps := GetPath(doc, DEPENDENCIES).value;
      SetPathFrame(doc, DEPENDENCIES, Table(RewriteAll(deps.fields).value), other, i);
    }
  }

  /**
   * When the dependency table exists, every table on the way to it keeps its
   * keys in order (when it is missing the document comes back as it was).
   */
  lemma ApplyKeepsKeyOrder(doc: Value)
    requires Apply(doc).Ok?
    ensures GetPath(doc, DEPENDENCIES).Found? ==> KeysKeptAlong(Apply(doc).value, doc, DEPENDENCIES)
  {
    if GetPath(doc, DEPENDENCIES).Found? {
      var deps := GetPath(doc, DEPENDENCIES).value;
      SetPathKeepsKeys(doc, DEPENDENCIES, Table(RewriteAll(deps.fields).value));
    }
  }

  /** A second pass over the output changes nothing. */
  lemma ApplyIdempotent(doc: Value)
    requires Apply(doc).Ok?
    ensures Apply(Apply(doc).value) == Apply(doc)
  {
    if GetPath(doc, DEPENDENCIES).Found? {
      var deps := GetPath(doc, DEPENDENCIES).value.fields;
      var rewritten := RewriteAll(deps).value;
      var out := SetPath(doc, DEPENDENCIES, Table(rewritten));
      SetPathGet(doc, DEPENDENCIES, Table(rewritten));
      RewriteAllIdempotent(deps);
      SetPathStored(out, DEPENDENCIES);
    }
  }
}
