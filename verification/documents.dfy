/**
 * Parsed pyproject documents as the two dependency hooks see them: nested
 * tables (dictionaries in insertion order), strings, and any other value,
 * kept verbatim. Parsing and printing TOML or JSON is not modelled.
 */
module Documents {

  import opened Wrappers
  import opened Dicts

  datatype Value = Table(fields: Dict<Value>) | Str(text: string) | Atom(raw: string)

  /**
   * The outcome of `doc[p0][p1]...`: the value found, a `KeyError` for a
   * missing key, or a `TypeError` for subscripting something that is not a table.
   */
  datatype Access = Found(value: Value) | Missing | NotTable

  /** The path of the dependency table, `["tool"]["poetry"]["dependencies"]`. */
  const DEPENDENCIES: seq<string> := ["tool", "poetry", "dependencies"]

  function GetPath(v: Value, path: seq<string>): Access
    decreases |path|
  {
    if |path| == 0 then Found(v)
    else if !v.Table? then NotTable
    else match Lookup(v.fields, path[0])
      case None => Missing
      case Some(child) => GetPath(child, path[1..])
  }

  /** Replaces the value at an existing path; every table on the way keeps its key order. */
  function SetPath(v: Value, path: seq<string>, x: Value): Value
    requires GetPath(v, path).Found?
    decreases |path|
  {
    if |path| == 0 then x
    else Table(Put(v.fields, path[0], SetPath(Lookup(v.fields, path[0]).value, path[1..], x)))
  }

  /** What was set is found at its path. */
  lemma {:induction false} SetPathGet(v: Value, path: seq<string>, x: Value)
    requires GetPath(v, path).Found?
    ensures GetPath(SetPath(v, path, x), path) == Found(x)
    decreases |path|
  {
    if |path| > 0 {
      SetPathGet(Lookup(v.fields, path[0]).value, path[1..], x);
    }
  }

  /** Setting a path to the value it holds gives back the same document. */
  lemma {:induction false} SetPathStored(v: Value, path: seq<string>)
    requires GetPath(v, path).Found?
    ensures SetPath(v, path, GetPath(v, path).value) == v
    decreases |path|
  {
    if |path| > 0 {
      var child := Lookup(v.fields, path[0]).value;
      SetPathStored(child, path[1..]);
      PutStored(v.fields, path[0], child);
    }
  }

  /**
   * Setting a path leaves every path that branches off it unchanged: one
   * that agrees with it on the first `i` keys and differs at key `i`.
   */
  lemma {:induction false} SetPathFrame(v: Value, path: seq<string>, x: Value, other: seq<string>, i: nat)
    requires GetPath(v, path).Found?
    requires i < |path| && i < |other| && path[..i] == other[..i] && path[i] != other[i]
    ensures GetPath(SetPath(v, path, x), other) == GetPath(v, other)
    decreases |path|
  {
    var child := Lookup(v.fields, path[0]).value;
    if i > 0 {
      assert other[0] == path[0];
      assert path[1..][..i - 1] == path[..i][1..] && other[1..][..i - 1] == other[..i][1..];
      SetPathFrame(child, path[1..], x, other[1..], i - 1);
    }
  }

  /**
   * Walking `path` down `a` and `b` side by side, every table passed on the
   * way (the one the path starts from, and each one reached before its last
   * key) is a table in both, with the same keys in the same order.
   */
  predicate KeysKeptAlong(a: Value, b: Value, path: seq<string>)
    decreases |path|
  {
    || |path| == 0
    || (&& a.Table? && b.Table?
        && Keys(a.fields) == Keys(b.fields)
        && Lookup(a.fields, path[0]).Some? && Lookup(b.fields, path[0]).Some?
        && KeysKeptAlong(Lookup(a.fields, path[0]).value, Lookup(b.fields, path[0]).value, path[1..]))
  }

  /**
   * Every table on the way to a set path keeps its keys in their order, so a
   * printer that writes keys in order lays the document out as before.
   */
  lemma {:induction false} SetPathKeepsKeys(v: Value, path: seq<string>, x: Value)
    requires GetPath(v, path).Found?
    ensures KeysKeptAlong(SetPath(v, path, x), v, path)
    decreases |path|
  {
    if |path| > 0 {
      LookupFindsStored(v.fields, path[0]);
      SetPathKeepsKeys(Lookup(v.fields, path[0]).value, path[1..], x);
    }
  }
}
