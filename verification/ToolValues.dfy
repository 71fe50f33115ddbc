/**
 JSON-shaped values as the tool runtime passes them around, and the coercion
 (`_to_safe_value`) that the code sandbox applies to what enters and leaves it.
 */
module ToolValues {
  import opened Basics

  datatype Value =
    | Null
    | Bool(b: bool)
    | Num(n: real)
    | Str(s: string)
    | List(items: seq<Value>)
    | Dict(entries: map<string, Value>)

  type Object = map<string, Value>

  /** `d.get(key)` */
  function Get(d: Object, key: string): Value {
    if key in d then d[key] else Null
  }

  /** `bool(v)` */
  predicate Truthy(v: Value) {
    match v
    case Null => false
    case Bool(b) => b
    case Num(n) => n != 0.0
    case Str(s) => s != ""
    case List(items) => items != []
    case Dict(entries) => entries != map[]
  }

  /** What Python takes for false: None, False, zero, and the empty string, list and dictionary. */
  lemma FalsyIs(v: Value)
    ensures !Truthy(v) <==>
            v == Null || v == Bool(false) || v == Num(0.0) || v == Str("") || v == List([]) || v == Dict(map[])
  {
  }

  /** `str(v)`; `show` stands for the text Python gives a value that is not a string. */
  function ToStr(v: Value, show: Value -> string): Value {
    if v.Str? then v else Str(show(v))
  }

  const MAX_SAFE_DEPTH := 5

  /** `_to_safe_value`: everything below the fifth level of nesting becomes text. */
  function Truncate(v: Value, depth: nat, show: Value -> string): Value
    decreases v
  {
    if depth > MAX_SAFE_DEPTH then ToStr(v, show)
    else
      match v
      case List(items) => List(seq(|items|, i requires 0 <= i < |items| => Truncate(items[i], depth + 1, show)))
      case Dict(entries) => Dict(map k | k in entries :: Truncate(entries[k], depth + 1, show))
      case _ => v
  }

  function TruncateObject(d: Object, depth: nat, show: Value -> string): Object {
    map k | k in d :: Truncate(d[k], depth, show)
  }

  /** The sixth level is where values become text; a number one level above stays a number. */
  lemma DepthLimit(v: Value, n: real, show: Value -> string)
    ensures Truncate(v, 6, show) == match v case Str(s) => v case other => Str(show(other))
    ensures Truncate(Num(n), 5, show) == Num(n)
    ensures Truncate(List([Num(n)]), 5, show) == List([Str(show(Num(n)))])
  {
  }

  /** Below the fifth level there is nothing but strings. */
  predicate Shallow(v: Value, depth: nat)
    decreases v
  {
    if depth > MAX_SAFE_DEPTH then v.Str?
    else
      match v
      case List(items) => forall i :: 0 <= i < |items| ==> Shallow(items[i], depth + 1)
      case Dict(entries) => forall k :: k in entries ==> Shallow(entries[k], depth + 1)
      case _ => true
  }

  predicate ShallowObject(d: Object, depth: nat) {
    forall k :: k in d ==> Shallow(d[k], depth)
  }

  /** The sandbox's coercion keeps a value exactly when nothing but strings lies below the fifth level. */
  lemma {:induction false} TruncateKeeps(v: Value, depth: nat, show: Value -> string)
    ensures Truncate(v, depth, show) == v <==> Shallow(v, depth)
    decreases v
  {
    if depth > MAX_SAFE_DEPTH {
    } else {
      match v
      case List(items) =>
        var kept := Truncate(v, depth, show).items;
        forall i | 0 <= i < |items|
          ensures kept[i] == items[i] <==> Shallow(items[i], depth + 1)
        {
          TruncateKeeps(items[i], depth + 1, show);
        }
        assert Truncate(v, depth, show) == v <==> kept == items;
        assert kept == items <==> forall i :: 0 <= i < |items| ==> kept[i] == items[i];
      case Dict(entries) =>
        var kept := Truncate(v, depth, show).entries;
        forall k | k in entries
          ensures kept[k] == entries[k] <==> Shallow(entries[k], depth + 1)
        {
          TruncateKeeps(entries[k], depth + 1, show);
        }
        assert Truncate(v, depth, show) == v <==> kept == entries;
        assert kept == entries <==> forall k :: k in entries ==> kept[k] == entries[k];
      case _ =>
    }
  }

  lemma TruncateKeepsObject(d: Object, depth: nat, show: Value -> string)
    ensures TruncateObject(d, depth, show) == d <==> ShallowObject(d, depth)
  {
    forall k | k in d
      ensures Truncate(d[k], depth, show) == d[k] <==> Shallow(d[k], depth)
    {
      TruncateKeeps(d[k], depth, show);
    }
    assert TruncateObject(d, depth, show) == d <==> forall k :: k in d ==> TruncateObject(d, depth, show)[k] == d[k];
  }
}
