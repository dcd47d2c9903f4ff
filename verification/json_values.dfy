/** Decoded JSON documents, and the few Python operations the loader applies
    to them: truthiness (for `x or default`), `dict.get`, and iteration. */
module JsonValues {
  import opened Results

  /** A decoded JSON document. Objects keep their members in document order,
      as Python's dicts keep insertion order; numbers are reals. */
  datatype Json =
    | JNull
    | JBool(b: bool)
    | JNumber(n: real)
    | JString(s: string)
    | JArray(items: seq<Json>)
    | JObject(members: seq<(string, Json)>)

  /** Python truthiness of a decoded value: null, false, zero and the empty
      string, list and object are false, everything else is true. */
  predicate Truthy(j: Json) {
    match j
    case JNull => false
    case JBool(b) => b
    case JNumber(n) => n != 0.0
    case JString(s) => |s| > 0
    case JArray(items) => |items| > 0
    case JObject(members) => |members| > 0
  }

  /** The falsy values are exactly null, false, zero and the empty string,
      list and object. */
  lemma FalsyValues(j: Json)
    ensures !Truthy(j) <==> j in {JNull, JBool(false), JNumber(0.0), JString([]), JArray([]), JObject([])}
  {
    match j
    case JString(s) => assert |s| == 0 ==> s == [];
    case JArray(items) => assert |items| == 0 ==> items == [];
    case JObject(members) => assert |members| == 0 ==> members == [];
    case _ =>
  }

  /** `obj.get(key)` on the members of an object: the value stored under the
      key, or nothing when the key is absent. */
  function Get(members: seq<(string, Json)>, key: string): (r: Option<Json>)
    ensures r.None? <==> forall i :: 0 <= i < |members| ==> members[i].0 != key
    ensures r.Some? ==>
      exists i :: 0 <= i < |members| && members[i] == (key, r.value)
                  && forall j :: 0 <= j < i ==> members[j].0 != key
  {
    if |members| == 0 then None
    else if members[0].0 == key then Some(members[0].1)
    else
      var r := Get(members[1..], key);
      assert forall j :: 1 <= j < |members| ==> members[j] == members[1..][j - 1];
      r
  }

  /** Python's `x or default` applied to the outcome of a `get`. */
  function OrElse(x: Option<Json>, default: Json): Json {
    if x.Some? && Truthy(x.value) then x.value else default
  }

  /** What `for item in value` yields: the elements of a list, the keys of an
      object, the one-character strings of a string; any other value is not
      iterable (None). */
  function Iteration(j: Json): Option<seq<Json>> {
    match j
    case JArray(items) => Some(items)
    case JObject(members) => Some(seq(|members|, i requires 0 <= i < |members| => JString(members[i].0)))
    case JString(s) => Some(seq(|s|, i requires 0 <= i < |s| => JString([s[i]])))
    case _ => None
  }

  /** Iteration is defined for lists, objects and strings only. A list yields
      its elements; an object yields its keys and a string its characters, in
      order, so neither ever yields a value that is not a string. */
  lemma IterationYields(j: Json)
    ensures Iteration(j).Some? <==> j.JArray? || j.JObject? || j.JString?
    ensures j.JArray? ==> Iteration(j) == Some(j.items)
    ensures j.JObject? ==>
      && |Iteration(j).value| == |j.members|
      && forall i :: 0 <= i < |j.members| ==> Iteration(j).value[i] == JString(j.members[i].0)
    ensures j.JString? ==>
      && |Iteration(j).value| == |j.s|
      && forall i :: 0 <= i < |j.s| ==> Iteration(j).value[i] == JString([j.s[i]])
    ensures j.JObject? || j.JString? ==> forall x :: x in Iteration(j).value ==> x.JString?
  {
  }
}
