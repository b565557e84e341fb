/** The JavaScript values the token module handles: what `JSON.parse` returns,
    truthiness, property access and `String.prototype.indexOf`. */
module JsValues {
  import opened Wrappers

  /** A value produced by `JSON.parse`. JSON numbers are finite, so a real suffices. */
  datatype Json =
    | JNull
    | JBool(b: bool)
    | JNumber(n: real)
    | JString(s: string)
    | JArray(items: seq<Json>)
    | JObject(fields: map<string, Json>)

  /** The object literal `{}`. */
  const EmptyObject: Json := JObject(map[])

  /** The exceptions the module can raise or swallow. */
  datatype JsError =
    | MissingAlgClaim   // new Error('Missing "alg" claim in header')
    | TypeError         // a property read on null, or calling a member that is not a function
    | LibraryError      // anything thrown inside jsrsasign

  /** JavaScript truthiness: `!v` is `!Truthy(v)`. */
  predicate Truthy(v: Json)
    ensures Truthy(v) <==> !(v == JNull || v == JBool(false) || v == JNumber(0.0) || v == JString(""))
  {
    match v
    case JNull => false
    case JBool(b) => b
    case JNumber(n) => n != 0.0
    case JString(s) => s != ""
    case JArray(_) => true
    case JObject(_) => true
  }

  /** `v[key]` for a key that is not a built-in member (such as "alg" or "typ"),
      with `undefined` as `None`; read as if null had no properties. */
  function Property(v: Json, key: string): (r: Option<Json>)
    ensures r.Some? <==> v.JObject? && key in v.fields
    ensures r.Some? ==> r.value == v.fields[key]
  {
    if v.JObject? && key in v.fields then Some(v.fields[key]) else None
  }

  /** `v.key` the way JavaScript evaluates it: reading a property of null throws. */
  function Get(v: Json, key: string): (r: Result<Option<Json>, JsError>)
    ensures r.Failure? <==> v == JNull
    ensures r.Success? ==> r.value == Property(v, key)
  {
    if v.JNull? then Failure(TypeError) else Success(Property(v, key))
  }

  /** `sub` occurs in `s` starting at index `i`. */
  predicate OccursAt(s: string, sub: string, i: nat) {
    i + |sub| <= |s| && s[i..i + |sub|] == sub
  }

  /** `s.indexOf(sub, from)` for `from <= |s|`: the first index at or after `from` where `sub` occurs, or -1. */
  function IndexOfFrom(s: string, sub: string, from: nat): (r: int)
    decreases |s| - from
    ensures r == -1 || (from <= r && OccursAt(s, sub, r))
    ensures r == -1 ==> forall j: nat :: from <= j ==> !OccursAt(s, sub, j)
    ensures r != -1 ==> forall j: nat :: from <= j < r ==> !OccursAt(s, sub, j)
  {
    if from + |sub| > |s| then -1
    else if s[from..from + |sub|] == sub then from
    else IndexOfFrom(s, sub, from + 1)
  }

  /** `s.indexOf(sub)`. */
  function IndexOf(s: string, sub: string): (r: int)
    ensures r == -1 <==> forall j: nat :: !OccursAt(s, sub, j)
    ensures r != -1 ==> 0 <= r && OccursAt(s, sub, r) && forall j: nat :: j < r ==> !OccursAt(s, sub, j)
  {
    IndexOfFrom(s, sub, 0)
  }

  /** `s.indexOf(sub) === 0` is exactly the test "s starts with sub". */
  lemma IndexOfZeroIsPrefix(s: string, sub: string)
    ensures IndexOf(s, sub) == 0 <==> |sub| <= |s| && s[..|sub|] == sub
  {
    if |sub| <= |s| && s[..|sub|] == sub {
      assert OccursAt(s, sub, 0);
    }
  }
}
