/** The JSON values that travel between the client and the server (a
    submitted `answer` is arbitrary JSON, stored as a Mongoose `Mixed`),
    with the three JavaScript operations the scoring code applies to them:
    property lookup `v[key]`, truthiness, and strict equality `===` against a
    string field that may be `undefined`. */
module JsValues {
  import opened Common
  import opened JsString
  import JsObject

  datatype Json =
    | JNull
    | JBool(b: bool)
    | JNum(n: real)
    | JStr(s: string)
    | JArr(elems: seq<Json>)
    | JObj(fields: JsObject.Obj<Json>)

  /** JavaScript truthiness of a JSON value (`NaN` cannot occur in JSON). */
  predicate Truthy(v: Json) {
    match v
    case JNull => false
    case JBool(b) => b
    case JNum(n) => n != 0.0
    case JStr(s) => s != ""
    case _ => true
  }

  /** Truthiness of a value that may be `undefined`. */
  predicate TruthyOpt(v: Option<Json>) {
    v.Some? && Truthy(v.value)
  }

  /** `v[key]` for a value that is not `null`: an object's own property; an
      element, or the length, of an array or a string; `undefined` otherwise. */
  function Get(v: Json, key: string): (r: Option<Json>)
    ensures v.JObj? ==> r == JsObject.Get(v.fields, key)
    ensures (v.JNull? || v.JBool? || v.JNum?) ==> r.None?
    ensures v.JArr? && r.Some? ==> r.value in v.elems || r.value == JNum(|v.elems| as real)
  {
    match v
    case JObj(fields) => JsObject.Get(fields, key)
    case JArr(elems) =>
      if key == "length" then Some(JNum(|elems| as real))
      else if ParseIndex(key).Some? && ParseIndex(key).value < |elems| then Some(elems[ParseIndex(key).value])
      else None
    case JStr(chars) =>
      if key == "length" then Some(JNum(|chars| as real))
      else if ParseIndex(key).Some? && ParseIndex(key).value < |chars| then Some(JStr([chars[ParseIndex(key).value]]))
      else None
    case _ => None
  }

  /** The texts of the indices `0 .. n - 1`. */
  function IndexKeys(n: nat): (r: seq<string>)
    ensures |r| == n
    ensures forall i :: 0 <= i < n ==> r[i] == NatToString(i)
  {
    if n == 0 then [] else IndexKeys(n - 1) + [NatToString(n - 1)]
  }

  /** `Object.keys(v)` for a value that is not `null`. */
  function Keys(v: Json): (r: seq<string>)
    ensures v.JObj? ==> r == JsObject.Keys(v.fields)
    ensures v.JArr? ==> r == IndexKeys(|v.elems|)
    ensures v.JStr? ==> r == IndexKeys(|v.s|)
    ensures (v.JNull? || v.JBool? || v.JNum?) ==> r == []
  {
    match v
    case JObj(fields) => JsObject.Keys(fields)
    case JArr(elems) => IndexKeys(|elems|)
    case JStr(chars) => IndexKeys(|chars|)
    case _ => []
  }

  /** An array's elements are found under the texts of their indices. */
  lemma ArrayElementAt(elems: seq<Json>, i: nat)
    requires i < |elems|
    ensures Get(JArr(elems), NatToString(i)) == Some(elems[i])
  {
    ParseNatToString(i);
  }

  /** `v === s`, where `v` may be `undefined` and `s` is a string field that
      may be `undefined`: two absent values are equal, a present string equals
      only the same string. */
  predicate StrictEquals(v: Option<Json>, s: Option<string>) {
    match s
    case None => v.None?
    case Some(t) => v == Some(JStr(t))
  }

  /** `Array.isArray(v) && v.includes(s)`; no JSON array holds `undefined`. */
  predicate ArrayIncludes(v: Option<Json>, s: Option<string>) {
    v.Some? && v.value.JArr? && s.Some? && JStr(s.value) in v.value.elems
  }

  /** A JSON object whose properties are strings: how a respondent's
      per-key answer is sent. */
  function StringObject(o: JsObject.Obj<string>): (r: Json)
    ensures r.JObj? && JsObject.Keys(r.fields) == JsObject.Keys(o)
    ensures forall k :: JsObject.Get(r.fields, k) == (if JsObject.Get(o, k).Some? then Some(JStr(JsObject.Get(o, k).value)) else None)
  {
    if o == [] then JObj([])
    else
      var rest := StringObject(o[1..]);
      JObj([(o[0].0, JStr(o[0].1))] + rest.fields)
  }

  /** A JSON object whose properties are arrays of strings. */
  function ListObject(o: JsObject.Obj<seq<string>>): (r: Json)
    ensures r.JObj? && JsObject.Keys(r.fields) == JsObject.Keys(o)
    ensures forall k :: JsObject.Get(r.fields, k) == (if JsObject.Get(o, k).Some? then Some(StringArray(JsObject.Get(o, k).value)) else None)
  {
    if o == [] then JObj([])
    else
      var rest := ListObject(o[1..]);
      JObj([(o[0].0, StringArray(o[0].1))] + rest.fields)
  }

  /** A JSON array of strings. */
  function StringArray(xs: seq<string>): (r: Json)
    ensures r.JArr? && |r.elems| == |xs|
    ensures forall s :: JStr(s) in r.elems <==> s in xs
  {
    if xs == [] then JArr([])
    else
      assert xs == [xs[0]] + xs[1..];
      JArr([JStr(xs[0])] + StringArray(xs[1..]).elems)
  }
}
