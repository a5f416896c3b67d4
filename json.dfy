/**
 * JSON values as the renderer sees them after JSON.parse, and the contents of
 * a file on disk. Objects are association lists in insertion order, which is
 * the order JavaScript keeps for string keys; a lookup takes the last binding,
 * as JSON.parse does for a repeated key.
 */
module JsonModel {
  import opened Base

  datatype Json =
    | JNull
    | JBool(b: bool)
    | JNum(n: int)
    | JStr(s: string)
    | JArr(items: seq<Json>)
    | JObj(fields: seq<(string, Json)>)

  /**
   * What a file holds. JsonText is the text JSON.stringify produced for a value;
   * RawText stands for any text that JSON.parse rejects (including "").
   */
  datatype Content = JsonText(json: Json) | RawText(text: string)

  type Fields = seq<(string, Json)>

  /** The binding of `key`, the last one if the key is repeated. */
  function Lookup(fields: Fields, key: string): Option<Json> {
    if |fields| == 0 then None
    else if fields[|fields| - 1].0 == key then Some(fields[|fields| - 1].1)
    else Lookup(fields[..|fields| - 1], key)
  }

  /** A key is bound exactly when some field carries it, and its value is one of that key's fields. */
  lemma {:induction false} LookupFound(fields: Fields, key: string)
    ensures Lookup(fields, key).Some? <==> exists i | 0 <= i < |fields| :: fields[i].0 == key
    ensures Lookup(fields, key).Some? ==> exists i | 0 <= i < |fields| :: fields[i] == (key, Lookup(fields, key).value)
  {
    if |fields| > 0 && fields[|fields| - 1].0 != key {
      LookupFound(fields[..|fields| - 1], key);
      assert forall i | 0 <= i < |fields| - 1 :: fields[..|fields| - 1][i] == fields[i];
    }
  }

  function Keys(fields: Fields): (ks: seq<string>)
    ensures |ks| == |fields|
    ensures forall i | 0 <= i < |fields| :: ks[i] == fields[i].0
  {
    seq(|fields|, i requires 0 <= i < |fields| => fields[i].0)
  }

  predicate UniqueKeys(fields: Fields) {
    forall i, j | 0 <= i < j < |fields| :: fields[i].0 != fields[j].0
  }

  /**
   * The own enumerable properties that object spread (`{...v}`) copies: an
   * object's fields, an array's or a string's indices, nothing for the rest.
   */
  function Entries(j: Json): Fields {
    match j
    case JObj(fields) => fields
    case JArr(items) => seq(|items|, i requires 0 <= i < |items| => (NatToString(i), items[i]))
    case JStr(s) => seq(|s|, i requires 0 <= i < |s| => (NatToString(i), JStr([s[i]])))
    case _ => []
  }

  /** Property access `j[key]`; undefined is None. The `length` property is not modelled. */
  function Get(j: Json, key: string): Option<Json> {
    Lookup(Entries(j), key)
  }

  /**
   * `o[key] = v` on an object: an existing key keeps its position and takes
   * the new value, a new key goes at the end.
   */
  function Put(fields: Fields, key: string, v: Json): (r: Fields)
    ensures Lookup(r, key) == Some(v)
    ensures forall k | k != key :: Lookup(r, k) == Lookup(fields, k)
    ensures (exists i | 0 <= i < |fields| :: fields[i].0 == key) ==> Keys(r) == Keys(fields)
    ensures (forall i | 0 <= i < |fields| :: fields[i].0 != key) ==> r == fields + [(key, v)]
  {
    if forall i | 0 <= i < |fields| :: fields[i].0 != key then
      fields + [(key, v)]
    else
      var r := Replace(fields, key, v);
      assert exists i | 0 <= i < |fields| :: fields[i].0 == key;
      ReplaceLookup(fields, key, v);
      r
  }

  function Replace(fields: Fields, key: string, v: Json): (r: Fields)
    ensures |r| == |fields|
    ensures forall i | 0 <= i < |fields| :: r[i] == if fields[i].0 == key then (key, v) else fields[i]
  {
    seq(|fields|, i requires 0 <= i < |fields| => if fields[i].0 == key then (key, v) else fields[i])
  }

  lemma {:induction false} ReplaceLookup(fields: Fields, key: string, v: Json)
    ensures (exists i | 0 <= i < |fields| :: fields[i].0 == key) ==> Lookup(Replace(fields, key, v), key) == Some(v)
    ensures forall k | k != key :: Lookup(Replace(fields, key, v), k) == Lookup(fields, k)
  {
    if |fields| > 0 {
      var init := fields[..|fields| - 1];
      ReplaceLookup(init, key, v);
      assert Replace(fields, key, v)[..|fields| - 1] == Replace(init, key, v);
      if fields[|fields| - 1].0 != key && exists i | 0 <= i < |fields| :: fields[i].0 == key {
        var i :| 0 <= i < |fields| && fields[i].0 == key;
        assert init[i].0 == key;
      }
    }
  }

  /** Put leaves every other key as it was. */
  lemma PutKeeps(fields: Fields, key: string, v: Json, k: string)
    requires k != key
    ensures Lookup(Put(fields, key, v), k) == Lookup(fields, k)
  {
  }

  /** `{...base, ...over}`: the bindings of `over` assigned one by one onto `base`. */
  function Spread(base: Fields, over: Fields): (r: Fields)
    decreases |over|
  {
    if |over| == 0 then base
    else Spread(Put(base, over[0].0, over[0].1), over[1..])
  }

  /** A key of `over` reads as `over` has it; any other key reads as in `base`. */
  lemma {:induction false} SpreadLookup(base: Fields, over: Fields, k: string)
    ensures Lookup(Spread(base, over), k) == if Lookup(over, k).Some? then Lookup(over, k) else Lookup(base, k)
    decreases |over|
  {
    if |over| > 0 {
      var b1 := Put(base, over[0].0, over[0].1);
      SpreadLookup(b1, over[1..], k);
      LookupCons(over, k);
    }
  }

  lemma {:induction false} LookupCons(fields: Fields, k: string)
    requires |fields| > 0
    ensures Lookup(fields, k) ==
      if Lookup(fields[1..], k).Some? then Lookup(fields[1..], k)
      else if fields[0].0 == k then Some(fields[0].1)
      else None
    decreases |fields|
  {
    if |fields| > 1 {
      var n := |fields|;
      assert fields[1..][..n - 2] == fields[..n - 1][1..];
      assert fields[1..][n - 2] == fields[n - 1];
      LookupCons(fields[..n - 1], k);
    }
  }

  /** A key the later fields lack is looked up in the earlier ones. */
  lemma {:induction false} LookupAppendMissing(a: Fields, b: Fields, k: string)
    requires Lookup(b, k).None?
    ensures Lookup(a + b, k) == Lookup(a, k)
  {
    if b == [] {
      assert a + b == a;
    } else {
      var b0 := b[..|b| - 1];
      assert (a + b)[..|a + b| - 1] == a + b0;
      assert (a + b)[|a + b| - 1] == b[|b| - 1];
      assert forall i | 0 <= i < |b0| :: b0[i] == b[i];
      LookupAppendMissing(a, b0, k);
    }
  }

  /** JavaScript truthiness of a property value; undefined is falsy. */
  predicate Truthy(v: Option<Json>) {
    match v
    case None => false
    case Some(JNull) => false
    case Some(JBool(b)) => b
    case Some(JNum(n)) => n != 0
    case Some(JStr(s)) => s != ""
    case Some(_) => true
  }

  /**
   * `a === b` on property values. Arrays and objects compare by reference in
   * JavaScript; references are not modelled, so an array or object is never
   * `===` to anything, not even to itself.
   */
  predicate StrictEq(a: Option<Json>, b: Option<Json>) {
    match (a, b)
    case (None, None) => true
    case (Some(JNull), Some(JNull)) => true
    case (Some(JBool(x)), Some(JBool(y))) => x == y
    case (Some(JNum(x)), Some(JNum(y))) => x == y
    case (Some(JStr(x)), Some(JStr(y))) => x == y
    case _ => false
  }

  /** The model's `===` is symmetric, and reflexive on undefined and on primitive values. */
  lemma StrictEqProperties(a: Option<Json>, b: Option<Json>)
    ensures StrictEq(a, b) == StrictEq(b, a)
    ensures (a.None? || !(a.value.JArr? || a.value.JObj?)) ==> StrictEq(a, a)
  {
  }

  /** A string-valued property, or None when it is missing or not a string. */
  function StrOf(v: Option<Json>): Option<string> {
    if v.Some? && v.value.JStr? then Some(v.value.s) else None
  }

  /** `String(v)`: how a value prints in a template literal or becomes a property key. */
  function JsString(j: Json): string {
    match j
    case JNull => "null"
    case JBool(b) => if b then "true" else "false"
    case JNum(n) => IntToString(n)
    case JStr(s) => s
    case JArr(items) =>
      Join(seq(|items|, i requires 0 <= i < |items| => if items[i].JNull? then "" else JsString(items[i])), ',')
    case JObj(_) => "[object Object]"
  }

  /** `${v}` for a property value; undefined prints as "undefined". */
  function Template(v: Option<Json>): string {
    if v.None? then "undefined" else JsString(v.value)
  }

  /** The TypeError a property read on null throws. */
  function NullRead(prop: string): string {
    "Cannot read properties of null (reading '" + prop + "')"
  }

  /** JSON.stringify without whitespace. String escaping is not modelled. */
  function Stringify(j: Json): (r: string)
    ensures |r| > 0
  {
    match j
    case JNull => "null"
    case JBool(b) => if b then "true" else "false"
    case JNum(n) => IntToString(n)
    case JStr(s) => "\"" + s + "\""
    case JArr(items) =>
      "[" + Join(seq(|items|, i requires 0 <= i < |items| => Stringify(items[i])), ',') + "]"
    case JObj(fields) =>
      "{" + Join(seq(|fields|, i requires 0 <= i < |fields| =>
                   "\"" + fields[i].0 + "\":" + Stringify(fields[i].1)), ',') + "}"
  }

  /** The text a read returns. */
  function Text(c: Content): string {
    match c
    case JsonText(j) => Stringify(j)
    case RawText(t) => t
  }

  /** JSON.parse of a file's text. */
  function Parse(c: Content): Result<Json> {
    match c
    case JsonText(j) => Ok(j)
    case RawText(_) => Err("Unexpected token in JSON")
  }

  /** Text written by JSON.stringify is never empty, so `if (content)` accepts it. */
  lemma WrittenTextIsTruthy(j: Json)
    ensures Text(JsonText(j)) != ""
    ensures Parse(JsonText(j)) == Ok(j)
  {
  }
}
