/**
 * JavaScript values as the storage layer sees them: JSON-serialisable data,
 * JavaScript truthiness, property access, `String(v)`, and the platform
 * functions (JSON.stringify, JSON.parse, btoa) the storage layer calls but
 * does not define.
 */
module Js {

  datatype Option<+T> = None | Some(value: T)

  /** A JSON value. Numbers are integers; objects are unordered. */
  datatype Json =
    | JNull
    | JBool(b: bool)
    | JNum(n: int)
    | JStr(s: string)
    | JArr(items: seq<Json>)
    | JObj(fields: map<string, Json>)

  /** `if (v)`: null, false, 0 and "" are falsy; arrays and objects are truthy. */
  predicate Truthy(v: Json) {
    match v
    case JNull => false
    case JBool(b) => b
    case JNum(n) => n != 0
    case JStr(s) => s != ""
    case JArr(_) => true
    case JObj(_) => true
  }

  /** `v.name`; None stands for `undefined`. The property names the storage layer
      reads (id, name, data, timestamp, ...) are never set on arrays, strings or numbers. */
  function Field(v: Json, name: string): (r: Option<Json>)
    ensures r.Some? <==> v.JObj? && name in v.fields
    ensures r.Some? ==> r.value == v.fields[name]
  {
    if v.JObj? && name in v.fields then Some(v.fields[name]) else None
  }

  /** `v.name || default`. */
  function FieldOr(v: Json, name: string, default: Json): (r: Json)
    ensures Field(v, name).Some? && Truthy(Field(v, name).value) ==> r == Field(v, name).value
    ensures !(Field(v, name).Some? && Truthy(Field(v, name).value)) ==> r == default
  {
    match Field(v, name)
    case Some(x) => if Truthy(x) then x else default
    case None => default
  }

  /** An object literal `{..., name: x}` where `x` may be undefined: JSON leaves such a property out. */
  function WithOptional(fields: map<string, Json>, name: string, x: Option<Json>): (r: map<string, Json>)
    ensures x.Some? ==> r == fields[name := x.value]
    ensures x.None? ==> r == fields - {name}
  {
    match x
    case Some(v) => fields[name := v]
    case None => fields - {name}
  }

  function Digit(d: nat): (c: char)
    requires d < 10
    ensures '0' <= c <= '9'
  {
    (48 + d) as char
  }

  /** Decimal rendering of a non-negative integer, as `String(n)` and `${n}` give it. */
  function NatText(n: nat): (s: string)
    ensures |s| > 0
    ensures forall i :: 0 <= i < |s| ==> '0' <= s[i] <= '9'
  {
    if n < 10 then [Digit(n)] else NatText(n / 10) + [Digit(n % 10)]
  }

  lemma {:induction false} NatTextInjective(a: nat, b: nat)
    requires NatText(a) == NatText(b)
    ensures a == b
    decreases a
  {
    if a >= 10 && b >= 10 {
      var s := NatText(a);
      assert s[..|s| - 1] == NatText(a / 10) && s[|s| - 1] == Digit(a % 10);
      assert s[..|s| - 1] == NatText(b / 10) && s[|s| - 1] == Digit(b % 10);
      NatTextInjective(a / 10, b / 10);
    }
  }

  function IntText(n: int): string {
    if n < 0 then "-" + NatText(-n) else NatText(n)
  }

  /** `String(v)` for a defined value: what a template literal or a key normalisation produces. */
  function JsonText(v: Json): string
    decreases v, 1
  {
    match v
    case JNull => "null"
    case JBool(b) => if b then "true" else "false"
    case JNum(n) => IntText(n)
    case JStr(s) => s
    case JArr(items) => JoinText(items, v)
    case JObj(_) => "[object Object]"
  }

  /** `items.join(",")`, where null elements render as the empty string. */
  function JoinText(items: seq<Json>, ghost whole: Json): string
    requires forall i :: 0 <= i < |items| ==> items[i] < whole
    decreases whole, 0, |items|
  {
    if items == [] then ""
    else
      var head := if items[0] == JNull then "" else JsonText(items[0]);
      if |items| == 1 then head else head + "," + JoinText(items[1..], whole)
  }

  /** `String(v)` where `v` may be undefined. */
  function Text(v: Option<Json>): (s: string)
    ensures v.Some? && v.value.JStr? ==> s == v.value.s
    ensures v.None? ==> s == "undefined"
  {
    match v
    case None => "undefined"
    case Some(j) => JsonText(j)
  }

  /** btoa accepts only strings whose characters are all in Latin-1. */
  predicate Latin1(s: string) {
    forall i :: 0 <= i < |s| ==> s[i] as int < 256
  }

  /** Browser functions the storage layer calls: JSON.stringify, JSON.parse (None when it throws), btoa. */
  datatype Platform = Platform(stringify: Json -> string, parse: string -> Option<Json>, btoa: string -> string)

  /** What the storage layer relies on: JSON text parses back to the value it encodes and is never
      empty, and base64 encoding is injective on the strings it accepts. */
  ghost predicate Lawful(pl: Platform) {
    && (forall v :: pl.parse(pl.stringify(v)) == Some(v))
    && (forall v :: pl.stringify(v) != "")
    && (forall a, b :: Latin1(a) && Latin1(b) && pl.btoa(a) == pl.btoa(b) ==> a == b)
  }
}
