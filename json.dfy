/** The Python values a decoded JSON request body holds, as far as the
    handlers look at them: their truthiness, their type name (which shows up
    in the messages of the exceptions Python raises on them), `len`, and the
    `body.get(key, default)` lookups the handlers start with. */
module Json {
  import opened Wrappers
  import opened Text

  datatype Json =
    | JNull
    | JBool(b: bool)
    | JInt(i: int)
    | JStr(s: string)
    | JList(items: seq<Json>)
    | JObject(size: nat)

  /** A request body: a JSON object. */
  type Body = map<string, Json>

  /** Python's truth value of a decoded JSON value. */
  predicate Truthy(v: Json) {
    match v
    case JNull => false
    case JBool(b) => b
    case JInt(i) => i != 0
    case JStr(s) => s != ""
    case JList(items) => items != []
    case JObject(size) => size != 0
  }

  /** The Python type name of a decoded JSON value. */
  function TypeName(v: Json): string {
    match v
    case JNull => "NoneType"
    case JBool(_) => "bool"
    case JInt(_) => "int"
    case JStr(_) => "str"
    case JList(_) => "list"
    case JObject(_) => "dict"
  }

  /** The message of the AttributeError Python raises for `v.attr` when the
      type of `v` has no such attribute. */
  function NoAttribute(v: Json, attr: string): string {
    "'" + TypeName(v) + "' object has no attribute '" + attr + "'"
  }

  /** `body.get(key, default)`: a key that is present wins, even when its value is null. */
  function Get(body: Body, key: string, default: Json): (v: Json)
    ensures key in body ==> v == body[key]
    ensures key !in body ==> v == default
  {
    if key in body then body[key] else default
  }

  /** `body.get(key, default).strip()`: the stripped text when the value is a
      string, the AttributeError's message when it is anything else. */
  function StrippedField(body: Body, key: string, default: string): (r: Result<string, string>)
    ensures r.Ok? <==> Get(body, key, JStr(default)).JStr?
    ensures r.Ok? ==> r.value == Strip(Get(body, key, JStr(default)).s)
    ensures r.Err? ==> r.error == NoAttribute(Get(body, key, JStr(default)), "strip")
  {
    match Get(body, key, JStr(default))
    case JStr(s) => Ok(Strip(s))
    case v => Err(NoAttribute(v, "strip"))
  }

  /** A field read with `.strip()` has no surrounding whitespace, and
      stripping it again changes nothing. */
  lemma StrippedFieldIsTrimmed(body: Body, key: string, default: string)
    requires StrippedField(body, key, default).Ok?
    ensures var t := StrippedField(body, key, default).value;
      (t == [] || (!IsSpace(t[0]) && !IsSpace(t[|t| - 1]))) && Strip(t) == t
  {
    StripIdempotent(Get(body, key, JStr(default)).s);
  }

  /** Python's `len(v)`, or the TypeError's message for values without a length. */
  function Len(v: Json): Result<nat, string> {
    match v
    case JStr(s) => Ok(|s|)
    case JList(items) => Ok(|items|)
    case JObject(size) => Ok(size)
    case _ => Err("object of type '" + TypeName(v) + "' has no len()")
  }
}
