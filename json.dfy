/** Decoded JSON from the profile API, and the `traverse_obj` /
    `int_or_none` lookups `_entries_page` makes into it. */
module Json {
  import opened Wrappers
  import opened PyText

  /** A decoded JSON value; numbers with a fraction part are not modelled. */
  datatype Json =
    | JNull
    | JBool(b: bool)
    | JInt(i: int)
    | JStr(s: string)
    | JList(items: seq<Json>)
    | JObject(fields: map<string, Json>)

  /** `v.get(key)` when `v` is a dict; what `traverse_obj` reads first. */
  function Get(v: Json, key: string): (r: Option<Json>)
    ensures r.Some? <==> v.JObject? && key in v.fields
  {
    if v.JObject? && key in v.fields then Some(v.fields[key]) else None
  }

  /** `traverse_obj(v, (key, {str}))`: the value if it is a string. */
  function StrAt(v: Json, key: string): (r: Option<string>)
    ensures r.Some? <==> Get(v, key).Some? && Get(v, key).value.JStr?
    ensures r.Some? ==> Get(v, key) == Some(JStr(r.value))
  {
    match Get(v, key)
    case Some(JStr(s)) => Some(s)
    case _ => None
  }

  /** `traverse_obj(v, (key, {list})) or []`: the value if it is a list,
      else the empty list. */
  function ListAt(v: Json, key: string): (r: seq<Json>)
    ensures r != [] ==> Get(v, key) == Some(JList(r))
    ensures Get(v, key).Some? && Get(v, key).value.JList? ==> r == Get(v, key).value.items
  {
    match Get(v, key)
    case Some(JList(items)) => items
    case _ => []
  }

  /** `traverse_obj(v, (key, {int, str}))`; a JSON boolean passes the
      filter because Python's `bool` is a subclass of `int`. */
  function IntOrStrAt(v: Json, key: string): (r: Option<Json>)
    ensures r.Some? ==> Get(v, key) == r && (r.value.JInt? || r.value.JStr? || r.value.JBool?)
    ensures r.None? <==>
      (Get(v, key).None? || !(Get(v, key).value.JInt? || Get(v, key).value.JStr? || Get(v, key).value.JBool?))
  {
    match Get(v, key)
    case Some(JInt(n)) => Some(JInt(n))
    case Some(JStr(s)) => Some(JStr(s))
    case Some(JBool(b)) => Some(JBool(b))
    case _ => None
  }

  /** `int_or_none(x)`: None and '' give None; a bool, an int and a string
      `int()` accepts give that integer; anything `int()` rejects gives None. */
  function IntOrNone(x: Option<Json>): (r: Option<int>)
    ensures x.Some? && x.value.JInt? ==> r == Some(x.value.i)
    ensures r.Some? ==> x.Some? && (x.value.JInt? || x.value.JBool? || x.value.JStr?)
    ensures x.Some? && x.value.JBool? ==> r == Some(if x.value.b then 1 else 0)
    ensures x.Some? && x.value.JStr? ==>
      r == (if x.value.s != "" && ParseInt(x.value.s).Ok? then Some(ParseInt(x.value.s).value) else None)
  {
    match x
    case None => None
    case Some(JBool(b)) => Some(if b then 1 else 0)
    case Some(JInt(n)) => Some(n)
    case Some(JStr(s)) =>
      if s == "" then None
      else (match ParseInt(s) case Ok(n) => Some(n) case Err(_) => None)
    case Some(_) => None
  }

  /** A number sent as a decimal string reads the same as the number. */
  lemma IntOrNoneOfNumeral(n: int)
    ensures IntOrNone(Some(JStr(IntToString(n)))) == Some(n)
  {
    ParseIntOfIntToString(n);
  }
}
