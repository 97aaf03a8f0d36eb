/** Decoded JSON values and the Python operations the plugin applies to them. */
module PyJson {
  import opened Wrappers
  import opened Dicts
  import opened Strings

  /** A value produced by `json.loads`. An object is its items in order; `json.loads` never repeats a key. */
  datatype Json =
    | JNull
    | JBool(b: bool)
    | JNum(n: int)
    | JStr(s: string)
    | JList(items: seq<Json>)
    | JObj(fields: seq<(string, Json)>)

  /** A Python dict whose values are JSON. */
  type Obj = ODict<string, Json>

  /** Python `key in v`: key of a dict, element of a list, substring of a string; anything else raises. */
  function In(key: string, v: Json): (r: Outcome<bool>)
    ensures r.Raised? <==> !(v.JObj? || v.JList? || v.JStr?)
    ensures v.JObj? ==> r == Ok(HasKey(v.fields, key))
  {
    match v
    case JObj(fs) => Ok(HasKey(fs, key))
    case JList(xs) => Ok(JStr(key) in xs)
    case JStr(s) => Ok(Contains(s, key))
    case _ => Raised("TypeError")
  }

  /** Python `v[key]` with a string key. */
  function Index(v: Json, key: string): (r: Outcome<Json>)
    ensures r.Ok? <==> v.JObj? && HasKey(v.fields, key)
    ensures r.Ok? ==> (key, r.value) in v.fields
  {
    if !v.JObj? then Raised("TypeError")
    else
      GetSpec(v.fields, key);
      match Get(v.fields, key)
      case Some(x) => Ok(x)
      case None => Raised("KeyError")
  }

  /** Python `v.items()`: only dicts have it. */
  function Items(v: Json): Outcome<Obj> {
    if v.JObj? then Ok(v.fields) else Raised("AttributeError")
  }

  /** What a Python `for x in v` loop visits: list elements, dict keys, or the characters of a string. */
  function Iterate(v: Json): Outcome<seq<Json>> {
    match v
    case JList(xs) => Ok(xs)
    case JObj(fs) => Ok(seq(|fs|, i requires 0 <= i < |fs| => JStr(fs[i].0)))
    case JStr(s) => Ok(seq(|s|, i requires 0 <= i < |s| => JStr([s[i]])))
    case _ => Raised("TypeError")
  }

  /** Python truthiness. */
  predicate Truthy(v: Json) {
    match v
    case JNull => false
    case JBool(b) => b
    case JNum(n) => n != 0
    case JStr(s) => s != []
    case JList(xs) => xs != []
    case JObj(fs) => fs != []
  }

  /** Following a path of keys through nested dicts. */
  function At(v: Json, path: seq<string>): Option<Json>
    decreases |path|
  {
    if path == [] then Some(v)
    else match Index(v, path[0])
      case Ok(x) => At(x, path[1..])
      case Raised(_) => None
  }
}
