/**
 * The already-parsed metadata document: the untyped, JSON-like value that a
 * YAML loader delivers, with the runtime type tags the schema checks against.
 */
module Document {

  /** A parsed YAML value. A mapping has unique string keys, as a Python dict. */
  datatype Value =
    | Str(s: string)
    | Int(i: int)
    | Bool(b: bool)
    | Null
    | List(items: seq<Value>)
    | Dict(entries: map<string, Value>)

  /** The Python type of a value. */
  datatype Tag = StrTag | IntTag | BoolTag | NoneTag | ListTag | DictTag

  function TagOf(v: Value): Tag
  {
    match v
    case Str(_) => StrTag
    case Int(_) => IntTag
    case Bool(_) => BoolTag
    case Null => NoneTag
    case List(_) => ListTag
    case Dict(_) => DictTag
  }

  /** `type(v).__name__` for each tag. */
  function TypeName(t: Tag): string
  {
    match t
    case StrTag => "str"
    case IntTag => "int"
    case BoolTag => "bool"
    case NoneTag => "NoneType"
    case ListTag => "list"
    case DictTag => "dict"
  }

  /** `isinstance(v, t)`: in Python `bool` is a subclass of `int`. */
  predicate IsInstance(v: Value, t: Tag)
  {
    TagOf(v) == t || (t == IntTag && v.Bool?)
  }

  /** Python truthiness: `None`, `""`, `0`, `False`, `[]` and `{}` are false. */
  predicate Truthy(v: Value)
  {
    match v
    case Str(s) => s != ""
    case Int(i) => i != 0
    case Bool(b) => b
    case Null => false
    case List(items) => items != []
    case Dict(entries) => entries != map[]
  }

  /** `d.get(key)`: the value under `key`, or `None` when it is absent. */
  function Get(d: map<string, Value>, key: string): (v: Value)
    ensures key in d ==> v == d[key]
    ensures key !in d ==> v == Null
  {
    if key in d then d[key] else Null
  }

  /** `d.get(key, default)`. */
  function GetOr(d: map<string, Value>, key: string, default: Value): (v: Value)
    ensures key in d ==> v == d[key]
    ensures key !in d ==> v == default
  {
    if key in d then d[key] else default
  }

  /**
   * `d.get(key, {})` read as a mapping. A present value that is not a mapping
   * reads as the empty mapping; in the pipeline the schema check has already
   * rejected such a document (Schema.SchemaOkIff).
   */
  function GetMapping(d: map<string, Value>, key: string): (m: map<string, Value>)
    ensures key in d && d[key].Dict? ==> m == d[key].entries
    ensures key !in d ==> m == map[]
  {
    if key in d && d[key].Dict? then d[key].entries else map[]
  }
}
