/**
 * Decoded metadata, as the YAML decoder hands it to the parser and the
 * validator: a tagged union over the value kinds a command header can hold,
 * together with the Python rules the core relies on when it inspects such a
 * value (truthiness, hashability, dictionary-key equality and `str()`).
 */
module Values {
  import opened Text

  datatype Option<+T> = None | Some(value: T)

  /** A decoded YAML value. Mapping keys are strings. */
  datatype Value =
    | Null
    | Bool(b: bool)
    | Int(i: int)
    | Str(s: string)
    | List(items: seq<Value>)
    | Map(entries: map<string, Value>)

  /** Python's `not v`: None, False, 0, "", [] and {} are falsy. */
  predicate Falsy(v: Value) {
    match v
    case Null => true
    case Bool(b) => !b
    case Int(i) => i == 0
    case Str(s) => s == ""
    case List(items) => items == []
    case Map(entries) => entries == map[]
  }

  /** Lists and dicts cannot be dictionary keys or members of a set. */
  predicate Hashable(v: Value) {
    !v.List? && !v.Map?
  }

  /**
   * The dictionary key a hashable value stands for: Python treats True as 1
   * and False as 0 when they are used as keys.
   */
  function KeyOf(v: Value): (k: Value)
    ensures Hashable(v) ==> Hashable(k) && !k.Bool?
    ensures !v.Bool? ==> k == v
    ensures v.Bool? ==> k == Int(if v.b then 1 else 0)
  {
    match v
    case Bool(b) => Int(if b then 1 else 0)
    case _ => v
  }

  /**
   * Two hashable values land on the same dictionary key exactly when they are
   * equal or are the pair True and 1 or the pair False and 0.
   */
  lemma KeyCollision(a: Value, b: Value)
    requires Hashable(a) && Hashable(b)
    ensures KeyOf(a) == KeyOf(b) <==>
              a == b || {a, b} == {Bool(true), Int(1)} || {a, b} == {Bool(false), Int(0)}
  {
    if KeyOf(a) == KeyOf(b) && a != b {
      if a.Bool? {
        assert b == Int(if a.b then 1 else 0);
      } else {
        assert b.Bool? && a == Int(if b.b then 1 else 0);
      }
    }
  }

  /** Python's `str(v)` for the hashable values, as f-strings render them. */
  function Render(v: Value): string
    requires Hashable(v)
  {
    match v
    case Null => "None"
    case Bool(b) => if b then "True" else "False"
    case Int(i) => IntText(i)
    case Str(s) => s
  }

  /** Python's `d.get(key, default)` on a decoded mapping. */
  function Get(m: map<string, Value>, key: string, default: Value): Value
  {
    if key in m then m[key] else default
  }

  /**
   * A failure of the YAML decoder: its message (`str(e)`) and the 0-based line
   * of its problem mark, when it has one.
   */
  datatype DecodeError = DecodeError(message: string, markLine: Option<nat>)

  datatype Decoded = Decoded(value: Value) | Undecodable(error: DecodeError)

  /** `yaml.safe_load`, left abstract: any total function from text to a decode result. */
  type Decoder = string -> Decoded
}
