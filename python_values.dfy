/** The slice of Python's value model that the nested-dictionary helpers of
    analysisScript/util.py touch: dictionary keys, the values stored under
    them, truthiness, `dict.get`, the `in` operator and the exceptions these
    raise. */
module PyValues {

  /** Hashable scalars used as dictionary keys. Python's `bool` is a subclass of
      `int` and `True == 1` as a key, so booleans are `KInt(1)` and `KInt(0)`. */
  datatype Key = KNone | KInt(i: int) | KStr(s: string)

  /** A Python value: a scalar, a list, or a dictionary (possibly nested). */
  datatype Value =
    | None
    | Int(i: int)
    | Str(s: string)
    | List(items: seq<Value>)
    | Dict(entries: map<Key, Value>)

  /** The exceptions the helpers raise. `SystemExit` carries the message that
      the module's exit helper halts the notebook cell with. */
  datatype Error = SystemExit(message: string) | TypeError | AttributeError

  datatype Result<T> = Ok(value: T) | Err(error: Error)

  /** `bool(k)` for a key: None, 0 and "" are falsy. */
  predicate KeyTruthy(k: Key) {
    match k
    case KNone => false
    case KInt(i) => i != 0
    case KStr(s) => s != ""
  }

  /** `bool(v)`: None, 0, and empty strings, lists and dictionaries are falsy. */
  predicate Truthy(v: Value) {
    match v
    case None => false
    case Int(i) => i != 0
    case Str(s) => s != ""
    case List(items) => items != []
    case Dict(entries) => entries != map[]
  }

  /** A key seen as an ordinary value, for comparisons with `==`. */
  function AsValue(k: Key): (v: Value)
    ensures KeyTruthy(k) == Truthy(v)
    ensures !v.List? && !v.Dict?
  {
    match k
    case KNone => None
    case KInt(i) => Int(i)
    case KStr(s) => Str(s)
  }

  /** `m.get(k)`: the stored value, or None when the key is absent. */
  function Get(m: map<Key, Value>, k: Key): (v: Value)
    ensures k in m ==> v == m[k]
    ensures k !in m ==> v == None
  {
    if k in m then m[k] else None
  }

  /** Python's `t in s` for two strings: `t` occurs as a contiguous run of `s`. */
  predicate IsSubstring(t: string, s: string) {
    exists i | 0 <= i <= |s| - |t| :: OccursAt(t, s, i)
  }

  /** `t` is the run of `s` that starts at index `i`. */
  predicate OccursAt(t: string, s: string, i: int)
    requires 0 <= i <= |s| - |t|
  {
    s[i..i + |t|] == t
  }

  lemma SubstringOfItself(s: string)
    ensures IsSubstring(s, s)
  {
    assert OccursAt(s, s, 0);
  }

  /** Python's `k in container`: membership in a list or among a dictionary's
      keys, substring search in a string; an `int` or `None` container, or a
      non-string tested against a string, raises TypeError. */
  function Contains(container: Value, k: Key): (r: Result<bool>)
    ensures r.Err? ==> r.error == TypeError
    ensures r.Err? <==> container.None? || container.Int? || (container.Str? && !k.KStr?)
    ensures container.List? ==> r == Ok(AsValue(k) in container.items)
    ensures container.Dict? ==> r == Ok(k in container.entries)
    ensures container.Str? && k.KStr? ==> r == Ok(IsSubstring(k.s, container.s))
  {
    match container
    case None => Err(TypeError)
    case Int(_) => Err(TypeError)
    case Str(s) => if k.KStr? then Ok(IsSubstring(k.s, s)) else Err(TypeError)
    case List(items) => Ok(AsValue(k) in items)
    case Dict(entries) => Ok(k in entries)
  }
}
