/** Optional values, as returned by a dict lookup. */
module Options {
  datatype Option<+T> = None | Some(value: T)
}

/**
 * The Python values the JSON loader and exporter handle: what `json.load`
 * produces (null, booleans, integers, floats, strings, lists and string-keyed
 * dicts) plus numpy arrays.
 */
module PyValues {

  /** The Python exceptions the loader and exporter can raise. */
  datatype Exception =
    | ValueError(message: string)
    | TypeError(message: string)
    | KeyError(key: string)
    | IndexError(message: string)
    | AttributeError(name: string)
    | AssertionError

  /** A computation that either returns a value or raises. */
  datatype Result<+T> = Success(value: T) | Failure(error: Exception)

  /**
   * A Python value. `Bool` is kept apart from `Int` so that a value keeps its
   * JSON spelling, but Python's `bool` is a subclass of `int` (see IsInstanceInt).
   * A numpy array is modelled by its nested rows: `NdArray(data)` is the array
   * whose `tolist()` is `List(data)`; dtype and shape are not modelled.
   */
  datatype Value =
    | Null
    | Bool(b: bool)
    | Int(i: int)
    | Float(x: real)
    | Str(s: string)
    | List(items: seq<Value>)
    | Dict(entries: seq<(string, Value)>)
    | NdArray(data: seq<Value>)

  /** `isinstance(v, int)`: true of integers and of booleans. */
  predicate IsInstanceInt(v: Value) {
    v.Int? || v.Bool?
  }

  /** A value `json.load` can produce: no numpy array anywhere inside. */
  predicate IsJson(v: Value) {
    match v
    case List(items) => forall i | 0 <= i < |items| :: IsJson(items[i])
    case Dict(entries) => forall i | 0 <= i < |entries| :: IsJson(entries[i].1)
    case NdArray(_) => false
    case _ => true
  }

  /** `np.asarray(items)` for a list. */
  function AsArray(items: seq<Value>): (a: Value)
    ensures a.NdArray? && ToList(a) == List(items)
  {
    NdArray(items)
  }

  /** `a.tolist()` for a numpy array `a`. */
  function ToList(a: Value): (l: Value)
    requires a.NdArray?
    ensures l.List? && l.items == a.data
  {
    List(a.data)
  }

  /**
   * The files the loader reads and the exporter writes: each path holds the
   * JSON document stored there, as `json.load` would parse it back. The type
   * itself also admits values holding an `NdArray`, which no parsed file
   * contains; the exporter only ever stores `Serialize` results, which hold
   * none (`IsJson`).
   */
  type Files = map<string, Value>
}
