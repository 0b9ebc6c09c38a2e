/**
 * The loader side: `from_json_dict` turns every list of a parsed JSON object
 * into a numpy array, keeps dicts, integers (booleans included) and strings,
 * and raises ValueError on anything else; `load_json` reads the object from a file.
 */
module JsonLoader {
  import opened PyValues
  import PyDict

  /** The value kinds `from_json_dict` accepts: list, dict, int (so also bool) and str. */
  predicate Recognized(v: Value) {
    v.List? || v.Dict? || IsInstanceInt(v) || v.Str?
  }

  /** What one value of the object becomes. */
  function Convert(v: Value): (r: Result<Value>)
    ensures r.Success? <==> Recognized(v)
    ensures r.Failure? ==> r.error == ValueError("Unrecognized type")
    ensures r.Success? && v.List? ==> r.value.NdArray? && ToList(r.value) == v
    ensures r.Success? && !v.List? ==> r.value == v
  {
    if v.List? then Success(AsArray(v.items))
    else if v.Dict? || IsInstanceInt(v) || v.Str? then Success(v)
    else Failure(ValueError("Unrecognized type"))
  }

  /** The loop of `from_json_dict` from the state `pp` over the entries still to visit. */
  function PostprocessFrom(pp: PyDict.Dict<Value>, rest: PyDict.Dict<Value>): (r: Result<PyDict.Dict<Value>>)
    ensures r.Failure? ==> r.error == ValueError("Unrecognized type")
    ensures r.Success? ==> |r.value| >= |pp| && forall i | 0 <= i < |rest| :: Recognized(rest[i].1)
    decreases |rest|
  {
    if rest == [] then Success(pp)
    else match Convert(rest[0].1)
      case Failure(e) => Failure(e)
      case Success(c) => PostprocessFrom(PyDict.Set(pp, rest[0].0, c), rest[1..])
  }

  /** What `from_json_dict(json)` returns or raises. */
  function Postprocess(json: PyDict.Dict<Value>): (r: Result<PyDict.Dict<Value>>)
    ensures r.Failure? ==> r.error == ValueError("Unrecognized type")
    ensures r.Success? ==> forall i | 0 <= i < |json| :: Recognized(json[i].1)
  {
    PostprocessFrom([], json)
  }

  /**
   * `from_json_dict`: fills a fresh dict `pp` entry by entry; the first
   * unrecognised value ends the call with ValueError and nothing else.
   */
  method FromJsonDict(json: PyDict.Dict<Value>) returns (r: Result<PyDict.Dict<Value>>)
    ensures r == Postprocess(json)
    ensures r.Failure? <==> exists i | 0 <= i < |json| :: !Recognized(json[i].1)
    ensures r.Failure? ==> r.error == ValueError("Unrecognized type")
  {
    PostprocessFails([], json);
    var pp: PyDict.Dict<Value> := [];
    for i := 0 to |json|
      invariant PostprocessFrom(pp, json[i..]) == Postprocess(json)
    {
      var (k, v) := json[i];
      assert json[i..] == [(k, v)] + json[i + 1..];
      if v.List? {
        pp := PyDict.Set(pp, k, AsArray(v.items));
      } else if v.Dict? || IsInstanceInt(v) || v.Str? {
        pp := PyDict.Set(pp, k, v);
      } else {
        r := Failure(ValueError("Unrecognized type"));
        return;
      }
    }
    r := Success(pp);
  }

  /**
   * The loop fails exactly when some value still to visit is unrecognised,
   * whatever the others hold, and the failure is always the ValueError.
   */
  lemma {:induction false} PostprocessFails(pp: PyDict.Dict<Value>, rest: PyDict.Dict<Value>)
    ensures PostprocessFrom(pp, rest).Failure? <==> exists i | 0 <= i < |rest| :: !Recognized(rest[i].1)
    ensures PostprocessFrom(pp, rest).Failure? ==> PostprocessFrom(pp, rest).error == ValueError("Unrecognized type")
    decreases |rest|
  {
    if rest != [] && Recognized(rest[0].1) {
      var c := Convert(rest[0].1).value;
      PostprocessFails(PyDict.Set(pp, rest[0].0, c), rest[1..]);
      assert forall i | 1 <= i < |rest| :: rest[i] == rest[1..][i - 1];
    }
  }

  /**
   * When the keys still to visit are distinct and new, a successful loop
   * appends one entry per visited entry, same key, in the same order, holding
   * that entry's conversion.
   */
  lemma {:induction false} PostprocessAppends(pp: PyDict.Dict<Value>, rest: PyDict.Dict<Value>)
    requires PyDict.DistinctKeys(rest)
    requires forall i | 0 <= i < |rest| :: rest[i].0 !in PyDict.Keys(pp)
    requires PostprocessFrom(pp, rest).Success?
    ensures var r := PostprocessFrom(pp, rest).value;
      && |r| == |pp| + |rest| && r[..|pp|] == pp
      && forall i | 0 <= i < |rest| :: r[|pp| + i].0 == rest[i].0 && Convert(rest[i].1) == Success(r[|pp| + i].1)
    decreases |rest|
  {
    if rest != [] {
      var c := Convert(rest[0].1).value;
      var pp' := PyDict.Set(pp, rest[0].0, c);
      assert pp' == pp + [(rest[0].0, c)];
      var tail := rest[1..];
      assert PyDict.DistinctKeys(tail) by {
        forall i, j | 0 <= i < j < |tail| ensures tail[i].0 != tail[j].0 {
          assert tail[i] == rest[i + 1] && tail[j] == rest[j + 1];
        }
      }
      assert forall i | 0 <= i < |tail| :: tail[i].0 !in PyDict.Keys(pp') by {
        PyDict.KeysAppend(pp, (rest[0].0, c));
        forall i | 0 <= i < |tail| ensures tail[i].0 !in PyDict.Keys(pp) + [rest[0].0] {
          assert tail[i] == rest[i + 1];
        }
      }
      PostprocessAppends(pp', tail);
      var r := PostprocessFrom(pp', tail).value;
      forall i | 0 <= i < |rest|
        ensures r[|pp| + i].0 == rest[i].0 && Convert(rest[i].1) == Success(r[|pp| + i].1)
      {
        if i > 0 {
          assert rest[i] == tail[i - 1];
          assert |pp'| + (i - 1) == |pp| + i;
        }
      }
      assert r[..|pp|] == r[..|pp'|][..|pp|];
    }
  }

  /**
   * `from_json_dict` on a parsed JSON object (whose keys are distinct): it
   * raises exactly when some value is a float, null or other unrecognised kind;
   * otherwise the result has the same keys in the same order, each list became
   * an array of the same elements in the same order, and every dict, int, bool
   * and str is returned unchanged.
   */
  lemma PostprocessMeaning(json: PyDict.Dict<Value>)
    requires PyDict.DistinctKeys(json)
    ensures Postprocess(json).Failure? <==> exists i | 0 <= i < |json| :: !Recognized(json[i].1)
    ensures var r := Postprocess(json); r.Success? ==>
      && PyDict.Keys(r.value) == PyDict.Keys(json)
      && forall i | 0 <= i < |json| ::
           && (json[i].1.List? ==> r.value[i].1 == AsArray(json[i].1.items) && ToList(r.value[i].1) == json[i].1)
           && (!json[i].1.List? ==> r.value[i].1 == json[i].1)
  {
    PostprocessFails([], json);
    if Postprocess(json).Success? {
      PostprocessAppends([], json);
      var r := Postprocess(json).value;
      assert forall i | 0 <= i < |json| :: r[0 + i] == r[i];
    }
  }

  /**
   * `load_json`: the file must exist (an assertion), its top-level JSON value
   * must be an object (`.items()`), and the object is post-processed.
   */
  method LoadJson(files: Files, jsonFn: string) returns (r: Result<PyDict.Dict<Value>>)
    ensures jsonFn !in files ==> r == Failure(AssertionError)
    ensures jsonFn in files && !files[jsonFn].Dict? ==> r == Failure(AttributeError("items"))
    ensures jsonFn in files && files[jsonFn].Dict? ==> r == Postprocess(files[jsonFn].entries)
  {
    if jsonFn !in files {
      return Failure(AssertionError);
    }
    var jsonDatum := files[jsonFn];
    if !jsonDatum.Dict? {
      return Failure(AttributeError("items"));
    }
    r := FromJsonDict(jsonDatum.entries);
  }
}
