/**
 * Exporting a datum with `dill_to_json` and reading the file back with
 * `load_json` gives back the exported dict: the same keys in the same order
 * and the same numbers in every field.
 */
module RoundTrip {
  import opened PyValues
  import PyDict
  import JsonLoader
  import JsonExporter

  /**
   * The values that come back from a file exactly as they were exported: an
   * array of plain nested lists, and a plain dict, int, bool or str.
   */
  predicate Reloadable(v: Value) {
    || (v.NdArray? && forall j | 0 <= j < |v.data| :: IsJson(v.data[j]))
    || (IsJson(v) && (v.Dict? || IsInstanceInt(v) || v.Str?))
  }

  /** A value survives the file exactly when it is neither a float nor None. */
  lemma SerializedRecognized(v: Value)
    ensures JsonLoader.Recognized(JsonExporter.Serialize(v)) <==> !v.Float? && !v.Null?
  {
  }

  /** Loading a serialised value and serialising it again writes the same JSON. */
  lemma ReloadKeepsContent(v: Value)
    requires JsonLoader.Recognized(JsonExporter.Serialize(v))
    ensures var w := JsonLoader.Convert(JsonExporter.Serialize(v)).value;
      && JsonExporter.Serialize(w) == JsonExporter.Serialize(v)
      && (Reloadable(v) ==> w == v)
  {
    var s := JsonExporter.Serialize(v);
    if s.List? {
      var w := AsArray(s.items);
      assert forall j | 0 <= j < |s.items| :: IsJson(s.items[j]);
      assert JsonExporter.Serialize(w) == List(JsonExporter.SerializeSeq(w, s.items));
      if v.NdArray? {
        assert s == List(JsonExporter.SerializeSeq(v, v.data));
      }
    }
  }

  /**
   * `load_json(dill_to_json(d, path))`: the file is there and holds an object;
   * loading it fails exactly when an exported field is a float or None;
   * otherwise the loaded dict has the exported keys in the same order (so
   * `episode` and `frame` exactly when the datum had them) and each field
   * serialises to the same JSON as the exported one, being equal to it when
   * it was an array of plain lists or a plain dict, int, bool or str.
   */
  lemma {:induction false} ExportThenLoad(files: Files, d: JsonExporter.MotionDatum, path: string)
    requires JsonExporter.DillToJson(files, d, path).Success?
    ensures var files' := JsonExporter.DillToJson(files, d, path).value.0;
      path in files' && files'[path].Dict?
    ensures var files' := JsonExporter.DillToJson(files, d, path).value.0;
      var x := JsonExporter.DillToJsonDict(d).value;
      var loaded := JsonLoader.Postprocess(files'[path].entries);
      && (loaded.Failure? <==> exists i | 0 <= i < |x| :: x[i].1.Float? || x[i].1.Null?)
      && (loaded.Success? ==>
            && PyDict.Keys(loaded.value) == PyDict.Keys(x)
            && forall i | 0 <= i < |x| ::
                 && JsonExporter.Serialize(loaded.value[i].1) == JsonExporter.Serialize(x[i].1)
                 && (Reloadable(x[i].1) ==> loaded.value[i].1 == x[i].1))
  {
    var files' := JsonExporter.DillToJson(files, d, path).value.0;
    var x := JsonExporter.DillToJsonDict(d).value;
    var stored := files'[path].entries;
    assert JsonExporter.Serialize(Dict(x)) == Dict(stored);
    assert |stored| == |x| && forall i | 0 <= i < |x| :: stored[i] == (x[i].0, JsonExporter.Serialize(x[i].1));
    assert PyDict.Keys(stored) == PyDict.Keys(x);
    assert PyDict.DistinctKeys(stored) by {
      forall i, j | 0 <= i < j < |stored| ensures stored[i].0 != stored[j].0 {
        assert stored[i].0 == x[i].0 && stored[j].0 == x[j].0;
      }
    }
    JsonLoader.PostprocessMeaning(stored);
    forall i | 0 <= i < |x| ensures JsonLoader.Recognized(stored[i].1) <==> !x[i].1.Float? && !x[i].1.Null? {
      SerializedRecognized(x[i].1);
    }
    var loaded := JsonLoader.Postprocess(stored);
    if loaded.Success? {
      forall i | 0 <= i < |x|
        ensures JsonExporter.Serialize(loaded.value[i].1) == JsonExporter.Serialize(x[i].1)
        ensures Reloadable(x[i].1) ==> loaded.value[i].1 == x[i].1
      {
        ReloadKeepsContent(x[i].1);
      }
    }
  }
}
