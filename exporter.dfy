/**
 * The exporter side: `dill_to_json_dict` maps a legacy motion datum to the
 * dict that is written as JSON, `NumpyEncoder.default` turns arrays into
 * nested lists during `json.dump`, and `dill_to_json` writes the result to a
 * new file.
 */
module JsonExporter {
  import opened Options
  import opened PyValues
  import PyDict
  import PyStr

  /** A pose object of the legacy datum; only its 4 x 4 `matrix` is read. */
  datatype Transform = Transform(matrix: Value)

  /**
   * The attributes of the legacy `MultiagentMotionDatum` the exporter reads.
   * `metadata` is None when the object has no `metadata` attribute.
   */
  datatype MotionDatum = MotionDatum(
    playerPast: Value,
    playerFuture: Value,
    agentPasts: Value,
    agentFutures: Value,
    overheadFeatures: Value,
    transform: Transform,
    agentTransforms: seq<Transform>,
    lidarParams: Value,
    metadata: Option<Value>)

  /** The keys every exported record has, in order. */
  const SchemaKeys: seq<string> := [
    "player_past", "player_future", "agent_pasts", "agent_futures",
    "overhead_features", "player_transform", "agent_transforms", "lidar_params"]

  /** The optional keys, added together or not at all. */
  const MetadataKeys: seq<string> := ["episode", "frame"]

  /** `[_.matrix for _ in transforms]`. */
  function Matrices(transforms: seq<Transform>): (ms: seq<Value>)
    ensures |ms| == |transforms|
    ensures forall i | 0 <= i < |transforms| :: ms[i] == transforms[i].matrix
  {
    seq(|transforms|, i requires 0 <= i < |transforms| => transforms[i].matrix)
  }

  /** The fixed eight-entry dict `x`. */
  function Schema(d: MotionDatum): (x: PyDict.Dict<Value>)
    ensures PyDict.Keys(x) == SchemaKeys && PyDict.DistinctKeys(x)
  {
    [ ("player_past", d.playerPast),
      ("player_future", d.playerFuture),
      ("agent_pasts", d.agentPasts),
      ("agent_futures", d.agentFutures),
      ("overhead_features", d.overheadFeatures),
      ("player_transform", d.transform.matrix),
      ("agent_transforms", List(Matrices(d.agentTransforms))),
      ("lidar_params", d.lidarParams) ]
  }

  /**
   * The `try` block: builds `y` from the metadata, or gives None when an
   * AttributeError is swallowed (no `metadata` attribute, or an episode that
   * is not a string and so has no `split`). Subscripting a non-dict and a
   * missing key raise through the `try`.
   */
  function EpisodeFrame(metadata: Option<Value>): (r: Result<Option<PyDict.Dict<Value>>>)
    ensures metadata.None? ==> r == Success(None)
    ensures r.Success? && r.value.Some? ==>
      && PyDict.Keys(r.value.value) == MetadataKeys
      && r.value.value[0].1.Str? && '/' !in r.value.value[0].1.s
  {
    match metadata
    case None => Success(None)
    case Some(m) =>
      if m.NdArray? then Failure(IndexError("only integers, slices and arrays are valid indices"))
      else if !m.Dict? then Failure(TypeError("object is not subscriptable"))
      else match PyDict.Get(m.entries, "episode")
        case None => Failure(KeyError("episode"))
        case Some(episode) =>
          if !episode.Str? then Success(None)
          else match PyDict.Get(m.entries, "frame")
            case None => Failure(KeyError("frame"))
            case Some(frame) => Success(Some([("episode", Str(PyStr.Basename(episode.s))), ("frame", frame)]))
  }

  /**
   * `dill_to_json_dict`: the eight schema entries, in order, then `episode`
   * and `frame` together or neither. Every entry but the two transform ones
   * is the datum's attribute unchanged.
   */
  function DillToJsonDict(d: MotionDatum): (r: Result<PyDict.Dict<Value>>)
    ensures r.Success? ==> PyDict.DistinctKeys(r.value)
    ensures r.Success? ==> PyDict.Keys(r.value) == SchemaKeys || PyDict.Keys(r.value) == SchemaKeys + MetadataKeys
    ensures r.Success? ==> r.value[..8] == Schema(d)
    ensures d.metadata.None? ==> r == Success(Schema(d))
  {
    var x := Schema(d);
    match EpisodeFrame(d.metadata)
    case Failure(e) => Failure(e)
    case Success(None) => Success(x)
    case Success(Some(y)) =>
      PyDict.UpdateWithNewKeys(x, y);
      Success(PyDict.Update(x, y))
  }

  /** `NumpyEncoder.default`: arrays become lists; anything else is left to the base class, which raises. */
  function Default(obj: Value): (r: Result<Value>)
    ensures r.Success? <==> obj.NdArray?
    ensures r.Success? ==> r.value.List? && r.value.items == obj.data
    ensures r.Failure? ==> r.error.TypeError?
  {
    if obj.NdArray? then Success(ToList(obj))
    else Failure(TypeError("Object is not JSON serializable"))
  }

  /**
   * The value `json.dump(v, cls=NumpyEncoder)` writes: lists and dicts are
   * walked, an array is handed to `default` and its list is walked, every
   * other value is written as it is.
   */
  function Serialize(v: Value): (r: Value)
    ensures IsJson(r)
    ensures IsJson(v) ==> r == v
    decreases v
  {
    match v
    case List(items) => List(SerializeSeq(v, items))
    case Dict(entries) =>
      var es := seq(|entries|, i requires 0 <= i < |entries| => (entries[i].0, Serialize(entries[i].1)));
      assert IsJson(v) ==> es == entries;
      Dict(es)
    case NdArray(_) => List(SerializeSeq(v, Default(v).value.items))
    case _ => v
  }

  /** The walk over the items of the list or array `v`; `v` only bounds the recursion. */
  function SerializeSeq(v: Value, items: seq<Value>): (r: seq<Value>)
    requires forall i | 0 <= i < |items| :: items[i] < v
    ensures |r| == |items|
    ensures forall i | 0 <= i < |r| :: IsJson(r[i])
    ensures forall i | 0 <= i < |items| :: r[i] == Serialize(items[i])
    ensures (forall i | 0 <= i < |items| :: IsJson(items[i])) ==> r == items
    decreases v, 0
  {
    seq(|items|, i requires 0 <= i < |items| => Serialize(items[i]))
  }

  /**
   * A dict is written with the same keys in the same order, each value
   * written in turn: this is the case `json.dump` is called on.
   */
  lemma DictWritesEntryByEntry(entries: seq<(string, Value)>)
    ensures var r := Serialize(Dict(entries));
      && r.Dict? && |r.entries| == |entries|
      && forall i | 0 <= i < |entries| :: r.entries[i] == (entries[i].0, Serialize(entries[i].1))
  {
  }

  /**
   * An array is written as the list of its rows would be: a list of arrays
   * (`agent_pasts`, `agent_transforms`) and the array stacking them write the
   * same nested lists.
   */
  lemma ArrayWritesAsList(data: seq<Value>)
    ensures Serialize(NdArray(data)) == Serialize(List(data))
    ensures Serialize(NdArray(data)) == List(seq(|data|, i requires 0 <= i < |data| => Serialize(data[i])))
  {
  }

  /**
   * Looked up by key, the exported dict holds each copied attribute unchanged,
   * the player's transform matrix, and the list of the agents' transform
   * matrices in the agents' order.
   */
  lemma ExportedEntries(d: MotionDatum)
    requires DillToJsonDict(d).Success?
    ensures var x := DillToJsonDict(d).value;
      && PyDict.Get(x, "player_past") == Some(d.playerPast)
      && PyDict.Get(x, "player_future") == Some(d.playerFuture)
      && PyDict.Get(x, "agent_pasts") == Some(d.agentPasts)
      && PyDict.Get(x, "agent_futures") == Some(d.agentFutures)
      && PyDict.Get(x, "overhead_features") == Some(d.overheadFeatures)
      && PyDict.Get(x, "player_transform") == Some(d.transform.matrix)
      && PyDict.Get(x, "lidar_params") == Some(d.lidarParams)
    ensures var x := DillToJsonDict(d).value;
      && PyDict.Get(x, "agent_transforms").Some?
      && var ms := PyDict.Get(x, "agent_transforms").value;
      && ms.List? && |ms.items| == |d.agentTransforms|
      && forall i | 0 <= i < |ms.items| :: ms.items[i] == d.agentTransforms[i].matrix
  {
    var x := DillToJsonDict(d).value;
    var s := Schema(d);
    assert x[..8] == s;
    assert x[0] == s[0]; PyDict.GetAt(x, 0);
    assert x[1] == s[1]; PyDict.GetAt(x, 1);
    assert x[2] == s[2]; PyDict.GetAt(x, 2);
    assert x[3] == s[3]; PyDict.GetAt(x, 3);
    assert x[4] == s[4]; PyDict.GetAt(x, 4);
    assert x[5] == s[5]; PyDict.GetAt(x, 5);
    assert x[6] == s[6]; PyDict.GetAt(x, 6);
    assert x[7] == s[7]; PyDict.GetAt(x, 7);
  }

  /**
   * How the metadata decides the outcome: no `metadata` attribute, or an
   * episode that is not a string, leaves the eight schema entries alone; a
   * metadata value that is not a dict, or a dict without `episode`, or with a
   * string episode but no `frame`, raises; otherwise `episode` (the basename
   * of the metadata's episode path) and `frame` follow the schema entries.
   */
  lemma ExportMetadata(d: MotionDatum)
    ensures d.metadata.None? ==> DillToJsonDict(d) == Success(Schema(d))
    ensures d.metadata.Some? && !d.metadata.value.Dict? ==> DillToJsonDict(d).Failure?
    ensures d.metadata.Some? && d.metadata.value.Dict? ==>
      var m := d.metadata.value.entries;
      && ("episode" !in PyDict.Keys(m) ==> DillToJsonDict(d) == Failure(KeyError("episode")))
      && ("episode" in PyDict.Keys(m) && !PyDict.Get(m, "episode").value.Str? ==> DillToJsonDict(d) == Success(Schema(d)))
      && ("episode" in PyDict.Keys(m) && PyDict.Get(m, "episode").value.Str? ==>
            var path := PyDict.Get(m, "episode").value.s;
            && ("frame" !in PyDict.Keys(m) ==> DillToJsonDict(d) == Failure(KeyError("frame")))
            && ("frame" in PyDict.Keys(m) ==>
                  DillToJsonDict(d) == Success(Schema(d) + [("episode", Str(PyStr.Basename(path))), ("frame", PyDict.Get(m, "frame").value)])))
  {
    match EpisodeFrame(d.metadata)
    case Success(Some(y)) =>
      assert PyDict.Keys(Schema(d)) == SchemaKeys;
      PyDict.UpdateWithNewKeys(Schema(d), y);
    case _ =>
  }

  /**
   * An exported `episode` is the part of the metadata's episode path after
   * its last `/`: it holds no `/`, and it is the whole path when the path
   * holds none.
   */
  lemma ExportedEpisode(d: MotionDatum, path: string)
    requires d.metadata.Some? && d.metadata.value.Dict?
    requires PyDict.Get(d.metadata.value.entries, "episode") == Some(Str(path))
    requires DillToJsonDict(d).Success?
    ensures var x := DillToJsonDict(d).value;
      && |x| == 10 && x[8].0 == "episode" && x[8].1.Str?
      && var b := x[8].1.s;
      && '/' !in b
      && |b| <= |path| && path[|path| - |b|..] == b
      && (|b| < |path| ==> path[|path| - |b| - 1] == '/')
      && ('/' !in path ==> b == path)
  {
    ExportMetadata(d);
    PyStr.BasenameIsLastSegment(path);
  }

  /** `dill_to_json`: export first, then refuse an existing path, then store the serialised dict. */
  function DillToJson(files: Files, d: MotionDatum, outFn: string): (r: Result<(Files, string)>)
    ensures r.Success? <==> DillToJsonDict(d).Success? && outFn !in files
    ensures DillToJsonDict(d).Success? && outFn in files ==> r == Failure(AssertionError)
    ensures r.Success? ==>
      && r.value.1 == outFn
      && r.value.0.Keys == files.Keys + {outFn}
      && r.value.0[outFn].Dict? && IsJson(r.value.0[outFn])
      && r.value.0 == files[outFn := Serialize(Dict(DillToJsonDict(d).value))]
  {
    match DillToJsonDict(d)
    case Failure(e) => Failure(e)
    case Success(dd) =>
      if outFn in files then Failure(AssertionError)
      else Success((files[outFn := Serialize(Dict(dd))], outFn))
  }

  /**
   * Exporting never overwrites: a successful export adds exactly the new
   * path, leaves every other file as it was, and any later export to the same
   * path fails.
   */
  lemma ExportRefusesOverwrite(files: Files, d: MotionDatum, outFn: string, later: MotionDatum)
    requires DillToJson(files, d, outFn).Success?
    ensures var (files', path) := DillToJson(files, d, outFn).value;
      && path == outFn && outFn !in files
      && files'.Keys == files.Keys + {outFn}
      && (forall q | q in files :: files'[q] == files[q])
      && DillToJson(files', later, outFn).Failure?
  {
  }
}
