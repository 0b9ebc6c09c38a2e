# CARLA JSON loader and exporter, modelled in Dafny

This project models `carla_json_loader.py` of the PRECOG CARLA dataset tools.
The module converts legacy motion-planning data to JSON and reads it back. A legacy
datum carries an ego car's past and future positions, the other agents'
positions, bird's-eye-view features, pose matrices and lidar parameters.
The model covers:

- the loader, `from_json_dict` and `load_json`. Every top-level list of the
  parsed JSON object becomes a numpy array. Dicts, integers (booleans included,
  since Python's `bool` is an `int`) and strings are kept. Any other value
  raises `ValueError`, and no partial result is returned;
- the exporter, `dill_to_json_dict`. It builds the eight-key record from the
  datum. It adds `episode` (the last `/`-separated segment of the metadata's
  episode path) and `frame` together, or neither;
- `NumpyEncoder.default` and the `json.dump` walk that uses it. This walk turns
  arrays into nested lists;
- `dill_to_json`'s refusal to overwrite an existing file;
- the round trip from export to load.

Files:

- `values.dfy`: the Python values involved (`PyValues.Value`), exceptions, `Result`, and an abstract file map.
- `dict.dfy`: Python dicts as insertion-ordered entry lists, with `d[k] = v` and `d.update(e)`.
- `strings.dfy`: `str.split`, `str.join` and the basename `path.split('/')[-1]`.
- `loader.dfy`: `from_json_dict`, an imperative loop proved against the function `Postprocess`, and `load_json`.
- `exporter.dfy`: the legacy datum record, `dill_to_json_dict`, `NumpyEncoder.default`, serialisation and `dill_to_json`.
- `roundtrip.dfy`: exporting and then loading.

## Behaviour worth noting

- The `try` around the metadata also swallows the `AttributeError` raised by a
  non-string episode, which has no `split`. Both `episode` and `frame` are then
  left out (`JsonExporter.ExportMetadata`).
- A metadata dict without `episode`, or with a string episode but no `frame`,
  raises `KeyError` through the `try`.
- `json.dump` also writes floats, `None`, lists and booleans. A float or `None`
  field then makes the later load fail (`RoundTrip.ExportThenLoad`).
- Booleans pass the `isinstance(v, int)` check of the loader and are kept.

## Model

| member | source | states |
|---|---|---|
| `PyValues.AsArray` | carla_json_loader.py:71 | `np.asarray` of a list is an array whose `tolist()` gives the same list back |
| `PyValues.ToList` | carla_json_loader.py:84 | `tolist()` of an array is a list of the array's rows, in order |
| `PyDict.Get` | carla_json_loader.py:129-131 | a dict lookup finds a value exactly when the key is among the dict's keys |
| `PyDict.GetAt` | carla_json_loader.py:129-131 | in a dict without repeated keys, looking up the key of entry i gives entry i's value |
| `PyDict.Set` | carla_json_loader.py:71-73 | `pp[k] = v` keeps the key order when k is present, and otherwise appends exactly (k, v) at the end |
| `PyDict.SetExistingKey` | carla_json_loader.py:71-73 | `pp[k] = v` on a key already present keeps the length and order, puts (k, v) at that key's position and leaves every other entry as it was |
| `PyDict.GetAfterSet` | carla_json_loader.py:71-73 | after `pp[k] = v`, looking up k gives v |
| `PyDict.SetKeepsDistinct` | carla_json_loader.py:71-73 | `pp[k] = v` never creates a repeated key |
| `PyDict.Update` | carla_json_loader.py:133 | `x.update(y)` never creates a repeated key |
| `PyDict.UpdateWithNewKeys` | carla_json_loader.py:133 | `x.update(y)` with keys that are all new appends y's entries after x's, in y's order |
| `PyStr.Split` | carla_json_loader.py:129 | `split('/')` yields at least one piece, so `[-1]` always exists, and no piece holds the separator |
| `PyStr.JoinSplit` | carla_json_loader.py:129 | joining the pieces of a split with the separator gives back the original string |
| `PyStr.SplitJoin` | carla_json_loader.py:129 | splitting a join of separator-free pieces gives back the pieces |
| `PyStr.SplitNoSeparator` | carla_json_loader.py:129 | a string without the separator splits into just itself |
| `PyStr.SplitAtFirstSeparator` | carla_json_loader.py:129 | a separator-free prefix followed by the separator becomes the first piece of the split |
| `PyStr.Basename` | carla_json_loader.py:129 | `split('/')[-1]` holds no `/` and is no longer than the path; `PyStr.BasenameIsLastSegment` pins it down exactly |
| `PyStr.BasenameIsLastSegment` | carla_json_loader.py:129 | the episode basename holds no `/`, ends the path, is preceded by `/` or by nothing, and is the whole path when the path has no `/` |
| `JsonLoader.Convert` | carla_json_loader.py:70-75 | one value succeeds exactly when it is a list, dict, int, bool or str; a list becomes an array whose `tolist()` is that list; any other accepted value is unchanged; a failure is `ValueError` |
| `JsonLoader.PostprocessFrom` | carla_json_loader.py:69-75 | the loop from a given state fails only with `ValueError`; success means every value still to visit was recognised and entries were only added; its full meaning is stated by `JsonLoader.PostprocessFails` and `JsonLoader.PostprocessAppends` |
| `JsonLoader.Postprocess` | carla_json_loader.py:62-76 | what `from_json_dict` returns or raises: a failure is `ValueError`, and success means every value was recognised; its full meaning is stated by `JsonLoader.PostprocessMeaning` |
| `JsonLoader.FromJsonDict` | carla_json_loader.py:62-76 | the loop returns exactly `Postprocess(json)`; it raises exactly when some value is not a list, dict, int, bool or str, and the error is always `ValueError` |
| `JsonLoader.PostprocessFails` | carla_json_loader.py:69-75 | the loop fails exactly when one of the entries still to visit is unrecognised, whatever the others hold, and the failure is `ValueError` |
| `JsonLoader.PostprocessAppends` | carla_json_loader.py:69-73 | with distinct, new keys, a successful loop appends one entry per input entry, with the same key, in the same order, holding that value's conversion |
| `JsonLoader.PostprocessMeaning` | carla_json_loader.py:62-76 | on a parsed object, the result fails exactly when some value is unrecognised; on success it has the input's keys in order, every list becomes an array of the same elements whose `tolist()` is the list, and every dict, int, bool and str is unchanged |
| `JsonLoader.LoadJson` | carla_json_loader.py:51-60 | a missing file fails the assertion; a top-level non-object fails at `.items()`; otherwise the result is the post-processed object |
| `JsonExporter.DillToJsonDict` | carla_json_loader.py:101-136 | the result has distinct keys; its keys are the eight schema keys, optionally followed by `episode` and `frame` together; its first eight entries are the schema record; without a `metadata` attribute it is exactly the schema record and does not raise |
| `JsonExporter.ExportedEntries` | carla_json_loader.py:108-125 | looked up by key, the five position and feature fields and `lidar_params` are the datum's attributes unchanged; `player_transform` is `transform.matrix`; `agent_transforms` is a list as long as the datum's transform list, and entry i is that list's i-th matrix |
| `JsonExporter.ExportMetadata` | carla_json_loader.py:126-135 | without metadata, or with a non-string episode, only the schema record comes out; non-dict metadata raises; a missing `episode`, or a missing `frame` next to a string episode, raises `KeyError`; otherwise `episode` (the basename) and `frame` are appended after the schema record |
| `JsonExporter.ExportedEpisode` | carla_json_loader.py:129 | the exported `episode` is the ninth entry; it holds no `/`, it is the suffix of the metadata path after its last `/`, and it is the whole path when the path has no `/` |
| `JsonExporter.Default` | carla_json_loader.py:82-85 | the encoder hook succeeds exactly on arrays and gives the list of the array's rows in order; any other value fails, and the failure is a `TypeError` from the base class |
| `JsonExporter.Serialize` | carla_json_loader.py:82-85 | what `json.dump` with the encoder writes holds no array anywhere, and a value that is already plain JSON is written unchanged; how a dict and an array are written is stated by `JsonExporter.DictWritesEntryByEntry` and `JsonExporter.ArrayWritesAsList` |
| `JsonExporter.DictWritesEntryByEntry` | carla_json_loader.py:98 | `json.dump` of a dict writes the same keys in the same order, each value written as `Serialize` writes it, so no field is dropped or replaced |
| `JsonExporter.ArrayWritesAsList` | carla_json_loader.py:82-85 | an array is written exactly as the list of its rows is: a list whose i-th item is the i-th row as written, so a list of arrays and the array stacking them write the same nested lists |
| `JsonExporter.SerializeSeq` | carla_json_loader.py:82-85 | the walk over a list's or an array's items keeps their number and order: the i-th result is the i-th item as written; every result is plain JSON, and plain JSON items are unchanged |
| `JsonExporter.Matrices` | carla_json_loader.py:122 | `[_.matrix for _ in dill_datum.agent_transforms]` has one entry per transform, and entry i is the i-th transform's matrix |
| `JsonExporter.Schema` | carla_json_loader.py:108-125 | the record `x` has exactly the eight schema keys, in order, with no key repeated; its values are stated by `JsonExporter.ExportedEntries` |
| `JsonExporter.EpisodeFrame` | carla_json_loader.py:126-135 | without a `metadata` attribute the `try` yields nothing and does not raise; when it yields `y`, its keys are `episode` then `frame`, and the episode is a string without `/`; each branch is stated by `JsonExporter.ExportMetadata` |
| `JsonExporter.DillToJson` | carla_json_loader.py:87-99 | succeeds exactly when the export succeeds and the path is new; an existing path fails the assertion after the export; on success it returns the path, adds exactly that path, and stores there exactly what `json.dump` writes for the exported dict, every other file unchanged |
| `JsonExporter.ExportRefusesOverwrite` | carla_json_loader.py:87-99 | a successful `dill_to_json` adds exactly the new path and leaves every other file unchanged, and any later export to the same path fails |
| `RoundTrip.SerializedRecognized` | carla_json_loader.py:70-75 | a written field is accepted by the loader exactly when it was neither a float nor `None` |
| `RoundTrip.ReloadKeepsContent` | carla_json_loader.py:70-85 | loading a written field and writing it again gives the same JSON; a plain-list array, or a plain dict, int, bool or str, comes back equal |
| `RoundTrip.ExportThenLoad` | carla_json_loader.py:51-99 | after `dill_to_json`, `load_json` finds an object; the load fails exactly when an exported field is a float or `None`; otherwise the loaded dict has the exported keys in order, so `episode` and `frame` appear exactly when they were exported, and every field writes the same JSON as the exported one, being equal to it when it was reloadable |

## Left out

- `plot_datum` (carla_json_loader.py:21-49) is matplotlib rendering with floating-point extents, so it is not modelled. This includes the palette lookup `COLORS[other_idx + 1]`, which goes out of range with more than four other agents.
- JSON text is not modelled. A file holds the parsed JSON value. `json.dump` is `JsonExporter.Serialize`, and `json.load` of what was dumped is the identity.
- File handles, a parent directory that cannot be written, and the difference between files and directories in `os.path.isfile` are not modelled. The file system is a map from path to stored document.
- numpy dtype promotion, shape inference and ragged arrays are not modelled. `np.asarray` keeps a list's elements as they are, and `tolist()` gives them back. So an integer stays an integer even inside an array that numpy would make floating-point.
- `attrdict.AttrDict` attribute-style access is not modelled. The loaded dict is a plain ordered dict.
- Python objects that `json.dump` cannot serialise (numpy scalars, for one) are not in the value type. So `JsonExporter.Default`'s `TypeError` is never reached from `JsonExporter.Serialize`.
- Building the legacy `MultiagentMotionDatum` object is not modelled. Its attributes are a record, so the `AttributeError` that a missing required attribute raises outside the `try` is not modelled.
- Metadata that is a numpy array is modelled as raising `IndexError` on a string index. Structured arrays with named fields are not modelled.
- JsonExporter.ExportRefusesOverwrite: holds only while Python assertions are enabled. The guard at carla_json_loader.py:96 is an `assert`, which `python -O` removes, and then `dill_to_json` silently overwrites an existing file. The model has no optimised mode.
- JsonLoader.LoadJson: its `AssertionError` case holds only while Python assertions are enabled. Under `python -O` the guard at carla_json_loader.py:57 is removed, and a missing file raises `FileNotFoundError` from `open` instead.
- RoundTrip.ReloadKeepsContent: "a plain dict comes back equal" relies on `PyValues.Value.Dict` having only string keys. `json.dump` rewrites int, float, bool and `None` keys of a nested dict (for example inside `lidar_params`) as strings, so such a dict would not come back equal. The value type cannot hold those keys.
- RoundTrip.ExportThenLoad: the same restriction to string dict keys applies to its "equal when reloadable" clause.
