/**
 * Python dicts with string keys, as insertion-ordered lists of entries.
 * A real dict never holds a key twice (DistinctKeys); `d[k] = v` and
 * `d.update(e)` keep it that way.
 */
module PyDict {
  import opened Options

  type Dict<V> = seq<(string, V)>

  /** `list(d.keys())`. */
  function Keys<V>(d: Dict<V>): seq<string> {
    seq(|d|, i requires 0 <= i < |d| => d[i].0)
  }

  lemma KeysCons<V>(d: Dict<V>)
    requires d != []
    ensures Keys(d) == [d[0].0] + Keys(d[1..])
  {
  }

  lemma KeysAppend<V>(d: Dict<V>, x: (string, V))
    ensures Keys(d + [x]) == Keys(d) + [x.0]
  {
  }

  predicate DistinctKeys<V>(d: Dict<V>) {
    forall i, j | 0 <= i < j < |d| :: d[i].0 != d[j].0
  }

  /** `d.get(k)`, with None for a missing key. */
  function Get<V>(d: Dict<V>, k: string): (r: Option<V>)
    ensures r.Some? <==> k in Keys(d)
  {
    if d == [] then None
    else if d[0].0 == k then
      assert Keys(d)[0] == k;
      Some(d[0].1)
    else
      KeysCons(d);
      Get(d[1..], k)
  }

  /** In a dict without duplicate keys, the entry at `i` is what its key looks up. */
  lemma {:induction false} GetAt<V>(d: Dict<V>, i: nat)
    requires DistinctKeys(d) && i < |d|
    ensures Get(d, d[i].0) == Some(d[i].1)
  {
    if i > 0 {
      assert d[1..][i - 1] == d[i];
      GetAt(d[1..], i - 1);
    }
  }

  /** `d[k] = v`: replaces the value of an existing key in place, or appends a new entry. */
  function Set<V>(d: Dict<V>, k: string, v: V): (r: Dict<V>)
    ensures k in Keys(d) ==> Keys(r) == Keys(d)
    ensures k !in Keys(d) ==> r == d + [(k, v)]
  {
    if d == [] then [(k, v)]
    else if d[0].0 == k then
      assert Keys(d)[0] == k;
      assert Keys([(k, v)] + d[1..]) == Keys(d);
      [(k, v)] + d[1..]
    else
      KeysCons(d);
      var t := Set(d[1..], k, v);
      KeysCons([d[0]] + t);
      assert ([d[0]] + t)[1..] == t;
      [d[0]] + t
  }

  /** After `d[k] = v`, `d[k]` is `v`. */
  lemma {:induction false} GetAfterSet<V>(d: Dict<V>, k: string, v: V)
    ensures Get(Set(d, k, v), k) == Some(v)
  {
    if d != [] && d[0].0 != k {
      GetAfterSet(d[1..], k, v);
    }
  }

  /**
   * `d[k] = v` on a key already present changes that key's value in place and
   * nothing else: same length, same order, every other entry as it was.
   */
  lemma {:induction false} SetExistingKey<V>(d: Dict<V>, k: string, v: V)
    requires DistinctKeys(d) && k in Keys(d)
    ensures |Set(d, k, v)| == |d|
    ensures forall i | 0 <= i < |d| :: Set(d, k, v)[i] == if d[i].0 == k then (k, v) else d[i]
  {
    if d[0].0 != k {
      KeysCons(d);
      assert DistinctKeys(d[1..]) by {
        forall i, j | 0 <= i < j < |d[1..]| ensures d[1..][i].0 != d[1..][j].0 {
          assert d[1..][i] == d[i + 1] && d[1..][j] == d[j + 1];
        }
      }
      SetExistingKey(d[1..], k, v);
      var r := Set(d, k, v);
      forall i | 0 <= i < |d| ensures r[i] == if d[i].0 == k then (k, v) else d[i] {
        if i > 0 { assert r[i] == Set(d[1..], k, v)[i - 1] && d[i] == d[1..][i - 1]; }
      }
    } else {
      forall i | 1 <= i < |d| ensures d[i].0 != k { assert d[0].0 != d[i].0; }
    }
  }

  /** Setting a key never creates a duplicate. */
  lemma {:induction false} SetKeepsDistinct<V>(d: Dict<V>, k: string, v: V)
    requires DistinctKeys(d)
    ensures DistinctKeys(Set(d, k, v))
  {
    var r := Set(d, k, v);
    if k in Keys(d) {
      forall i, j | 0 <= i < j < |r| ensures r[i].0 != r[j].0 {
        assert Keys(r)[i] == Keys(d)[i] && Keys(r)[j] == Keys(d)[j];
      }
    } else {
      forall i, j | 0 <= i < j < |r| ensures r[i].0 != r[j].0 {
        if j == |d| { assert Keys(d)[i] == d[i].0; }
      }
    }
  }

  /** `d.update(e)`: sets each entry of `e` in turn. */
  function Update<V>(d: Dict<V>, e: Dict<V>): (r: Dict<V>)
    ensures DistinctKeys(d) ==> DistinctKeys(r)
    decreases |e|
  {
    if e == [] then d
    else
      var d' := Set(d, e[0].0, e[0].1);
      assert DistinctKeys(d) ==> DistinctKeys(d') by {
        if DistinctKeys(d) { SetKeepsDistinct(d, e[0].0, e[0].1); }
      }
      Update(d', e[1..])
  }

  /** Updating with a dict whose keys are all new appends its entries in order. */
  lemma {:induction false} UpdateWithNewKeys<V>(d: Dict<V>, e: Dict<V>)
    requires DistinctKeys(e)
    requires forall i | 0 <= i < |e| :: e[i].0 !in Keys(d)
    ensures Update(d, e) == d + e
    decreases |e|
  {
    if e != [] {
      var d' := Set(d, e[0].0, e[0].1);
      var rest := e[1..];
      assert Update(d, e) == Update(d', rest);
      NewKeysStep(d, e);
      UpdateWithNewKeys(d', rest);
      assert d' + rest == d + e by {
        assert e == [e[0]] + rest;
      }
    }
  }

  lemma NewKeysStep<V>(d: Dict<V>, e: Dict<V>)
    requires e != [] && DistinctKeys(e)
    requires forall i | 0 <= i < |e| :: e[i].0 !in Keys(d)
    ensures Set(d, e[0].0, e[0].1) == d + [e[0]]
    ensures DistinctKeys(e[1..])
    ensures forall i | 0 <= i < |e[1..]| :: e[1..][i].0 !in Keys(d + [e[0]])
  {
    var rest := e[1..];
    assert e[0].0 !in Keys(d);
    assert DistinctKeys(rest) by {
      forall i, j | 0 <= i < j < |rest| ensures rest[i].0 != rest[j].0 {
        assert rest[i] == e[i + 1] && rest[j] == e[j + 1];
      }
    }
    KeysAppend(d, e[0]);
    forall i | 0 <= i < |rest| ensures rest[i].0 !in Keys(d) + [e[0].0] {
      assert rest[i] == e[i + 1];
    }
  }
}
