/** `Cartridge.metadata`, a Python dict from info keys to strings. A dict
    keeps its keys in insertion order and overwrites a value in place, so it
    is modelled as a list of pairs with distinct keys. */
module Metadata {
  import opened Common

  type Dict = seq<(string, string)>

  predicate DistinctKeys(d: Dict)
  {
    forall i, j :: 0 <= i < j < |d| ==> d[i].0 != d[j].0
  }

  /** `d.get(key)`. */
  function Get(d: Dict, key: string): (v: Option<string>)
    ensures v.None? <==> forall i :: 0 <= i < |d| ==> d[i].0 != key
    ensures v.Some? ==> exists i :: 0 <= i < |d| && d[i] == (key, v.value)
  {
    if d == [] then None
    else if d[0].0 == key then Some(d[0].1)
    else
      var v := Get(d[1..], key);
      assert v.Some? ==> exists i :: 0 <= i < |d[1..]| && d[1..][i] == (key, v.value);
      v
  }

  /** `d[key] = value`: overwrite in place, or append a new key. */
  function Put(d: Dict, key: string, value: string): (r: Dict)
    ensures Get(d, key).Some? ==> |r| == |d| && forall i :: 0 <= i < |d| ==> r[i].0 == d[i].0
    ensures Get(d, key).None? ==> r == d + [(key, value)]
  {
    if d == [] then [(key, value)]
    else if d[0].0 == key then [(key, value)] + d[1..]
    else [d[0]] + Put(d[1..], key, value)
  }

  /** A dict assignment stores the value under its key, keeps every other
      entry and keeps the keys distinct. */
  lemma PutSemantics(d: Dict, key: string, value: string)
    requires DistinctKeys(d)
    ensures DistinctKeys(Put(d, key, value))
    ensures Get(Put(d, key, value), key) == Some(value)
    ensures forall k :: k != key ==> Get(Put(d, key, value), k) == Get(d, k)
  {
    PutGet(d, key, value);
    PutDistinct(d, key, value);
  }

  /** Reading back after `d[key] = value`. */
  lemma {:induction false} PutGet(d: Dict, key: string, value: string)
    ensures Get(Put(d, key, value), key) == Some(value)
    ensures forall k :: k != key ==> Get(Put(d, key, value), k) == Get(d, k)
  {
    var r := Put(d, key, value);
    if d != [] {
      if d[0].0 == key {
        assert r[1..] == d[1..];
      } else {
        PutGet(d[1..], key, value);
        assert r[1..] == Put(d[1..], key, value);
      }
    }
  }

  /** `d[key] = value` never duplicates a key: it either keeps the keys as
      they are or appends one that was absent. */
  lemma PutDistinct(d: Dict, key: string, value: string)
    requires DistinctKeys(d)
    ensures DistinctKeys(Put(d, key, value))
  {
    var r := Put(d, key, value);
    if Get(d, key).Some? {
      forall i, j | 0 <= i < j < |r| ensures r[i].0 != r[j].0 {
        assert r[i].0 == d[i].0 && r[j].0 == d[j].0;
      }
    } else {
      forall i, j | 0 <= i < j < |r| ensures r[i].0 != r[j].0 {
        if j == |d| { assert r[i] == d[i]; }
      }
    }
  }

  /** The keys in insertion order. */
  function Keys(d: Dict): (ks: seq<string>)
    ensures |ks| == |d| && forall i :: 0 <= i < |d| ==> ks[i] == d[i].0
  {
    seq(|d|, i requires 0 <= i < |d| => d[i].0)
  }
}
