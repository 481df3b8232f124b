/**
 * A JavaScript object used as a dictionary from string keys, as
 * `Record<string, V>`. Its keys are kept in insertion order, because
 * `Object.keys` enumerates them that way (no key of this model looks like an
 * array index, the one case where JavaScript orders keys differently).
 */
module Records {
  import opened Wrappers

  datatype Entry<V> = Entry(key: string, value: V)

  type Record<V> = seq<Entry<V>>

  /** `Object.keys(r)`. */
  function Keys<V>(r: Record<V>): (ks: seq<string>)
    ensures |ks| == |r|
    ensures forall i :: 0 <= i < |r| ==> ks[i] == r[i].key
    decreases |r|
  {
    if r == [] then [] else [r[0].key] + Keys(r[1..])
  }

  /** An object never holds a key twice. */
  predicate DistinctKeys<V>(r: Record<V>) {
    forall i, j :: 0 <= i < j < |r| ==> r[i].key != r[j].key
  }

  /** `r[k]`: the value stored under `k`, or `undefined`. */
  function Get<V>(r: Record<V>, k: string): (v: Option<V>)
    ensures v.Some? <==> k in Keys(r)
    decreases |r|
  {
    if r == [] then None
    else if r[0].key == k then Some(r[0].value)
    else
      Get(r[1..], k)
  }

  /**
   * `{ ...r, [k]: v }`: a copy of `r` in which `k` holds `v`. A key already
   * present keeps its place; a new key goes last.
   */
  function Set<V>(r: Record<V>, k: string, v: V): (r': Record<V>)
    ensures Keys(r') == if k in Keys(r) then Keys(r) else Keys(r) + [k]
    ensures Get(r', k) == Some(v)
    ensures forall k' :: k' != k ==> Get(r', k') == Get(r, k')
    decreases |r|
  {
    if r == [] then [Entry(k, v)]
    else if r[0].key == k then
      var r' := [Entry(k, v)] + r[1..];
      assert r'[1..] == r[1..];
      assert Keys(r') == [k] + Keys(r[1..]) == Keys(r);
      r'
    else
      var tail := Set(r[1..], k, v);
      var r' := [r[0]] + tail;
      assert r'[1..] == tail;
      assert Keys(r') == [r[0].key] + Keys(tail);
      assert Keys(r) == [r[0].key] + Keys(r[1..]);
      assert (k in Keys(r)) == (k in Keys(r[1..]));
      r'
  }

  /** Setting one key never creates a duplicate key. */
  lemma SetKeepsDistinct<V>(r: Record<V>, k: string, v: V)
    requires DistinctKeys(r)
    ensures DistinctKeys(Set(r, k, v))
  {
    var r' := Set(r, k, v);
    forall i, j | 0 <= i < j < |r'| ensures r'[i].key != r'[j].key {
      assert r'[i].key == Keys(r')[i] && r'[j].key == Keys(r')[j];
      if j < |r| {
        assert Keys(r')[i] == Keys(r)[i] == r[i].key;
        assert Keys(r')[j] == Keys(r)[j] == r[j].key;
      } else {
        assert Keys(r')[j] == k && k !in Keys(r);
        assert Keys(r')[i] == Keys(r)[i];
      }
    }
  }
}
