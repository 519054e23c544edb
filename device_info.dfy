/** The `information` dictionary of a device identification response: object
    ids mapped to raw payloads, in insertion order (a Python `dict`). */
module DeviceInfo {
  import opened Wrappers

  /** The dictionary as the sequence of its `(object_id, payload)` items. */
  type Info = seq<(int, seq<byte>)>

  /** The keys of `info`, in order. */
  function Keys(info: Info): (ks: seq<int>)
    ensures |ks| == |info|
    ensures forall i :: 0 <= i < |info| ==> ks[i] == info[i].0
  {
    if info == [] then [] else [info[0].0] + Keys(info[1..])
  }

  /** A Python dictionary never holds the same key twice. */
  predicate DistinctKeys(info: Info) {
    forall i, j :: 0 <= i < j < |info| ==> info[i].0 != info[j].0
  }

  /** A dictionary value: items whose keys do not repeat. */
  type Dict = info: Info | DistinctKeys(info) witness []

  /** `info[k] = v`: a new key goes at the end; an existing key keeps its
      position and gets the new value (Put only replaces the first match,
      which is the only one in a dictionary). */
  function Put(info: Info, k: int, v: seq<byte>): (r: Info)
    ensures |info| <= |r| <= |info| + 1
  {
    if info == [] then
      [(k, v)]
    else if info[0].0 == k then
      [(k, v)] + info[1..]
    else
      [info[0]] + Put(info[1..], k, v)
  }

  /** A new key is appended after the existing entries. */
  lemma {:induction false} PutAppends(info: Info, k: int, v: seq<byte>)
    requires k !in Keys(info)
    ensures Put(info, k, v) == info + [(k, v)]
  {
    if info != [] {
      PutAppends(info[1..], k, v);
    }
  }

  /** An existing key keeps its position and takes the new value; every
      other entry stays where it was. */
  lemma {:induction false} PutUpdates(info: Info, k: int, v: seq<byte>)
    requires k in Keys(info) && DistinctKeys(info)
    ensures |Put(info, k, v)| == |info|
    ensures forall i :: 0 <= i < |info| ==>
      Put(info, k, v)[i] == (if info[i].0 == k then (k, v) else info[i])
  {
    if info[0].0 != k {
      PutUpdates(info[1..], k, v);
    }
  }

  /** The keys afterwards are the keys before plus `k`. */
  lemma {:induction false} PutKeys(info: Info, k: int, v: seq<byte>)
    ensures forall k' :: k' in Keys(Put(info, k, v)) <==> k' in Keys(info) || k' == k
  {
    if info != [] && info[0].0 != k {
      PutKeys(info[1..], k, v);
    }
  }

  /** Assignment keeps a dictionary's keys distinct. */
  lemma {:induction false} PutDistinct(info: Info, k: int, v: seq<byte>)
    requires DistinctKeys(info)
    ensures DistinctKeys(Put(info, k, v))
  {
    if info != [] && info[0].0 != k {
      PutDistinct(info[1..], k, v);
      PutKeys(info[1..], k, v);
      assert info[0].0 !in Keys(info[1..]);
    }
  }
}
