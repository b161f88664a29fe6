/** Small value types shared by the other modules: optional values, results
    carrying an error message, a map written over by a batch of pairs, and a
    map that remembers the order in which its keys were first inserted
    (the iteration order of a Python dict). */
module Common {

  datatype Option<+T> = None | Some(value: T)

  /** A computation that either yields a value or raises an exception with a message. */
  datatype Result<+T> = Success(value: T) | Failure(error: string)

  /** The keys that a batch of pairs writes. */
  function KeysOf<K, V>(kvs: seq<(K, V)>): (r: set<K>)
    ensures forall i :: 0 <= i < |kvs| ==> kvs[i].0 in r
    ensures forall k :: k in r ==> exists i :: 0 <= i < |kvs| && kvs[i].0 == k
  {
    set i | 0 <= i < |kvs| :: kvs[i].0
  }

  /** `m` with the pairs of `kvs` written over it one after another, from the
      first pair to the last, so that a later pair for the same key wins. */
  function Overlay<K, V>(m: map<K, V>, kvs: seq<(K, V)>): map<K, V>
    decreases |kvs|
  {
    if kvs == [] then m
    else Overlay(m, kvs[..|kvs| - 1])[kvs[|kvs| - 1].0 := kvs[|kvs| - 1].1]
  }

  /** The domain of an overlay is the old domain plus every key written. */
  lemma {:induction false} OverlayKeys<K, V>(m: map<K, V>, kvs: seq<(K, V)>)
    ensures Overlay(m, kvs).Keys == m.Keys + KeysOf(kvs)
    decreases |kvs|
  {
    if kvs != [] {
      var front := kvs[..|kvs| - 1];
      OverlayKeys(m, front);
      assert KeysOf(kvs) == KeysOf(front) + {kvs[|kvs| - 1].0} by {
        forall k | k in KeysOf(kvs) ensures k in KeysOf(front) + {kvs[|kvs| - 1].0} {
          var i :| 0 <= i < |kvs| && kvs[i].0 == k;
          if i < |kvs| - 1 { assert front[i] == kvs[i]; }
        }
      }
    }
  }

  /** The pair at position `i` is the one that survives when no later pair
      writes the same key. */
  lemma {:induction false} OverlayLastWins<K, V>(m: map<K, V>, kvs: seq<(K, V)>, i: nat)
    requires i < |kvs|
    requires forall j :: i < j < |kvs| ==> kvs[j].0 != kvs[i].0
    ensures kvs[i].0 in Overlay(m, kvs) && Overlay(m, kvs)[kvs[i].0] == kvs[i].1
    decreases |kvs|
  {
    if i < |kvs| - 1 {
      var front := kvs[..|kvs| - 1];
      assert front[i] == kvs[i];
      OverlayLastWins(m, front, i);
    }
  }

  /** A key that no pair writes keeps its old entry (or its absence). */
  lemma {:induction false} OverlayUntouched<K, V>(m: map<K, V>, kvs: seq<(K, V)>, k: K)
    requires forall i :: 0 <= i < |kvs| ==> kvs[i].0 != k
    ensures (k in Overlay(m, kvs)) == (k in m)
    ensures k in m ==> Overlay(m, kvs)[k] == m[k]
    decreases |kvs|
  {
    if kvs != [] {
      var front := kvs[..|kvs| - 1];
      forall i | 0 <= i < |front| ensures front[i].0 != k { assert front[i] == kvs[i]; }
      OverlayUntouched(m, front, k);
    }
  }

  /** A map together with the order in which its keys were first inserted,
      as a Python dict iterates them. */
  datatype OrderedMap<K(!new), V> = OrderedMap(order: seq<K>, entries: map<K, V>) {

    /** Every key is listed once, and the listed keys are exactly the keys of the map. */
    ghost predicate Valid() {
      && (forall i, j :: 0 <= i < j < |order| ==> order[i] != order[j])
      && (forall k :: k in entries <==> k in order)
    }

    /** `d[k] = v`: overwrites the value of a present key in place, appends a new key at the end. */
    function Put(k: K, v: V): (r: OrderedMap<K, V>)
      requires Valid()
      ensures r.Valid()
      ensures r.entries == entries[k := v]
      ensures k in entries ==> r.order == order
      ensures k !in entries ==> r.order == order + [k]
    {
      if k in entries then OrderedMap(order, entries[k := v])
      else OrderedMap(order + [k], entries[k := v])
    }

    /** `d.items()`: the pairs in insertion order. */
    function Items(): (r: seq<(K, V)>)
      requires Valid()
      ensures |r| == |order|
      ensures forall i :: 0 <= i < |r| ==> r[i].0 == order[i] && r[i].0 in entries && r[i].1 == entries[r[i].0]
      ensures forall i, j :: 0 <= i < j < |r| ==> r[i].0 != r[j].0
      ensures forall k :: k in entries <==> exists i :: 0 <= i < |r| && r[i].0 == k
    {
      seq(|order|, i requires 0 <= i < |order| => (order[i], entries[order[i]]))
    }
  }

  function EmptyOrderedMap<K(!new), V>(): (r: OrderedMap<K, V>)
    ensures r.Valid() && r.order == [] && r.entries == map[]
  {
    OrderedMap([], map[])
  }
}
