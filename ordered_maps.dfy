/** A JavaScript `Map`: a dictionary that remembers the order in which its keys
    were first inserted. `set` on a present key keeps the key's position, `set` on
    a new key appends it, `delete` drops it; `values()` and the spread `[...m]`
    iterate in that order, and `new Map(pairs)` inserts the pairs one by one. */
module OrderedMaps {
  import opened Wrappers
  import Sequences

  datatype OrderedMap<K, V> = OrderedMap(keys: seq<K>, entries: map<K, V>)

  /** The keys are listed once each, and exactly the keys of the dictionary are listed. */
  ghost predicate Valid<K(!new), V>(m: OrderedMap<K, V>) {
    && (forall i, j :: 0 <= i < j < |m.keys| ==> m.keys[i] != m.keys[j])
    && (forall k :: k in m.entries <==> k in m.keys)
  }

  function Empty<K(!new), V>(): (m: OrderedMap<K, V>)
    ensures Valid(m) && m.keys == [] && m.entries == map[]
  {
    OrderedMap([], map[])
  }

  /** `m.get(k)` */
  function Get<K(!new), V>(m: OrderedMap<K, V>, k: K): (r: Option<V>)
    ensures r.Some? <==> k in m.entries
    ensures r.Some? ==> r.value == m.entries[k]
  {
    if k in m.entries then Some(m.entries[k]) else None
  }

  /** `m.set(k, v)` */
  function Set<K(!new), V>(m: OrderedMap<K, V>, k: K, v: V): (r: OrderedMap<K, V>)
    requires Valid(m)
    ensures Valid(r)
    ensures r.entries == m.entries[k := v]
    ensures k in m.entries ==> r.keys == m.keys
    ensures k !in m.entries ==> r.keys == m.keys + [k]
  {
    OrderedMap(if k in m.entries then m.keys else m.keys + [k], m.entries[k := v])
  }

  /** The test that keeps every key but `k`. */
  function Other<K(==)>(k: K): K -> bool {
    x => x != k
  }

  /** `m.delete(k)` */
  function Delete<K(!new), V>(m: OrderedMap<K, V>, k: K): (r: OrderedMap<K, V>)
    requires Valid(m)
    ensures Valid(r)
    ensures r.entries == m.entries - {k}
    ensures r.keys == Sequences.Filter(m.keys, Other(k))
  {
    var keys := Sequences.Filter(m.keys, Other(k));
    forall x ensures x in keys <==> x in m.keys && x != k {
      assert x in keys <==> x in multiset(keys);
      assert x in m.keys <==> x in multiset(m.keys);
    }
    Sequences.FilterDistinct(m.keys, Other(k));
    OrderedMap(keys, m.entries - {k})
  }

  function ValuesOf<K(!new), V>(keys: seq<K>, entries: map<K, V>): (r: seq<V>)
    requires forall k :: k in keys ==> k in entries
    ensures |r| == |keys|
    ensures forall i :: 0 <= i < |keys| ==> r[i] == entries[keys[i]]
  {
    if keys == [] then [] else [entries[keys[0]]] + ValuesOf(keys[1..], entries)
  }

  /** `Array.from(m.values())`: the values in key order. */
  function Values<K(!new), V>(m: OrderedMap<K, V>): (r: seq<V>)
    requires Valid(m)
    ensures |r| == |m.keys|
    ensures forall i :: 0 <= i < |m.keys| ==> r[i] == m.entries[m.keys[i]]
  {
    ValuesOf(m.keys, m.entries)
  }

  /** The spread `[...m]`: the `[key, value]` pairs in key order. */
  function Entries<K(!new), V>(m: OrderedMap<K, V>): (r: seq<(K, V)>)
    requires Valid(m)
    ensures |r| == |m.keys|
    ensures forall i :: 0 <= i < |m.keys| ==> r[i] == (m.keys[i], m.entries[m.keys[i]])
  {
    seq(|m.keys|, i requires 0 <= i < |m.keys| => (m.keys[i], m.entries[m.keys[i]]))
  }

  /** `pairs.forEach(([k, v]) => m.set(k, v))` */
  function PutAll<K(!new), V>(m: OrderedMap<K, V>, pairs: seq<(K, V)>): (r: OrderedMap<K, V>)
    requires Valid(m)
    ensures Valid(r)
    decreases |pairs|
  {
    if pairs == [] then m
    else
      var last := pairs[|pairs| - 1];
      Set(PutAll(m, pairs[..|pairs| - 1]), last.0, last.1)
  }

  /** `new Map(pairs)`: a map whose keys are exactly the keys of the pairs. */
  function FromPairs<K(!new), V>(pairs: seq<(K, V)>): (r: OrderedMap<K, V>)
    ensures Valid(r)
    ensures forall k :: k in r.entries <==> k in KeysOf(pairs)
  {
    PutAllKeys(Empty(), pairs);
    PutAll(Empty(), pairs)
  }

  /** Setting a key to the value it already has changes nothing. */
  lemma SetSame<K(!new), V>(m: OrderedMap<K, V>, k: K)
    requires Valid(m) && k in m.entries
    ensures Set(m, k, m.entries[k]) == m
  {
    assert m.entries[k := m.entries[k]] == m.entries;
  }

  /** A second `set` of the same key overrides the first and keeps the position
      the first one gave it. */
  lemma SetTwice<K(!new), V>(m: OrderedMap<K, V>, k: K, a: V, b: V)
    requires Valid(m)
    ensures Set(Set(m, k, a), k, b) == Set(m, k, b)
  {
    assert m.entries[k := a][k := b] == m.entries[k := b];
  }

  /** The keys of a sequence of pairs. */
  function KeysOf<K, V>(pairs: seq<(K, V)>): (ks: seq<K>)
    ensures |ks| == |pairs|
    ensures forall i :: 0 <= i < |pairs| ==> ks[i] == pairs[i].0
  {
    seq(|pairs|, i requires 0 <= i < |pairs| => pairs[i].0)
  }

  /** The position of the first occurrence of `x` in `s`. */
  ghost function FirstIndex<K>(s: seq<K>, x: K): (r: nat)
    requires x in s
    ensures r < |s| && s[r] == x
    ensures forall j :: 0 <= j < r ==> s[j] != x
  {
    if s[0] == x then 0 else 1 + FirstIndex(s[1..], x)
  }

  lemma FirstIndexAppend<K>(s: seq<K>, y: K, x: K)
    requires x in s
    ensures x in s + [y] && FirstIndex(s + [y], x) == FirstIndex(s, x)
  {
    var i, i' := FirstIndex(s, x), FirstIndex(s + [y], x);
    assert (s + [y])[i] == x;
    assert s[i'] == x by {
      if i' == |s| { assert false; }
    }
  }

  /** `PutAll` keeps the keys the map had, in their places, and adds the keys of
      the pairs: nothing else. */
  lemma {:induction false} PutAllKeys<K(!new), V>(m: OrderedMap<K, V>, pairs: seq<(K, V)>)
    requires Valid(m)
    ensures forall k :: k in PutAll(m, pairs).entries <==> k in m.entries || k in KeysOf(pairs)
    ensures |m.keys| <= |PutAll(m, pairs).keys| && PutAll(m, pairs).keys[..|m.keys|] == m.keys
    decreases |pairs|
  {
    if pairs != [] {
      var n := |pairs| - 1;
      PutAllKeys(m, pairs[..n]);
      assert KeysOf(pairs) == KeysOf(pairs[..n]) + [pairs[n].0];
      var r' := PutAll(m, pairs[..n]);
      var r := PutAll(m, pairs);
      assert r == Set(r', pairs[n].0, pairs[n].1);
      assert r.keys[..|m.keys|] == r'.keys[..|m.keys|];
    }
  }

  /** An entry whose key no pair mentions is left as it was. */
  lemma {:induction false} PutAllUntouched<K(!new), V>(m: OrderedMap<K, V>, pairs: seq<(K, V)>, k: K)
    requires Valid(m) && k in m.entries && k !in KeysOf(pairs)
    ensures k in PutAll(m, pairs).entries && PutAll(m, pairs).entries[k] == m.entries[k]
    decreases |pairs|
  {
    if pairs != [] {
      var n := |pairs| - 1;
      assert KeysOf(pairs) == KeysOf(pairs[..n]) + [pairs[n].0];
      PutAllUntouched(m, pairs[..n], k);
    }
  }

  /** One more pair is one more `set`. */
  lemma PutAllSnoc<K(!new), V>(m: OrderedMap<K, V>, front: seq<(K, V)>, last: (K, V))
    requires Valid(m)
    ensures PutAll(m, front + [last]) == Set(PutAll(m, front), last.0, last.1)
  {
    assert (front + [last])[..|front|] == front;
  }

  /** The last pair for a key decides its value: a later duplicate overwrites an
      earlier one. */
  lemma {:induction false} PutAllLastWins<K(!new), V>(m: OrderedMap<K, V>, pairs: seq<(K, V)>, i: nat)
    requires Valid(m) && i < |pairs|
    requires forall j :: i < j < |pairs| ==> pairs[j].0 != pairs[i].0
    ensures pairs[i].0 in PutAll(m, pairs).entries && PutAll(m, pairs).entries[pairs[i].0] == pairs[i].1
    decreases |pairs|
  {
    var n := |pairs| - 1;
    var front := pairs[..n];
    assert PutAll(m, pairs) == Set(PutAll(m, front), pairs[n].0, pairs[n].1);
    if i < n {
      assert front[i] == pairs[i];
      assert forall j :: i < j < n ==> front[j] == pairs[j];
      PutAllLastWins(m, front, i);
    }
  }

  ghost predicate OrderedByFirstIndex<K>(keys: seq<K>, ids: seq<K>)
    requires forall k :: k in keys ==> k in ids
  {
    forall p, q :: 0 <= p < q < |keys| ==> FirstIndex(ids, keys[p]) < FirstIndex(ids, keys[q])
  }

  /** One more id that is already listed changes no first index. */
  lemma OrderedExtendOld<K>(keys: seq<K>, ids: seq<K>, y: K)
    requires forall k :: k in keys ==> k in ids
    requires OrderedByFirstIndex(keys, ids)
    ensures forall k :: k in keys ==> k in ids + [y]
    ensures OrderedByFirstIndex(keys, ids + [y])
  {
    forall k | k in keys ensures FirstIndex(ids + [y], k) == FirstIndex(ids, k) {
      FirstIndexAppend(ids, y, k);
    }
  }

  /** A new id goes after every key listed so far. */
  lemma OrderedExtendNew<K>(keys: seq<K>, ids: seq<K>, y: K)
    requires forall k :: k in keys ==> k in ids
    requires OrderedByFirstIndex(keys, ids) && y !in ids
    ensures forall k :: k in keys + [y] ==> k in ids + [y]
    ensures OrderedByFirstIndex(keys + [y], ids + [y])
  {
    var keys2, ids2 := keys + [y], ids + [y];
    OrderedExtendOld(keys, ids, y);
    assert forall j :: 0 <= j < |ids| ==> ids2[j] == ids[j];
    assert FirstIndex(ids2, y) == |ids|;
    forall p, q | 0 <= p < q < |keys2|
      ensures FirstIndex(ids2, keys2[p]) < FirstIndex(ids2, keys2[q])
    {
      assert keys2[p] == keys[p];
      if q == |keys| {
        assert keys[p] in keys;
        FirstIndexAppend(ids, y, keys[p]);
      } else {
        assert keys2[q] == keys[q];
      }
    }
  }

  lemma PutAllOrderStep<K(!new), V>(front: seq<(K, V)>, last: (K, V))
    requires forall k :: k in FromPairs(front).keys <==> k in KeysOf(front)
    requires OrderedByFirstIndex(FromPairs(front).keys, KeysOf(front))
    ensures forall k :: k in FromPairs(front + [last]).keys <==> k in KeysOf(front + [last])
    ensures OrderedByFirstIndex(FromPairs(front + [last]).keys, KeysOf(front + [last]))
  {
    var pairs := front + [last];
    assert pairs[..|pairs| - 1] == front;
    var ids', keys' := KeysOf(front), FromPairs(front).keys;
    assert KeysOf(pairs) == ids' + [last.0];
    PutAllKeys(Empty(), front);
    if last.0 !in ids' {
      assert FromPairs(pairs).keys == keys' + [last.0];
      OrderedExtendNew(keys', ids', last.0);
    } else {
      assert FromPairs(pairs).keys == keys';
      OrderedExtendOld(keys', ids', last.0);
    }
  }

  /** Built from nothing, the map lists each key once, in the order of its first
      occurrence among the pairs. */
  lemma {:induction false} PutAllOrder<K(!new), V>(pairs: seq<(K, V)>)
    ensures forall k :: k in FromPairs(pairs).keys <==> k in KeysOf(pairs)
    ensures OrderedByFirstIndex(FromPairs(pairs).keys, KeysOf(pairs))
    decreases |pairs|
  {
    if pairs != [] {
      var n := |pairs| - 1;
      PutAllOrder(pairs[..n]);
      PutAllOrderStep(pairs[..n], pairs[n]);
      assert pairs == pairs[..n] + [pairs[n]];
    }
  }

  function Restrict<K(!new), V>(entries: map<K, V>, keys: seq<K>): map<K, V> {
    map k | k in keys && k in entries :: entries[k]
  }

  lemma SliceSnoc<K>(s: seq<K>, i: nat)
    requires 0 < i <= |s|
    ensures s[..i] == s[..i - 1] + [s[i - 1]]
  {
  }

  lemma PutAllEntriesStep<K(!new), V>(m: OrderedMap<K, V>, i: nat)
    requires Valid(m) && 0 < i <= |m.keys|
    requires PutAll(Empty(), Entries(m)[..i - 1]) == OrderedMap(m.keys[..i - 1], Restrict(m.entries, m.keys[..i - 1]))
    ensures PutAll(Empty(), Entries(m)[..i]) == OrderedMap(m.keys[..i], Restrict(m.entries, m.keys[..i]))
  {
    var ps := Entries(m)[..i];
    var k := m.keys[i - 1];
    var front := OrderedMap(m.keys[..i - 1], Restrict(m.entries, m.keys[..i - 1]));
    assert ps[..i - 1] == Entries(m)[..i - 1];
    assert PutAll(Empty(), ps) == Set(front, k, m.entries[k]);
    SliceSnoc(m.keys, i);
    assert k !in m.keys[..i - 1];
    assert front.entries[k := m.entries[k]] == Restrict(m.entries, m.keys[..i]);
  }

  lemma {:induction false} PutAllEntriesPrefix<K(!new), V>(m: OrderedMap<K, V>, i: nat)
    requires Valid(m) && i <= |m.keys|
    ensures PutAll(Empty(), Entries(m)[..i]) == OrderedMap(m.keys[..i], Restrict(m.entries, m.keys[..i]))
  {
    if i > 0 {
      PutAllEntriesPrefix(m, i - 1);
      PutAllEntriesStep(m, i);
    }
  }

  /** Rebuilding a map from its spread `[...m]` gives back the same keys, in the same
      order, with the same values: `new Map([...m])` is a copy of `m`. */
  lemma EntriesRoundTrip<K(!new), V>(m: OrderedMap<K, V>)
    requires Valid(m)
    ensures FromPairs(Entries(m)) == m
  {
    PutAllEntriesPrefix(m, |m.keys|);
    assert Entries(m)[..|m.keys|] == Entries(m);
    assert m.keys[..|m.keys|] == m.keys;
    assert Restrict(m.entries, m.keys) == m.entries;
  }
}
