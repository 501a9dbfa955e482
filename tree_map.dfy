/**
 * The `TreeMap<String, Object>` the stream decoder builds for a dictionary,
 * as a list of entries kept in ascending key order. Keys are the raw bytes of
 * the bencoded key; for ASCII keys, the order `String.compareTo` uses is the
 * unsigned lexicographic order on those bytes, which `Less` defines.
 */
module TreeMap {
  import opened JavaLang

  datatype Entry<V> = Entry(key: seq<byte>, value: V)

  /** Strict lexicographic order on byte strings; a proper prefix comes first. */
  predicate Less(a: seq<byte>, b: seq<byte>) {
    if a == [] then b != []
    else if b == [] then false
    else a[0] < b[0] || (a[0] == b[0] && Less(a[1..], b[1..]))
  }

  lemma {:induction false} LessIrreflexive(a: seq<byte>)
    ensures !Less(a, a)
  {
    if a != [] {
      LessIrreflexive(a[1..]);
    }
  }

  lemma {:induction false} LessTransitive(a: seq<byte>, b: seq<byte>, c: seq<byte>)
    requires Less(a, b) && Less(b, c)
    ensures Less(a, c)
  {
    if a != [] && a[0] == b[0] && b[0] == c[0] {
      LessTransitive(a[1..], b[1..], c[1..]);
    }
  }

  /** Any two distinct keys are ordered one way or the other. */
  lemma {:induction false} LessTotal(a: seq<byte>, b: seq<byte>)
    ensures a == b || Less(a, b) || Less(b, a)
  {
    if a != [] && b != [] && a[0] == b[0] {
      LessTotal(a[1..], b[1..]);
      if a[1..] == b[1..] {
        assert a == [a[0]] + a[1..] && b == [b[0]] + b[1..];
      }
    }
  }

  lemma LessAsymmetric(a: seq<byte>, b: seq<byte>)
    requires Less(a, b)
    ensures !Less(b, a)
  {
    if Less(b, a) {
      LessTransitive(a, b, a);
      LessIrreflexive(a);
    }
  }

  /** Keys strictly ascending: the iteration order of a `TreeMap`, each key once. */
  predicate Sorted<V>(es: seq<Entry<V>>) {
    forall i, j :: 0 <= i < j < |es| ==> Less(es[i].key, es[j].key)
  }

  lemma SortedTail<V>(es: seq<Entry<V>>)
    requires Sorted(es) && es != []
    ensures Sorted(es[1..])
  {
  }

  function KeySet<V>(es: seq<Entry<V>>): set<seq<byte>> {
    set i | 0 <= i < |es| :: es[i].key
  }

  /** The key-to-value mapping of a list of entries; a later entry wins over an earlier one. */
  function AsMap<V>(es: seq<Entry<V>>): (m: map<seq<byte>, V>)
    ensures m.Keys == KeySet(es)
  {
    if es == [] then map[]
    else
      KeySetCons(es);
      map[es[0].key := es[0].value] + AsMap(es[1..])
  }

  lemma KeySetCons<V>(es: seq<Entry<V>>)
    requires es != []
    ensures KeySet(es) == {es[0].key} + KeySet(es[1..])
  {
    forall k | k in KeySet(es) ensures k in {es[0].key} + KeySet(es[1..]) {
      var i :| 0 <= i < |es| && es[i].key == k;
      if i > 0 {
        assert es[1..][i - 1].key == k;
      }
    }
  }

  lemma AsMapEmpty<V>(es: seq<Entry<V>>)
    ensures AsMap(es) == map[] <==> es == []
  {
    if es != [] {
      assert es[0].key in KeySet(es);
    }
  }

  /** In a sorted list every entry's value is what the mapping holds for its key. */
  lemma {:induction false} AsMapAt<V>(es: seq<Entry<V>>, i: nat)
    requires Sorted(es) && i < |es|
    ensures es[i].key in AsMap(es) && AsMap(es)[es[i].key] == es[i].value
  {
    if i == 0 {
      if es[0].key in AsMap(es[1..]) {
        var j :| 0 <= j < |es[1..]| && es[1..][j].key == es[0].key;
        assert Less(es[0].key, es[j + 1].key);
        LessIrreflexive(es[0].key);
      }
    } else {
      SortedTail(es);
      AsMapAt(es[1..], i - 1);
      assert es[1..][i - 1] == es[i];
    }
  }

  /** Dropping the first entry of a sorted list drops exactly its key from the mapping. */
  lemma AsMapTail<V>(es: seq<Entry<V>>)
    requires Sorted(es) && es != []
    ensures AsMap(es[1..]) == AsMap(es) - {es[0].key}
  {
    if es[0].key in KeySet(es[1..]) {
      var j :| 0 <= j < |es[1..]| && es[1..][j].key == es[0].key;
      assert Less(es[0].key, es[j + 1].key);
      LessIrreflexive(es[0].key);
    }
  }

  /** Every key of a sorted list is above any key below its first one. */
  lemma BelowFirst<V>(es: seq<Entry<V>>, key: seq<byte>)
    requires Sorted(es) && es != [] && Less(key, es[0].key)
    ensures forall j :: 0 <= j < |es| ==> Less(key, es[j].key)
    ensures key !in KeySet(es)
  {
    forall j | 0 < j < |es| ensures Less(key, es[j].key) {
      LessTransitive(key, es[0].key, es[j].key);
    }
    if key in KeySet(es) {
      var j :| 0 <= j < |es| && es[j].key == key;
      LessIrreflexive(key);
    }
  }

  /** The first key of a sorted list is below every key of its tail. */
  lemma FirstBelowTail<V>(es: seq<Entry<V>>)
    requires Sorted(es) && es != []
    ensures forall k :: k in KeySet(es[1..]) ==> Less(es[0].key, k)
    ensures KeySet(es) == {es[0].key} + KeySet(es[1..])
  {
    forall k | k in KeySet(es[1..]) ensures Less(es[0].key, k) {
      var j :| 0 <= j < |es[1..]| && es[1..][j].key == k;
      assert es[j + 1].key == k;
    }
    AsMapTail(es);
  }

  /**
   * `TreeMap.put(key, value)`: replace the value of an existing key, or insert
   * the key at its place in key order.
   */
  function Put<V>(es: seq<Entry<V>>, key: seq<byte>, value: V): (r: seq<Entry<V>>)
    requires Sorted(es)
    ensures Sorted(r)
    ensures AsMap(r) == AsMap(es)[key := value]
  {
    if es == [] then
      [Entry(key, value)]
    else if es[0].key == key then
      PutAtHead(es, key, value);
      [Entry(key, value)] + es[1..]
    else if Less(key, es[0].key) then
      PutBeforeHead(es, key, value);
      [Entry(key, value)] + es
    else
      LessTotal(key, es[0].key);
      var tail := Put(es[1..], key, value);
      PutAfterHead(es, key, value, tail);
      [es[0]] + tail
  }

  lemma PutAtHead<V>(es: seq<Entry<V>>, key: seq<byte>, value: V)
    requires Sorted(es) && es != [] && es[0].key == key
    ensures var r := [Entry(key, value)] + es[1..];
      Sorted(r) && AsMap(r) == AsMap(es)[key := value]
  {
    var r := [Entry(key, value)] + es[1..];
    assert forall i :: 0 <= i < |r| ==> r[i].key == es[i].key;
    assert r[1..] == es[1..];
    AsMapTail(es);
    HeadReplaced(AsMap(es), key, value, AsMap(es[1..]));
  }

  lemma HeadReplaced<K, V>(m: map<K, V>, k: K, v: V, t: map<K, V>)
    requires k in m && t == m - {k}
    ensures map[k := v] + t == m[k := v]
  {
  }

  lemma PutBeforeHead<V>(es: seq<Entry<V>>, key: seq<byte>, value: V)
    requires Sorted(es) && es != [] && Less(key, es[0].key)
    ensures var r := [Entry(key, value)] + es;
      Sorted(r) && AsMap(r) == AsMap(es)[key := value]
  {
    var r := [Entry(key, value)] + es;
    BelowFirst(es, key);
    forall i, j | 0 <= i < j < |r| ensures Less(r[i].key, r[j].key) {
      assert r[j] == es[j - 1];
      if i > 0 {
        assert r[i] == es[i - 1];
      }
    }
    assert r[1..] == es;
    NewHead(AsMap(es), key, value);
  }

  lemma NewHead<K, V>(m: map<K, V>, k: K, v: V)
    requires k !in m
    ensures map[k := v] + m == m[k := v]
  {
  }

  lemma PutAfterHead<V>(es: seq<Entry<V>>, key: seq<byte>, value: V, tail: seq<Entry<V>>)
    requires Sorted(es) && es != [] && Less(es[0].key, key)
    requires Sorted(tail) && AsMap(tail) == AsMap(es[1..])[key := value]
    ensures Sorted([es[0]] + tail)
    ensures AsMap([es[0]] + tail) == AsMap(es)[key := value]
  {
    assert KeySet(tail) == AsMap(tail).Keys == KeySet(es[1..]) + {key};
    SortedAfterHead(es, key, tail);
    LessIrreflexive(key);
    MapAfterHead(es, key, value, tail);
  }

  /** Every entry after a `put` is the new pair or was there before. */
  lemma {:induction false} PutMembers<V>(es: seq<Entry<V>>, key: seq<byte>, value: V)
    requires Sorted(es)
    ensures forall x :: x in Put(es, key, value) ==> x == Entry(key, value) || x in es
  {
    if es != [] && es[0].key != key && !Less(key, es[0].key) {
      LessTotal(key, es[0].key);
      PutMembers(es[1..], key, value);
      assert es == [es[0]] + es[1..];
    }
  }

  lemma MapAfterHead<V>(es: seq<Entry<V>>, key: seq<byte>, value: V, tail: seq<Entry<V>>)
    requires es != [] && es[0].key != key
    requires AsMap(tail) == AsMap(es[1..])[key := value]
    ensures AsMap([es[0]] + tail) == AsMap(es)[key := value]
  {
    var r := [es[0]] + tail;
    assert r[1..] == tail;
    UpdateCommutes(es[0].key, es[0].value, AsMap(es[1..]), key, value);
  }

  lemma SortedAfterHead<V>(es: seq<Entry<V>>, key: seq<byte>, tail: seq<Entry<V>>)
    requires Sorted(es) && es != [] && Less(es[0].key, key)
    requires Sorted(tail) && KeySet(tail) == KeySet(es[1..]) + {key}
    ensures Sorted([es[0]] + tail)
  {
    var r := [es[0]] + tail;
    FirstBelowTail(es);
    forall i, j | 0 <= i < j < |r| ensures Less(r[i].key, r[j].key) {
      assert r[j] == tail[j - 1];
      if i == 0 {
        assert r[j].key in KeySet(tail);
      } else {
        assert r[i] == tail[i - 1];
      }
    }
  }

  lemma UpdateCommutes<K, V>(k0: K, v0: V, m: map<K, V>, k: K, v: V)
    requires k0 != k
    ensures map[k0 := v0] + m[k := v] == (map[k0 := v0] + m)[k := v]
  {
  }

  /** The sequence of `put` calls the decoder makes, one per decoded key/value pair, in order. */
  function PutAll<V>(acc: seq<Entry<V>>, es: seq<Entry<V>>): (r: seq<Entry<V>>)
    requires Sorted(acc)
    ensures Sorted(r)
    decreases |es|
  {
    if es == [] then acc else PutAll(Put(acc, es[0].key, es[0].value), es[1..])
  }

  /** After the `put` calls, the map holds every key put, with the last value put for it. */
  lemma {:induction false} PutAllMap<V>(acc: seq<Entry<V>>, es: seq<Entry<V>>)
    requires Sorted(acc)
    ensures AsMap(PutAll(acc, es)) == AsMap(acc) + AsMap(es)
    decreases |es|
  {
    if es != [] {
      var next := Put(acc, es[0].key, es[0].value);
      PutAllMap(next, es[1..]);
      UpdateThenUnion(AsMap(acc), es[0].key, es[0].value, AsMap(es[1..]));
    }
  }

  lemma UpdateThenUnion<K, V>(m: map<K, V>, k: K, v: V, t: map<K, V>)
    ensures m[k := v] + t == m + (map[k := v] + t)
  {
  }

  /** Putting a key larger than every key present appends it. */
  lemma PutLargest<V>(es: seq<Entry<V>>, key: seq<byte>, value: V)
    requires Sorted(es)
    requires forall i :: 0 <= i < |es| ==> Less(es[i].key, key)
    ensures Put(es, key, value) == es + [Entry(key, value)]
  {
    if es != [] {
      LessIrreflexive(key);
      LessAsymmetric(es[0].key, key);
      PutLargest(es[1..], key, value);
    }
  }

  /**
   * A sorted list is determined by its mapping: two `TreeMap`s holding the
   * same keys and values iterate identically, whatever order the keys were
   * put in.
   */
  lemma {:induction false} SortedUnique<V>(a: seq<Entry<V>>, b: seq<Entry<V>>)
    requires Sorted(a) && Sorted(b) && AsMap(a) == AsMap(b)
    ensures a == b
  {
    AsMapEmpty(a);
    AsMapEmpty(b);
    if a != [] {
      assert a[0].key in KeySet(b);
      var j :| 0 <= j < |b| && b[j].key == a[0].key;
      assert b[0].key in KeySet(a);
      var i :| 0 <= i < |a| && a[i].key == b[0].key;
      if j != 0 {
        assert Less(b[0].key, a[0].key);
        if i == 0 {
          LessIrreflexive(a[0].key);
        } else {
          LessAsymmetric(b[0].key, a[0].key);
        }
      }
      AsMapAt(a, 0);
      AsMapAt(b, 0);
      AsMapTail(a);
      AsMapTail(b);
      SortedUnique(a[1..], b[1..]);
      assert a == [a[0]] + a[1..] && b == [b[0]] + b[1..];
    }
  }

  /** Two lists of puts with the same resulting mapping leave identical `TreeMap`s. */
  lemma PutAllOrderIndependent<V>(es1: seq<Entry<V>>, es2: seq<Entry<V>>)
    requires AsMap(es1) == AsMap(es2)
    ensures PutAll([], es1) == PutAll([], es2)
  {
    var empty: seq<Entry<V>> := [];
    PutAllMap(empty, es1);
    PutAllMap(empty, es2);
    var p1, p2 := PutAll(empty, es1), PutAll(empty, es2);
    assert AsMap(p1) == AsMap(p2);
    SortedUnique(p1, p2);
  }

  /** Putting the entries of a `TreeMap` into an empty one, in its own order, rebuilds it. */
  lemma PutAllOfSorted<V>(es: seq<Entry<V>>)
    requires Sorted(es)
    ensures PutAll([], es) == es
  {
    var empty: seq<Entry<V>> := [];
    PutAllMap(empty, es);
    AsMapEmpty(empty);
    var p := PutAll(empty, es);
    UnionEmpty(AsMap(es));
    SortedUnique(p, es);
  }

  lemma UnionEmpty<K, V>(m: map<K, V>)
    ensures map[] + m == m
  {
  }
}
