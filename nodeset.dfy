/**
 * A HashSet of Nodo key/value pairs, as SimpleMap and Mappa of e05/02 keep their entries. Nodo
 * equality is by key, so HashSet.contains and HashSet.remove of a new node find the entry with
 * the same key; the stored nodes are never changed, so they are modelled as values.
 */
module NodeSet {
  datatype Entry<K, V> = Entry(key: K, value: V)

  /** The invariant the Set of key-equal nodes keeps: no two entries share a key. */
  ghost predicate UniqueKeys<K, V>(s: set<Entry<K, V>>)
  {
    forall a, b :: a in s && b in s && a.key == b.key ==> a == b
  }

  ghost function Keys<K, V>(s: set<Entry<K, V>>): set<K>
  {
    set e | e in s :: e.key
  }

  /** The value stored under a key that some entry has. */
  ghost function ValueOf<K, V>(s: set<Entry<K, V>>, k: K): V
    requires k in Keys(s)
  {
    var e :| e in s && e.key == k; e.value
  }

  /** The abstraction function: key -> value for every entry. */
  ghost function AsMap<K, V>(s: set<Entry<K, V>>): (m: map<K, V>)
    requires UniqueKeys(s)
    ensures m.Keys == Keys(s)
    ensures forall e :: e in s ==> m[e.key] == e.value
  {
    map k | k in Keys(s) :: ValueOf(s, k)
  }

  /** The entries whose key is not k. */
  function Without<K(==), V(==)>(s: set<Entry<K, V>>, k: K): set<Entry<K, V>>
  {
    set e | e in s && e.key != k
  }

  /** put(k, v): drop the entry with key k, if any, and add k -> v. */
  function Put<K(==), V(==)>(s: set<Entry<K, V>>, k: K, v: V): set<Entry<K, V>>
  {
    Without(s, k) + {Entry(k, v)}
  }

  /** With unique keys there are as many keys as entries. */
  lemma {:induction false} KeysCard<K, V>(s: set<Entry<K, V>>)
    requires UniqueKeys(s)
    ensures |Keys(s)| == |s|
    decreases |s|
  {
    if s != {} {
      var e :| e in s;
      var rest := s - {e};
      KeysCard(rest);
      assert Keys(s) == Keys(rest) + {e.key};
      assert e.key !in Keys(rest);
    }
  }

  /** Removing k keeps the keys unique and takes k out of the map. */
  lemma WithoutFacts<K, V>(s: set<Entry<K, V>>, k: K)
    requires UniqueKeys(s)
    ensures UniqueKeys(Without(s, k))
    ensures AsMap(Without(s, k)) == AsMap(s) - {k}
  {
    var m, w := AsMap(s), AsMap(Without(s, k));
    assert w.Keys == m.Keys - {k} by {
      forall x
        ensures x in w.Keys <==> x in m.Keys - {k}
      {
        if x in m.Keys && x != k {
          var e :| e in s && e.key == x;
          assert e in Without(s, k);
        }
      }
    }
  }

  lemma PutKeys<K, V>(s: set<Entry<K, V>>, k: K, v: V)
    ensures Keys(Put(s, k, v)) == Keys(s) + {k}
  {
    var p := Put(s, k, v);
    forall x
      ensures x in Keys(p) <==> x in Keys(s) + {k}
    {
      if x in Keys(s) && x != k {
        var e :| e in s && e.key == x;
        assert e in p;
      }
    }
  }

  lemma PutUnique<K, V>(s: set<Entry<K, V>>, k: K, v: V)
    requires UniqueKeys(s)
    ensures UniqueKeys(Put(s, k, v))
  {
    var p := Put(s, k, v);
    forall a, b | a in p && b in p && a.key == b.key
      ensures a == b
    {
      if a.key != k {
        assert a in s && b in s;
      }
    }
  }

  lemma PutMap<K, V>(s: set<Entry<K, V>>, k: K, v: V)
    requires UniqueKeys(s) && UniqueKeys(Put(s, k, v))
    ensures AsMap(Put(s, k, v)) == AsMap(s)[k := v]
  {
    var p := Put(s, k, v);
    var m, mp := AsMap(s)[k := v], AsMap(p);
    PutKeys(s, k, v);
    forall x | x in m.Keys
      ensures mp[x] == m[x]
    {
      if x != k {
        var e :| e in s && e.key == x;
        assert e in p;
      } else {
        assert Entry(k, v) in p;
      }
    }
  }

  /** put keeps the keys unique, maps k to v and leaves the other keys; the size grows by one iff k was absent. */
  lemma PutFacts<K, V>(s: set<Entry<K, V>>, k: K, v: V)
    requires UniqueKeys(s)
    ensures UniqueKeys(Put(s, k, v))
    ensures AsMap(Put(s, k, v)) == AsMap(s)[k := v]
    ensures |Put(s, k, v)| == if k in Keys(s) then |s| else |s| + 1
  {
    PutUnique(s, k, v);
    PutMap(s, k, v);
    PutKeys(s, k, v);
    KeysCard(s);
    KeysCard(Put(s, k, v));
  }

  /** Two entry sets with unique keys and the same size, one inside the other, are equal. */
  lemma SameSizeSubset<K, V>(s: set<Entry<K, V>>, t: set<Entry<K, V>>)
    requires s <= t && |s| == |t|
    ensures s == t
  {
    assert t == s + (t - s);
    assert |t| == |s| + |t - s|;
  }
}
