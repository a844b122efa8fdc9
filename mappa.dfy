/** The generic map of e05/02 (Mappa.java), a HashSet of key-equal nodes. */
module Mappa {
  import opened Exceptions
  import opened NodeSet

  class Mappa<K(==), V(==)> {
    var elements: set<Entry<K, V>>

    /** No two nodes share a key. */
    ghost predicate Valid()
      reads this
    {
      UniqueKeys(elements)
    }

    /** The map the nodes stand for. */
    ghost function AF(): map<K, V>
      requires Valid()
      reads this
    {
      AsMap(elements)
    }

    /** A new map is empty. */
    constructor ()
      ensures elements == {} && Valid() && AF() == map[]
    {
      elements := {};
    }

    /** The copy constructor: a new map holding the same nodes as other. */
    constructor Copy(other: Mappa<K, V>)
      ensures elements == other.elements
      ensures other.Valid() ==> Valid() && AF() == other.AF()
    {
      elements := other.elements;
    }

    /** put: replaces the node with the same key, if any, so key maps to value and the keys stay unique. */
    method Put(key: K, value: V)
      modifies this
      ensures elements == NodeSet.Put(old(elements), key, value)
      ensures old(Valid()) ==> Valid() && AF() == old(AF())[key := value]
    {
      var newNode := Entry(key, value);
      var same := set e | e in elements && e.key == newNode.key;
      if same != {} {
        elements := elements - same;
      }
      elements := elements + {newNode};
      assert elements == NodeSet.Put(old(elements), key, value);
      if old(Valid()) {
        PutFacts(old(elements), key, value);
      }
    }

    /** remove: the value of the first node found with key key, which is removed; None (null) when there is none. */
    method Remove(key: K) returns (r: Option<V>)
      modifies this
      ensures r.None? <==> key !in Keys(old(elements))
      ensures r.None? ==> elements == old(elements)
      ensures r.Some? ==> Entry(key, r.value) in old(elements) && elements == old(elements) - {Entry(key, r.value)}
      ensures old(Valid()) ==> Valid() && AF() == old(AF()) - {key}
      ensures old(Valid()) && r.Some? ==> r.value == old(AF())[key]
    {
      var rest := elements;
      while rest != {}
        invariant rest <= elements && elements == old(elements)
        invariant forall e :: e in elements - rest ==> e.key != key
        decreases |rest|
      {
        var actual :| actual in rest;
        if actual.key == key {
          elements := elements - {actual};
          if old(Valid()) {
            assert elements == Without(old(elements), key);
            WithoutFacts(old(elements), key);
          }
          return Some(actual.value);
        }
        rest := rest - {actual};
      }
      if old(Valid()) {
        assert elements == Without(old(elements), key);
        WithoutFacts(old(elements), key);
      }
      return None;
    }

    /** size: the number of nodes, which is the number of keys. */
    method Size() returns (n: int)
      ensures n == |elements|
      ensures Valid() ==> n == |AF()|
    {
      n := |elements|;
      if Valid() {
        KeysCard(elements);
      }
    }

    /** get: the value of a node with key key, or None (null) when there is none. */
    method Get(key: K) returns (r: Option<V>)
      ensures r.None? <==> key !in Keys(elements)
      ensures r.Some? ==> Entry(key, r.value) in elements
      ensures Valid() ==> r == if key in AF() then Some(AF()[key]) else None
    {
      var rest := elements;
      while rest != {}
        invariant rest <= elements
        invariant forall e :: e in elements - rest ==> e.key != key
        decreases |rest|
      {
        var actual :| actual in rest;
        if actual.key == key {
          return Some(actual.value);
        }
        rest := rest - {actual};
      }
      return None;
    }

    /**
     * equals: the sizes agree and every key of this map has an equal value in o; for two maps
     * whose invariant holds, that is exactly the same map.
     */
    method Equals(o: Mappa<K, V>) returns (b: bool)
      ensures Valid() && o.Valid() ==> (b <==> AF() == o.AF())
    {
      var theirs := o.Size();
      var mine := Size();
      if theirs != mine {
        return false;
      }
      var rest := elements;
      while rest != {}
        invariant rest <= elements
        invariant o.Valid() ==> elements - rest <= o.elements
        decreases |rest|
      {
        var n :| n in rest;
        var compare := o.Get(n.key);
        if compare.None? {
          return false;
        }
        if compare.value != n.value {
          return false;
        }
        rest := rest - {n};
      }
      if Valid() && o.Valid() {
        SameSizeSubset(elements, o.elements);
      }
      return true;
    }
  }
}
