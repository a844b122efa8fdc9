/** The String -> int map of e05/02 (SimpleMap.java), a HashSet of key-equal nodes. */
module SimpleMap {
  import opened Exceptions
  import opened NodeSet

  class SimpleMap {
    var elements: set<Entry<string, int>>

    /** No two nodes share a key. */
    ghost predicate Valid()
      reads this
    {
      UniqueKeys(elements)
    }

    /** The map the nodes stand for. */
    ghost function AF(): map<string, int>
      requires Valid()
      reads this
    {
      AsMap(elements)
    }

    /** A new map is empty. */
    constructor ()
      ensures elements == {} && Valid() && AF() == map[]
    {
      elements := {};
    }

    /**
     * put: the node with the same key, if the set holds one, is removed and the new node added.
     * Afterwards key maps to value, the other keys are unchanged, and the size grows by one
     * exactly when key was absent.
     */
    method Put(key: string, value: int)
      modifies this
      ensures elements == NodeSet.Put(old(elements), key, value)
      ensures old(Valid()) ==> Valid() && AF() == old(AF())[key := value]
      ensures old(Valid()) ==> |elements| == if key in old(AF()) then old(|elements|) else old(|elements|) + 1
    {
      var newNode := Entry(key, value);
      var same := set e | e in elements && e.key == newNode.key;
      if same != {} {
        elements := elements - same;
      }
      elements := elements + {newNode};
      assert elements == NodeSet.Put(old(elements), key, value);
      if old(Valid()) {
        PutFacts(old(elements), key, value);
      }
    }

    /** remove: deletes the node with key key, if there is one, and otherwise changes nothing. */
    method Remove(key: string)
      modifies this
      ensures elements <= old(elements) && Without(old(elements), key) <= elements
      ensures old(Valid()) ==> elements == Without(old(elements), key)
      ensures old(Valid()) ==> Valid() && AF() == old(AF()) - {key}
    {
      var delete: Option<Entry<string, int>> := None;
      var rest := elements;
      while rest != {}
        invariant rest <= elements
        invariant delete.Some? ==> delete.value in elements && delete.value.key == key
        invariant delete.None? ==> forall e :: e in elements - rest ==> e.key != key
        decreases |rest|
      {
        var actual :| actual in rest;
        if actual.key == key {
          delete := Some(actual);
        }
        rest := rest - {actual};
      }
      if delete.Some? {
        elements := elements - {delete.value};
      }
      if old(Valid()) {
        WithoutFacts(old(elements), key);
      }
    }

    /** size: the number of nodes, which is the number of keys. */
    method Size() returns (n: int)
      ensures n == |elements|
      ensures Valid() ==> n == |AF()|
    {
      n := |elements|;
      if Valid() {
        KeysCard(elements);
      }
    }

    /** containsKey: some node has key key. */
    method ContainsKey(key: string) returns (b: bool)
      ensures b <==> key in Keys(elements)
      ensures Valid() ==> (b <==> key in AF())
    {
      var rest := elements;
      while rest != {}
        invariant rest <= elements
        invariant forall e :: e in elements - rest ==> e.key != key
        decreases |rest|
      {
        var actual :| actual in rest;
        if actual.key == key {
          return true;
        }
        rest := rest - {actual};
      }
      return false;
    }

    /** get: the value of the node with key key; IllegalArgumentException when there is none. */
    method Get(key: string) returns (r: Result<int>)
      ensures r.Err? <==> key !in Keys(elements)
      ensures r.Err? ==> r.error == IllegalArgumentException
      ensures r.Ok? ==> Entry(key, r.value) in elements
      ensures Valid() && key in AF() ==> r == Ok(AF()[key])
    {
      var rest := elements;
      while rest != {}
        invariant rest <= elements
        invariant forall e :: e in elements - rest ==> e.key != key
        decreases |rest|
      {
        var actual :| actual in rest;
        if actual.key == key {
          return Ok(actual.value);
        }
        rest := rest - {actual};
      }
      return Err(IllegalArgumentException);
    }

    /**
     * equals: the sizes agree and every key of this map has the same value in o; for two maps
     * whose invariant holds, that is exactly the same map.
     */
    method Equals(o: SimpleMap) returns (b: bool)
      ensures Valid() && o.Valid() ==> (b <==> AF() == o.AF())
    {
      var mine := Size();
      var theirs := o.Size();
      if mine != theirs {
        return false;
      }
      var rest := elements;
      while rest != {}
        invariant rest <= elements
        invariant o.Valid() ==> elements - rest <= o.elements
        decreases |rest|
      {
        var n :| n in rest;
        var present := o.ContainsKey(n.key);
        if !present {
          return false;
        }
        var got := o.Get(n.key);
        if got.value != n.value {
          return false;
        }
        rest := rest - {n};
      }
      if Valid() && o.Valid() {
        SameSizeSubset(elements, o.elements);
      }
      return true;
    }
  }
}
