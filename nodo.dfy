/** The key/value node of e05/02 (Nodo.java): an immutable key and a replaceable value. */
module Nodo {
  import opened JavaInt

  /** hashCode of a node: 31 times the key's hash, in int arithmetic. */
  function NodeHash<K>(key: K, keyHash: K -> int): int
  {
    Wrap32(31 * keyHash(key))
  }

  class Nodo<K(==), V> {
    const key: K
    var value: V

    /** A node holding key and value. */
    constructor (key: K, value: V)
      ensures this.key == key && this.value == value
    {
      this.key := key;
      this.value := value;
    }

    method GetKey() returns (k: K)
      ensures k == key
    {
      k := key;
    }

    method GetValue() returns (v: V)
      ensures v == value
    {
      v := value;
    }

    /** setValue: replaces the value; the key cannot change. */
    method SetValue(value: V)
      modifies this
      ensures this.value == value
    {
      this.value := value;
    }

    /** equals: two nodes are equal exactly when their keys are, whatever their values. */
    method Equals(other: Nodo<K, V>) returns (b: bool)
      ensures b <==> other.key == key
    {
      b := other.key == key;
    }

    /** hashCode: depends on the key alone, so nodes that are equal by key hash alike. */
    method HashCode(keyHash: K -> int) returns (h: int)
      ensures h == NodeHash(key, keyHash)
      ensures forall other: Nodo<K, V> :: other.key == key ==> NodeHash(other.key, keyHash) == h
    {
      h := Wrap32(31 * keyHash(key));
    }
  }
}
