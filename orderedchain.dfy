/**
 * The chain of node values behind OrderedIntList of t10/05 (OrderedIntList.java).
 *
 * The list is a chain of doubly linked nodes. The object a client holds is a sentinel node with
 * value 0: the negative elements hang off its left link and the positive ones off its right
 * link, so that the node values read in ascending order from the leftmost node to the rightmost.
 * The model keeps the node values as a sequence `c`. The node at position p has a left
 * neighbour iff p > 0 and a right neighbour iff p < |c| - 1, a walk along the links is a cursor
 * moving over the positions, and a null link is the cursor value -1.
 */
module OrderedChain {
  import opened IntSetSpec

  /** Strictly ascending node values. */
  ghost predicate Ascending(s: seq<int>)
  {
    forall i, j :: 0 <= i < j < |s| ==> s[i] < s[j]
  }

  /** The representation: ascending node values, one of them the sentinel 0. */
  ghost predicate Chain(c: seq<int>)
  {
    Ascending(c) && 0 in c
  }

  /** The node at z holds 0 and no other node does. */
  ghost predicate ZeroOnlyAt(c: seq<int>, z: int)
  {
    0 <= z < |c| && c[z] == 0 && forall j :: 0 <= j < |c| && j != z ==> c[j] != 0
  }

  /** The stored integers in ascending order: the chain without its sentinel. */
  function Stored(c: seq<int>): seq<int>
  {
    RemovedFirst(c, 0)
  }

  /** The sentinel of an ascending chain, found by indexOf(0), is its only 0. */
  lemma SentinelIsOnlyZero(c: seq<int>)
    requires Chain(c)
    ensures ZeroOnlyAt(c, IndexOf(c, 0))
  {
    var z := IndexOf(c, 0);
    forall j | 0 <= j < |c| && j != z
      ensures c[j] != 0
    {
      if j < z {
        assert c[j] < c[z];
      } else {
        assert c[z] < c[j];
      }
    }
  }

  /** Without the sentinel the chain is still ascending, and it holds exactly the non-zero node values. */
  lemma StoredFacts(c: seq<int>)
    requires Chain(c)
    ensures Stored(c) == c[..IndexOf(c, 0)] + c[IndexOf(c, 0) + 1..]
    ensures Ascending(Stored(c)) && |Stored(c)| == |c| - 1
    ensures forall x :: x in Stored(c) <==> x in c && x != 0
  {
    var z := IndexOf(c, 0);
    UnlinkedFacts(c, z);
  }

  /** Two ascending lists with the same elements are the same list. */
  lemma {:induction false} AscendingUnique(s: seq<int>, t: seq<int>)
    requires Ascending(s) && Ascending(t)
    requires forall x :: x in s <==> x in t
    ensures s == t
    decreases |s|
  {
    assert t == [] || t[0] in t;
    if s != [] {
      AscendingHeads(s, t);
      AscendingUnique(s[1..], t[1..]);
      assert s == [s[0]] + s[1..] && t == [t[0]] + t[1..];
    }
  }

  /** Two ascending lists with the same elements start alike and go on with the same elements. */
  lemma AscendingHeads(s: seq<int>, t: seq<int>)
    requires Ascending(s) && Ascending(t) && s != []
    requires forall x :: x in s <==> x in t
    ensures t != [] && s[0] == t[0]
    ensures forall x :: x in s[1..] <==> x in t[1..]
    ensures Ascending(s[1..]) && Ascending(t[1..])
  {
    assert s[0] in s;
    var i :| 0 <= i < |t| && t[i] == s[0];
    assert t[0] in t;
    var j :| 0 <= j < |s| && s[j] == t[0];
    assert t[0] <= t[i] && s[0] <= s[j];
    forall x
      ensures x in s[1..] <==> x in t[1..]
    {
      assert x in s[1..] <==> x in s && x != s[0];
      assert x in t[1..] <==> x in t && x != t[0];
    }
  }

  /** A new node with value n linked in at position k. */
  function Spliced(c: seq<int>, k: int, n: int): seq<int>
    requires 0 <= k <= |c|
  {
    c[..k] + [n] + c[k..]
  }

  /** Linking n in between values smaller and values larger than n keeps the chain ascending. */
  lemma SplicedAscending(c: seq<int>, k: int, n: int)
    requires Ascending(c) && 0 <= k <= |c|
    requires k > 0 ==> c[k - 1] < n
    requires k < |c| ==> n < c[k]
    ensures Ascending(Spliced(c, k, n))
  {
    var s := Spliced(c, k, n);
    forall i, j | 0 <= i < j < |s|
      ensures s[i] < s[j]
    {
      var a := if i < k then c[i] else if i == k then n else c[i - 1];
      var b := if j < k then c[j] else if j == k then n else c[j - 1];
      assert s[i] == a && s[j] == b;
      if i < k && k < j {
        assert c[i] <= c[k - 1] && c[k] <= c[j - 1];
      } else if i < k && j == k {
        assert c[i] <= c[k - 1];
      } else if i == k && k < j {
        assert c[k] <= c[j - 1];
      }
    }
  }

  /** Where n fits between its neighbours it was not a node value; after linking it in it is, beside all the others. */
  lemma SplicedMembers(c: seq<int>, k: int, n: int)
    requires Ascending(c) && 0 <= k <= |c|
    requires k > 0 ==> c[k - 1] < n
    requires k < |c| ==> n < c[k]
    ensures n !in c && |Spliced(c, k, n)| == |c| + 1
    ensures forall x :: x in Spliced(c, k, n) <==> x in c || x == n
  {
    forall i | 0 <= i < |c|
      ensures c[i] != n
    {
      if i < k {
        assert c[i] <= c[k - 1];
      } else {
        assert c[k] <= c[i];
      }
    }
    assert c == c[..k] + c[k..];
  }

  /** Unlinking the node at p takes its value out and keeps the chain ascending. */
  lemma UnlinkedFacts(c: seq<int>, p: int)
    requires Ascending(c) && 0 <= p < |c|
    ensures Ascending(c[..p] + c[p + 1..])
    ensures forall x :: x in c[..p] + c[p + 1..] <==> x in c && x != c[p]
  {
    var s := c[..p] + c[p + 1..];
    forall i, j | 0 <= i < j < |s|
      ensures s[i] < s[j]
    {
      var a := if i < p then i else i + 1;
      var b := if j < p then j else j + 1;
      assert s[i] == c[a] && s[j] == c[b];
    }
    forall x
      ensures x in s <==> x in c && x != c[p]
    {
      if x in c && x != c[p] {
        var k :| 0 <= k < |c| && c[k] == x;
        if k < p {
          assert s[k] == x;
        } else {
          assert s[k - 1] == x;
        }
      }
      if x in s {
        var k :| 0 <= k < |s| && s[k] == x;
        var m := if k < p then k else k + 1;
        assert c[m] == x && m != p;
        assert c[m] != c[p] by {
          if m < p {
            assert c[m] < c[p];
          } else {
            assert c[p] < c[m];
          }
        }
      }
    }
  }
}
