/**
 * The walks along the links of OrderedIntList of t10/05 (OrderedIntList.java): the recursive
 * isIn, firstListEl and lastListEl, and the steps of the smallToBig and bigToSmall iterators,
 * as functions of the chain of node values (see OrderedChain).
 */
module OrderedWalks {
  import opened IntSetSpec
  import opened OrderedChain

  // isIn as written

  /** What one call of isIn(n) on a node does: it answers, or it recurses into a neighbour's isIn. */
  datatype Call = Answer(found: bool) | Recurse(next: nat)

  /**
   * isIn(n) on the node at position p: false for 0, true when the node holds n; otherwise a call
   * on the right neighbour when n is larger, on the left neighbour when it is smaller, or false
   * when that neighbour is missing.
   */
  function IsInCall(c: seq<int>, p: nat, n: int): (r: Call)
    requires p < |c|
    ensures n == 0 ==> r == Answer(false)
    ensures r == Answer(true) <==> n != 0 && c[p] == n
    ensures r.Recurse? ==> r.next < |c| && (if n > c[p] then r.next == p + 1 else r.next + 1 == p)
  {
    if n == 0 then Answer(false)
    else if c[p] == n then Answer(true)
    else if n > c[p] then (if p == |c| - 1 then Answer(false) else Recurse(p + 1))
    else if p == 0 then Answer(false) else Recurse(p - 1)
  }

  /** The state of the chain of isIn(n) calls started at p after k more recursive calls. */
  function IsInAfter(c: seq<int>, p: nat, n: int, k: nat): Call
    requires p < |c|
    decreases k
  {
    if k == 0 then Recurse(p)
    else
      match IsInCall(c, p, n)
      case Answer(b) => Answer(b)
      case Recurse(q) => IsInAfter(c, q, n, k - 1)
  }

  /**
   * isIn(n) never returns when n is absent but lies between the smallest and the largest node
   * value: from every node the call recurses into a neighbour, so the chain of calls grows
   * without bound (in Java it ends in StackOverflowError). This holds from any start node, the
   * sentinel included.
   */
  lemma {:induction false} IsInNeverAnswers(c: seq<int>, p: nat, n: int, k: nat)
    requires p < |c| && n != 0 && n !in c && c[0] < n < c[|c| - 1]
    ensures IsInAfter(c, p, n, k).Recurse?
    decreases k
  {
    if k > 0 {
      assert c[p] != n;
      var r := IsInCall(c, p, n);
      assert r.Recurse?;
      IsInNeverAnswers(c, r.next, n, k - 1);
    }
  }

  /** After add(5) on a new list the chain is [0, 5], and isIn(3) bounces between its two nodes. */
  lemma IsInCycles()
    ensures IsInCall([0, 5], 0, 3) == Recurse(1)
    ensures IsInCall([0, 5], 1, 3) == Recurse(0)
  {
  }

  // firstListEl and lastListEl

  /** firstListEl on the node at p: the right neighbour of a 0 without left neighbour, else the leftmost node. */
  function FirstListEl(c: seq<int>, p: nat): (r: int)
    requires p < |c|
    ensures -1 <= r < |c|
  {
    if c[p] == 0 && p == 0 then (if |c| > 1 then 1 else -1)
    else if p == 0 then 0
    else FirstListEl(c, p - 1)
  }

  /** lastListEl on the node at p: the rightmost node. */
  function LastListEl(c: seq<int>, p: nat): (r: nat)
    requires p < |c|
    ensures r == |c| - 1
    decreases |c| - p
  {
    if p == |c| - 1 then p else LastListEl(c, p + 1)
  }

  /** From the sentinel, firstListEl is the leftmost node, or the one right of a leftmost sentinel. */
  lemma {:induction false} FirstFromSentinel(c: seq<int>, z: int, p: nat)
    requires ZeroOnlyAt(c, z) && p <= z
    ensures FirstListEl(c, p) == if z > 0 then 0 else if |c| > 1 then 1 else -1
    decreases p
  {
    if p > 0 {
      FirstFromSentinel(c, z, p - 1);
    }
  }

  // The iterators as written

  /** smallToBig's next(): cache moves to the right neighbour, and once more past a 0 that has a right neighbour. */
  function Advance(c: seq<int>, i: nat): (j: int)
    requires i < |c|
    ensures j == -1 || i < j < |c|
  {
    var j := if i == |c| - 1 then -1 else i + 1;
    if j != -1 && c[j] == 0 && j != |c| - 1 then j + 1 else j
  }

  /** The values smallToBig still yields when its cache is at position i. */
  function Ahead(c: seq<int>, i: int): seq<int>
    requires -1 <= i < |c|
    decreases if i == -1 then 0 else |c| - i + 1
  {
    if i == -1 then [] else [c[i]] + Ahead(c, Advance(c, i))
  }

  /** bigToSmall's next(): cache moves to the left neighbour, and once more past a 0 that has a left neighbour. */
  function Retreat(c: seq<int>, i: nat): (j: int)
    requires i < |c|
    ensures -1 <= j < i
  {
    var j := if i == 0 then -1 else i - 1;
    if j != -1 && c[j] == 0 && j != 0 then j - 1 else j
  }

  /** bigToSmall's hasNext(): a node is cached, and it is not a 0 without left neighbour. */
  predicate BehindHasNext(c: seq<int>, i: int)
    requires -1 <= i < |c|
  {
    !(i != -1 && c[i] == 0 && i == 0) && i != -1
  }

  /** The values bigToSmall still yields when its cache is at position i. */
  function Behind(c: seq<int>, i: int): seq<int>
    requires -1 <= i < |c|
    decreases i + 1
  {
    if !BehindHasNext(c, i) then [] else [c[i]] + Behind(c, Retreat(c, i))
  }

  /** The list read from its last element to its first. */
  function Reversed(s: seq<int>): (r: seq<int>)
    ensures |r| == |s|
  {
    if s == [] then [] else [s[|s| - 1]] + Reversed(s[..|s| - 1])
  }

  /** Right of the sentinel smallToBig yields every node value in turn. */
  lemma {:induction false} AheadRight(c: seq<int>, z: int, i: nat)
    requires ZeroOnlyAt(c, z) && z < i < |c|
    ensures Ahead(c, i) == c[i..]
    decreases |c| - i
  {
    if i < |c| - 1 {
      assert c[i + 1] != 0;
      assert Advance(c, i) == i + 1;
      AheadRight(c, z, i + 1);
      assert c[i..] == [c[i]] + c[i + 1..];
    } else {
      assert Ahead(c, Advance(c, i)) == [];
    }
  }

  /**
   * Left of the sentinel smallToBig yields the node values and skips the sentinel, unless the
   * sentinel is the rightmost node: then it yields it, last.
   */
  lemma {:induction false} AheadLeft(c: seq<int>, z: int, i: nat)
    requires ZeroOnlyAt(c, z) && i < z
    ensures z == |c| - 1 ==> Ahead(c, i) == c[i..]
    ensures z < |c| - 1 ==> Ahead(c, i) == c[i..z] + c[z + 1..]
    decreases |c| - i
  {
    if i + 1 < z {
      assert c[i + 1] != 0;
      assert Advance(c, i) == i + 1;
      AheadLeft(c, z, i + 1);
      assert c[i..] == [c[i]] + c[i + 1..];
      assert c[i..z] == [c[i]] + c[i + 1..z];
    } else if z == |c| - 1 {
      assert Advance(c, i) == z;
      assert Ahead(c, Advance(c, z)) == [];
      assert c[i..] == [c[i], c[z]];
    } else {
      assert i + 1 == z && Advance(c, i) == z + 1;
      AheadRight(c, z, z + 1);
      assert c[i..z] == [c[i]] by {
        assert |c[i..z]| == 1 && c[i..z][0] == c[i];
      }
    }
  }

  /** What smallToBig shows for the elements s: s, with the sentinel 0 after it when s holds only negatives. */
  function ShownAscending(s: seq<int>): seq<int>
  {
    if s != [] && s[|s| - 1] < 0 then s + [0] else s
  }

  /** The elements behind what smallToBig shows: a trailing 0 dropped. */
  function Unshown(a: seq<int>): seq<int>
  {
    if a != [] && a[|a| - 1] == 0 then a[..|a| - 1] else a
  }

  /** Without 0 among the elements, what smallToBig shows determines them. */
  lemma UnshowAscending(s: seq<int>)
    requires 0 !in s
    ensures Unshown(ShownAscending(s)) == s
  {
    if s != [] && s[|s| - 1] < 0 {
      assert (s + [0])[..|s|] == s;
    } else if s != [] {
      assert s[|s| - 1] in s;
    }
  }

  /** The sign of the last element: the chain ends in its sentinel exactly when the elements are all negative. */
  lemma LastSign(c: seq<int>)
    requires Chain(c)
    ensures var z, s := IndexOf(c, 0), Stored(c);
      (s != [] && s[|s| - 1] < 0) <==> (z == |c| - 1 && z > 0)
  {
    var z, s := IndexOf(c, 0), Stored(c);
    StoredFacts(c);
    if z < |c| - 1 {
      assert s[|s| - 1] == c[|c| - 1] && c[z] < c[|c| - 1];
    } else if z > 0 {
      assert s[|s| - 1] == c[z - 1] && c[z - 1] < c[z];
    }
  }

  /**
   * smallToBig yields the elements in ascending order, skipping the sentinel, when the list is
   * empty or holds a positive element; when it holds only negatives it yields 0 after them.
   */
  lemma SmallToBigYields(c: seq<int>)
    requires Chain(c)
    ensures Ahead(c, FirstListEl(c, IndexOf(c, 0))) == ShownAscending(Stored(c))
  {
    var z := IndexOf(c, 0);
    SentinelIsOnlyZero(c);
    FirstFromSentinel(c, z, z);
    var first, s := FirstListEl(c, z), Stored(c);
    assert s == c[..z] + c[z + 1..];
    if z == |c| - 1 && z > 0 {
      assert first == 0;
      assert s == c[..z] && s[|s| - 1] == c[z - 1] < c[z];
      assert ShownAscending(s) == c[..z] + [0];
      AheadLeft(c, z, 0);
      assert c == c[..z] + [0];
    } else if z > 0 {
      assert first == 0;
      assert s[|s| - 1] == c[|c| - 1] > c[z];
      assert ShownAscending(s) == s;
      AheadLeft(c, z, 0);
      assert c[0..z] == c[..z];
    } else if |c| > 1 {
      assert first == 1;
      assert s == c[1..] && s[|s| - 1] == c[|c| - 1] > c[z];
      assert ShownAscending(s) == s;
      AheadRight(c, z, 1);
    } else {
      assert first == -1 && s == [];
    }
  }

  /** Left of the sentinel bigToSmall yields the node values down to the leftmost. */
  lemma {:induction false} BehindLeft(c: seq<int>, z: int, i: nat)
    requires ZeroOnlyAt(c, z) && i < z
    ensures Behind(c, i) == Reversed(c[..i + 1])
    decreases i
  {
    if i > 0 {
      assert Retreat(c, i) == i - 1;
      BehindLeft(c, z, i - 1);
      assert c[..i + 1][..i] == c[..i];
    } else {
      assert Behind(c, Retreat(c, i)) == [];
      assert c[..1] == [c[0]];
    }
  }

  /** Right of the sentinel bigToSmall yields the node values down to the leftmost, skipping the sentinel. */
  lemma {:induction false} BehindRight(c: seq<int>, z: int, i: nat)
    requires ZeroOnlyAt(c, z) && z < i < |c|
    ensures Behind(c, i) == Reversed(c[..z] + c[z + 1..i + 1])
    ensures i == |c| - 1 ==> Behind(c, i) == Reversed(c[..z] + c[z + 1..])
    decreases i
  {
    if i == |c| - 1 {
      assert c[z + 1..i + 1] == c[z + 1..];
    }
    BehindStep(c, z, i);
    ReversedDropLast(c, z, i);
    if i - 1 > z {
      BehindRight(c, z, i - 1);
    } else if z > 0 {
      BehindLeft(c, z, z - 1);
      assert c[..z - 1 + 1] == c[..z] == c[..z] + c[z + 1..i];
    } else {
      assert c[..z] + c[z + 1..i] == [];
    }
  }

  /** Reversing the node values without the sentinel up to i starts with c[i]. */
  lemma ReversedDropLast(c: seq<int>, z: int, i: int)
    requires 0 <= z < i < |c|
    ensures Reversed(c[..z] + c[z + 1..i + 1]) == [c[i]] + Reversed(c[..z] + c[z + 1..i])
  {
    var u := c[..z] + c[z + 1..i + 1];
    assert u[..|u| - 1] == c[..z] + c[z + 1..i] && u[|u| - 1] == c[i];
  }

  /** One step of bigToSmall right of the sentinel. */
  lemma BehindStep(c: seq<int>, z: int, i: nat)
    requires ZeroOnlyAt(c, z) && z < i < |c|
    ensures Behind(c, i) == [c[i]] + Behind(c, Retreat(c, i))
    ensures Retreat(c, i) == if i - 1 > z then i - 1 else if z > 0 then z - 1 else 0
    ensures i - 1 == z == 0 ==> Behind(c, 0) == []
  {
    assert c[i] != 0;
  }

  /** What bigToSmall shows for the elements s: s reversed, after the sentinel 0 when s holds only negatives. */
  function ShownDescending(s: seq<int>): seq<int>
  {
    if s != [] && s[|s| - 1] < 0 then [0] + Reversed(s) else Reversed(s)
  }

  /**
   * bigToSmall yields the elements in descending order, skipping the sentinel, when the list is
   * empty or holds a positive element; when it holds only negatives it yields 0 first.
   */
  lemma BigToSmallYields(c: seq<int>)
    requires Chain(c)
    ensures Behind(c, LastListEl(c, IndexOf(c, 0))) == ShownDescending(Stored(c))
  {
    var z := IndexOf(c, 0);
    SentinelIsOnlyZero(c);
    StoredFacts(c);
    LastSign(c);
    BehindFromLast(c, z);
  }

  /** bigToSmall from the rightmost node: the node values reversed without the sentinel, which comes first when it is rightmost. */
  lemma {:induction false} BehindFromLast(c: seq<int>, z: int)
    requires ZeroOnlyAt(c, z)
    ensures z == |c| - 1 && z > 0 ==> Behind(c, |c| - 1) == [0] + Reversed(c[..z] + c[z + 1..])
    ensures !(z == |c| - 1 && z > 0) ==> Behind(c, |c| - 1) == Reversed(c[..z] + c[z + 1..])
  {
    if z < |c| - 1 {
      BehindRight(c, z, |c| - 1);
    } else if z > 0 {
      BehindFromRightmostSentinel(c, z);
    } else {
      BehindFromLoneSentinel(c, z);
    }
  }

  /** A rightmost sentinel with a left neighbour is yielded first, then the values to its left in reverse. */
  lemma {:induction false} BehindFromRightmostSentinel(c: seq<int>, z: int)
    requires ZeroOnlyAt(c, z) && z == |c| - 1 && z > 0
    ensures Behind(c, |c| - 1) == [0] + Reversed(c[..z] + c[z + 1..])
  {
    assert c[..z] + c[z + 1..] == c[..z];
    assert BehindHasNext(c, z);
    assert Retreat(c, z) == z - 1;
    BehindLeft(c, z, z - 1);
    assert c[..z - 1 + 1] == c[..z];
  }

  /** A list holding only the sentinel yields nothing from its last node. */
  lemma {:induction false} BehindFromLoneSentinel(c: seq<int>, z: int)
    requires ZeroOnlyAt(c, z) && z == |c| - 1 && z == 0
    ensures Behind(c, |c| - 1) == Reversed(c[..z] + c[z + 1..])
  {
    assert c[..z] + c[z + 1..] == [];
    assert !BehindHasNext(c, 0);
  }

  // The iterators with the sentinel hidden wherever it is

  /** smallToBig's next() hiding the sentinel also when it is the rightmost node: cache moves past any 0. */
  function AdvanceHiding(c: seq<int>, i: nat): (j: int)
    requires i < |c|
    ensures j == -1 || i < j < |c|
  {
    var j := if i == |c| - 1 then -1 else i + 1;
    if j != -1 && c[j] == 0 then (if j == |c| - 1 then -1 else j + 1) else j
  }

  /** The values the corrected smallToBig still yields from position i. */
  function AheadHiding(c: seq<int>, i: int): seq<int>
    requires -1 <= i < |c|
    decreases if i == -1 then 0 else |c| - i + 1
  {
    if i == -1 then [] else [c[i]] + AheadHiding(c, AdvanceHiding(c, i))
  }

  lemma {:induction false} AheadHidingFrom(c: seq<int>, z: int, i: nat)
    requires ZeroOnlyAt(c, z) && i < |c| && i != z
    ensures i < z ==> AheadHiding(c, i) == c[i..z] + c[z + 1..]
    ensures i > z ==> AheadHiding(c, i) == c[i..]
    decreases |c| - i
  {
    var j := AdvanceHiding(c, i);
    if i == |c| - 1 {
      assert j == -1;
    } else if i + 1 == z && z == |c| - 1 {
      assert j == -1;
      assert c[i..z] == [c[i]] && c[z + 1..] == [];
    } else if i + 1 == z {
      assert j == z + 1;
      AheadHidingFrom(c, z, j);
      assert c[i..z] == [c[i]];
    } else {
      assert c[i + 1] != 0 && j == i + 1;
      AheadHidingFrom(c, z, j);
      assert c[i..] == [c[i]] + c[i + 1..];
      assert i < z ==> c[i..z] == [c[i]] + c[i + 1..z];
    }
  }

  /** The corrected smallToBig yields exactly the elements, in ascending order. */
  lemma SmallToBigHidingYields(c: seq<int>)
    requires Chain(c)
    ensures AheadHiding(c, FirstListEl(c, IndexOf(c, 0))) == Stored(c)
  {
    var z := IndexOf(c, 0);
    SentinelIsOnlyZero(c);
    FirstFromSentinel(c, z, z);
    StoredFacts(c);
    if z > 0 {
      AheadHidingFrom(c, z, 0);
      assert c[0..z] == c[..z];
    } else if |c| > 1 {
      AheadHidingFrom(c, z, 1);
    }
  }

  /** bigToSmall's next() hiding the sentinel also when it is the leftmost node: cache moves past any 0. */
  function RetreatHiding(c: seq<int>, i: nat): (j: int)
    requires i < |c|
    ensures -1 <= j < i
  {
    var j := if i == 0 then -1 else i - 1;
    if j != -1 && c[j] == 0 then j - 1 else j
  }

  /** The values the corrected bigToSmall still yields from position i. */
  function BehindHiding(c: seq<int>, i: int): seq<int>
    requires -1 <= i < |c|
    decreases i + 1
  {
    if i == -1 then [] else [c[i]] + BehindHiding(c, RetreatHiding(c, i))
  }

  /** The corrected bigToSmall starts at the rightmost node, or left of it when that is the sentinel. */
  function StartHiding(c: seq<int>): (i: int)
    requires |c| > 0
    ensures -1 <= i < |c|
  {
    var last := LastListEl(c, 0);
    if c[last] == 0 then last - 1 else last
  }

  lemma {:induction false} BehindHidingFrom(c: seq<int>, z: int, i: nat)
    requires ZeroOnlyAt(c, z) && i < |c| && i != z
    ensures i < z ==> BehindHiding(c, i) == Reversed(c[..i + 1])
    ensures i > z ==> BehindHiding(c, i) == Reversed(c[..z] + c[z + 1..i + 1])
    decreases i
  {
    var j := RetreatHiding(c, i);
    var s := if i < z then c[..i + 1] else c[..z] + c[z + 1..i + 1];
    assert s != [] && s[|s| - 1] == c[i];
    if i == 0 {
      assert j == -1 && s == [c[0]];
    } else if i - 1 == z {
      assert j == z - 1;
      assert s[..|s| - 1] == c[..z];
      if z > 0 {
        BehindHidingFrom(c, z, j);
        assert c[..j + 1] == c[..z];
      }
    } else {
      assert c[i - 1] != 0 && j == i - 1;
      BehindHidingFrom(c, z, j);
      if i < z {
        assert s[..|s| - 1] == c[..i];
      } else {
        assert s[..|s| - 1] == c[..z] + c[z + 1..j + 1];
      }
    }
  }

  /** The corrected bigToSmall from its start: the node values reversed, without the sentinel. */
  lemma BehindHidingFromStart(c: seq<int>, z: int)
    requires ZeroOnlyAt(c, z)
    ensures BehindHiding(c, StartHiding(c)) == Reversed(c[..z] + c[z + 1..])
  {
    var last := |c| - 1;
    if z < last {
      BehindHidingFrom(c, z, last);
      assert c[z + 1..last + 1] == c[z + 1..];
    } else if z > 0 {
      BehindHidingFrom(c, z, z - 1);
      assert c[..z - 1 + 1] == c[..z] == c[..z] + c[z + 1..];
    } else {
      assert c[..z] + c[z + 1..] == [];
    }
  }

  /** The corrected bigToSmall yields exactly the elements, in descending order. */
  lemma BigToSmallHidingYields(c: seq<int>)
    requires Chain(c)
    ensures BehindHiding(c, StartHiding(c)) == Reversed(Stored(c))
  {
    var z := IndexOf(c, 0);
    SentinelIsOnlyZero(c);
    assert Stored(c) == c[..z] + c[z + 1..];
    BehindHidingFromStart(c, z);
  }
}
