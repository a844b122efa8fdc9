/**
 * OrderedIntList of t10/05 (OrderedIntList.java): the ordered list of non-zero integers, its
 * add, remove, isIn, empty, repOk, equals and hashCode, and the smallToBig and bigToSmall
 * iterators. The linked nodes are kept as the chain of their values (see OrderedChain); the
 * object itself is the sentinel node holding 0.
 */
module OrderedIntList {
  import opened Exceptions
  import opened IntSetSpec
  import opened JavaInt
  import opened OrderedChain
  import opened OrderedWalks

  /** One step of hashCode's loop: hash = 31 + hash * x, in int arithmetic. */
  function HashStep(h: int, x: int): int
  {
    Wrap32(31 + h * x)
  }

  /** hashCode's fold of HashStep over the values yielded, from 1. */
  function ListHash(s: seq<int>): int
  {
    if s == [] then 1 else HashStep(ListHash(s[..|s| - 1]), s[|s| - 1])
  }

  lemma ListHashStep(s: seq<int>, k: int)
    requires 0 <= k < |s|
    ensures ListHash(s[..k + 1]) == HashStep(ListHash(s[..k]), s[k])
  {
    assert s[..k + 1][..k] == s[..k];
  }

  /**
   * remove(n) as written starts with isIn(n) on the sentinel, so for an absent n strictly between
   * the smallest and the largest node value it never returns: after any number of recursive calls
   * isIn is still recursing. The model's Remove uses the terminating IsIn instead.
   */
  lemma {:induction false} RemoveNeverReturns(c: seq<int>, n: int, k: nat)
    requires Chain(c) && n !in c && c[0] < n < c[|c| - 1]
    ensures IsInAfter(c, IndexOf(c, 0), n, k).Recurse?
  {
    IsInNeverAnswers(c, IndexOf(c, 0), n, k);
  }

  /**
   * What equals relies on: two lists show the same smallToBig values exactly when they store the
   * same elements, and the 0 smallToBig may add lies in the Integer cache.
   */
  lemma ShownAgree(c: seq<int>, d: seq<int>)
    requires Chain(c) && Chain(d)
    ensures ShownAscending(Stored(c)) == ShownAscending(Stored(d)) <==> Stored(c) == Stored(d)
    ensures AllCached(Stored(c)) ==> AllCached(ShownAscending(Stored(c)))
  {
    StoredFacts(c);
    StoredFacts(d);
    UnshowAscending(Stored(c));
    UnshowAscending(Stored(d));
  }

  /** Lists with the same elements have the same hashCode, as equals requires. */
  lemma EqualListsHashAlike(c: seq<int>, d: seq<int>)
    requires Chain(c) && Chain(d) && Stored(c) == Stored(d)
    ensures ListHash(Ahead(c, FirstListEl(c, IndexOf(c, 0)))) == ListHash(Ahead(d, FirstListEl(d, IndexOf(d, 0))))
  {
    SmallToBigYields(c);
    SmallToBigYields(d);
  }

  /** Whether add(n)'s call at the node at position p passes n on to a neighbour's add. */
  predicate Forwards(c: seq<int>, p: int, n: int)
    requires 0 <= p < |c|
  {
    n != c[p]
    && !(p == 0 && p == |c| - 1 && c[p] == 0)
    && ((n > c[p] && p < |c| - 1 && n >= c[p + 1]) || (n < c[p] && p > 0 && n <= c[p - 1]))
  }

  class OrderedIntList {
    /** The node values from the leftmost node to the rightmost; this object is the node holding 0. */
    var chain: seq<int>

    /** The representation invariant the linked nodes keep. */
    ghost predicate Valid()
      reads this
    {
      Chain(chain)
    }

    /** The elements in ascending order. */
    function AF(): seq<int>
      reads this
    {
      Stored(chain)
    }

    /** A new list is the lone sentinel: value 0 and no links. It is empty. */
    constructor ()
      ensures chain == [0] && Valid() && AF() == []
    {
      chain := [0];
    }

    /** empty(): this node has no links and value 0, that is, the list stores nothing. */
    method Empty() returns (b: bool)
      requires Valid()
      ensures b <==> AF() == []
    {
      var p := IndexOf(chain, 0);
      b := p == |chain| - 1 && p == 0 && chain[p] == 0;
      StoredFacts(chain);
    }

    /**
     * add(n): DuplicateException when n is already a node value (so always for 0, the sentinel's
     * value); otherwise a node for n is linked in where it keeps the chain ascending, and every
     * earlier element remains.
     */
    method Add(n: int) returns (r: Status)
      requires Valid()
      modifies this
      ensures Valid()
      ensures r.Raised? <==> n in old(AF()) || n == 0
      ensures r.Raised? ==> r.error == DuplicateException && chain == old(chain)
      ensures r.Done? ==> |AF()| == |old(AF())| + 1 && forall x :: x in AF() <==> x in old(AF()) || x == n
    {
      StoredFacts(chain);
      var p := AddWalk(n);
      if n == chain[p] {
        return Raised(DuplicateException);
      }
      var k;
      if p == 0 && p == |chain| - 1 && chain[p] == 0 {
        // insertion into the empty list, on the side of 0 the sign of n calls for
        k := if n > 0 then 1 else 0;
      } else if n > chain[p] && p == |chain| - 1 {
        // insertion at the right end
        k := p + 1;
      } else if n < chain[p] && p == 0 {
        // insertion at the left end
        k := 0;
      } else if n > chain[p] {
        // insertion between this node and its right neighbour
        k := p + 1;
      } else {
        // insertion between this node and its left neighbour
        k := p;
      }
      LinkAt(k, n);
      return Done;
    }

    /** Links a new node for n in at position k, between a smaller and a larger neighbour. */
    method LinkAt(k: int, n: int)
      requires Valid() && 0 <= k <= |chain|
      requires k > 0 ==> chain[k - 1] < n
      requires k < |chain| ==> n < chain[k]
      modifies this
      ensures Valid() && chain == Spliced(old(chain), k, n) && n !in old(chain)
      ensures |AF()| == |old(AF())| + 1 && forall x :: x in AF() <==> x in old(AF()) || x == n
    {
      StoredFacts(chain);
      SplicedAscending(chain, k, n);
      SplicedMembers(chain, k, n);
      chain := Spliced(chain, k, n);
      StoredFacts(chain);
    }

    /** The recursive calls of add(n): from the sentinel, on to the neighbour while the node passes n on. */
    method AddWalk(n: int) returns (p: int)
      requires Valid()
      ensures 0 <= p < |chain| && !Forwards(chain, p, n)
      ensures n > 0 ==> IndexOf(chain, 0) <= p && chain[p] <= n
      ensures n < 0 ==> p <= IndexOf(chain, 0) && chain[p] >= n
      ensures n == 0 ==> p == IndexOf(chain, 0)
    {
      p := IndexOf(chain, 0);
      ghost var z := p;
      while Forwards(chain, p, n)
        invariant 0 <= p < |chain|
        invariant n > 0 ==> z <= p && chain[p] <= n
        invariant n < 0 ==> p <= z && chain[p] >= n
        invariant n == 0 ==> p == z
        decreases if n > 0 then |chain| - p else p
      {
        if n > chain[p] {
          p := p + 1;
        } else {
          p := p - 1;
        }
      }
    }

    /**
     * remove(n): nothing changes when n is not stored; otherwise the walk reaches n's node and
     * unlinks it, so n is gone and every other element remains. The presence test is the
     * terminating IsIn; with the source's isIn an absent n between the ends never returns
     * (RemoveNeverReturns).
     */
    method Remove(n: int)
      requires Valid()
      modifies this
      ensures Valid()
      ensures n !in old(AF()) ==> chain == old(chain)
      ensures n in old(AF()) ==> |AF()| == |old(AF())| - 1
      ensures forall x :: x in AF() <==> x in old(AF()) && x != n
    {
      StoredFacts(chain);
      var present := IsIn(n);
      if !present {
        return;
      }
      var p := IndexOf(chain, 0);
      ghost var i := IndexOf(chain, n);
      ghost var z := p;
      while chain[p] != n
        invariant 0 <= p < |chain| && chain == old(chain)
        invariant z <= p <= i || i <= p <= z
        decreases if p < i then i - p else p - i
      {
        assert (p < i ==> chain[p] < chain[i]) && (i < p ==> chain[i] < chain[p]);
        if chain[p] > n {
          p := p - 1;
        } else {
          p := p + 1;
        }
      }
      // whichever neighbours the node has, relinking them around it takes n out of the chain
      UnlinkedFacts(chain, p);
      chain := chain[..p] + chain[p + 1..];
      StoredFacts(chain);
    }

    /**
     * isIn(n) as it is evidently meant: the walk goes from the sentinel in n's direction and stops
     * at the last node not beyond n; n is stored iff that node holds it. The source's walk turns
     * back from a node beyond n and then never returns (IsInNeverAnswers).
     */
    method IsIn(n: int) returns (b: bool)
      requires Valid()
      ensures b <==> n in AF()
    {
      StoredFacts(chain);
      if n == 0 {
        return false;
      }
      var p;
      if n > 0 {
        p := WalkUp(n);
      } else {
        p := WalkDown(n);
      }
      b := chain[p] == n;
    }

    /** The walk of isIn for n > 0: right from the sentinel while the next node is not beyond n. */
    method WalkUp(n: int) returns (p: int)
      requires Valid() && n > 0
      ensures 0 <= p < |chain| && (n in chain ==> chain[p] == n)
    {
      p := IndexOf(chain, 0);
      ghost var z := p;
      while p < |chain| - 1 && chain[p + 1] <= n
        invariant z <= p < |chain| && chain[p] <= n
        decreases |chain| - p
      {
        p := p + 1;
      }
    }

    /** The walk of isIn for n < 0: left from the sentinel while the previous node is not beyond n. */
    method WalkDown(n: int) returns (p: int)
      requires Valid() && n < 0
      ensures 0 <= p < |chain| && (n in chain ==> chain[p] == n)
    {
      p := IndexOf(chain, 0);
      ghost var z := p;
      while p > 0 && chain[p - 1] >= n
        invariant 0 <= p <= z && chain[p] >= n
        decreases p
      {
        p := p - 1;
      }
    }

    /** repOk() on the sentinel: a node with no neighbours must hold 0, which the chain always meets. */
    method RepOk() returns (ok: bool)
      requires Valid()
      ensures ok
      ensures |chain| == 1 ==> chain == [0]
    {
      var p := IndexOf(chain, 0);
      ok := !(p == 0 && p == |chain| - 1 && chain[p] != 0);
    }

    /** smallToBig(): an iterator whose cache starts at firstListEl(); it yields ShownAscending of the elements. */
    method SmallToBig() returns (it: SmallToBigIterator)
      requires Valid()
      ensures fresh(it) && it.owner == this && it.Valid()
      ensures it.Yet() == ShownAscending(AF())
    {
      it := new SmallToBigIterator(this);
      SmallToBigYields(chain);
    }

    /** bigToSmall(): an iterator whose cache starts at lastListEl(); it yields ShownDescending of the elements. */
    method BigToSmall() returns (it: BigToSmallIterator)
      requires Valid()
      ensures fresh(it) && it.owner == this && it.Valid()
      ensures it.Yet() == ShownDescending(AF())
    {
      it := new BigToSmallIterator(this);
      BigToSmallYields(chain);
    }

    /**
     * equals: walks both smallToBig iterators in step and fails at the first pair of boxed values
     * that `!=` tells apart. It holds only for lists with the same elements, and it holds for
     * those whenever their elements lie in Integer.valueOf's cache.
     */
    method Equals(other: OrderedIntList) returns (b: bool)
      requires Valid() && other.Valid()
      ensures b ==> AF() == other.AF()
      ensures AF() == other.AF() && AllCached(AF()) ==> b
    {
      var stb := SmallToBig();
      var mstb := other.SmallToBig();
      ShownAgree(chain, other.chain);
      b := InStep(stb, mstb);
    }

    /** hashCode: hash = 31 + hash * x over what smallToBig yields. */
    method HashCode() returns (h: int)
      requires Valid()
      ensures h == ListHash(ShownAscending(AF()))
    {
      var stb := SmallToBig();
      ghost var xs := stb.Yet();
      ghost var k := 0;
      h := 1;
      var more := stb.HasNext();
      while more
        invariant stb.Valid() && stb.owner == this && chain == old(chain)
        invariant 0 <= k <= |xs| && stb.Yet() == xs[k..] && h == ListHash(xs[..k])
        invariant more <==> k < |xs|
        decreases |xs| - k
      {
        var x := stb.Next();
        ListHashStep(xs, k);
        h := HashStep(h, x.value);
        k := k + 1;
        more := stb.HasNext();
      }
      assert xs[..k] == xs;
    }
  }

  /**
   * The loop of equals: while either iterator has a next value, both must have one and their
   * boxed values must not differ. It succeeds only on equal sequences, and on every pair of
   * equal sequences of cached values.
   */
  method InStep(stb: SmallToBigIterator, mstb: SmallToBigIterator) returns (b: bool)
    requires stb != mstb && stb.Valid() && mstb.Valid()
    modifies stb, mstb
    ensures b ==> old(stb.Yet()) == old(mstb.Yet())
    ensures old(stb.Yet()) == old(mstb.Yet()) && AllCached(old(stb.Yet())) ==> b
  {
    ghost var same := stb.Yet() == mstb.Yet() && AllCached(stb.Yet());
    var a := stb.HasNext();
    var c := mstb.HasNext();
    while a || c
      invariant stb.Valid() && mstb.Valid()
      invariant stb.Yet() == mstb.Yet() ==> old(stb.Yet()) == old(mstb.Yet())
      invariant same ==> stb.Yet() == mstb.Yet() && AllCached(stb.Yet())
      invariant (a <==> stb.Yet() != []) && (c <==> mstb.Yet() != [])
      decreases |stb.Yet()|
    {
      if !a || !c {
        return false;
      }
      ghost var s, t := stb.Yet(), mstb.Yet();
      var y := mstb.Next();
      var x := stb.Next();
      assert x.value == s[0] && y.value == t[0];
      if BoxedDiffer(y.value, x.value) {
        assert !same;
        return false;
      }
      assert s == [s[0]] + stb.Yet() && t == [t[0]] + mstb.Yet();
      a := stb.HasNext();
      c := mstb.HasNext();
    }
    return true;
  }

  /** The iterator smallToBig() returns. */
  class SmallToBigIterator {
    const owner: OrderedIntList
    /** The position of the cached node in owner's chain; -1 for null. */
    var cache: int

    ghost predicate Valid()
      reads this, owner
    {
      -1 <= cache < |owner.chain|
    }

    /** The values still to come. */
    ghost function Yet(): seq<int>
      requires Valid()
      reads this, owner
    {
      Ahead(owner.chain, cache)
    }

    constructor (owner: OrderedIntList)
      requires owner.Valid()
      ensures this.owner == owner && Valid()
      ensures cache == FirstListEl(owner.chain, IndexOf(owner.chain, 0))
    {
      this.owner := owner;
      cache := FirstListEl(owner.chain, IndexOf(owner.chain, 0));
    }

    /** hasNext(): a node is cached, that is, values are still to come. */
    method HasNext() returns (b: bool)
      requires Valid()
      ensures b <==> Yet() != []
    {
      b := cache != -1;
    }

    /** next(): the cached value, after which the cache moves right (past a 0 that has a right neighbour). */
    method Next() returns (r: Result<int>)
      requires Valid()
      modifies this
      ensures Valid()
      ensures old(Yet()) == [] ==> r == Err(NoSuchElementException) && cache == old(cache)
      ensures old(Yet()) != [] ==> r == Ok(old(Yet())[0]) && Yet() == old(Yet())[1..]
    {
      var more := HasNext();
      if !more {
        return Err(NoSuchElementException);
      }
      var c := owner.chain;
      var n := c[cache];
      cache := if cache == |c| - 1 then -1 else cache + 1;
      if cache != -1 && c[cache] == 0 && cache != |c| - 1 {
        cache := cache + 1;
      }
      return Ok(n);
    }
  }

  /** The iterator bigToSmall() returns. */
  class BigToSmallIterator {
    const owner: OrderedIntList
    /** The position of the cached node in owner's chain; -1 for null. */
    var cache: int

    ghost predicate Valid()
      reads this, owner
    {
      -1 <= cache < |owner.chain|
    }

    /** The values still to come. */
    ghost function Yet(): seq<int>
      requires Valid()
      reads this, owner
    {
      Behind(owner.chain, cache)
    }

    constructor (owner: OrderedIntList)
      requires owner.Valid()
      ensures this.owner == owner && Valid()
      ensures cache == LastListEl(owner.chain, IndexOf(owner.chain, 0))
    {
      this.owner := owner;
      cache := LastListEl(owner.chain, IndexOf(owner.chain, 0));
    }

    /** hasNext(): a node is cached and it is not a 0 without left neighbour. */
    method HasNext() returns (b: bool)
      requires Valid()
      ensures b <==> Yet() != []
    {
      if cache != -1 && owner.chain[cache] == 0 && cache == 0 {
        return false;
      }
      b := cache != -1;
    }

    /** next(): the cached value, after which the cache moves left (past a 0 that has a left neighbour). */
    method Next() returns (r: Result<int>)
      requires Valid()
      modifies this
      ensures Valid()
      ensures old(Yet()) == [] ==> r == Err(NoSuchElementException) && cache == old(cache)
      ensures old(Yet()) != [] ==> r == Ok(old(Yet())[0]) && Yet() == old(Yet())[1..]
    {
      var more := HasNext();
      if !more {
        return Err(NoSuchElementException);
      }
      var c := owner.chain;
      var n := c[cache];
      cache := if cache == 0 then -1 else cache - 1;
      if cache != -1 && c[cache] == 0 && cache != 0 {
        cache := cache - 1;
      }
      return Ok(n);
    }
  }
}
