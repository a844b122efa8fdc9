/** Java's int type and arithmetic, Integer.toString and String.hashCode. */
module JavaInt {
  import opened Decimal

  const IntMin: int := -0x8000_0000
  const IntMax: int := 0x7fff_ffff

  /** A Java int. */
  type Int32 = x: int | IntMin <= x <= IntMax

  /** Java int arithmetic: the value reduced modulo 2^32 into [Integer.MIN_VALUE, Integer.MAX_VALUE]. */
  function Wrap32(x: int): (r: int)
    ensures IntMin <= r <= IntMax
    ensures IntMin <= x <= IntMax ==> r == x
  {
    var y := x + 0x8000_0000;
    if 0 <= y < 0x1_0000_0000 then x
    else y % 0x1_0000_0000 - 0x8000_0000
  }

  /** Integer.toString: a minus sign for negative values, then the decimal digits. */
  function IntString(x: int): (s: string)
    ensures |s| > 0
  {
    if x < 0 then "-" + NatString(-x) else NatString(x)
  }

  /** String.hashCode: h = 31 * h + c over the characters, in int arithmetic. */
  function StringHash(s: string): (h: int)
    ensures IntMin <= h <= IntMax
  {
    if s == [] then 0 else Wrap32(31 * StringHash(s[..|s| - 1]) + s[|s| - 1] as int)
  }

  /** The range Integer.valueOf serves from its cache, so that equal values there box to the same object. */
  const IntegerCacheLow: int := -128
  const IntegerCacheHigh: int := 127

  /**
   * `!=` on two Integers boxed from a and b compares references: boxes of equal values are the
   * same object only inside Integer.valueOf's cache.
   */
  predicate BoxedDiffer(a: int, b: int)
  {
    a != b || !(IntegerCacheLow <= a <= IntegerCacheHigh)
  }

  /** Every value lies in Integer.valueOf's cache. */
  ghost predicate AllCached(s: seq<int>)
  {
    forall i :: 0 <= i < |s| ==> IntegerCacheLow <= s[i] <= IntegerCacheHigh
  }
}
