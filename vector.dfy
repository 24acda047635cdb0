/**
 * A thin wrapper around an owned sequence of elements, and the dot product
 * computed over two of them by a multiply-accumulate loop.
 * The generic element type is modelled as `int`, its default value as 0.
 */
module Vectors {
  import opened Results

  /** A vector owns its elements and adds nothing to them. */
  datatype Vector = Vector(data: seq<int>)
  {
    /** Dereferencing gives direct access to the wrapped sequence. */
    function Deref(): seq<int>
    {
      data
    }
  }

  /** Wraps a sequence; no copy, reshape or check takes place. */
  function New(data: seq<int>): (v: Vector)
    ensures v.Deref() == data
  {
    Vector(data)
  }

  /** Every vector is the wrapping of what it dereferences to. */
  lemma NewDeref(v: Vector)
    ensures New(v.Deref()) == v
  {
  }

  /**
   * The sum of the first `n` pairwise products, accumulated from 0 and
   * added left to right in index order.
   */
  function DotPrefix(a: seq<int>, b: seq<int>, n: nat): int
    requires n <= |a| && n <= |b|
  {
    if n == 0 then 0 else DotPrefix(a, b, n - 1) + a[n - 1] * b[n - 1]
  }

  /** The dot product: as many products as `a` has elements, from 0. */
  function Dot(a: seq<int>, b: seq<int>): (r: int)
    requires |a| <= |b|
    ensures |a| == 0 ==> r == 0
  {
    DotPrefix(a, b, |a|)
  }

  /** Reference definition: the textbook sum, peeled off from the front. */
  function SumOfProducts(a: seq<int>, b: seq<int>): int
    requires |a| <= |b|
  {
    if |a| == 0 then 0 else a[0] * b[0] + SumOfProducts(a[1..], b[1..])
  }

  /**
   * The multiply-accumulate loop. Its length comes from `a` alone and `b` is
   * indexed at the same positions, so `b` must be at least as long as `a`.
   * It never fails.
   */
  method DotProduct(a: Vector, b: Vector) returns (r: Result<int>)
    requires |a.Deref()| <= |b.Deref()|
    ensures r == Ok(Dot(a.Deref(), b.Deref()))
  {
    var acc := 0;
    var i := 0;
    while i < |a.Deref()|
      invariant 0 <= i <= |a.Deref()|
      invariant acc == DotPrefix(a.Deref(), b.Deref(), i)
    {
      acc := acc + a.Deref()[i] * b.Deref()[i];
      i := i + 1;
    }
    r := Ok(acc);
  }

  /** Peeling the first product off a prefix sum of the shifted sequences. */
  lemma {:induction false} DotPrefixFront(a: seq<int>, b: seq<int>, n: nat)
    requires 0 < |a| && 0 < |b| && n < |a| && n < |b|
    ensures DotPrefix(a, b, n + 1) == a[0] * b[0] + DotPrefix(a[1..], b[1..], n)
  {
    if n > 0 {
      DotPrefixFront(a, b, n - 1);
    }
  }

  /** The left-to-right accumulation agrees with the textbook sum. */
  lemma {:induction false} DotIsSumOfProducts(a: seq<int>, b: seq<int>)
    requires |a| <= |b|
    ensures Dot(a, b) == SumOfProducts(a, b)
  {
    if |a| > 0 {
      DotPrefixFront(a, b, |a| - 1);
      DotIsSumOfProducts(a[1..], b[1..]);
    }
  }

  /** Only the first |a| elements of `b` are read. */
  lemma {:induction false} DotPrefixIgnoresTail(a: seq<int>, b: seq<int>, b': seq<int>, n: nat)
    requires n <= |a| && n <= |b| && n <= |b'| && b[..n] == b'[..n]
    ensures DotPrefix(a, b, n) == DotPrefix(a, b', n)
  {
    if n > 0 {
      assert b[n - 1] == b[..n][n - 1] == b'[n - 1];
      assert b[..n - 1] == b[..n][..n - 1] == b'[..n - 1];
      DotPrefixIgnoresTail(a, b, b', n - 1);
    }
  }

  /** The dot product does not depend on what `b` holds past the length of `a`. */
  lemma DotIgnoresTail(a: seq<int>, b: seq<int>)
    requires |a| <= |b|
    ensures Dot(a, b) == Dot(a, b[..|a|])
  {
    DotPrefixIgnoresTail(a, b, b[..|a|], |a|);
  }
}
