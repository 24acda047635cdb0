/** Return types shared by the matrix and vector operations and their inverses. */
module Results {

  /** The one failure the core reports: the operands of a product do not fit together. */
  datatype Failure = InvalidMatrixSize

  /** Success with a value, or a failure; the counterpart of a fallible return. */
  datatype Result<T> = Ok(value: T) | Err(error: Failure)

  /** A value that may be absent, returned by the parsers that invert the formatting. */
  datatype Option<T> = None | Some(value: T)

  /** Applies a partial conversion to every element; absent as soon as one conversion is. */
  function MapAll<A, B>(f: A -> Option<B>, xs: seq<A>): Option<seq<B>>
  {
    if |xs| == 0 then Some([])
    else match f(xs[0])
      case None => None
      case Some(y) =>
        match MapAll(f, xs[1..])
        case None => None
        case Some(ys) => Some([y] + ys)
  }

  /** When every conversion succeeds, the results come back in order. */
  lemma {:induction false} MapAllSome<A, B>(f: A -> Option<B>, xs: seq<A>, ys: seq<B>)
    requires |xs| == |ys|
    requires forall k :: 0 <= k < |xs| ==> f(xs[k]) == Some(ys[k])
    ensures MapAll(f, xs) == Some(ys)
  {
    if |xs| > 0 {
      MapAllSome(f, xs[1..], ys[1..]);
      assert [ys[0]] + ys[1..] == ys;
    }
  }
}
