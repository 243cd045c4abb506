/** Failure-carrying results shared by every module of the decoder model. */
module Wrappers {

  datatype Option<+T> = None | Some(value: T)

  /** The Python exception classes the decoder can raise. */
  datatype PyError = IndexError | ValueError | TypeError | IOError | OverflowError

  /** A value, or the exception that interrupted its computation. */
  datatype Result<+T> = Ok(value: T) | Err(error: PyError)

  /**
   * `[g(x) for x in xs[i:]]`: `g` applied to each element in order; the
   * first call that raises ends the list with its exception.
   */
  function MapOrRaise<X, Y>(g: X --> Result<Y>, xs: seq<X>, i: nat): (r: Result<seq<Y>>)
    requires i <= |xs| && forall k :: 0 <= k < |xs| ==> g.requires(xs[k])
    ensures r.Ok? ==> |r.value| == |xs| - i
    ensures r.Ok? ==> forall k :: i <= k < |xs| ==> g(xs[k]) == Ok(r.value[k - i])
    ensures r.Err? <==> exists k :: i <= k < |xs| && g(xs[k]).Err?
    decreases |xs| - i
  {
    if i == |xs| then Ok([])
    else
      match g(xs[i])
      case Err(e) => Err(e)
      case Ok(y) =>
        match MapOrRaise(g, xs, i + 1)
        case Err(e) => Err(e)
        case Ok(ys) =>
          assert forall k :: i < k < |xs| ==> g(xs[k]) == Ok(([y] + ys)[k - i]) by {
            forall k | i < k < |xs|
              ensures g(xs[k]) == Ok(([y] + ys)[k - i])
            {
              assert ([y] + ys)[k - i] == ys[k - (i + 1)];
            }
          }
          Ok([y] + ys)
  }
}
