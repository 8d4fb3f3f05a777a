/** Option and Result wrappers for the pipeline's failure paths: a pandas or
    Flask call that raises becomes an `Err` carrying the error it raises. */
module Outcomes {

  datatype Option<T> = None | Some(value: T)

  /** The exceptions the modelled code can raise. */
  datatype Error =
    | KeyError(column: string)            // a column that the frame does not have
    | MergeError(message: string)         // a join whose cardinality or column names are refused
    | ParseError(position: nat)           // a Date string that does not match `%Y-%m-%d`
    | CastError(position: nat)            // `astype(int)` on a value it cannot convert
    | TypeError(message: string)          // an operator applied to values of the wrong kind
    | ValueError(message: string)         // a constructor given arguments of the wrong shape
    | AttributeError(message: string)     // an accessor the column's dtype does not offer

  datatype Result<T> = Ok(value: T) | Err(error: Error) {
    predicate IsFailure() {
      Err?
    }

    function PropagateFailure<U>(): Result<U>
      requires Err?
    {
      Err(error)
    }

    function Extract(): T
      requires Ok?
    {
      value
    }
  }

  /** Applies `f` to each element with its position, front to back, as a
      vectorised pandas operation does; the first element it refuses makes the
      whole operation fail with that element's error. */
  function MapAll<A, B>(xs: seq<A>, f: (A, nat) -> Result<B>): (r: Result<seq<B>>)
    ensures r.Ok? <==> forall i :: 0 <= i < |xs| ==> f(xs[i], i).Ok?
    ensures r.Ok? ==> |r.value| == |xs|
    ensures r.Ok? ==> forall i :: 0 <= i < |xs| ==> f(xs[i], i) == Ok(r.value[i])
    ensures r.Err? ==> exists i :: 0 <= i < |xs| && f(xs[i], i) == Err(r.error) && forall k :: 0 <= k < i ==> f(xs[k], k).Ok?
  {
    if xs == [] then Ok([])
    else
      var n := |xs| - 1;
      var init :- MapAll(xs[..n], f);
      var last :- f(xs[n], n);
      Ok(init + [last])
  }
}
