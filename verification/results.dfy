/** Failure-compatible wrappers used throughout the model.

    Python's exceptions become `Err` values: a failure of one step is
    propagated with `:-` exactly as an exception unwinds to the nearest
    handler, and the handler itself becomes a `match` on the result.
 */
module Results {

  /** A value that may be absent, such as a JSON key that is missing. */
  datatype Option<+T> = None | Some(value: T) {

    predicate IsFailure() {
      None?
    }

    function PropagateFailure<U>(): Option<U>
      requires None?
    {
      None
    }

    function Extract(): T
      requires Some?
    {
      value
    }
  }

  /** The outcome of a step that may raise. */
  datatype Result<+T, +E> = Ok(value: T) | Err(error: E) {

    predicate IsFailure() {
      Err?
    }

    function PropagateFailure<U>(): Result<U, E>
      requires Err?
    {
      Err(error)
    }

    function Extract(): T
      requires Ok?
    {
      value
    }
  }

  /** A loop that applies a raising step to every element in order: the
      results in order when no step raises, otherwise the error of the first
      step that does, with the later elements never reached. */
  function Traverse<T, U, E>(xs: seq<T>, f: T -> Result<U, E>): (r: Result<seq<U>, E>)
    ensures r.Ok? <==> forall i :: 0 <= i < |xs| ==> f(xs[i]).Ok?
    ensures r.Ok? ==> |r.value| == |xs| && forall i :: 0 <= i < |xs| ==> f(xs[i]) == Ok(r.value[i])
    ensures r.Err? ==> exists i :: && 0 <= i < |xs|
                                   && (forall j :: 0 <= j < i ==> f(xs[j]).Ok?)
                                   && f(xs[i]) == Err(r.error)
  {
    if |xs| == 0 then Ok([])
    else
      match f(xs[0])
      case Err(e) => Err(e)
      case Ok(y) =>
        var tail := xs[1..];
        assert forall i :: 1 <= i < |xs| ==> tail[i - 1] == xs[i];
        match Traverse(tail, f)
        case Err(e) =>
          assert exists i :: && 0 <= i < |xs|
                             && (forall j :: 0 <= j < i ==> f(xs[j]).Ok?)
                             && f(xs[i]) == Err(e) by {
            var k :| && 0 <= k < |tail|
                     && (forall j :: 0 <= j < k ==> f(tail[j]).Ok?)
                     && f(tail[k]) == Err(e);
            assert forall j :: 0 <= j < k + 1 ==> f(xs[j]).Ok?;
            assert f(xs[k + 1]) == Err(e);
          }
          Err(e)
        case Ok(ys) =>
          var all := [y] + ys;
          assert forall i :: 1 <= i < |xs| ==> all[i] == ys[i - 1];
          Ok(all)
  }
}
