/** Failure-compatible wrappers used throughout the model: a value that may be
    missing is an Option, and an operation that may raise is a Result whose
    failure carries the error it raised. */
module Results {

  datatype Option<+T> = None | Some(value: T)

  datatype Result<+T, +E> = Ok(value: T) | Err(error: E) {

    predicate IsFailure() {
      Err?
    }

    function PropagateFailure<U>(): Result<U, E>
      requires Err?
    {
      Err(error)
    }

    function Extract(): T
      requires Ok?
    {
      value
    }
  }

  /** Runs a fixed list of steps in list order and stops at the first one that
      fails, as a run of Python statements does when one of them raises:
      either every step succeeded and their values are collected in order, or
      the error reported is that of the earliest failing step. */
  function AllOrFirstError<T, E>(steps: seq<Result<T, E>>): (r: Result<seq<T>, E>)
    ensures r.Ok? <==> forall i :: 0 <= i < |steps| ==> steps[i].Ok?
    ensures r.Ok? ==> |r.value| == |steps|
    ensures r.Ok? ==> forall i :: 0 <= i < |steps| ==> steps[i].value == r.value[i]
    ensures r.Err? ==>
      exists i :: 0 <= i < |steps| && steps[i] == Err(r.error)
                  && forall j :: 0 <= j < i ==> steps[j].Ok?
  {
    if |steps| == 0 then Ok([])
    else
      match steps[0]
      case Err(e) => Err(e)
      case Ok(v) =>
        match AllOrFirstError(steps[1..])
        case Err(e) =>
          assert forall j :: 1 <= j < |steps| ==> steps[j] == steps[1..][j - 1];
          Err(e)
        case Ok(vs) =>
          assert forall j :: 1 <= j < |steps| ==> steps[j] == steps[1..][j - 1];
          Ok([v] + vs)
  }

  /** The earliest failing step decides the error: whatever comes after it
      is never looked at. */
  lemma {:induction false} FirstFailureDecides<T, E>(steps: seq<Result<T, E>>, i: nat)
    requires i < |steps| && steps[i].Err?
    requires forall j :: 0 <= j < i ==> steps[j].Ok?
    ensures AllOrFirstError(steps) == Err(steps[i].error)
  {
    var r := AllOrFirstError(steps);
    assert r.Err?;
    var k :| 0 <= k < |steps| && steps[k] == Err(r.error)
             && forall j :: 0 <= j < k ==> steps[j].Ok?;
  }
}
