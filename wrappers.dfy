/** Option and Result: how the model writes a missing value and an error path. */
module Wrappers {

  /** A cell that may be missing (pandas' NaN / <NA>). */
  datatype Option<+T> = None | Some(value: T)

  /** The outcome of a step that may stop the dashboard with an error message. */
  datatype Result<+R, +E> = Success(value: R) | Failure(error: E)

  /** Steps run in order until the first that fails: all the values when none fails,
      otherwise the first error. */
  function Sequence<R, E>(steps: seq<Result<R, E>>): Result<seq<R>, E> {
    if steps == [] then Success([])
    else match steps[0]
      case Failure(e) => Failure(e)
      case Success(v) =>
        match Sequence(steps[1..])
        case Failure(e) => Failure(e)
        case Success(vs) => Success([v] + vs)
  }

  /** `Sequence` succeeds exactly when every step does, with value k the value of step k;
      otherwise its error is that of the first failing step. */
  lemma {:induction false} SequenceExactly<R, E>(steps: seq<Result<R, E>>)
    ensures var a := Sequence(steps);
      && (a.Success? <==> forall k | 0 <= k < |steps| :: steps[k].Success?)
      && (a.Success? ==>
            && |a.value| == |steps|
            && forall k | 0 <= k < |steps| :: steps[k] == Success(a.value[k]))
      && (a.Failure? ==> exists k | 0 <= k < |steps| ::
            steps[k] == Failure(a.error) && forall l | 0 <= l < k :: steps[l].Success?)
  {
    if steps != [] {
      var tail := steps[1..];
      SequenceExactly(tail);
      assert forall k | 1 <= k < |steps| :: steps[k] == tail[k - 1];
      var a := Sequence(steps);
      if steps[0].Success? && Sequence(tail).Failure? {
        var k :| 0 <= k < |tail| && tail[k] == Failure(Sequence(tail).error)
          && forall l | 0 <= l < k :: tail[l].Success?;
        assert steps[k + 1] == Failure(a.error);
      }
    }
  }
}
