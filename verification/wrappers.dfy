/** Failure-carrying datatypes shared by every module of the model.

    The source is Python and reports failures by raising exceptions; a
    `Result` is the value of an expression that either produces a value or
    raises. `Error` names the exception (and, where the source writes its own
    message, that message).
 */
module Wrappers {

  datatype Option<+T> = None | Some(value: T)

  /** The exceptions the modelled code can raise. */
  datatype Error =
    /** `raise ValueError(message)` written in the source itself */
    | ValueError(message: string)
    /** `int(text)` rejecting its argument (a ValueError in Python) */
    | InvalidLiteral(text: string)
    /** a tuple unpacking `a, b, c, d = parts` with the wrong number of parts */
    | UnpackMismatch(expected: nat, got: nat)
    /** `max()` of an empty sequence */
    | EmptyMax
    /** subscripting a list outside its bounds (an IndexError) */
    | IndexOutOfRange
    /** `x % 0` */
    | ZeroDivision
    /** `raise FileNotFoundError(message)` */
    | FileNotFound(message: string)
    /** `model_validate_json` rejecting its input (pydantic's ValidationError) */
    | InvalidJson(text: string)
    /** a loop of the source that can never leave (it would hang) */
    | NeverTerminates

  datatype Result<+T> = Ok(value: T) | Err(error: Error) {
    predicate IsFailure() {
      Err?
    }

    function PropagateFailure<U>(): Result<U>
      requires Err?
    {
      Err(error)
    }

    function Extract(): T
      requires Ok?
    {
      value
    }
  }

  /** The values of `rs` in order, or the first error among them: a loop
      whose body may raise, run over results that do not depend on one
      another. */
  function Collect<T>(rs: seq<Result<T>>): (r: Result<seq<T>>)
    ensures r.Ok? <==> forall k :: 0 <= k < |rs| ==> rs[k].Ok?
    ensures r.Ok? ==> |r.value| == |rs| && forall k :: 0 <= k < |rs| ==> r.value[k] == rs[k].value
    ensures r.Err? ==> exists k :: 0 <= k < |rs| && rs[k] == Err(r.error) && forall j :: 0 <= j < k ==> rs[j].Ok?
  {
    if |rs| == 0 then Ok([])
    else if rs[0].Err? then Err(rs[0].error)
    else
      var rest := Collect(rs[1..]);
      assert forall k :: 1 <= k < |rs| ==> rs[k] == rs[1..][k - 1];
      if rest.Err? then
        var k :| 0 <= k < |rs| - 1 && rs[1..][k] == Err(rest.error) && forall j :: 0 <= j < k ==> rs[1..][j].Ok?;
        assert rs[k + 1] == Err(rest.error);
        rest
      else Ok([rs[0].value] + rest.value)
  }

  /** The elements of `[x] + s` after the first are those of `s`, one
      place further on. */
  lemma ConsIndex<T>(x: T, s: seq<T>)
    ensures |[x] + s| == |s| + 1 && ([x] + s)[0] == x
    ensures forall k :: 0 <= k < |s| ==> ([x] + s)[k + 1] == s[k]
  {
  }
}
