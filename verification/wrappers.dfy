/** Failure-carrying datatypes shared by every module of the model.
    `Option` stands for a value that may be NaN or missing in the analysis
    tables; `Result` stands for an operation that may abort the script
    (an exception, a `sys.exit`, a `SystemExit`). */
module Wrappers {

  datatype Option<+T> = None | Some(value: T) {
    function GetOr(default: T): T {
      match this
      case Some(v) => v
      case None => default
    }
  }

  /** `Failure` carries the diagnostic the script would print or raise. */
  datatype Result<+R> = Success(value: R) | Failure(error: string) {
    predicate IsFailure() {
      Failure?
    }

    function PropagateFailure<U>(): Result<U>
      requires Failure?
    {
      Failure(error)
    }

    function Extract(): R
      requires Success?
    {
      value
    }
  }

  /** The present values of `s`, in order. */
  function Somes<T(==,!new)>(s: seq<Option<T>>): (r: seq<T>)
    ensures |r| <= |s|
    ensures forall a :: a in r <==> Some(a) in s
  {
    if |s| == 0 then []
    else
      var n := |s| - 1;
      var front := Somes(s[..n]);
      assert forall x :: x in s <==> x in s[..n] || x == s[n] by {
        assert s == s[..n] + [s[n]];
      }
      if s[n].Some? then front + [s[n].value] else front
  }
}
