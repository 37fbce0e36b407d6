/** Result types shared by every module. An `Err` stands for the source's thrown error class. */
module Prelude {

  datatype Option<+T> = None | Some(value: T)

  datatype Error =
    | Validation
    | NotFound
    | Conflict
    | BookRouting
    | PeriodClosed
    | Unbalanced
    | Immutable
    | UnsupportedCurrency

  datatype Result<+T> = Ok(value: T) | Err(error: Error) {

    predicate IsFailure() {
      Err?
    }

    function PropagateFailure<U>(): Result<U>
      requires Err?
    {
      Err(error)
    }

    function Extract(): T
      requires Ok?
    {
      value
    }
  }

  /** Counters are JavaScript numbers: beyond this they no longer count by one. */
  const MAX_SAFE_INTEGER: nat := 9007199254740991

  /** The first position that satisfies the predicate: what every indexed lookup of a row becomes. */
  function Find<T>(s: seq<T>, p: T -> bool): (r: Option<nat>)
    ensures r.Some? ==> r.value < |s| && p(s[r.value]) && forall i :: 0 <= i < r.value ==> !p(s[i])
    ensures r.None? ==> forall i :: 0 <= i < |s| ==> !p(s[i])
  {
    if s == [] then None
    else match Find(s[..|s| - 1], p)
      case Some(i) => Some(i)
      case None => if p(s[|s| - 1]) then Some(|s| - 1) else None
  }
}
