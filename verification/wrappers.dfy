/** Failure-carrying datatypes shared by the catalogue and product modules. */
module Wrappers {

  datatype Option<+T> = None | Some(value: T)

  datatype Result<+T, +E> = Success(value: T) | Failure(error: E)

  /** Appends the output of a later step to the output of an earlier one. The
      earlier step's failure wins; otherwise the later step's failure does. This
      is what an exception raised midway through an appending loop amounts to. */
  function AppendResult<T, E>(a: Result<seq<T>, E>, b: Result<seq<T>, E>): Result<seq<T>, E>
  {
    match a
    case Failure(e) => Failure(e)
    case Success(xs) =>
      match b
      case Failure(e) => Failure(e)
      case Success(ys) => Success(xs + ys)
  }

  /** Appending is associative, so a run of steps can be regrouped freely. */
  lemma AppendResultAssoc<T, E>(a: Result<seq<T>, E>, b: Result<seq<T>, E>, c: Result<seq<T>, E>)
    ensures AppendResult(AppendResult(a, b), c) == AppendResult(a, AppendResult(b, c))
  {
    if a.Success? && b.Success? && c.Success? {
      assert (a.value + b.value) + c.value == a.value + (b.value + c.value);
    }
  }

  /** An empty successful step is a unit on either side. */
  lemma AppendResultUnit<T, E>(a: Result<seq<T>, E>)
    ensures AppendResult(Success([]), a) == a
    ensures AppendResult(a, Success([])) == a
  {
    if a.Success? {
      assert [] + a.value == a.value;
      assert a.value + [] == a.value;
    }
  }
}
