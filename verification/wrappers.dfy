/** Failure-compatible Option and Result datatypes used throughout the model. */
module Wrappers {

  /** An optional value: Python's `None` or a present value. */
  datatype Option<+T> = None | Some(value: T) {

    predicate IsFailure() {
      None?
    }

    function PropagateFailure<U>(): Option<U>
      requires None?
    {
      None
    }

    function Extract(): T
      requires Some?
    {
      value
    }
  }

  /** A computation that either produces a value or raises an error. */
  datatype Result<+T, +E> = Success(value: T) | Failure(error: E) {

    predicate IsFailure() {
      Failure?
    }

    function PropagateFailure<U>(): Result<U, E>
      requires Failure?
    {
      Failure(error)
    }

    function Extract(): T
      requires Success?
    {
      value
    }
  }

  /** Two steps that each collect a list, one after the other: the first
      error ends the run, otherwise both lists are kept in order. */
  function Then<T, E>(x: Result<seq<T>, E>, y: Result<seq<T>, E>): (r: Result<seq<T>, E>)
    ensures r.Success? <==> x.Success? && y.Success?
    ensures r.Success? ==> r.value == x.value + y.value
    ensures x.Failure? ==> r == x
    ensures x.Success? && y.Failure? ==> r == y
  {
    match x
    case Failure(e) => Failure(e)
    case Success(xs) =>
      match y
      case Failure(e) => Failure(e)
      case Success(ys) => Success(xs + ys)
  }

  lemma ThenAssociative<T, E>(x: Result<seq<T>, E>, y: Result<seq<T>, E>, z: Result<seq<T>, E>)
    ensures Then(x, Then(y, z)) == Then(Then(x, y), z)
  {
    if x.Success? && y.Success? && z.Success? {
      assert x.value + (y.value + z.value) == (x.value + y.value) + z.value;
    }
  }

  lemma ThenUnit<T, E>(y: Result<seq<T>, E>)
    ensures Then(Success([]), y) == y
  {
    if y.Success? {
      assert [] + y.value == y.value;
    }
  }
}
