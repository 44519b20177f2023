/** The value or the error of a fallible operation. */
module Results {

  datatype Result<+T, +E> = Ok(value: T) | Err(error: E) {
    predicate IsFailure() { Err? }
    function PropagateFailure<U>(): Result<U, E>
      requires Err?
    {
      Err(error)
    }
    function Extract(): T
      requires Ok?
    {
      value
    }
  }

  /** What a loop that pushes to an output vector ends with, given what the rest ends with. */
  function Prepend<T, E>(out: seq<T>, r: Result<seq<T>, E>): Result<seq<T>, E> {
    if r.Ok? then Ok(out + r.value) else r
  }

  lemma PrependNone<T, E>(r: Result<seq<T>, E>)
    ensures Prepend([], r) == r
  {
    if r.Ok? { assert [] + r.value == r.value; }
  }

  lemma PrependOne<T, E>(out: seq<T>, x: T, r: Result<seq<T>, E>)
    ensures Prepend(out + [x], r) == Prepend(out, Prepend([x], r))
  {
    if r.Ok? { assert (out + [x]) + r.value == out + ([x] + r.value); }
  }
}

/** Operations that can also abort their caller. */
module Outcomes {

  /** `Panic` stands for a failed slice or unwrap. */
  datatype Outcome<+T, +E> = Ok(value: T) | Err(error: E) | Panic
}
