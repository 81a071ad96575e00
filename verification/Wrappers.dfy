/** The two failure-carrying datatypes every other module uses, and a name under which facts are kept closed. */
module Wrappers {

  datatype Option<+T> = None | Some(value: T)

  datatype Result<+T, +E> = Ok(value: T) | Err(error: E)
  {
    predicate IsFailure() { Err? }

    function PropagateFailure<U>(): Result<U, E>
      requires Err?
    {
      Err(error)
    }

    function Extract(): T
      requires Ok?
    {
      value
    }
  }

  /** Facts stated under it are looked into only where a proof says so; always true. */
  predicate LookInto(u: nat) { true }
}
