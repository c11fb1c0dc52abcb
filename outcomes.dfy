/** Option and result types shared by the model: `null` references and thrown exceptions of the
    original code are values of these types. */
module Outcomes {

  /** A reference that may be `null`. */
  datatype Option<T> = None | Some(value: T)

  /** The reasons an operation of the model fails instead of completing. */
  datatype Fault =
    | IllegalArgument     // an IllegalArgumentException thrown by a setter or a validation
    | NullPointer         // a NullPointerException thrown by the code as written

  /** The outcome of an operation that returns nothing but may throw. */
  datatype Outcome = Pass | Fail(fault: Fault)

  /** The outcome of an operation that returns a value but may throw. */
  datatype Result<T> = Ok(value: T) | Err(fault: Fault)

  /** An element of a non-empty set. Loops that visit a hash set or a hash map in its own order
      call this before picking the next element with `:|`, so that the choice has a witness. */
  lemma Element<T>(s: set<T>) returns (x: T)
    requires s != {}
    ensures x in s
  {
    if forall y :: y !in s {
      assert false;
    }
    x :| x in s;
  }
}
