/// Option and Outcome types for the kernel's invalid results and exceptions.
module Wrappers {

  datatype Option<T> = None | Some(value: T)

  /// The exceptions the kernel throws, as values.
  datatype Error =
    | AllocationError   // AllocationException: the index type is exhausted
    | TopologyError     // TopologyException: a face cannot be added
    | InvalidInputError // InvalidInputException: the algorithm's precondition

  datatype Outcome<T> = Ok(value: T) | Fail(error: Error)
  {
    predicate IsFailure() { this.Fail? }
  }
}
