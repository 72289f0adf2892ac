/** A result type standing in for the Java exceptions the core can raise. */
module Wrappers {

  /** The exceptions the modelled Java code can throw. */
  datatype Failure =
    | IndexOutOfBounds   // List.get or List.subList with an index outside the list
    | IllegalArgument    // Random.nextInt(0): a bound that is not positive

  datatype Option<+T> = None | Some(value: T)

  datatype Result<+T> = Ok(value: T) | Err(error: Failure)
}
