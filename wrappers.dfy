/** Option and result types shared by every module of the model. */
module Wrappers {

  /** A value that may be absent; models a nullable Java reference. */
  datatype Option<+T> = None | Some(value: T)

  /** The exceptions the modelled Java code can throw. */
  datatype Exception =
    | NullPointer       // a null reference was dereferenced
    | IllegalArgument   // IllegalArgumentException
    | AssertionFailure  // Assert.assertTrue found its condition false
    | BrokenChain       // RuntimeException: an Else/Elif chain does not end in an If
    | WrongTime         // WrongTimeException: node does not exist at the requested time
    | IndexOutOfBounds  // list or array index out of range
    | NumberFormat      // Integer.parseInt rejected its argument
    | NullFormula       // a missing direct formula entered a clause list
    | ClassCast         // ClassCastException: a value was not of the expected class

  /** Either a normal result or the exception that ended the computation. */
  datatype Result<+T> = Ok(value: T) | Err(error: Exception)
}
