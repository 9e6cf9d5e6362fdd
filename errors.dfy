/** Failures the library raises, as values. */
module Errors {

  /** The exceptions of the library, each with what it reports. */
  datatype Error =
    | UnknownAlias(name: string)   // ValueError from ComponentType.get_from_name
    | InvalidShape(length: nat)    // the length assertion in Component.create
    | IndexOutOfRange(index: int)  // IndexError; the index is kept by the model, not by Python
    | EmptyArgument                // ValueError from min()/max() over no values

  /** Either a value or the error that was raised instead. */
  datatype Result<+T> = Success(value: T) | Failure(error: Error)

  /** An argument that may be left out (Python's None). */
  datatype Option<+T> = None | Some(value: T)
}
