/** Small failure-carrying datatypes shared by the other modules. */
module Wrappers {

  /** A value or its absence; `None` stands for a C# `null` reference. */
  datatype Option<+T> = None | Some(value: T)

  /** The exceptions the modelled code can throw. */
  datatype Error = ArgumentOutOfRange

  /** Either the value a C# method returns or the exception it throws. */
  datatype Result<+T> = Success(value: T) | Failure(error: Error)
}
