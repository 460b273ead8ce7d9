/** Failure-compatible result types shared by the model. */
module Wrappers {

  datatype Option<+T> = None | Some(value: T)

  /** The exceptions the scripts can raise on the paths that are modelled. */
  datatype Error =
    | ValueError(text: string)   // int() given a string that is not a decimal integer
    | KeyError(column: string)   // a data frame indexed by a column it does not have

  datatype Result<+T> = Ok(value: T) | Err(error: Error)
}
