/** Option and Result, the shapes the scripts' "None" returns and raised
    exceptions take in this model. */
module Wrappers {

  datatype Option<+T> = None | Some(value: T)

  datatype Result<+R, +E> = Ok(value: R) | Err(error: E)
}
