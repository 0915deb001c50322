/** Results and the error codes of littlefs/lfs.h that the model returns. */
module Wrappers {

  datatype Option<+T> = None | Some(value: T)

  datatype Error = NoEnt | NoSpace | Corrupt | TooBig | Invalid | NotDir | NotFlushed | IO

  datatype Result<+T> = Ok(value: T) | Err(error: Error)

  // How stored bytes compare with given ones.
  datatype Order = EQ | LT | GT
}
