/** Result and option types shared by every module: the source's raised
    exceptions become `Err`, its `None` results become `None`. */
module Wrappers {
  datatype Option<+T> = None | Some(value: T)

  datatype Result<+T, +E> = Ok(value: T) | Err(error: E)
}
