/** The optional value used wherever the file browser has an `Option`, or a
    `Result` whose error detail the model does not keep. */
module Wrappers {

  datatype Option<T> = None | Some(value: T)
}
