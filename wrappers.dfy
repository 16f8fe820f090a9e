/** The optional value used for C#'s null results and for parses that can fail. */
module Wrappers {

  datatype Option<T> = None | Some(value: T)
}
