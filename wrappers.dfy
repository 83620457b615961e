/** The optional value shared by the queue and the container models. */
module Wrappers {

  datatype Option<T> = None | Some(value: T)

}
