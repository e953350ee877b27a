/** Stock optional-value wrapper, used for the nullable arguments of the source. */
module Wrappers {

  datatype Option<+T> = None | Some(value: T)

}
