/** The Option type used for every "value or nothing" outcome of the model. */
module Wrappers {

  datatype Option<+T> = None | Some(value: T)

}
