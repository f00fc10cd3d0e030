/** The optional value used wherever the engine has a nullable pointer or an
    `Option`. */
module Wrappers {

  datatype Option<+T> = None | Some(value: T)
}
