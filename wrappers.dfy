/** The Option type used for every operation that the
    source lets raise: a `None` stands for any exception it would throw. */
module Wrappers {

  datatype Option<+T> = None | Some(value: T)
}
