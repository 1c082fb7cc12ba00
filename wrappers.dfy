/** The Option type used for partial results (a regular-expression match that
    may be absent, a conversion that may fail). */
module Wrappers {

  datatype Option<+T> = None | Some(value: T)

}
