/** Wrapper used across the model for values that may be absent (a missing query parameter, a date
    string that does not parse, a user id that is not in the session). */
module Wrappers {

  datatype Option<+T> = None | Some(value: T)
}
