/** The nullable values of the front end (`string | null`) as an Option. */
module Wrappers {

  datatype Option<+T> = None | Some(value: T)
}
