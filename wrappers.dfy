/**
 * The optional value shared by the date parser (a string that names no date) and the
 * plan lookup (`find` returning undefined).
 */
module Wrappers {

  datatype Option<T> = None | Some(value: T)
}
