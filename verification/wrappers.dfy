/** The usual optional-value datatype, used for absent environment values and search results. */
module Wrappers {

  datatype Option<+T> = None | Some(value: T)

}
