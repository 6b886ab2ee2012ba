/** The optional value used wherever the source may produce nothing
    (a page that could not be fetched, a match that raised) */
module Wrappers {

  datatype Option<+T> = None | Some(value: T)
}
