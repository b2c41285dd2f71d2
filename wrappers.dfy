/** The optional value used wherever the site's code returns `null` or reads a possibly missing field. */
module Wrappers {

  datatype Option<+T> = None | Some(value: T)
}
