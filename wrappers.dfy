/** The optional value used for absent DOM lookups and JavaScript `undefined` arguments. */
module Wrappers {

  datatype Option<+T> = None | Some(value: T)
}
