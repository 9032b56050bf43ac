/** The optional value returned by the parsers that invert the renderings. */
module Wrappers {

  datatype Option<+T> = None | Some(value: T)
}
