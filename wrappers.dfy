/** The optional value shared by the glyph and map-file modules. */
module Wrappers {

  datatype Option<T> = None | Some(value: T)
}
