/** Rust's Option, shared by the board's getters, the glyph parser and the
    mouse-to-cell mapping. */
module Wrappers {

  datatype Option<T> = None | Some(value: T)
}
