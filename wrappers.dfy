/** The optional result that the codecs return where the source returns a null `std::unique_ptr`. */
module Wrappers {
  datatype Option<T> = None | Some(value: T)
}
