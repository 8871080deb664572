/** The "value or nothing" result used for lookups that may find nothing
    (JavaScript's `undefined`) and for parsers and decoders that may reject
    their input. */
module Wrappers {

  datatype Option<+T> = None | Some(value: T)
}
