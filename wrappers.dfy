/** The optional value a tag's attribute lookup yields: the `href` of an
    element, or nothing when the element has none. */
module Wrappers {
  datatype Option<+T> = None | Some(value: T)
}
