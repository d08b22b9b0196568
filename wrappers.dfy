/** Absence made explicit: the `null` the builder uses for an empty slot,
    an unset hook and a panel the factory could not create. */
module Wrappers {

  datatype Option<+T> = None | Some(value: T)
}
