/** Small failure-carrying datatype shared by the modules of this model. */
module Wrappers {

  /** Some(v) for a value, None for its absence (a Python call that raised). */
  datatype Option<+T> = None | Some(value: T)
}
