/** The optional value the itinerary engine uses where the PHP source returns `false`. */
module Wrappers {
  datatype Option<+T> = None | Some(value: T)
}
