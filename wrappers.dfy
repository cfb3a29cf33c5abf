/** Optional values: a missing CSV cell, an absent input file, a coordinate that does not parse. */
module Wrappers {

  datatype Option<+T> = None | Some(value: T)

}
