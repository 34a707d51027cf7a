/** Optional values, used for "no match here" and for request fields that did
    not decode to the expected kind of value. */
module Wrappers {

  datatype Option<+T> = None | Some(value: T)

}
