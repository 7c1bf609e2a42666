/** Optional values: a JavaScript value that may be `undefined`/`null`, or a
    decoding that may fail. */
module Wrappers {

  datatype Option<+T> = None | Some(value: T)

}
