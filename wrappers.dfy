/** Option, the value-or-nothing type used for absent payloads, missing
    layouts and JavaScript's `undefined` / `null`. */
module Wrappers {

  datatype Option<+T> = None | Some(value: T)
}
