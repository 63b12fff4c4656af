/** The optional value used for "no reply arrived" and for a
    `struct tm` that may be absent (`current` before any query). */
module Wrappers {

  datatype Option<+T> = None | Some(value: T)
}
