/** The "maybe a record" result of nextLine and lastLine: `undefined` in
    index.js becomes None. */
module Wrappers {

  datatype Option<T> = None | Some(value: T)
}
