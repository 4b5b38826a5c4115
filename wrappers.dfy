/** The optional value of TypeScript's `string | null` and of "maybe a result". */
module Wrappers {
  datatype Option<+T> = None | Some(value: T)
}
