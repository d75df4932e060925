/** The optional value used for `number | null` state and for regular-expression matches. */
module Wrappers {

  datatype Option<+T> = None | Some(value: T)
}
