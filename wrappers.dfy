/** The optional value used where the source has a nullable result (`HashMap.get`, `String.toInt`). */
module Wrappers {

  datatype Option<+T> = None | Some(value: T)

}
