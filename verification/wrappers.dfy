/** Optional values, used where the firmware either produces something or nothing. */
module Wrappers {

  datatype Option<+T> = None | Some(value: T)
}
