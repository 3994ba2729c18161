/** Option, used wherever the source has a value that may be missing
    (`undefined`, `null`, `NaN`). */
module Wrappers {

  datatype Option<+T> = None | Some(value: T)

}
