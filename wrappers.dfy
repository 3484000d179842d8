/** The usual optional-value datatype, used for "found / not found" and
    "parsed / no numeric prefix" outcomes. */
module Wrappers {

  datatype Option<+T> = None | Some(value: T)
}
