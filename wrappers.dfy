/** The conventional optional value: a provider call that failed, a file that
    could not be read, a JSON null. */
module Wrappers {

  datatype Option<+T> = None | Some(value: T)
}
