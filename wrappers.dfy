/** The optional value used wherever the analyzer can come back empty-handed:
    a parse that fails, a key that is absent, an event that does not qualify. */
module Wrappers {

  datatype Option<+T> = None | Some(value: T)
}
