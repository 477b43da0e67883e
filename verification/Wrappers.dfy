module Wrappers {
  datatype Option<+T> = None | Some(value: T)

  function ValueOr<T>(o: Option<T>, d: T): T {
    if o.Some? then o.value else d
  }
}
