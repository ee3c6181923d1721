/** Result shapes shared by every component model. */
module Common {
  datatype Option<+T> = None | Some(value: T)

  datatype Result<+T, +E> = Success(value: T) | Failure(error: E)

  /** Two sequences of which one starts with the other. */
  ghost predicate IsPrefix<T>(shorter: seq<T>, longer: seq<T>) {
    |shorter| <= |longer| && longer[..|shorter|] == shorter
  }
}
