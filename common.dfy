/** Small datatypes shared by the whole model. */
module Common {

  /** A value that may be absent: a Java `null` or a Ruby `nil` on the other side. */
  datatype Option<+T> = None | Some(value: T)

  /** The outcome of an operation that may raise: the value, or what was raised. */
  datatype Result<+R, +E> = Success(value: R) | Failure(error: E)

  /** No element occurs twice in `s`. */
  predicate Distinct<T(==)>(s: seq<T>)
  {
    forall i, j :: 0 <= i < j < |s| ==> s[i] != s[j]
  }
}
