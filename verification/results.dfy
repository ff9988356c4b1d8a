/** Failure-carrying values shared by the list and the allocator. */
module Results {

  /** A present or absent value (a search that may find nothing). */
  datatype Option<T> = None | Some(value: T)

  /** The two exception kinds the list and the allocator raise: the
      out-of-range / not-found errors are IllegalArgumentException, and a
      dereference of a null link is a NullPointerException. */
  datatype Error = IllegalArgument | NullPointer

  /** The outcome of an operation that may throw instead of returning. */
  datatype Result<T> = Ok(value: T) | Err(error: Error)
}
