/** Failure-carrying values used in place of Java's null and exceptions, and
    the one fact about sequences that several modules lean on. */
module Wrappers {

  /** A value that may be absent (Java's null or an empty Optional). */
  datatype Option<+T> = None | Some(value: T)

  /** A value, or the failure that a Java method would have thrown instead. */
  datatype Result<+T, +E> = Ok(value: T) | Err(error: E)

  /** The outcome of a void Java method: it returned, or it threw. */
  datatype Outcome<+E> = Pass | Fail(error: E)

  /** Concatenation regroups freely. */
  lemma ConcatAssociative<T>(a: seq<T>, b: seq<T>, c: seq<T>)
    ensures a + (b + c) == (a + b) + c
  {
  }
}
