/**
 * Option and Result, the shapes of std::optional and std::expected used
 * across the kernel, and the bookkeeping step of loops that append.
 */
module Wrappers {

  /** std::optional: either no value or one value. */
  datatype Option<+T> = None | Some(value: T)

  /** std::expected: a value, or an error message describing why there is none. */
  datatype Result<+T, +E> = Success(value: T) | Failure(error: E)

  /** Moving the head of what is left onto what is done keeps their concatenation. */
  lemma MoveHead<T>(done: seq<T>, left: seq<T>, head: seq<T>, rest: seq<T>, whole: seq<T>)
    requires done + left == whole && left == head + rest
    ensures (done + head) + rest == whole
  {
  }
}
