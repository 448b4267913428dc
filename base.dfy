/** Small value types shared by the other modules. */
module Base {

  /** One byte of a bitmap payload. */
  type Byte = b: int | 0 <= b < 256

  datatype Option<+T> = None | Some(value: T)

  /** The outcome of an operation that the source lets raise. */
  datatype Result<+R, +E> = Success(value: R) | Failure(error: E)

  /** The elements of `s` are in strictly ascending order (hence also duplicate-free). */
  predicate StrictlyAscending(s: seq<int>)
  {
    forall i, j :: 0 <= i < j < |s| ==> s[i] < s[j]
  }
}
