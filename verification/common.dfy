/** Small shared vocabulary: optional values, results with an error, and bytes. */
module Common {

  /** An optional value; `None` stands for Python's `None`. */
  datatype Option<+T> = None | Some(value: T)

  /** Either a value or an error, in place of a raised exception. */
  datatype Result<+T, +E> = Success(value: T) | Failure(error: E)

  /** One octet of a `bytes` object. */
  type byte = b: int | 0 <= b < 256
}
