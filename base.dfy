/** Small value types shared by the other modules. */
module Base {

  /** A value that may be absent: JavaScript's `null` / `undefined`. */
  datatype Option<T> = None | Some(value: T)

  /** The outcome of an operation that may throw: `Failure` carries the error. */
  datatype Result<T, E> = Success(value: T) | Failure(error: E)

  /** One element of a `Uint8Array`. */
  newtype Byte = b: int | 0 <= b < 256

  /** The contents of a `Uint8Array`. */
  type Bytes = seq<Byte>
}
