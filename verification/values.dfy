/** Optional and fallible values, standing in for TypeScript's `T | null`,
    `T | undefined` and for a promise that resolves or rejects. */
module Values {

  /** A value that may be absent (`null` or `undefined` in TypeScript). */
  datatype Option<+T> = None | Some(value: T)

  /** The outcome of an operation that either returns a value or fails. */
  datatype Result<+T, +E> = Ok(value: T) | Err(reason: E)
}
