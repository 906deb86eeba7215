/** Shared value types: optional values, the error outcomes the core can produce,
    and bytes for the UTF-8 text the article code slices. */
module Prelude {

  datatype Option<T> = None | Some(value: T)

  /** The failures the core reports. */
  datatype Error =
    | NotFound          // a query that expected a row found none
    | PermissionDenied  // "Permission denied"
    | HasChildren       // "Can't purge comment with direct children"
    | IllegalUrl        // "Illegal character in article url"

  datatype Result<T> = Ok(value: T) | Err(error: Error)

  /** One byte of a UTF-8 encoded string. */
  newtype byte = x: int | 0 <= x < 256
}
