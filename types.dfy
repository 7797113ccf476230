/** Values shared by every part of the model: Go strings as byte sequences,
    the error values the code returns, and the Result/Outcome wrappers that
    stand for Go's `(value, error)` and `error` returns. */
module Types {

  newtype byte = x: int | 0 <= x < 256

  /** A Go `string` is an immutable sequence of bytes. */
  type Bytes = seq<byte>

  datatype Option<+T> = None | Some(value: T)

  /** Every error the core can return. `NoDocuments` is the driver's
      `mongo.ErrNoDocuments`; `InvalidToken` and `DocumentNotFound` are the
      two sentinels of the store package; `TokenRejected` is what token
      parsing returns for a bad signature, an expired claim set or a
      malformed token; `MalformedJson` is a request body that does not
      decode. */
  datatype Error =
    | HashFailed
    | SignFailed
    | TokenRejected
    | CorruptBase64
    | InvalidHex
    | NoDocuments
    | InvalidToken
    | DocumentNotFound
    | InsertFailed
    | MalformedJson

  /** Go's `(T, error)` return. */
  datatype Result<+T> = Ok(value: T) | Err(error: Error)

  /** Go's bare `error` return: `Pass` is `nil`. */
  datatype Outcome = Pass | Fail(error: Error)
}
