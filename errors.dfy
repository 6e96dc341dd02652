/** Error values and the result shapes shared by every package of the token library. */
module Errors {

  /** The error values the library distinguishes. Errors produced by code that is not
      part of this model (a locker, the AEAD, the ASN.1 codec) are `Foreign`, carrying an
      opaque code, so that passing such an error on "unchanged" can be stated. */
  datatype Error =
    | ErrExpired             // "token expired": plaintoken and token each declare their own
                             // value; merged on purpose, as no caller compares the two
    | ErrPayloadRepeated     // plaintoken.NewWithTime: more than one payload argument
    | ErrInvalidDataLength   // plaintoken.Unmarshal: fewer than 8 bytes
    | ErrInvalidSize         // token.ErrInvalidSize: ciphertext shorter than a nonce
    | ErrBadKeyLength        // chacha20poly1305.New: key is not KeySize bytes long
    | ErrEOF                 // io.ReadFull: the random source gave no byte at all
    | ErrUnexpectedEOF       // io.ReadFull: the random source gave some bytes, not enough
    | ErrDecrypt             // symmetrictoken.ErrDecrypt
    | ErrUnmarshal           // symmetrictoken.ErrUnmarshal
    | Foreign(code: nat)

  datatype Option<+T> = None | Some(value: T)

  /** A Go `(value, error)` return where exactly one half is meaningful. */
  datatype Result<+T> = Success(value: T) | Failure(error: Error)

  /** A Go `(*Token, error)` return where both halves may be present at once:
      an expired token is handed back together with its error. */
  datatype Reply<+T> = Reply(token: Option<T>, err: Option<Error>)
}
