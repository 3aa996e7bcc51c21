/** Error values and the failure-carrying wrappers shared by every module.
    A Go `error` that is nil is `Pass`; a non-nil one is `Fail(e)`. */
module Errors {

  datatype Error =
    | InvalidByte(c: char)       // encoding/hex: a character that is not a hex digit
    | ErrLength                  // encoding/hex: odd-length input
    | IndexOutOfRange            // runtime panic: more hex pairs than the 20-byte destination holds
    | EOF                        // io.EOF: the cursor has no more rows
    | ReferenceNotFound          // plumbing.ErrReferenceNotFound
    | InvalidType                // plumbing.ErrInvalidType: a stored type tag that is neither "hash" nor "symbol"
    | ConcurrentModification     // "reference has changed concurrently"
    | IoError                    // any error reported by the database driver

  datatype Option<+T> = None | Some(value: T)

  datatype Result<+T> = Ok(value: T) | Err(error: Error)

  datatype Outcome = Pass | Fail(error: Error)
}
