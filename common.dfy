/** Shared value types: bytes, optional values, results and the error kinds of the journal. */
module Common {

  /** One octet of a file's contents. */
  type byte = x: int | 0 <= x < 256

  datatype Option<+T> = None | Some(value: T) {
    function GetOr(default: T): T {
      match this
      case Some(v) => v
      case None => default
    }
  }

  datatype Result<+T> = Ok(value: T) | Err(error: Error)

  /** The exceptions the modelled code can raise or catch. */
  datatype Error =
    | ConfigurationError   // `.config` cannot be read as text or parsed as JSON
    | InvalidToken         // Fernet rejected the token: wrong key, tampered or not a token
    | DecodeError          // bytes that are not valid UTF-8 where text is expected
    | EditorFailed         // the editor process failed (a non-zero exit of emacsclient)
}
