/** The crate's error type (`src/error.rs`). */
module Errors {

  import opened Utf8

  /** `std::env::VarError`: a variable that is absent, or present but not valid text. */
  datatype EnvVarError = NotPresent | NotUnicode(value: Bytes)

  /**
    `Error::FromUtf8Error` keeps the bytes that failed to decode; `Error::VarError` wraps an
    `EnvVarError`. Nothing on the token path builds a `VarError`.
  */
  datatype Error = FromUtf8Error(bytes: Bytes) | VarError(cause: EnvVarError)
}
