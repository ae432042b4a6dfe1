/** Results and the error codes of crypto/src/error.rs the modelled code returns. */
module Results {
  datatype Option<+T> = None | Some(value: T)

  datatype CryptoError =
    | InvalidParams
    | InvalidPoint
    | InvalidMessageLength
    | InvalidPadding
    | KeyBinding
    | NoKey
    | Internal
    | InsufficientSeedLength
    | RandomSamplingRetriesExceeded
    | RequestTooBig
    | RngFailure
    | SignatureVerificationFailure
    | UnsupportedSecurityStrength
    | ReseedRequired

  datatype Result<+T> = Ok(value: T) | Err(error: CryptoError)
}
