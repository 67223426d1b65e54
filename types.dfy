/** Value types shared by every stage of the chunked AES-GCM pipeline. */
module Types {

  /** One octet of a Go `[]byte`. */
  type byte = b: int | 0 <= b < 256

  datatype Option<+T> = None | Some(value: T)

  /** The ways a pipeline run can fail (each is fatal to the run). */
  datatype Error =
    | CipherSetupFailed       // aes.NewCipher rejected the key ("failed to create cipher")
    | NonceGenerationFailed   // crypto/rand could not fill a nonce ("failed to generate nonce")
    | ChunkTooSmall           // encrypted chunk shorter than the nonce ("encrypted chunk too small")
    | AuthenticationFailed    // gcm.Open rejected the chunk ("failed to decrypt chunk")

  /** The `(value, error)` pair a Go function returns. */
  datatype Result<+T> = Success(value: T) | Failure(error: Error)
}
