/** The per-chunk bodies of encryptWorker and decryptWorker. */
module Workers {
  import opened Types
  import opened Gcm
  import opened Chunks

  /** The size of one full encrypted chunk: nonce, sealed payload and tag. */
  function EncryptedChunkSize(chunkSize: int): int {
    chunkSize + NONCE_SIZE + OVERHEAD
  }

  /** encryptWorker on one chunk: the drawn nonce followed by the sealed payload,
      at the same position; a failed nonce draw is an error and emits nothing. */
  function SealChunk(aead: Aead, key: seq<byte>, nonce: Option<Nonce>, chunk: DataChunk): (r: Result<DataChunk>)
    ensures r.Success? <==> nonce.Some?
    ensures r.Failure? ==> r.error == NonceGenerationFailed
    ensures r.Success? ==> r.value.position == chunk.position
    ensures r.Success? ==> |r.value.data| >= NONCE_SIZE && r.value.data[..NONCE_SIZE] == nonce.value
    ensures r.Success? && SealLength(aead) ==> |r.value.data| == |chunk.data| + NONCE_SIZE + OVERHEAD
  {
    match nonce
    case None => Failure(NonceGenerationFailed)
    case Some(n) => Success(DataChunk(n + aead.seal(key, n, chunk.data), chunk.position))
  }

  /** The decrypt side's view of a payload: the first NONCE_SIZE bytes are the
      nonce and the rest is the ciphertext with its tag. */
  function SplitNonce(payload: seq<byte>): (parts: (Nonce, seq<byte>))
    requires |payload| >= NONCE_SIZE
    ensures parts.0 + parts.1 == payload
    ensures |parts.1| == |payload| - NONCE_SIZE
  {
    (payload[..NONCE_SIZE], payload[NONCE_SIZE..])
  }

  /** decryptWorker on one chunk: a payload shorter than a nonce is rejected,
      otherwise the plaintext is exactly what `open` authenticated, at the same position. */
  function OpenChunk(aead: Aead, key: seq<byte>, chunk: DataChunk): (r: Result<DataChunk>)
    ensures |chunk.data| < NONCE_SIZE ==> r == Failure(ChunkTooSmall)
    ensures r.Failure? ==> r.error == ChunkTooSmall || r.error == AuthenticationFailed
    ensures r.Success? ==> r.value.position == chunk.position
    ensures r.Success? <==>
      |chunk.data| >= NONCE_SIZE && aead.open(key, chunk.data[..NONCE_SIZE], chunk.data[NONCE_SIZE..]).Some?
    ensures r.Success? ==>
      aead.open(key, chunk.data[..NONCE_SIZE], chunk.data[NONCE_SIZE..]) == Some(r.value.data)
  {
    if |chunk.data| < NONCE_SIZE then
      Failure(ChunkTooSmall)
    else
      var (nonce, ciphertext) := SplitNonce(chunk.data);
      match aead.open(key, nonce, ciphertext)
      case None => Failure(AuthenticationFailed)
      case Some(plaintext) => Success(DataChunk(plaintext, chunk.position))
  }

  /** Opening a sealed chunk under the same key gives the original chunk back. */
  lemma OpenSealedChunk(aead: Aead, key: seq<byte>, nonce: Nonce, chunk: DataChunk)
    requires OpenInvertsSeal(aead)
    ensures OpenChunk(aead, key, SealChunk(aead, key, Some(nonce), chunk).value) == Success(chunk)
  {
    var sealed := SealChunk(aead, key, Some(nonce), chunk).value.data;
    assert sealed[..NONCE_SIZE] == nonce;
    assert sealed[NONCE_SIZE..] == aead.seal(key, nonce, chunk.data);
  }

  /** A full plaintext chunk seals to exactly EncryptedChunkSize(chunkSize) bytes, the
      stride at which decryption cuts its input. */
  lemma SealedFullChunkSize(aead: Aead, key: seq<byte>, nonce: Nonce, chunk: DataChunk, chunkSize: int)
    requires SealLength(aead) && |chunk.data| == chunkSize
    ensures |SealChunk(aead, key, Some(nonce), chunk).value.data| == EncryptedChunkSize(chunkSize)
  {
  }
}
