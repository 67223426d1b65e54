/** Buffer-mode Encrypt and Decrypt as functions of their inputs, and the
    properties of the on-wire format they produce. */
module Buffers {
  import opened Types
  import opened Gcm
  import opened Chunks
  import opened Workers
  import opened Pipeline

  /** What crypto/rand yields for the chunk at each position; None is a failed read. */
  type NonceSource = nat -> Option<Nonce>

  /** The encrypt worker, drawing the nonce for the chunk's position: it keeps the
      position, and fails exactly when that draw fails. */
  function Sealer(aead: Aead, key: seq<byte>, nonces: NonceSource): (t: DataChunk -> Result<DataChunk>)
    ensures forall c: DataChunk :: t(c).Success? ==> t(c).value.position == c.position
    ensures forall c: DataChunk :: t(c).Success? <==> nonces(c.position).Some?
    ensures forall c: DataChunk :: t(c).Failure? ==> t(c).error == NonceGenerationFailed
  {
    assert forall c: DataChunk :: SealChunk(aead, key, nonces(c.position), c).Success? <==> nonces(c.position).Some?;
    (c: DataChunk) => SealChunk(aead, key, nonces(c.position), c)
  }

  /** The decrypt worker: it keeps the position, and rejects a payload too short for a nonce. */
  function Opener(aead: Aead, key: seq<byte>): (t: DataChunk -> Result<DataChunk>)
    ensures forall c: DataChunk :: t(c).Success? ==> t(c).value.position == c.position
    ensures forall c: DataChunk :: |c.data| < NONCE_SIZE ==> t(c) == Failure(ChunkTooSmall)
    ensures forall c: DataChunk :: t(c).Failure? ==> t(c).error == ChunkTooSmall || t(c).error == AuthenticationFailed
  {
    (c: DataChunk) => OpenChunk(aead, key, c)
  }

  /** Cypher.Encrypt: the cipher must accept the key; then each chunk of `chunkSize`
      bytes becomes `nonce ++ seal(chunk)`, all of them concatenated in position order.
      The only failures are a rejected key and a failed nonce draw. */
  function EncryptBuffer(aead: Aead, key: seq<byte>, chunkSize: nat, nonces: NonceSource, data: seq<byte>)
    : (r: Result<seq<byte>>)
    requires chunkSize > 0
    ensures !ValidKeyLength(|key|) ==> r == Failure(CipherSetupFailed)
    ensures ValidKeyLength(|key|) && r.Failure? ==> r.error == NonceGenerationFailed
  {
    if !ValidKeyLength(|key|) then Failure(CipherSetupFailed)
    else
      match TransformAll(Sealer(aead, key, nonces), Tagged(Chunked(data, chunkSize)))
      case Failure(e) => Failure(e)
      case Success(pieces) => Success(Concat(pieces))
  }

  /** Cypher.Decrypt: the input is cut at EncryptedChunkSize(chunkSize) boundaries and
      every piece is opened; the plaintexts are concatenated in position order. With an
      accepted key the only failures are a too-short piece and a failed authentication. */
  function DecryptBuffer(aead: Aead, key: seq<byte>, chunkSize: int, data: seq<byte>): (r: Result<seq<byte>>)
    requires EncryptedChunkSize(chunkSize) > 0
    ensures !ValidKeyLength(|key|) ==> r == Failure(CipherSetupFailed)
    ensures ValidKeyLength(|key|) && r.Failure? ==> r.error == ChunkTooSmall || r.error == AuthenticationFailed
  {
    if !ValidKeyLength(|key|) then Failure(CipherSetupFailed)
    else
      match TransformAll(Opener(aead, key), Tagged(Chunked(data, EncryptedChunkSize(chunkSize) as nat)))
      case Failure(e) => Failure(e)
      case Success(pieces) => Success(Concat(pieces))
  }

  /** Empty input gives empty output and no error, in both directions. */
  lemma EmptyBuffer(aead: Aead, key: seq<byte>, chunkSize: nat, nonces: NonceSource)
    requires chunkSize > 0 && ValidKeyLength(|key|)
    ensures EncryptBuffer(aead, key, chunkSize, nonces, []) == Success([])
    ensures DecryptBuffer(aead, key, chunkSize, []) == Success([])
  {
  }

  /** Encryption fails exactly when the key is rejected or a nonce draw fails for one
      of the chunks. */
  lemma EncryptSucceedsIff(aead: Aead, key: seq<byte>, chunkSize: nat, nonces: NonceSource, data: seq<byte>)
    requires chunkSize > 0
    ensures EncryptBuffer(aead, key, chunkSize, nonces, data).Success? <==>
      ValidKeyLength(|key|) && forall k :: 0 <= k < NumChunks(|data|, chunkSize) ==> nonces(k).Some?
  {
    ChunkCount(data, chunkSize);
    var chunks := Tagged(Chunked(data, chunkSize));
    forall k | 0 <= k < |chunks|
      ensures Sealer(aead, key, nonces)(chunks[k]).Success? <==> nonces(k).Some?
    {
      assert chunks[k].position == k;
    }
  }

  /** Pieces that are each `extra` bytes longer than a well-formed split are a
      well-formed split at `size + extra`. */
  lemma WellChunkedGrow(plain: seq<seq<byte>>, pieces: seq<seq<byte>>, size: nat, extra: nat)
    requires WellChunked(plain, size) && |pieces| == |plain|
    requires forall k :: 0 <= k < |pieces| ==> |pieces[k]| == |plain[k]| + extra
    ensures WellChunked(pieces, size + extra)
  {
  }

  /** The encrypted pieces: one per plaintext chunk, each the nonce plus the sealed
      chunk, so every piece but the last is EncryptedChunkSize(chunkSize) bytes. */
  lemma SealedPieces(aead: Aead, key: seq<byte>, chunkSize: nat, nonces: NonceSource, data: seq<byte>)
    requires chunkSize > 0 && SealLength(aead)
    requires TransformAll(Sealer(aead, key, nonces), Tagged(Chunked(data, chunkSize))).Success?
    ensures var pieces := TransformAll(Sealer(aead, key, nonces), Tagged(Chunked(data, chunkSize))).value;
      && |pieces| == NumChunks(|data|, chunkSize)
      && (forall k :: 0 <= k < |pieces| ==>
            |pieces[k]| == |Chunked(data, chunkSize)[k]| + NONCE_SIZE + OVERHEAD)
      && WellChunked(pieces, EncryptedChunkSize(chunkSize) as nat)
  {
    var plain := Chunked(data, chunkSize);
    var sealer := Sealer(aead, key, nonces);
    var pieces := TransformAll(sealer, Tagged(plain)).value;
    ChunkCount(data, chunkSize);
    ChunkedShape(data, chunkSize);
    forall k | 0 <= k < |pieces|
      ensures |pieces[k]| == |plain[k]| + (NONCE_SIZE + OVERHEAD)
    {
      var c := Tagged(plain)[k];
      assert c == DataChunk(plain[k], k);
      assert sealer(c) == SealChunk(aead, key, nonces(k), c);
    }
    WellChunkedGrow(plain, pieces, chunkSize, NONCE_SIZE + OVERHEAD);
  }

  lemma {:induction false} ConcatLength(pieces: seq<seq<byte>>, plain: seq<seq<byte>>, extra: nat)
    requires |pieces| == |plain|
    requires forall k :: 0 <= k < |pieces| ==> |pieces[k]| == |plain[k]| + extra
    ensures |Concat(pieces)| == |Concat(plain)| + |plain| * extra
    decreases |pieces|
  {
    if |pieces| > 0 {
      ConcatLength(pieces[1..], plain[1..], extra);
      assert |plain| * extra == extra + (|plain| - 1) * extra;
    }
  }

  /** The ciphertext is the plaintext plus NONCE_SIZE + OVERHEAD bytes per chunk. */
  lemma EncryptedLength(aead: Aead, key: seq<byte>, chunkSize: nat, nonces: NonceSource, data: seq<byte>)
    requires chunkSize > 0 && SealLength(aead)
    requires EncryptBuffer(aead, key, chunkSize, nonces, data).Success?
    ensures |EncryptBuffer(aead, key, chunkSize, nonces, data).value|
         == |data| + NumChunks(|data|, chunkSize) * (NONCE_SIZE + OVERHEAD)
  {
    var plain := Chunked(data, chunkSize);
    var pieces := TransformAll(Sealer(aead, key, nonces), Tagged(plain)).value;
    SealedPieces(aead, key, chunkSize, nonces, data);
    ChunkCount(data, chunkSize);
    ConcatLength(pieces, plain, NONCE_SIZE + OVERHEAD);
    ConcatChunked(data, chunkSize);
  }

  /** Re-cutting the ciphertext at EncryptedChunkSize(chunkSize) recovers the pieces. */
  lemma ResplitSealed(aead: Aead, key: seq<byte>, chunkSize: nat, nonces: NonceSource, data: seq<byte>)
    requires chunkSize > 0 && SealLength(aead)
    requires EncryptBuffer(aead, key, chunkSize, nonces, data).Success?
    ensures Chunked(EncryptBuffer(aead, key, chunkSize, nonces, data).value, EncryptedChunkSize(chunkSize) as nat)
         == TransformAll(Sealer(aead, key, nonces), Tagged(Chunked(data, chunkSize))).value
  {
    SealedPieces(aead, key, chunkSize, nonces, data);
    var pieces := TransformAll(Sealer(aead, key, nonces), Tagged(Chunked(data, chunkSize))).value;
    ChunkedOfConcat(pieces, EncryptedChunkSize(chunkSize) as nat);
  }

  /** Decrypt(Encrypt(d)) == d for every buffer d, chunk size and successful nonce draws. */
  lemma RoundTrip(aead: Aead, key: seq<byte>, chunkSize: nat, nonces: NonceSource, data: seq<byte>)
    requires chunkSize > 0 && Sound(aead)
    requires EncryptBuffer(aead, key, chunkSize, nonces, data).Success?
    ensures DecryptBuffer(aead, key, chunkSize, EncryptBuffer(aead, key, chunkSize, nonces, data).value)
         == Success(data)
  {
    var plain := Chunked(data, chunkSize);
    var sealer, opener := Sealer(aead, key, nonces), Opener(aead, key);
    var pieces := TransformAll(sealer, Tagged(plain)).value;
    ResplitSealed(aead, key, chunkSize, nonces, data);
    var decrypted := TransformAll(opener, Tagged(pieces));
    forall k | 0 <= k < |pieces|
      ensures opener(Tagged(pieces)[k]) == Success(DataChunk(plain[k], k))
    {
      var chunk := Tagged(plain)[k];
      assert chunk == DataChunk(plain[k], k);
      assert sealer(chunk) == SealChunk(aead, key, nonces(k), chunk);
      assert sealer(chunk).Success?;
      var nonce := nonces(k).value;
      assert SealChunk(aead, key, Some(nonce), chunk).value == DataChunk(pieces[k], k);
      OpenSealedChunk(aead, key, nonce, chunk);
    }
    assert decrypted.value == plain;
    ConcatChunked(data, chunkSize);
  }

  /** A non-empty buffer shorter than a nonce cannot hold even one chunk's nonce. */
  lemma DecryptRejectsShortInput(aead: Aead, key: seq<byte>, chunkSize: int, data: seq<byte>)
    requires EncryptedChunkSize(chunkSize) > 0 && ValidKeyLength(|key|)
    requires 0 < |data| < NONCE_SIZE
    ensures DecryptBuffer(aead, key, chunkSize, data) == Failure(ChunkTooSmall)
  {
    var size := EncryptedChunkSize(chunkSize) as nat;
    var first := Chunked(data, size)[0];
    assert |first| <= |data| by {
      if |data| > size {
        assert first == data[..size];
      }
    }
    assert Tagged(Chunked(data, size))[0] == DataChunk(first, 0);
  }
}
