/** The Cypher facade: configuration, its builder methods, buffer-mode Encrypt and
    Decrypt, and the output paths of the file variants. */
module CypherFacade {
  import opened Types
  import opened Gcm
  import opened Chunks
  import opened Workers
  import opened Pipeline
  import opened Buffers

  const DEFAULT_CHUNK_SIZE: int := 10 * 1024 * 1024
  const DEFAULT_NUM_WORKERS: int := 10
  const ENCRYPTED_SUFFIX: string := ".encrypted"
  const DECRYPTED_SUFFIX: string := ".decrypted"

  class Cypher {
    var key: seq<byte>
    var chunkSize: int
    var numWorkers: int
    var numCores: int

    /** NewCypher: 10 MiB chunks, 10 workers, every available core. `derivedKey` is
        the key derived from the passphrase; `maxCPUs` is the number of CPUs. */
    constructor NewCypher(derivedKey: seq<byte>, maxCPUs: int)
      ensures key == derivedKey
      ensures chunkSize == DEFAULT_CHUNK_SIZE && numWorkers == DEFAULT_NUM_WORKERS
      ensures numCores == maxCPUs
    {
      key := derivedKey;
      chunkSize := DEFAULT_CHUNK_SIZE;
      numWorkers := DEFAULT_NUM_WORKERS;
      numCores := maxCPUs;
    }

    /** Sets the core count, capped at the number of CPUs (so min(numCores, maxCPUs));
        returns the same object for chaining. */
    method WithNumCores(numCores: int, maxCPUs: int) returns (self: Cypher)
      modifies this
      ensures self == this
      ensures this.numCores <= maxCPUs && this.numCores <= numCores
      ensures this.numCores == numCores || this.numCores == maxCPUs
      ensures key == old(key) && chunkSize == old(chunkSize) && numWorkers == old(numWorkers)
    {
      var n := numCores;
      if n > maxCPUs {
        n := maxCPUs;
      }
      this.numCores := n;
      self := this;
    }

    method WithChunkSize(chunkSize: int) returns (self: Cypher)
      modifies this
      ensures self == this && this.chunkSize == chunkSize
      ensures key == old(key) && numWorkers == old(numWorkers) && numCores == old(numCores)
    {
      this.chunkSize := chunkSize;
      self := this;
    }

    method WithNumWorkers(numWorkers: int) returns (self: Cypher)
      modifies this
      ensures self == this && this.numWorkers == numWorkers
      ensures key == old(key) && chunkSize == old(chunkSize) && numCores == old(numCores)
    {
      this.numWorkers := numWorkers;
      self := this;
    }

    /** Buffer-mode encryption. Workers finish in `order`, any permutation of the chunk
        positions; the result is the same for every order. An empty buffer never reaches
        the split loop, so it succeeds whatever the chunk size and even with no workers. */
    method Encrypt(aead: Aead, nonces: NonceSource, data: seq<byte>, order: seq<nat>)
      returns (r: Result<seq<byte>>)
      requires ValidKeyLength(|key|) ==> numWorkers >= 0
      requires ValidKeyLength(|key|) && |data| > 0 ==> chunkSize > 0 && numWorkers > 0
      requires ValidKeyLength(|key|) && |data| > 0 ==> IsArrivalOrder(order, NumChunks(|data|, chunkSize))
      ensures !ValidKeyLength(|key|) ==> r == Failure(CipherSetupFailed)
      ensures chunkSize > 0 ==> r == EncryptBuffer(aead, key, chunkSize, nonces, data)
      ensures |data| == 0 ==> r == if ValidKeyLength(|key|) then Success([]) else Failure(CipherSetupFailed)
    {
      if !ValidKeyLength(|key|) {
        return Failure(CipherSetupFailed);
      }
      if |data| == 0 {
        return Success([]);
      }
      var chunks := Split(data, chunkSize);
      var sealer := Sealer(aead, key, nonces);
      forall k | 0 <= k < |chunks|
        ensures sealer(chunks[k]).Success? ==> sealer(chunks[k]).value.position == k
        ensures sealer(chunks[k]).Failure? ==> sealer(chunks[k]).error == NonceGenerationFailed
      {
        assert sealer(chunks[k]) == SealChunk(aead, key, nonces(chunks[k].position), chunks[k]);
      }
      var collector;
      r, collector := Run(sealer, chunks, order);
    }

    /** Buffer-mode decryption. It succeeds exactly when the reference does, with the same
        plaintext; on failure the error is that of some chunk whose worker failed (which
        one depends on the order in which workers finish). An empty buffer succeeds with
        an empty result whatever the chunk size and even with no workers. */
    method Decrypt(aead: Aead, data: seq<byte>, order: seq<nat>) returns (r: Result<seq<byte>>)
      requires ValidKeyLength(|key|) ==> numWorkers >= 0
      requires ValidKeyLength(|key|) && |data| > 0 ==> EncryptedChunkSize(chunkSize) > 0 && numWorkers > 0
      requires ValidKeyLength(|key|) && |data| > 0 ==> IsArrivalOrder(order, NumChunks(|data|, EncryptedChunkSize(chunkSize) as nat))
      ensures EncryptedChunkSize(chunkSize) > 0 ==>
        (r.Success? <==> DecryptBuffer(aead, key, chunkSize, data).Success?)
      ensures EncryptedChunkSize(chunkSize) > 0 && r.Success? ==> r == DecryptBuffer(aead, key, chunkSize, data)
      ensures !ValidKeyLength(|key|) ==> r == Failure(CipherSetupFailed)
      ensures r.Failure? && ValidKeyLength(|key|) && EncryptedChunkSize(chunkSize) > 0 ==>
        SomeChunkFails(Opener(aead, key), Tagged(Chunked(data, EncryptedChunkSize(chunkSize) as nat)), r.error)
      ensures |data| == 0 ==> r == if ValidKeyLength(|key|) then Success([]) else Failure(CipherSetupFailed)
    {
      if !ValidKeyLength(|key|) {
        return Failure(CipherSetupFailed);
      }
      if |data| == 0 {
        return Success([]);
      }
      var chunks := Split(data, EncryptedChunkSize(chunkSize) as nat);
      var collector;
      r, collector := Run(Opener(aead, key), chunks, order);
    }
  }

  /** The demonstration in main.go: encrypt a buffer, decrypt the result, compare.
      Both runs may see any arrival order; the comparison always succeeds. */
  method EncryptDecrypt(c: Cypher, aead: Aead, nonces: NonceSource, data: seq<byte>,
                        encryptOrder: seq<nat>, decryptOrder: seq<nat>)
    returns (r: Result<seq<byte>>)
    requires c.chunkSize > 0 && c.numWorkers > 0 && Sound(aead)
    requires IsArrivalOrder(encryptOrder, NumChunks(|data|, c.chunkSize))
    requires IsArrivalOrder(decryptOrder, NumChunks(|data|, c.chunkSize))
    ensures r.Success? <==>
      ValidKeyLength(|c.key|) && forall k :: 0 <= k < NumChunks(|data|, c.chunkSize) ==> nonces(k).Some?
    ensures r.Success? ==> r.value == data
  {
    EncryptSucceedsIff(aead, c.key, c.chunkSize, nonces, data);
    r := c.Encrypt(aead, nonces, data, encryptOrder);
    if r.Failure? {
      return;
    }
    var encrypted := r.value;
    ResplitSealed(aead, c.key, c.chunkSize, nonces, data);
    SealedPieces(aead, c.key, c.chunkSize, nonces, data);
    ChunkCount(encrypted, EncryptedChunkSize(c.chunkSize) as nat);
    RoundTrip(aead, c.key, c.chunkSize, nonces, data);
    r := c.Decrypt(aead, encrypted, decryptOrder);
  }

  /** EncryptFile writes next to its input, under the input path plus ".encrypted":
      the input path is a proper prefix of the output path. */
  function EncryptedPath(inputPath: string): (outputPath: string)
    ensures |outputPath| > |inputPath| && outputPath[..|inputPath|] == inputPath
    ensures outputPath[|inputPath|..] == ENCRYPTED_SUFFIX
  {
    inputPath + ENCRYPTED_SUFFIX
  }

  /** DecryptFile writes next to its input, under the input path plus ".decrypted":
      the input path is a proper prefix of the output path. */
  function DecryptedPath(inputPath: string): (outputPath: string)
    ensures |outputPath| > |inputPath| && outputPath[..|inputPath|] == inputPath
    ensures outputPath[|inputPath|..] == DECRYPTED_SUFFIX
  {
    inputPath + DECRYPTED_SUFFIX
  }

  /** The output path is never the same path string as the input; distinct inputs get
      distinct output strings; and an encryption and a decryption never produce the
      same output string. (Links and other aliases of a file are not modelled.) */
  lemma OutputPaths(p: string, q: string)
    ensures EncryptedPath(p) != p && DecryptedPath(p) != p
    ensures EncryptedPath(p) == EncryptedPath(q) ==> p == q
    ensures DecryptedPath(p) == DecryptedPath(q) ==> p == q
    ensures EncryptedPath(p) != DecryptedPath(q)
  {
    if EncryptedPath(p) == EncryptedPath(q) {
      assert p == EncryptedPath(p)[..|p|] && q == EncryptedPath(q)[..|q|];
    }
    if DecryptedPath(p) == DecryptedPath(q) {
      assert p == DecryptedPath(p)[..|p|] && q == DecryptedPath(q)[..|q|];
    }
    if |p| == |q| {
      assert EncryptedPath(p)[|p| + 1] == 'e' && DecryptedPath(q)[|q| + 1] == 'd';
    }
  }
}
