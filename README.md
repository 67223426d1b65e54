# gocypher: the chunked AES-GCM pipeline, modelled in Dafny

gocypher encrypts a buffer or a file in fixed-size chunks. Each chunk is sealed with
AES-GCM under a fresh random 12-byte nonce by a pool of worker goroutines, and the
output is `nonce ++ ciphertext ++ tag` for every chunk, written in position order.
Decryption cuts its input at `ChunkSize + 12 + 16` bytes, opens every piece and
reassembles the plaintexts in order. Workers finish in any order, so a collector keeps
early chunks in a map keyed by position and writes them once their turn comes.

This project models that sequential core and proves what it promises:

- `types.dfy` holds bytes, `Option`, `Result` and the error kinds. The kinds are a
  rejected key, a failed nonce draw, a chunk too short to hold its nonce, and a
  failed authentication.
- `gcm.dfy` models the AEAD as a pair of functions, `seal` and `open`. Two laws are
  stated as the predicate `Sound`: seal adds 16 bytes, and open inverts seal.
  `ToyAead` meets both laws, which shows that `Sound` can be satisfied. AES itself
  is not modelled.
- `chunks.dfy` gives the reference split `Chunked` and the imperative split loop
  `Split`. It also proves concatenation, shape and count facts, and shows that
  re-splitting a concatenation of well-shaped pieces gives the pieces back.
- `workers.dfy` holds the bodies of the encrypt worker and the decrypt worker.
- `reassembler.dfy` is the ordered collector: a class with the `pending` map, the
  `nextPosition` cursor and the output written so far.
- `pipeline.dfy` is the coordinator `Run`. It replaces the goroutines with an
  arrival order, which is any permutation of the chunk positions, and proves the
  result equal to an order-independent reference `TransformAll`.
- `buffers.dfy` states buffer-mode `Encrypt` and `Decrypt` as functions. It proves
  the length of the ciphertext, when encryption succeeds, and the round trip
  `Decrypt(Encrypt(d)) == d`.
- `cypher.dfy` is the `Cypher` object: its defaults, the builder methods,
  `Encrypt`/`Decrypt` over the class fields, the demonstration in `main.go`, and
  the output-path suffixes.

Environment inputs become parameters:

- the CPU count is `maxCPUs`;
- the random nonces are `nonces: nat -> Option<Nonce>`, where `None` is a failed read
  of `crypto/rand`;
- the order in which workers finish is `order`;
- the key derived from the passphrase is `derivedKey`.

The source validates less than one might expect; the model follows the code:

- `ChunkSize`, `NumWorkers` and `NumCores` are stored without any check that they
  are positive. An empty buffer never enters the split loop, so it succeeds with an
  empty result for any chunk size and with no workers; the model covers that case.
  With an accepted key and a non-empty buffer the model's `Encrypt` and `Decrypt`
  require positive values (see "Left out").
- A key of the wrong length is rejected when `Encrypt` or `Decrypt` builds the cipher,
  not when `NewCypher` runs. The MD5 hex digest that `NewCypher` stores is always 32
  bytes.
- The error reported when several chunks fail is whichever failure reaches the
  one-slot error channel first. The model lets it be the failure of any failing
  chunk. An encryption can fail only by a nonce draw, so there the error is fixed.

## Model

| member | source | states |
|---|---|---|
| Chunks.Split | cypher/cypher.go:428-438 | the loop emits NumChunks(len, size) slices whose positions are their indices, whose concatenation is the input, and whose lengths are all `size` except a last one in 1..size; this is exactly the reference split |
| Chunks.ConcatChunked | cypher/cypher.go:428-435 | concatenating the split gives back the input: no byte is lost, duplicated or reordered |
| Chunks.ChunkedShape | cypher/cypher.go:428-435 | no piece is empty, every piece is at most `size` bytes, and every piece but the last is exactly `size` bytes |
| Chunks.ChunkCount | cypher/cypher.go:428-438 | the split has NumChunks(len, size) pieces, 0 for an empty buffer |
| Chunks.NumChunksIsCeiling | cypher/cypher.go:428-438 | NumChunks(len, size) is ceil(len / size): (n-1)*size < len <= n*size for a non-empty buffer |
| Chunks.ChunkBoundaries | cypher/cypher.go:428-433 | a buffer of exactly `size` bytes is one chunk; one byte more gives a second chunk holding that byte |
| Chunks.ChunkedOfConcat | cypher/cypher.go:521-531 | re-splitting the concatenation of well-shaped pieces at their size gives the same pieces |
| Workers.SealChunk | cypher/cypher.go:170-181 | succeeds exactly when the nonce draw succeeds, and otherwise fails with a nonce error; keeps the chunk's position; the payload starts with the nonce and is the plaintext plus 28 bytes |
| Workers.SealedFullChunkSize | cypher/cypher.go:479 | a full plaintext chunk seals to exactly EncryptedChunkSize(ChunkSize) = ChunkSize + NonceSize + Overhead bytes, the stride Decrypt cuts at |
| Workers.SplitNonce | cypher/cypher.go:328-329 | the first 12 bytes and the rest together make up the payload |
| Workers.OpenChunk | cypher/cypher.go:319-341 | a payload under 12 bytes fails as too small; otherwise success means open accepted (nonce, rest), and the plaintext is what open returned; the position is kept; the only failures are too-small and authentication |
| Workers.OpenSealedChunk | cypher/cypher.go:328-331 | opening what the encrypt worker produced gives back the original chunk, position included |
| Reassembly.Reassembler.constructor | cypher/cypher.go:193-194 | empty pending map, cursor at 0, nothing written |
| Reassembly.Reassembler.Arrive | cypher/cypher.go:196-211 | the chunk is stored and then every consecutive chunk from the cursor onward is written in order; the cursor stops at the first missing position; everything still pending lies beyond the cursor |
| Reassembly.Reassembler.Drain | cypher/cypher.go:200-211 | writes pending[next], pending[next+1], ... until a gap, deleting each written entry and advancing the cursor past it |
| Pipeline.TransformAll | cypher/cypher.go:455-461 | the order-independent result: success exactly when every chunk's worker succeeds, with the payloads in position order; otherwise the error of a failing chunk |
| Pipeline.Run | cypher/cypher.go:408-461 | for every arrival order: success exactly when every worker succeeds, with output the position-ordered concatenation, the collector drained and its cursor at the chunk count; on failure the error of some failing chunk |
| Pipeline.ArrivalKeepsTracks | cypher/cypher.go:410-423 | one arrival keeps the collector's invariant: the output is the first `next` payloads, the pending map holds exactly the arrived chunks beyond the cursor |
| Pipeline.AllArrived | cypher/cypher.go:447-461 | once every position has arrived with no failure, nothing is pending and the output is the whole ordered concatenation |
| Pipeline.EmittedExtends | cypher/cypher.go:414-423 | writing the payload at the cursor extends the ordered output by exactly that payload |
| Pipeline.EmittedIsConcat | cypher/cypher.go:417 | the ordered output of all chunks is the concatenation of TransformAll's payloads |
| Buffers.Sealer | cypher/cypher.go:395-398 | the worker the encrypt pool runs on every chunk keeps the chunk's position, succeeds exactly when the nonce draw for that position succeeds, and otherwise fails with a nonce error |
| Buffers.Opener | cypher/cypher.go:488-491 | the worker the decrypt pool runs on every chunk keeps the chunk's position, rejects a payload shorter than a nonce, and fails only as too small or as an authentication failure |
| Buffers.EncryptBuffer | cypher/cypher.go:374-462 | the order-independent buffer encryption: a rejected key fails at cipher setup; with an accepted key the only failure is a failed nonce draw |
| Buffers.DecryptBuffer | cypher/cypher.go:464-555 | the order-independent buffer decryption: a rejected key fails at cipher setup; with an accepted key the only failures are a too-short piece and a failed authentication |
| Buffers.EmptyBuffer | cypher/cypher.go:428-461 | with an accepted key, an empty buffer encrypts and decrypts to an empty buffer without error |
| Buffers.EncryptSucceedsIff | cypher/cypher.go:374-461 | encryption succeeds exactly when the key is accepted and the nonce draw succeeds for every chunk position |
| Buffers.SealedPieces | cypher/cypher.go:179-181 | there is one encrypted piece per plaintext chunk, each 28 bytes longer, so the pieces are well shaped at ChunkSize + 28 |
| Buffers.EncryptedLength | cypher/cypher.go:179-181 | the ciphertext is the plaintext length plus 28 bytes per chunk |
| Buffers.ResplitSealed | cypher/cypher.go:479-531 | cutting the ciphertext at ChunkSize + NonceSize + Overhead recovers exactly the encrypted pieces |
| Buffers.RoundTrip | cypher/cypher.go:464-555 | decrypting with the same key and chunk size any successful encryption of d gives back d |
| Buffers.DecryptRejectsShortInput | cypher/cypher.go:320-326 | a non-empty input shorter than a nonce is rejected as a too-small chunk |
| CypherFacade.Cypher.NewCypher | cypher/cypher.go:31-41 | 10 MiB chunks, 10 workers, the derived key, and as many cores as CPUs |
| CypherFacade.Cypher.WithNumCores | cypher/cypher.go:51-60 | the core count becomes min(numCores, maxCPUs); the other fields are unchanged and the same object is returned |
| CypherFacade.Cypher.WithChunkSize | cypher/cypher.go:62-65 | sets the chunk size only, unchecked, and returns the same object |
| CypherFacade.Cypher.WithNumWorkers | cypher/cypher.go:67-70 | sets the worker count only, unchecked, and returns the same object |
| CypherFacade.Cypher.Encrypt | cypher/cypher.go:374-462 | a rejected key fails at cipher setup whatever the chunk size and worker count; an empty buffer otherwise succeeds with an empty result for any chunk size and worker count; with a positive chunk size, for every worker completion order, the result equals the order-independent buffer encryption |
| CypherFacade.Cypher.Decrypt | cypher/cypher.go:464-555 | a rejected key fails at cipher setup whatever the chunk size and worker count; an empty buffer otherwise succeeds with an empty result; with a positive cut size, for every completion order: success exactly when the reference decryption succeeds, with the same plaintext, and otherwise the error is that of some failing chunk |
| CypherFacade.EncryptDecrypt | main.go:18-36 | encrypting then decrypting gives back the data, whatever the two completion orders; it fails exactly when the key is rejected or a nonce draw fails |
| CypherFacade.EncryptedPath | cypher/cypher.go:73 | the output path of EncryptFile is the input path followed by ".encrypted", so the input is a proper prefix of it |
| CypherFacade.DecryptedPath | cypher/cypher.go:219 | the output path of DecryptFile is the input path followed by ".decrypted", so the input is a proper prefix of it |
| CypherFacade.OutputPaths | cypher/cypher.go:73 | the output path is never the same path string as the input; distinct inputs get distinct output strings; an encrypted path string is never a decrypted one |

## Left out

- Goroutines, channels, `sync.Map`, the mutex, `WaitGroup` and context cancellation are replaced by an arrival order of the workers' results. Blocking, deadlock and the early return of the split loop when an error arrives are not modelled.
- EncryptFile and DecryptFile are modelled only through their output paths and the ordered writer. Their file I/O is left out: opening, creating, short reads, and the write-error path of writeChunks.
- MD5HashFromString and MD5HashFromFile are left out. The key is a parameter.
- The internals of AES and GCM and the `crypto/rand` reader are left out. They are abstracted as `seal`/`open` functions with two laws and as a nonce source.
- `runtime.NumCPU` and `GOMAXPROCS` become the parameter `maxCPUs`. `NumCores` is stored but, as in the source, never read by the pipeline.
- The variadic `opts` of NewCypher is left out, because the source defines no option values.
- Integers are unbounded. The 64-bit overflow of `i += ChunkSize` near the top of the `int` range is not modelled.
- CypherFacade.Cypher.Encrypt: with an accepted key, it requires NumWorkers >= 0, and ChunkSize > 0 and NumWorkers > 0 for a non-empty buffer; a rejected key fails at cipher setup before any of these values is used, so that case is covered for every configuration. With an accepted key, on a non-empty buffer the source panics otherwise: a zero chunk size divides by zero in `i / c.ChunkSize`, a negative one asks `make` for a negative slice length, and a negative NumWorkers is a negative channel capacity (which, with an accepted key, panics on an empty buffer too). With NumWorkers == 0 the first send of a non-empty buffer blocks, since no worker ever receives. The model leaves those inputs out; the empty buffer with any chunk size and NumWorkers >= 0 is covered.
- CypherFacade.Cypher.Decrypt: the same exclusions, with ChunkSize + 28 in place of ChunkSize, for the same panics at the decrypt split loop and the channel allocation. When several chunks fail it states only that the error belongs to some failing chunk, because the source reports whichever failure reaches the error channel first.
- CypherFacade.EncryptDecrypt: requires a positive chunk size and worker count, which the defaults of NewCypher that main.go uses provide.
- Authenticity is not modelled. `Sound` states only that seal adds 16 bytes and that open inverts seal; it says nothing about what `open` returns on a tampered ciphertext or under the wrong key, so no tamper-detection or wrong-key property is proved.
- Errors are bare kinds. The source wraps the underlying crypto/rand, AES and GCM errors with `fmt.Errorf("...: %w", err)`; the wrapped inner error and the message text are not modelled.
- Output paths are compared as strings. Links and other aliases, through which `p + ".encrypted"` could still name the input file, are not modelled.
- Pipeline.Run: on failure it states only that the error is one of a failing chunk. Which chunk depends on scheduling in the source.
