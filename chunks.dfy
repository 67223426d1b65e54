/** The chunk source of buffer mode: cutting a byte buffer into position-tagged chunks. */
module Chunks {
  import opened Types

  /** A slice of the stream and its zero-based place in it (DataChunk in the source). */
  datatype DataChunk = DataChunk(data: seq<byte>, position: nat)

  /** The byte stream made by writing the pieces one after another. */
  function Concat(xs: seq<seq<byte>>): seq<byte> {
    if |xs| == 0 then [] else xs[0] + Concat(xs[1..])
  }

  lemma {:induction false} ConcatAppend(xs: seq<seq<byte>>, ys: seq<seq<byte>>)
    ensures Concat(xs + ys) == Concat(xs) + Concat(ys)
  {
    if |xs| == 0 {
      assert xs + ys == ys;
    } else {
      assert (xs + ys)[1..] == xs[1..] + ys;
      ConcatAppend(xs[1..], ys);
    }
  }

  /** Splitting at fixed boundaries: pieces of `size` bytes, the last one possibly shorter. */
  function Chunked(data: seq<byte>, size: nat): seq<seq<byte>>
    requires size > 0
    decreases |data|
  {
    if |data| == 0 then []
    else if |data| <= size then [data]
    else [data[..size]] + Chunked(data[size..], size)
  }

  /** The shape every split has: no empty piece, every piece except the last
      exactly `size` bytes, the last between 1 and `size` bytes. */
  ghost predicate WellChunked(xs: seq<seq<byte>>, size: nat) {
    forall k :: 0 <= k < |xs| ==> 0 < |xs[k]| <= size && (k < |xs| - 1 ==> |xs[k]| == size)
  }

  /** ceil(len / size), the number of chunks of a buffer of `len` bytes. */
  function NumChunks(len: nat, size: nat): nat
    requires size > 0
  {
    if len == 0 then 0 else (len - 1) / size + 1
  }

  /** The pieces are the input, in order, with nothing lost or added. */
  lemma {:induction false} ConcatChunked(data: seq<byte>, size: nat)
    requires size > 0
    ensures Concat(Chunked(data, size)) == data
    decreases |data|
  {
    if |data| == 0 {
    } else if |data| <= size {
      assert Concat([data]) == data + Concat([]);
    } else {
      var rest := Chunked(data[size..], size);
      assert ([data[..size]] + rest)[1..] == rest;
      ConcatChunked(data[size..], size);
      assert data[..size] + data[size..] == data;
    }
  }

  lemma {:induction false} ChunkedShape(data: seq<byte>, size: nat)
    requires size > 0
    ensures WellChunked(Chunked(data, size), size)
    decreases |data|
  {
    if |data| > size {
      ChunkedShape(data[size..], size);
    }
  }

  /** Splitting a well-chunked concatenation at the same size recovers the pieces:
      the reason chunk boundaries need no length prefix in the encrypted format. */
  lemma {:induction false} ChunkedOfConcat(xs: seq<seq<byte>>, size: nat)
    requires size > 0 && WellChunked(xs, size)
    ensures Chunked(Concat(xs), size) == xs
    decreases |xs|
  {
    if |xs| == 0 {
    } else if |xs| == 1 {
      assert xs[1..] == [] && 0 < |xs[0]| <= size;
      assert Concat(xs) == xs[0];
      assert xs == [xs[0]];
    } else {
      var tail := xs[1..];
      assert WellChunked(tail, size) by {
        forall k | 0 <= k < |tail|
          ensures 0 < |tail[k]| <= size && (k < |tail| - 1 ==> |tail[k]| == size)
        {
          assert tail[k] == xs[k + 1];
        }
      }
      var c := Concat(xs);
      assert c == xs[0] + Concat(tail);
      assert Concat(tail) == tail[0] + Concat(tail[1..]);
      assert |xs[0]| == size && |tail[0]| > 0;
      assert c[..size] == xs[0];
      assert c[size..] == Concat(tail);
      ChunkedOfConcat(tail, size);
      assert xs == [xs[0]] + tail;
    }
  }

  lemma MulAtLeast(d: int, size: int)
    requires d >= 1 && size > 0
    ensures d * size >= size
  {
    if d > 1 {
      MulAtLeast(d - 1, size);
      assert d * size == (d - 1) * size + size;
    }
  }

  /** Euclidean division is unique: a quotient with an in-range remainder is the quotient. */
  lemma DivUnique(x: int, size: int, q: int, r: int)
    requires size > 0 && 0 <= r < size && x == q * size + r
    ensures x / size == q
  {
    var q', r' := x / size, x % size;
    assert x == q' * size + r';
    if q' < q {
      MulAtLeast(q - q', size);
    } else if q' > q {
      MulAtLeast(q' - q, size);
    }
  }

  lemma DivisionStep(x: nat, size: nat)
    requires size > 0 && x >= size
    ensures (x - size) / size + 1 == x / size
  {
    var q, r := (x - size) / size, (x - size) % size;
    assert (q + 1) * size == q * size + size;
    DivUnique(x, size, q + 1, r);
  }

  lemma {:induction false} ChunkCount(data: seq<byte>, size: nat)
    requires size > 0
    ensures |Chunked(data, size)| == NumChunks(|data|, size)
    decreases |data|
  {
    if |data| > size {
      ChunkCount(data[size..], size);
      DivisionStep(|data| - 1, size);
    }
  }

  /** A buffer of exactly `size` bytes is one chunk; one byte more makes a second
      chunk holding that single byte. */
  lemma ChunkBoundaries(data: seq<byte>, size: nat)
    requires size > 0
    ensures |data| == size ==> Chunked(data, size) == [data]
    ensures |data| == size + 1 ==> Chunked(data, size) == [data[..size], data[size..]]
  {
    if |data| == size + 1 {
      assert Chunked(data[size..], size) == [data[size..]];
    }
  }

  /** NumChunks is the ceiling: the least count whose chunks cover `len` bytes. */
  lemma NumChunksIsCeiling(len: nat, size: nat)
    requires size > 0
    ensures NumChunks(len, size) * size >= len
    ensures NumChunks(len, size) > 0 ==> (NumChunks(len, size) - 1) * size < len
  {
    if len > 0 {
      var q, r := (len - 1) / size, (len - 1) % size;
      assert len - 1 == q * size + r && 0 <= r < size;
      assert (q + 1) * size == q * size + size;
    }
  }

  /** Exact multiples of a positive divisor divide back. */
  lemma MultipleDivides(k: nat, size: nat)
    requires size > 0
    ensures (k * size) / size == k
  {
    DivUnique(k * size, size, k, 0);
  }

  /** The chunk at index k of the list carries position k. */
  function Tagged(payloads: seq<seq<byte>>): seq<DataChunk> {
    seq(|payloads|, k requires 0 <= k < |payloads| => DataChunk(payloads[k], k))
  }

  function Payloads(chunks: seq<DataChunk>): seq<seq<byte>> {
    seq(|chunks|, k requires 0 <= k < |chunks| => chunks[k].data)
  }

  /** The bytes from offset i on; empty once i has passed the end. */
  function Drop(data: seq<byte>, i: nat): seq<byte> {
    if i < |data| then data[i..] else []
  }

  /** One turn of the split loop: the slice [i, min(i + size, len)) is the first piece
      of what is left, and the rest is the split of what follows it. */
  lemma ChunkedStep(data: seq<byte>, size: nat, i: nat, end: nat)
    requires size > 0 && i < |data|
    requires end == if i + size > |data| then |data| else i + size
    ensures Chunked(Drop(data, i), size) == [data[i..end]] + Chunked(Drop(data, i + size), size)
  {
    var rest := data[i..];
    if |rest| > size {
      assert rest[..size] == data[i..end];
      assert rest[size..] == Drop(data, i + size);
    } else {
      assert rest == data[i..end];
    }
  }

  lemma Reassociate(whole: seq<seq<byte>>, front: seq<seq<byte>>, x: seq<byte>, rest: seq<seq<byte>>)
    requires whole == front + ([x] + rest)
    ensures whole == (front + [x]) + rest
  {
  }

  /** A list of chunks whose payloads are Chunked(data, size) and whose positions are
      their indices is exactly the tagged split, with its count and shape. */
  lemma TaggedSplit(chunks: seq<DataChunk>, data: seq<byte>, size: nat)
    requires size > 0 && Payloads(chunks) == Chunked(data, size)
    requires forall k :: 0 <= k < |chunks| ==> chunks[k].position == k
    ensures |chunks| == NumChunks(|data|, size)
    ensures Concat(Payloads(chunks)) == data
    ensures WellChunked(Payloads(chunks), size)
    ensures chunks == Tagged(Chunked(data, size))
  {
    assert chunks == Tagged(Payloads(chunks));
    ChunkCount(data, size);
    ConcatChunked(data, size);
    ChunkedShape(data, size);
  }

  /** The split loop's invariant after emitting `chunks` with the cursor at i. */
  ghost predicate SplitSoFar(chunks: seq<DataChunk>, data: seq<byte>, size: nat, i: nat)
    requires size > 0
  {
    && i == |chunks| * size
    && (forall k :: 0 <= k < |chunks| ==> chunks[k].position == k)
    && Chunked(data, size) == Payloads(chunks) + Chunked(Drop(data, i), size)
  }

  lemma CursorStep(n: nat, size: nat, i: nat)
    requires size > 0 && i == n * size
    ensures i / size == n && i + size == (n + 1) * size
  {
    MultipleDivides(n, size);
  }

  lemma PayloadsAppend(chunks: seq<DataChunk>, c: DataChunk)
    ensures Payloads(chunks + [c]) == Payloads(chunks) + [c.data]
  {
  }

  /** Emitting the next slice keeps the payloads a prefix of the split. */
  lemma SplitPayloadsStep(chunks: seq<DataChunk>, data: seq<byte>, size: nat, i: nat, end: nat, pos: nat)
    requires size > 0 && i < |data|
    requires end == if i + size > |data| then |data| else i + size
    requires Chunked(data, size) == Payloads(chunks) + Chunked(Drop(data, i), size)
    ensures Chunked(data, size)
         == Payloads(chunks + [DataChunk(data[i..end], pos)]) + Chunked(Drop(data, i + size), size)
  {
    ChunkedStep(data, size, i, end);
    Reassociate(Chunked(data, size), Payloads(chunks), data[i..end], Chunked(Drop(data, i + size), size));
    PayloadsAppend(chunks, DataChunk(data[i..end], pos));
  }

  /** Emitting the slice [i, end) at position i / size keeps the invariant. */
  lemma SplitSoFarStep(chunks: seq<DataChunk>, data: seq<byte>, size: nat, i: nat, end: nat)
    requires size > 0 && SplitSoFar(chunks, data, size, i) && i < |data|
    requires end == if i + size > |data| then |data| else i + size
    ensures i / size == |chunks|
    ensures SplitSoFar(chunks + [DataChunk(data[i..end], i / size)], data, size, i + size)
  {
    CursorStep(|chunks|, size, i);
    SplitPayloadsStep(chunks, data, size, i, end, i / size);
  }

  /** The split loop of Encrypt and Decrypt: slices [i, min(i + size, len)) for
      i = 0, size, 2*size, ..., each tagged with position i / size. */
  method Split(data: seq<byte>, size: nat) returns (chunks: seq<DataChunk>)
    requires size > 0
    ensures |chunks| == NumChunks(|data|, size)
    ensures forall k :: 0 <= k < |chunks| ==> chunks[k].position == k
    ensures Concat(Payloads(chunks)) == data
    ensures WellChunked(Payloads(chunks), size)
    ensures chunks == Tagged(Chunked(data, size))
  {
    chunks := [];
    var i := 0;
    assert Drop(data, 0) == data;
    while i < |data|
      invariant SplitSoFar(chunks, data, size, i)
    {
      var end := i + size;
      if end > |data| {
        end := |data|;
      }
      SplitSoFarStep(chunks, data, size, i, end);
      chunks := chunks + [DataChunk(data[i..end], i / size)];
      i := i + size;
    }
    assert Drop(data, i) == [];
    TaggedSplit(chunks, data, size);
  }
}
