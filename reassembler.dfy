/** The ordered reassembler: writeChunks and the buffer collectors of Encrypt and Decrypt. */
module Reassembly {
  import opened Types

  /** The bytes of positions lo, lo + 1, ..., hi - 1 of `m`, in that order. */
  function ConcatRange(m: map<nat, seq<byte>>, lo: nat, hi: nat): seq<byte>
    requires forall k :: lo <= k < hi ==> k in m
    decreases hi
  {
    if hi <= lo then [] else ConcatRange(m, lo, hi - 1) + m[hi - 1]
  }

  /** Chunks that arrive out of order wait in `pending` until every earlier position
      has been emitted; `output` is what has been written (or appended) so far. */
  class Reassembler {
    var pending: map<nat, seq<byte>>
    var nextPosition: nat
    var output: seq<byte>

    /** Nothing waits at or below the cursor: the cursor is always at a gap. */
    ghost predicate Valid()
      reads this
    {
      forall k :: k in pending ==> k > nextPosition
    }

    constructor ()
      ensures Valid()
      ensures pending == map[] && nextPosition == 0 && output == []
    {
      pending := map[];
      nextPosition := 0;
      output := [];
    }

    /** One arrival (the body of `for chunk := range input`): store the chunk, then
        drain. Afterwards the cursor sits at the first gap at or after its old place,
        every position it passed has been emitted in order, and only chunks beyond the
        cursor still wait. */
    method Arrive(pos: nat, data: seq<byte>)
      requires Valid()
      requires pos >= nextPosition
      modifies this
      ensures Valid()
      ensures old(nextPosition) <= nextPosition
      ensures forall k :: old(nextPosition) <= k < nextPosition ==> k == pos || k in old(pending)
      ensures nextPosition != pos && nextPosition !in old(pending)
      ensures forall k :: k in pending <==> (k == pos || k in old(pending)) && k > nextPosition
      ensures forall k :: k in pending ==> pending[k] == if k == pos then data else old(pending)[k]
      ensures output == old(output) + ConcatRange(old(pending)[pos := data], old(nextPosition), nextPosition)
    {
      pending := pending[pos := data];
      Drain();
    }

    /** The inner loop: while pending[nextPosition] exists, emit it, delete it and
        advance the cursor. */
    method Drain()
      requires forall k :: k in pending ==> k >= nextPosition
      modifies this
      ensures Valid()
      ensures old(nextPosition) <= nextPosition
      ensures forall k :: old(nextPosition) <= k < nextPosition ==> k in old(pending)
      ensures nextPosition !in old(pending)
      ensures forall k :: k in pending <==> k in old(pending) && k > nextPosition
      ensures forall k :: k in pending ==> pending[k] == old(pending)[k]
      ensures output == old(output) + ConcatRange(old(pending), old(nextPosition), nextPosition)
    {
      var p, n, out := pending, nextPosition, output;
      while n in p
        invariant nextPosition <= n
        invariant forall k :: nextPosition <= k < n ==> k in pending
        invariant forall k :: k in p <==> k in pending && k >= n
        invariant forall k :: k in p ==> p[k] == pending[k]
        invariant out == output + ConcatRange(pending, nextPosition, n)
        decreases |p|
      {
        var chunk := p[n];
        assert ConcatRange(pending, nextPosition, n + 1) == ConcatRange(pending, nextPosition, n) + chunk;
        out := out + chunk;
        p := p - {n};
        n := n + 1;
      }
      pending, nextPosition, output := p, n, out;
    }
  }
}
