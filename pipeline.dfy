/** The coordinator of one buffer-mode run, with concurrency replaced by an arrival
    order: workers finish chunks in that order, each result goes straight to the
    reassembler, and the first failure in that order ends the run (first error wins). */
module Pipeline {
  import opened Types
  import opened Chunks
  import opened Reassembly

  /** A permutation of 0, 1, ..., n - 1: the order in which results arrive. */
  predicate IsArrivalOrder(order: seq<nat>, n: nat) {
    && |order| == n
    && (forall i :: 0 <= i < n ==> order[i] < n)
    && (forall i, j :: 0 <= i < j < n ==> order[i] != order[j])
    && (forall k :: 0 <= k < n ==> k in order)
  }

  /** Positions as the splitter assigns them: chunk k carries position k. */
  predicate Positioned(chunks: seq<DataChunk>) {
    forall k :: 0 <= k < |chunks| ==> chunks[k].position == k
  }

  /** The order-independent reference: every chunk transformed, the payloads in
      position order, or the failure of the lowest failing position. */
  function TransformAll(t: DataChunk -> Result<DataChunk>, chunks: seq<DataChunk>): (r: Result<seq<seq<byte>>>)
    ensures r.Success? <==> forall k :: 0 <= k < |chunks| ==> t(chunks[k]).Success?
    ensures r.Success? ==> |r.value| == |chunks|
    ensures r.Success? ==> forall k :: 0 <= k < |chunks| ==> r.value[k] == t(chunks[k]).value.data
    ensures r.Failure? ==>
      exists k :: 0 <= k < |chunks| && t(chunks[k]) == Failure(r.error)
                  && forall i :: 0 <= i < k ==> t(chunks[i]).Success?
    decreases |chunks|
  {
    if |chunks| == 0 then Success([])
    else
      match t(chunks[0])
      case Failure(e) => Failure(e)
      case Success(c) =>
        match TransformAll(t, chunks[1..])
        case Failure(e) => Failure(e)
        case Success(rest) => Success([c.data] + rest)
  }

  /** Some chunk's transform fails with `e`. */
  ghost predicate SomeChunkFails(t: DataChunk -> Result<DataChunk>, chunks: seq<DataChunk>, e: Error) {
    exists k :: 0 <= k < |chunks| && t(chunks[k]) == Failure(e)
  }

  /** The payloads of positions 0 .. m - 1, in position order. Three views of "what has
      been written" meet here: Concat is the whole ordered output of a list of payloads,
      ConcatRange is what the reassembler appends from its map over a range of positions,
      and Emitted is the output the collector must have produced once its cursor reaches
      m. EmittedExtends and EmittedIsConcat tie Emitted to the other two. */
  ghost function Emitted(t: DataChunk -> Result<DataChunk>, chunks: seq<DataChunk>, m: nat): seq<byte>
    requires m <= |chunks|
    requires forall k :: 0 <= k < m ==> t(chunks[k]).Success?
  {
    if m == 0 then [] else Emitted(t, chunks, m - 1) + t(chunks[m - 1]).value.data
  }

  lemma {:induction false} EmittedExtends(t: DataChunk -> Result<DataChunk>, chunks: seq<DataChunk>,
                                          m: map<nat, seq<byte>>, lo: nat, hi: nat)
    requires lo <= hi <= |chunks|
    requires forall k :: 0 <= k < hi ==> t(chunks[k]).Success?
    requires forall k :: lo <= k < hi ==> k in m && m[k] == t(chunks[k]).value.data
    ensures Emitted(t, chunks, lo) + ConcatRange(m, lo, hi) == Emitted(t, chunks, hi)
    decreases hi
  {
    if hi > lo {
      EmittedExtends(t, chunks, m, lo, hi - 1);
      var last := t(chunks[hi - 1]).value.data;
      assert m[hi - 1] == last;
      assert ConcatRange(m, lo, hi) == ConcatRange(m, lo, hi - 1) + last;
      assert Emitted(t, chunks, hi) == Emitted(t, chunks, hi - 1) + last;
      assert Emitted(t, chunks, lo) + (ConcatRange(m, lo, hi - 1) + last)
          == (Emitted(t, chunks, lo) + ConcatRange(m, lo, hi - 1)) + last;
    }
  }

  lemma {:induction false} EmittedIsConcat(t: DataChunk -> Result<DataChunk>, chunks: seq<DataChunk>, m: nat)
    requires m <= |chunks|
    requires TransformAll(t, chunks).Success?
    ensures Emitted(t, chunks, m) == Concat(TransformAll(t, chunks).value[..m])
    decreases m
  {
    var ps := TransformAll(t, chunks).value;
    if m == 0 {
      assert ps[..0] == [];
    } else {
      EmittedIsConcat(t, chunks, m - 1);
      assert ps[..m] == ps[..m - 1] + [ps[m - 1]];
      ConcatAppend(ps[..m - 1], [ps[m - 1]]);
      assert Concat([ps[m - 1]]) == ps[m - 1] + Concat([]);
    }
  }

  /** What the reassembler holds after the positions in `done` have arrived:
      everything below the cursor arrived and was written in position order, the
      cursor is at a gap, and exactly the arrived chunks beyond it wait. */
  ghost predicate Tracks(t: DataChunk -> Result<DataChunk>, chunks: seq<DataChunk>, done: set<nat>,
                         pending: map<nat, seq<byte>>, next: nat, output: seq<byte>)
  {
    && (forall k :: k in done ==> k < |chunks| && t(chunks[k]).Success?)
    && (forall k :: 0 <= k < next ==> k in done)
    && next !in done
    && (forall k :: k in pending <==> k in done && k > next)
    && (forall k :: k in pending ==> pending[k] == t(chunks[k]).value.data)
    && next <= |chunks|
    && output == Emitted(t, chunks, next)
  }

  /** An arrival of a new position, processed as Reassembler.Arrive promises, keeps Tracks. */
  lemma ArrivalKeepsTracks(t: DataChunk -> Result<DataChunk>, chunks: seq<DataChunk>, done: set<nat>,
                           pos: nat, data: seq<byte>,
                           p0: map<nat, seq<byte>>, n0: nat, o0: seq<byte>,
                           p1: map<nat, seq<byte>>, n1: nat, o1: seq<byte>)
    requires Tracks(t, chunks, done, p0, n0, o0)
    requires pos < |chunks| && pos !in done && t(chunks[pos]) == Success(DataChunk(data, pos))
    requires n0 <= n1
    requires forall k :: n0 <= k < n1 ==> k == pos || k in p0
    requires n1 != pos && n1 !in p0
    requires forall k :: k in p1 <==> (k == pos || k in p0) && k > n1
    requires forall k :: k in p1 ==> p1[k] == if k == pos then data else p0[k]
    requires o1 == o0 + ConcatRange(p0[pos := data], n0, n1)
    ensures Tracks(t, chunks, done + {pos}, p1, n1, o1)
  {
    var stored := p0[pos := data];
    forall k | n0 <= k < n1
      ensures k in stored && stored[k] == t(chunks[k]).value.data
    {
      assert k == pos || k in p0;
    }
    EmittedExtends(t, chunks, stored, n0, n1);
  }

  /** Once every position has arrived, nothing is pending, the cursor is at the end
      and the output is all payloads in position order. */
  lemma AllArrived(t: DataChunk -> Result<DataChunk>, chunks: seq<DataChunk>, done: set<nat>,
                   pending: map<nat, seq<byte>>, next: nat, output: seq<byte>)
    requires Tracks(t, chunks, done, pending, next, output)
    requires forall k :: 0 <= k < |chunks| ==> k in done
    ensures TransformAll(t, chunks).Success?
    ensures pending == map[] && next == |chunks|
    ensures output == Concat(TransformAll(t, chunks).value)
  {
    assert next == |chunks|;
    assert pending.Keys == {};
    EmittedIsConcat(t, chunks, |chunks|);
    assert TransformAll(t, chunks).value[..|chunks|] == TransformAll(t, chunks).value;
  }

  /** One run: results arrive in `order`; a failure stops the run with that error and
      no output; otherwise every position reaches the reassembler, which ends with
      nothing pending, its cursor at n, and the payloads written in position order,
      whatever the order of arrival. */
  method Run(t: DataChunk -> Result<DataChunk>, chunks: seq<DataChunk>, order: seq<nat>)
    returns (r: Result<seq<byte>>, collector: Reassembler)
    requires Positioned(chunks)
    requires forall k :: 0 <= k < |chunks| && t(chunks[k]).Success? ==> t(chunks[k]).value.position == k
    requires IsArrivalOrder(order, |chunks|)
    ensures r.Success? <==> TransformAll(t, chunks).Success?
    ensures r.Success? ==> r.value == Concat(TransformAll(t, chunks).value)
    ensures r.Success? ==>
      collector.pending == map[] && collector.nextPosition == |chunks| && collector.output == r.value
    ensures r.Failure? ==> SomeChunkFails(t, chunks, r.error)
  {
    collector := new Reassembler();
    ghost var done: set<nat> := {};
    var j := 0;
    while j < |order|
      invariant 0 <= j <= |order|
      invariant done == set i | 0 <= i < j :: order[i]
      invariant collector.Valid()
      invariant Tracks(t, chunks, done, collector.pending, collector.nextPosition, collector.output)
    {
      var k := order[j];
      var result := t(chunks[k]);
      if result.Failure? {
        return Failure(result.error), collector;
      }
      assert k !in done;
      assert k >= collector.nextPosition;
      ghost var (p0, n0, o0) := (collector.pending, collector.nextPosition, collector.output);
      collector.Arrive(result.value.position, result.value.data);
      ArrivalKeepsTracks(t, chunks, done, k, result.value.data, p0, n0, o0,
                         collector.pending, collector.nextPosition, collector.output);
      done := done + {k};
      j := j + 1;
    }
    forall k | 0 <= k < |chunks|
      ensures k in done
    {
      assert k in order;
      var i :| 0 <= i < |order| && order[i] == k;
    }
    AllArrived(t, chunks, done, collector.pending, collector.nextPosition, collector.output);
    r := Success(collector.output);
  }
}
