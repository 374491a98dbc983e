/** Delimited chunks, eager and lazy, and fixed-size chunks of src/scanner.rs. */
module Chunking {
  import opened Search
  import opened Swar
  import opened Partition
  import opened PartitionTheorems

  /** End of the chunk that starts at `start`: after the first complete delimiter that starts at
      or after `start + step`, else the end of the data. */
  ghost function ChunkEnd(data: seq<byte>, d: seq<byte>, step: nat, start: nat): (e: nat)
    requires |d| > 0 && step > 0 && start < |data|
    ensures start < e <= |data|
  {
    if start + step >= |data| then |data|
    else match FirstFrom(data, d, start + step)
      case Some(p) => p + |d|
      case None => |data|
  }

  lemma ChunkStops(data: seq<byte>, d: seq<byte>, step: nat, start: nat)
    requires |d| > 0 && step > 0 && start < |data|
    ensures StopsAt(data, d, start + step, |data|, ChunkEnd(data, d, step, start))
  {
  }

  /** The chunks from `start` on. */
  ghost function Chunks(data: seq<byte>, d: seq<byte>, step: nat, start: nat): seq<Range>
    requires |d| > 0 && step > 0
    decreases |data| - start
  {
    if start >= |data| then []
    else
      var e := ChunkEnd(data, d, step, start);
      [Range(start, e)] + Chunks(data, d, step, e)
  }

  /** One step of every chunk scanner; the addition saturates at `usize::MAX`. */
  method NextEnd(data: seq<byte>, d: seq<byte>, step: nat, start: nat, address: nat) returns (end: nat)
    requires |d| > 0 && step > 0 && start < |data| <= USIZE_MAX
    ensures end == ChunkEnd(data, d, step, start)
    ensures StopsAt(data, d, start + step, |data|, end)
  {
    ChunkStops(data, d, step, start);
    end := SaturatingAdd(start, step);
    if end >= |data| {
      end := |data|;
    } else {
      var meter := new Meter();
      var rel := FindPatternInSlice(data[end..], d, address + end, meter);
      FirstInSuffix(data, d, end);
      end := if rel.Some? then Min(end + rel.value + |d|, |data|) else |data|;
    }
  }

  /** `find_chunk_boundaries` and `find_chunk_boundaries_pattern`: the eager scan. */
  method FindChunkBoundaries(data: seq<byte>, chunkSize: nat, d: seq<byte>, address: nat) returns (chunks: seq<Range>)
    requires |d| > 0 && |data| <= USIZE_MAX
    ensures chunks == Chunks(data, d, Max(chunkSize, 1), 0)
  {
    chunks := [];
    var step := Max(chunkSize, 1);
    var start: nat := 0;
    while start < |data|
      invariant start <= |data|
      invariant chunks + Chunks(data, d, step, start) == Chunks(data, d, step, 0)
    {
      var end := NextEnd(data, d, step, start, address);
      chunks := chunks + [Range(start, end)];
      start := end;
    }
  }

  /** `ChunkCursor` and `PatternChunkCursor`: constant state, one chunk per call. */
  class ChunkCursor {
    const data: seq<byte>
    const chunkSize: nat
    const delimiter: seq<byte>
    const address: nat
    var position: nat

    ghost predicate Valid()
      reads this
    {
      |delimiter| > 0 && |data| <= USIZE_MAX && position <= |data|
    }

    /** The chunks not yet yielded. */
    ghost function Remaining(): seq<Range>
      requires Valid()
      reads this
    {
      Chunks(data, delimiter, Max(chunkSize, 1), position)
    }

    constructor (data: seq<byte>, chunkSize: nat, delimiter: seq<byte>, address: nat)
      requires |delimiter| > 0 && |data| <= USIZE_MAX
      ensures Valid() && this.data == data && this.chunkSize == chunkSize && this.delimiter == delimiter
      ensures Remaining() == Chunks(data, delimiter, Max(chunkSize, 1), 0)
    {
      this.data, this.chunkSize, this.delimiter, this.address := data, chunkSize, delimiter, address;
      position := 0;
    }

    /** `Iterator::next`. */
    method Next() returns (chunk: Option<seq<byte>>)
      requires Valid()
      modifies this`position
      ensures Valid()
      ensures chunk == None <==> old(Remaining()) == []
      ensures chunk.Some? ==>
                var r := old(Remaining())[0];
                && r.start <= r.end <= |data| && chunk.value == data[r.start..r.end]
                && Remaining() == old(Remaining())[1..] && old(position) < position
    {
      if position >= |data| {
        return None;
      }
      var end := NextEnd(data, delimiter, Max(chunkSize, 1), position, address);
      chunk := Some(data[position..end]);
      position := end;
    }
  }

  ghost function Slices(data: seq<byte>, rs: seq<Range>): seq<seq<byte>>
    requires forall k: nat :: k < |rs| ==> rs[k].start <= rs[k].end <= |data|
  {
    if rs == [] then [] else [data[rs[0].start..rs[0].end]] + Slices(data, rs[1..])
  }

  lemma {:induction false} ChunksTile(data: seq<byte>, d: seq<byte>, step: nat, start: nat)
    requires |d| > 0 && step > 0 && start <= |data|
    ensures Tiles(Chunks(data, d, step, start), start, |data|)
    decreases |data| - start
  {
    if start < |data| {
      var e := ChunkEnd(data, d, step, start);
      ChunksTile(data, d, step, e);
      assert Chunks(data, d, step, start)[1..] == Chunks(data, d, step, e);
    }
  }

  lemma SlicesSnoc(data: seq<byte>, a: seq<seq<byte>>, rs: seq<Range>, all: seq<seq<byte>>)
    requires rs != [] && forall k: nat :: k < |rs| ==> rs[k].start <= rs[k].end <= |data|
    requires a + Slices(data, rs) == all
    ensures (a + [data[rs[0].start..rs[0].end]]) + Slices(data, rs[1..]) == all
  {
  }

  /** Draining a cursor yields exactly the bytes of the eager chunk list. */
  method Drain(data: seq<byte>, chunkSize: nat, d: seq<byte>, address: nat) returns (chunks: seq<seq<byte>>)
    requires |d| > 0 && |data| <= USIZE_MAX
    ensures var eager := Chunks(data, d, Max(chunkSize, 1), 0);
            && (forall k: nat :: k < |eager| ==> eager[k].start <= eager[k].end <= |data|)
            && chunks == Slices(data, eager)
  {
    var cursor := new ChunkCursor(data, chunkSize, d, address);
    var step := Max(chunkSize, 1);
    ChunksTile(data, d, step, 0);
    TilesInBounds(Chunks(data, d, step, 0), 0, |data|);
    ghost var all := Slices(data, Chunks(data, d, step, 0));
    chunks := [];
    while true
      invariant cursor.Valid() && cursor.data == data && cursor.delimiter == d && cursor.chunkSize == chunkSize
      invariant fresh(cursor)
      invariant forall k: nat :: k < |cursor.Remaining()| ==>
                  cursor.Remaining()[k].start <= cursor.Remaining()[k].end <= |data|
      invariant chunks + Slices(data, cursor.Remaining()) == all
      decreases |data| - cursor.position
    {
      ghost var rs := cursor.Remaining();
      var chunk := cursor.Next();
      if chunk == None {
        break;
      }
      SlicesSnoc(data, chunks, rs, all);
      chunks := chunks + [chunk.value];
    }
  }

  /** The chunk ends at the first complete delimiter that starts at or after its start plus step. */
  ghost predicate EndsAtDelimiter(data: seq<byte>, d: seq<byte>, step: nat, c: Range)
    requires |d| > 0
  {
    c.end >= |d| && FirstFrom(data, d, c.start + step) == Some(c.end - |d|)
  }

  ghost predicate AllEndAtDelimiter(data: seq<byte>, d: seq<byte>, step: nat, cs: seq<Range>)
    requires |d| > 0
  {
    forall k: nat :: k + 1 < |cs| ==> EndsAtDelimiter(data, d, step, cs[k])
  }

  /** Every chunk but the last ends at that delimiter, so it is longer than the step. */
  lemma {:induction false} ChunksEndAtDelimiter(data: seq<byte>, d: seq<byte>, step: nat, start: nat)
    requires |d| > 0 && step > 0 && start <= |data|
    ensures AllEndAtDelimiter(data, d, step, Chunks(data, d, step, start))
    decreases |data| - start
  {
    if start < |data| {
      var e := ChunkEnd(data, d, step, start);
      var cs, rest := Chunks(data, d, step, start), Chunks(data, d, step, e);
      ChunksEndAtDelimiter(data, d, step, e);
      assert cs == [Range(start, e)] + rest;
      forall k: nat | k + 1 < |cs| ensures EndsAtDelimiter(data, d, step, cs[k]) {
        if k == 0 {
          assert rest != [];
        } else {
          assert cs[k] == rest[k - 1];
        }
      }
    }
  }

  lemma DivLess(x: nat, y: nat, n: nat)
    requires 0 < n && x + n <= y
    ensures x / n + 1 <= y / n
  {
    DivBracket(x, n);
    assert (x / n + 1) * n == (x / n) * n + n;
    DivAtLeast(y, n, x / n + 1);
  }

  /** The pre-sized capacity `len / step + 2` is never exceeded. */
  lemma {:induction false} ChunkCount(data: seq<byte>, d: seq<byte>, step: nat, start: nat)
    requires |d| > 0 && step > 0 && start <= |data|
    ensures |Chunks(data, d, step, start)| <= (|data| - start) / step + 1
    decreases |data| - start
  {
    if start < |data| {
      var e := ChunkEnd(data, d, step, start);
      ChunkCount(data, d, step, e);
      if e < |data| {
        DivLess(|data| - e, |data| - start, step);
      } else {
        DivAtLeast(|data| - start, step, 0);
        assert Chunks(data, d, step, e) == [];
      }
    }
  }

  /** Main theorem: the eager scan tiles the data, cuts only where promised, and fits the
      capacity `len / step + 2` reserved for it. */
  lemma ChunkScanIsSound(data: seq<byte>, d: seq<byte>, step: nat)
    requires |d| > 0 && step > 0
    ensures var cs := Chunks(data, d, step, 0);
            && Tiles(cs, 0, |data|)
            && AllEndAtDelimiter(data, d, step, cs)
            && |cs| < |data| / step + 2
  {
    ChunksTile(data, d, step, 0);
    ChunksEndAtDelimiter(data, d, step, 0);
    ChunkCount(data, d, step, 0);
  }

  /** The chunks of a file, said without the scanner: they tile it, and each of them, the last one too,
      ends behind the first complete delimiter that starts a step or more after its start, or with the
      data if there is none. */
  ghost predicate IsChunking(data: seq<byte>, d: seq<byte>, step: nat, cs: seq<Range>) {
    Tiles(cs, 0, |data|) && forall c :: c in cs ==> StopsAt(data, d, c.start + step, |data|, c.end)
  }

  lemma {:induction false} ChunksStop(data: seq<byte>, d: seq<byte>, step: nat, start: nat)
    requires |d| > 0 && step > 0 && start <= |data|
    ensures forall c :: c in Chunks(data, d, step, start) ==> StopsAt(data, d, c.start + step, |data|, c.end)
    decreases |data| - start
  {
    if start < |data| {
      ChunkStops(data, d, step, start);
      ChunksStop(data, d, step, ChunkEnd(data, d, step, start));
    }
  }

  /** Main theorem: the scanned chunks are the chunks of the file, and there are no others. */
  lemma ChunksAreDetermined(data: seq<byte>, d: seq<byte>, step: nat, cs: seq<Range>)
    requires |d| > 0 && step > 0
    ensures cs == Chunks(data, d, step, 0) <==> IsChunking(data, d, step, cs)
  {
    var scanned := Chunks(data, d, step, 0);
    ChunksTile(data, d, step, 0);
    ChunksStop(data, d, step, 0);
    if IsChunking(data, d, step, cs) {
      forall a, b | a in cs && b in scanned && a.start == b.start ensures a.end == b.end {
        StopsOnce(data, d, a.start + step, |data|, a.end, b.end);
      }
      TilesUnique(cs, scanned, 0, |data|);
    }
  }

  // ----- fixed-size chunks

  /** `fixed_chunk_count`. */
  function FixedChunkCount(len: nat, chunkSize: nat): nat {
    if len == 0 then 0 else DivCeil(len, Max(chunkSize, 1))
  }

  /** `fixed_chunk_bounds`, with its saturating product and sum. */
  function FixedChunkBounds(len: nat, chunkSize: nat, index: nat): Option<Range> {
    var size := Max(chunkSize, 1);
    if len == 0 then None
    else if index >= DivCeil(len, size) then None
    else
      var start := Min(index * size, USIZE_MAX);
      var rawEnd := SaturatingAdd(start, size);
      Some(Range(start, if rawEnd > len then len else rawEnd))
  }

  /** Chunk `index` is exactly the stretch `[index * size, (index + 1) * size)` cut off at the end
      of the file, and exists exactly below the count: the saturation is never reached. */
  lemma FixedBoundsExact(len: nat, chunkSize: nat, index: nat)
    requires len <= USIZE_MAX
    ensures var size := Max(chunkSize, 1);
            && (index < FixedChunkCount(len, chunkSize) <==> index * size < len)
            && FixedChunkBounds(len, chunkSize, index) ==
               if index * size < len then Some(Range(index * size, Min((index + 1) * size, len))) else None
  {
    var size := Max(chunkSize, 1);
    DivCeilBracket(len, size, index);
    assert (index + 1) * size == index * size + size;
  }

  /** The fixed chunks from `index` on. */
  ghost function FixedChunks(len: nat, chunkSize: nat, index: nat): seq<Range>
    decreases FixedChunkCount(len, chunkSize) - index
  {
    if index >= FixedChunkCount(len, chunkSize) then []
    else [FixedChunkBounds(len, chunkSize, index).value] + FixedChunks(len, chunkSize, index + 1)
  }

  lemma {:induction false} FixedChunksTile(len: nat, chunkSize: nat, index: nat)
    requires len <= USIZE_MAX && index <= FixedChunkCount(len, chunkSize)
    ensures Tiles(FixedChunks(len, chunkSize, index), Min(index * Max(chunkSize, 1), len), len)
    ensures |FixedChunks(len, chunkSize, index)| == FixedChunkCount(len, chunkSize) - index
    decreases FixedChunkCount(len, chunkSize) - index
  {
    FixedBoundsExact(len, chunkSize, index);
    if index < FixedChunkCount(len, chunkSize) {
      FixedChunksTile(len, chunkSize, index + 1);
      assert FixedChunks(len, chunkSize, index)[1..] == FixedChunks(len, chunkSize, index + 1);
    }
  }
}
