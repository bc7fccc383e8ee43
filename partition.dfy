/** The static split of an image's rows among the render workers of
    `SamplerIntegrator::MultiRender`: `NumThreads` contiguous half-open row
    ranges, sized `height / NumThreads`, with the `height % NumThreads`
    leftover rows handed out one each to the first ranges. */
module Partition {

  /** The number of workers, fixed in the source. */
  const NumThreads: nat := 16

  /** A half-open row range `[start, end)` assigned to one worker. */
  datatype Range = Range(start: int, end: int)

  function Min(a: int, b: int): int { if a <= b then a else b }

  /** Closed form of where range `k` starts: `k` full chunks plus one extra
      row for each earlier range that received a leftover row. */
  function ChunkStart(height: nat, k: nat): nat {
    k * (height / NumThreads) + Min(k, height % NumThreads)
  }

  /** The range that worker `k` is given. */
  function Chunk(height: nat, k: nat): Range {
    Range(ChunkStart(height, k), ChunkStart(height, k + 1))
  }

  function Size(r: Range): int { r.end - r.start }

  predicate InRange(row: int, r: Range) { r.start <= row < r.end }

  /** The partition loop of `MultiRender`: `chunk_size`, `leftover`,
      `start` and `end` updated per worker exactly as the source does.
      Returns the ranges in spawn order and the final `leftover`. */
  method PartitionRows(height: nat) returns (ranges: seq<Range>, leftover: int)
    ensures |ranges| == NumThreads
    ensures forall k :: 0 <= k < NumThreads ==> ranges[k] == Chunk(height, k)
    ensures leftover == 0
    ensures ranges[0].start == 0 && ranges[NumThreads - 1].end == height
    ensures forall k :: 0 < k < NumThreads ==> ranges[k].start == ranges[k - 1].end
    ensures forall k :: 0 <= k < NumThreads ==> 0 <= ranges[k].start <= ranges[k].end
  {
    var chunkSize := height / NumThreads;
    leftover := height % NumThreads;
    var start := 0;
    ranges := [];
    for i := 0 to NumThreads
      invariant |ranges| == i
      invariant forall k :: 0 <= k < i ==> ranges[k] == Chunk(height, k)
      invariant start == ChunkStart(height, i)
      invariant leftover == height % NumThreads - Min(i, height % NumThreads)
    {
      var end := start + chunkSize;
      if leftover > 0 {
        end := end + 1;
        leftover := leftover - 1;
      }
      assert (i + 1) * chunkSize == i * chunkSize + chunkSize;
      ranges := ranges + [Range(start, end)];
      start := end;
    }
    LastChunkEndsAtHeight(height);
    forall k | 0 <= k < NumThreads ensures ranges[k].start <= ranges[k].end {
      ChunkStep(height, k);
    }
  }

  /** Consecutive ranges touch: range `k + 1` starts where range `k` ends,
      and the step is one chunk plus the leftover row, if any. */
  lemma ChunkStep(height: nat, k: nat)
    ensures ChunkStart(height, k + 1)
         == ChunkStart(height, k) + height / NumThreads
            + (if k < height % NumThreads then 1 else 0)
  {
    assert (k + 1) * (height / NumThreads) == k * (height / NumThreads) + height / NumThreads;
  }

  /** The first range starts at row 0 and the last ends at `height`. */
  lemma LastChunkEndsAtHeight(height: nat)
    ensures Chunk(height, 0).start == 0
    ensures Chunk(height, NumThreads - 1).end == height
  {
  }

  /** Every range holds `height / NumThreads` rows, plus one exactly when it
      is among the first `height % NumThreads` ranges. */
  lemma ChunkSize(height: nat, k: nat)
    requires k < NumThreads
    ensures Size(Chunk(height, k)) == height / NumThreads + (if k < height % NumThreads then 1 else 0)
  {
    ChunkStep(height, k);
  }

  /** Any two ranges differ in size by at most one row. */
  lemma ChunksBalanced(height: nat, j: nat, k: nat)
    requires j < NumThreads && k < NumThreads
    ensures -1 <= Size(Chunk(height, j)) - Size(Chunk(height, k)) <= 1
    ensures j <= k ==> Size(Chunk(height, k)) <= Size(Chunk(height, j))
  {
    ChunkSize(height, j);
    ChunkSize(height, k);
  }

  /** Range starts never decrease. */
  lemma {:induction false} ChunkStartMonotone(height: nat, j: nat, k: nat)
    requires j <= k
    ensures ChunkStart(height, j) <= ChunkStart(height, k)
    decreases k - j
  {
    if j < k {
      ChunkStep(height, j);
      ChunkStartMonotone(height, j + 1, k);
    }
  }

  /** Distinct ranges share no row: the property that lets the workers
      write the film without locks. */
  lemma ChunksDisjoint(height: nat, j: nat, k: nat, row: int)
    requires j < NumThreads && k < NumThreads && j != k
    ensures !(InRange(row, Chunk(height, j)) && InRange(row, Chunk(height, k)))
  {
    if j < k {
      ChunkStartMonotone(height, j + 1, k);
    } else {
      ChunkStartMonotone(height, k + 1, j);
    }
  }

  /** A row below the start of range `k` lies in one of the ranges before `k`. */
  lemma {:induction false} RowBelowChunk(height: nat, row: int, k: nat)
    requires 0 <= row < ChunkStart(height, k)
    ensures exists j :: 0 <= j < k && InRange(row, Chunk(height, j))
  {
    if row >= ChunkStart(height, k - 1) {
      assert InRange(row, Chunk(height, k - 1));
    } else {
      RowBelowChunk(height, row, k - 1);
    }
  }

  /** Every row of the image lies in exactly one of the `NumThreads` ranges,
      and no row outside the image lies in any. */
  lemma RowInExactlyOneChunk(height: nat, row: int)
    ensures 0 <= row < height <==> exists k :: 0 <= k < NumThreads && InRange(row, Chunk(height, k))
    ensures forall j, k ::
              (0 <= j < NumThreads && 0 <= k < NumThreads &&
               InRange(row, Chunk(height, j)) && InRange(row, Chunk(height, k))) ==> j == k
  {
    LastChunkEndsAtHeight(height);
    if 0 <= row < height {
      RowBelowChunk(height, row, NumThreads);
    }
    forall k | 0 <= k < NumThreads && InRange(row, Chunk(height, k))
      ensures 0 <= row < height
    {
      ChunkStartMonotone(height, k + 1, NumThreads);
    }
    forall j, k | 0 <= j < NumThreads && 0 <= k < NumThreads
                  && InRange(row, Chunk(height, j)) && InRange(row, Chunk(height, k))
      ensures j == k
    {
      if j != k { ChunksDisjoint(height, j, k, row); }
    }
  }

  /** Fewer rows than workers: the first `height` ranges get one row each
      and the rest are empty. */
  lemma ShortImage(height: nat, k: nat)
    requires height < NumThreads && k < NumThreads
    ensures Size(Chunk(height, k)) == (if k < height then 1 else 0)
  {
    ChunkSize(height, k);
  }
}
