/** The render driver of `SamplerIntegrator`: the sequential sweep
    `Render`, the row-range worker `ScanlineRender` and the parallel
    `MultiRender`, over a film whose pixels are written one at a time. */
module Render {
  import opened Scan
  import opened Partition

  /** The image buffer. `pixels` is what `WriteColor` has stored; `log` is
      the order of those writes and `files` the images saved by
      `WriteFile`, both kept for the specification only. */
  class Film<C> {
    var pixels: map<Pixel, C>
    ghost var log: seq<Pixel>
    ghost var files: seq<map<Pixel, C>>

    constructor ()
      ensures pixels == map[] && log == [] && files == []
    {
      pixels := map[];
      log := [];
      files := [];
    }

    /** Stores colour `c` at pixel `p`. */
    method WriteColor(c: C, p: Pixel)
      modifies this
      ensures pixels == old(pixels)[p := c]
      ensures log == old(log) + [p]
      ensures files == old(files)
    {
      pixels := pixels[p := c];
      log := log + [p];
    }

    /** Saves the current image. */
    method WriteFile()
      modifies this
      ensures files == old(files) + [pixels]
      ensures pixels == old(pixels) && log == old(log)
    {
      files := files + [pixels];
    }
  }

  /** The driver: a film, the camera's resolution, and the colour that the
      per-pixel sampling loop (camera rays, the selected integrator's
      `rayColor`, the average over samples) produces for each pixel. */
  class SamplerIntegrator<C> {
    const film: Film<C>
    const width: nat
    const height: nat
    const shade: Pixel -> C

    constructor (film: Film<C>, width: nat, height: nat, shade: Pixel -> C)
      ensures this.film == film && this.width == width && this.height == height && this.shade == shade
    {
      this.film := film;
      this.width := width;
      this.height := height;
      this.shade := shade;
    }

    /** The inner loop shared by `Render` and `ScanlineRender`: row `j`,
        columns `0` to `width - 1`, one write per pixel. */
    method ScanRow(j: int)
      modifies film
      ensures film.log == old(film.log) + Row(j, width)
      ensures Painted(film.pixels, old(film.pixels), j, j + 1, width, shade)
      ensures film.files == old(film.files)
    {
      ghost var pixels0 := film.pixels;
      var i := 0;
      while i < width
        invariant 0 <= i <= width
        invariant film.log == old(film.log) + Row(j, width)[..i]
        invariant Painted(film.pixels, pixels0, j, j + 1, i, shade)
        invariant film.files == old(film.files)
      {
        var p := Pixel(i, j);
        ghost var mid := film.pixels;
        film.WriteColor(shade(p), p);
        PaintedNextColumn(film.pixels, mid, pixels0, j, i, shade);
        assert Row(j, width)[..i + 1] == Row(j, width)[..i] + [p];
        i := i + 1;
      }
      assert Row(j, width)[..width] == Row(j, width);
    }

    /** The worker for rows `[start, end)`: rows bottom up, each row left to
        right, one write per pixel. */
    method ScanlineRender(start: int, end: int)
      modifies film
      ensures film.log == old(film.log) + RowsUp(start, end, width)
      ensures Painted(film.pixels, old(film.pixels), start, end, width, shade)
      ensures film.files == old(film.files)
    {
      ghost var log0, pixels0 := film.log, film.pixels;
      ghost var written: seq<Pixel> := [];
      var j := start;
      while j < end
        invariant start <= j && (j <= end || j == start)
        invariant written == RowsUp(start, j, width)
        invariant film.log == log0 + written
        invariant Painted(film.pixels, pixels0, start, j, width, shade)
        invariant film.files == old(film.files)
        decreases end - j
      {
        ghost var before := film.pixels;
        ScanRow(j);
        PaintedCompose(film.pixels, before, pixels0, start, j, j + 1, width, shade);
        written := written + Row(j, width);
        j := j + 1;
      }
    }

    /** The sequential sweep: rows from `height - 1` down to `0`, each row
        left to right, one write per pixel, then one saved image. */
    method Render()
      modifies film
      ensures film.log == old(film.log) + RowsDown(height, 0, width)
      ensures Painted(film.pixels, old(film.pixels), 0, height, width, shade)
      ensures film.files == old(film.files) + [film.pixels]
    {
      ghost var log0, pixels0 := film.log, film.pixels;
      ghost var written: seq<Pixel> := [];
      var j := height - 1;
      while j >= 0
        invariant -1 <= j < height
        invariant written == RowsDown(height, j + 1, width)
        invariant film.log == log0 + written
        invariant Painted(film.pixels, pixels0, j + 1, height, width, shade)
        invariant film.files == old(film.files)
      {
        ghost var before := film.pixels;
        ScanRow(j);
        PaintedComposeBelow(film.pixels, before, pixels0, j, j + 1, height, width, shade);
        written := written + Row(j, width);
        j := j - 1;
      }
      film.WriteFile();
    }

    /** The parallel render: the rows are split into `NumThreads` ranges and
        each range is rendered by its own `ScanlineRender` worker, here run
        one after another; then one saved image. Returns the workers' ranges
        in spawn order. */
    method MultiRender() returns (workers: seq<Range>)
      modifies film
      ensures |workers| == NumThreads
      ensures forall k :: 0 <= k < NumThreads ==> workers[k] == Chunk(height, k)
      ensures film.log == old(film.log) + RowsUp(0, height, width)
      ensures Painted(film.pixels, old(film.pixels), 0, height, width, shade)
      ensures film.files == old(film.files) + [film.pixels]
    {
      ghost var log0, pixels0 := film.log, film.pixels;
      ghost var written: seq<Pixel> := [];
      var leftover;
      workers, leftover := PartitionRows(height);
      var start := 0;
      for k := 0 to NumThreads
        invariant k < NumThreads ==> start == workers[k].start
        invariant k == NumThreads ==> start == height
        invariant 0 <= start
        invariant written == RowsUp(0, start, width)
        invariant film.log == log0 + written
        invariant Painted(film.pixels, pixels0, 0, start, width, shade)
        invariant film.files == old(film.files)
      {
        var range := workers[k];
        ghost var before := film.pixels;
        ScanlineRender(range.start, range.end);
        PaintedCompose(film.pixels, before, pixels0, 0, range.start, range.end, width, shade);
        ghost var band := RowsUp(range.start, range.end, width);
        RowsUpSplit(0, range.start, range.end, width);
        written := written + band;
        start := range.end;
      }
      film.WriteFile();
    }
  }

  /** The pixels that worker `k` of `MultiRender` writes, in its order. */
  function WorkerPixels(height: nat, width: nat, k: nat): seq<Pixel> {
    RowsUp(Chunk(height, k).start, Chunk(height, k).end, width)
  }

  /** No two workers write the same pixel: the concurrent film writes of
      `MultiRender` need no lock. */
  lemma WorkersDisjoint(height: nat, width: nat, j: nat, k: nat, p: Pixel)
    requires j < NumThreads && k < NumThreads && j != k
    ensures !(p in WorkerPixels(height, width, j) && p in WorkerPixels(height, width, k))
  {
    RowsUpMembers(Chunk(height, j).start, Chunk(height, j).end, width);
    RowsUpMembers(Chunk(height, k).start, Chunk(height, k).end, width);
    ChunksDisjoint(height, j, k, p.y);
  }

  /** Every pixel of the image is written by exactly one worker, and no
      worker writes outside the image. */
  lemma EachPixelHasOneWorker(height: nat, width: nat, p: Pixel)
    ensures InBand(p, 0, height, width) <==>
              exists k :: 0 <= k < NumThreads && p in WorkerPixels(height, width, k)
    ensures forall j, k ::
              (0 <= j < NumThreads && 0 <= k < NumThreads &&
               p in WorkerPixels(height, width, j) && p in WorkerPixels(height, width, k)) ==> j == k
  {
    forall k | 0 <= k < NumThreads
      ensures p in WorkerPixels(height, width, k) <==> InRange(p.y, Chunk(height, k)) && 0 <= p.x < width
    {
      RowsUpMembers(Chunk(height, k).start, Chunk(height, k).end, width);
    }
    RowInExactlyOneChunk(height, p.y);
  }

  /** A sequential and a parallel render of the same image, each on a fresh
      film, leave the same pixels: every image pixel holds the oracle's
      colour and no other pixel is set. Each writes every pixel once. */
  method RendersAgree<C>(width: nat, height: nat, shade: Pixel -> C)
    returns (sequential: map<Pixel, C>, parallel: map<Pixel, C>)
    ensures sequential == parallel
    ensures forall p :: p in sequential <==> InBand(p, 0, height, width)
    ensures forall p :: p in sequential ==> sequential[p] == shade(p)
  {
    var film1 := new Film<C>();
    var driver1 := new SamplerIntegrator(film1, width, height, shade);
    driver1.Render();
    var film2 := new Film<C>();
    var driver2 := new SamplerIntegrator(film2, width, height, shade);
    var workers := driver2.MultiRender();
    PaintedUnique(film1.pixels, film2.pixels, map[], 0, height, width, shade);
    sequential, parallel := film1.pixels, film2.pixels;
  }
}
