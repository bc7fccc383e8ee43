# Verified model of a path tracer's integrator core

This project models the discrete logic in `src/integrator.cpp` of a small
physically based path tracer. There are three pieces:

- **Row partitioning** in `SamplerIntegrator::MultiRender`. The image height
  is split into 16 contiguous half-open row ranges, one per worker thread.
  Each range gets `height / 16` rows, and the `height % 16` leftover rows go
  one each to the first ranges. The ranges cover the image, do not overlap,
  and differ in size by at most one row. Because they do not overlap, the
  workers can write the film without locks.
- **Pixel traversal** in `Render` (rows `height - 1` down to `0`) and
  `ScanlineRender` (rows `start` up to `end - 1`). Each row is written left
  to right, one `WriteColor` per pixel. The film is a class with a pixel map
  that its methods update. A ghost log records the order of the writes, and
  a ghost list records the images saved by `WriteFile`. The colour of a
  pixel is an opaque oracle `shade: Pixel -> C`. It stands for the whole
  per-pixel sampling loop: camera rays, the integrator's `rayColor`, and the
  average over samples.
- **The bounce loops** of `LambertIntegrator::rayColor` and
  `DisneyIntegrator::rayColor`. A per-bounce oracle `path(i)` stands for what
  the scene, the BSDF sampler and the light sampler report at bounce `i`:
  - a miss, or
  - a hit, with flags for a degenerate sample, a delta sample, a delta-like
    material, an emissive surface, facing the normal, a degenerate light
    sample, and an occluded shadow ray.

  A Disney colour is the list of terms added to `L`, each tagged with its
  bounce: full emittance, weighted emittance, or a light-sampling estimate.
  A Lambert colour is black, or the sky scaled by `0.5` raised to the number
  of halvings.

Three details of `DisneyIntegrator::rayColor` that the model keeps:

- A miss adds no background: the sky term at src/integrator.cpp:195 is
  commented out, so the loop returns `L` unchanged.
- A degenerate BSDF sample returns black and drops the accumulated `L`
  (src/integrator.cpp:129-131).
- Two different delta flags are used:
  - the material classification `isDirac` (src/integrator.cpp:133) decides
    whether a light is sampled;
  - the sample's own `sample.isDirac` (src/integrator.cpp:189) becomes
    `oldDirac` for the next bounce's emitter weighting.

  The model keeps both: `surfaceDirac` and `sampleDirac`.

Files:

- `partition.dfy` (module `Partition`)
- `scan.dfy` (module `Scan`): the pixel orders and the film-painting predicate
- `render.dfy` (module `Render`): the classes `Film` and `SamplerIntegrator`
- `bounce.dfy` (module `Bounce`)

## Model

| member | source | states |
|---|---|---|
| `Partition.PartitionRows` | src/integrator.cpp:53-69 | Runs the `chunk_size`/`leftover`/`start`/`end` loop. Produces exactly 16 ranges, range `k` being `Chunk(height, k)`, ending with `leftover == 0`. The first range starts at 0, each starts where the previous ended, the last ends at `height`, and every range has `start <= end`. |
| `Partition.LastChunkEndsAtHeight` | src/integrator.cpp:59-69 | The first range starts at row 0 and the last ends at `height`: the leftover rows are all handed out. |
| `Partition.ChunkStep` | src/integrator.cpp:62-68 | Range `k + 1` starts `height / 16` rows after range `k`, plus one row exactly when `k < height % 16`. |
| `Partition.ChunkSize` | src/integrator.cpp:57-66 | Range `k` holds `height / 16` rows, plus one exactly when `k` is among the first `height % 16` ranges. |
| `Partition.ChunksBalanced` | src/integrator.cpp:57-66 | Any two ranges differ in size by at most one, and a later range is never larger than an earlier one. |
| `Partition.ChunkStartMonotone` | src/integrator.cpp:61-68 | Range starts never decrease with the worker index. |
| `Partition.ChunksDisjoint` | src/integrator.cpp:61-68 | Two distinct ranges share no row. |
| `Partition.RowBelowChunk` | src/integrator.cpp:61-68 | A row below the start of range `k` lies in some earlier range. |
| `Partition.RowInExactlyOneChunk` | src/integrator.cpp:57-68 | A row lies in some range if and only if it is in `[0, height)`, and it lies in at most one range. |
| `Partition.ShortImage` | src/integrator.cpp:57-66 | When `height < 16`, the first `height` ranges hold one row each and the rest are empty. |
| `Scan.RowCount` | src/integrator.cpp:18-28 | A row holds each of its pixels exactly once and no other pixel. |
| `Scan.RowsUpCount` | src/integrator.cpp:16-28 | The `ScanlineRender` sweep of rows `[lo, hi)` holds every pixel of that band exactly once and nothing outside it. |
| `Scan.RowsDownCount` | src/integrator.cpp:36-48 | The `Render` sweep of rows `hi - 1` down to `lo` holds every pixel of the band exactly once and nothing outside it. |
| `Scan.RowsUpMembers` | src/integrator.cpp:16-28 | A pixel is visited by the upward sweep if and only if it is in the band. |
| `Scan.RowsDownMembers` | src/integrator.cpp:36-48 | A pixel is visited by the downward sweep if and only if it is in the band. |
| `Scan.RowsUpSplit` | src/integrator.cpp:61-68 | Sweeping rows `[a, b)` and then `[b, c)` is sweeping `[a, c)`. |
| `Scan.RowsDownOrdered` | src/integrator.cpp:36-38 | `Render` visits higher rows first and, within a row, columns in increasing order. |
| `Scan.RowsUpOrdered` | src/integrator.cpp:16-18 | `ScanlineRender` visits lower rows first and, within a row, columns in increasing order. |
| `Scan.PaintedNextColumn` | src/integrator.cpp:18-27 | Writing the oracle colour at column `x` of row `y` extends the painted part of the row by that column. |
| `Scan.PaintedCompose` | src/integrator.cpp:16-28 | Painting rows `[lo, mid)` and then `[mid, hi)` paints `[lo, hi)`. |
| `Scan.PaintedComposeBelow` | src/integrator.cpp:36-48 | Painting rows `[mid, hi)` and then `[lo, mid)` paints `[lo, hi)`. |
| `Scan.PaintedUnique` | src/integrator.cpp:70-73 | `Painted` determines the film from the starting film and the band: two films painted over the same rows from the same start are equal. |
| `Scan.SweepsAgree` | src/integrator.cpp:36-48 | The upward and the downward sweeps of an image hold the same multiset of pixels. |
| `Render.Film.WriteColor` | src/integrator.cpp:27 | Sets pixel `p` to `c`, appends `p` to the write log, and changes nothing else. |
| `Render.Film.WriteFile` | src/integrator.cpp:50 | Saves the current image once and changes nothing else. |
| `Render.SamplerIntegrator.ScanRow` | src/integrator.cpp:18-28 | Writes row `j` left to right, and afterwards exactly the pixels of the row hold their oracle colour; nothing else changes. |
| `Render.SamplerIntegrator.ScanlineRender` | src/integrator.cpp:12-30 | Logs exactly the upward sweep of `[start, end)`, paints exactly those pixels with their oracle colour, and saves no file. |
| `Render.SamplerIntegrator.Render` | src/integrator.cpp:32-51 | Logs exactly the downward sweep of `[0, height)`, paints every image pixel with its oracle colour and no other pixel, then saves the finished image once. |
| `Render.SamplerIntegrator.MultiRender` | src/integrator.cpp:53-74 | Hands worker `k` the range `Chunk(height, k)` for all 16 workers. Paints every image pixel with its oracle colour, each written once, by the upward sweep of the whole image; then saves the finished image once. |
| `Render.WorkersDisjoint` | src/integrator.cpp:61-68 | No pixel is written by two different workers. |
| `Render.EachPixelHasOneWorker` | src/integrator.cpp:61-68 | A pixel is written by some worker if and only if it is in the image, and by at most one. |
| `Render.RendersAgree` | src/integrator.cpp:32-74 | On fresh films, both renders set exactly the image pixels, each to the oracle's colour for it, so under a pixel-determined colour they end with the same film. |
| `Bounce.DisneyRayColor` | src/integrator.cpp:112-200 | Runs at most `depth` bounces. Every bounce but the last is a non-emissive surface hit, and the loop stops early only on a miss, a degenerate sample or an emitter hit. A degenerate sample returns black. A miss returns the accumulated light-sampling terms unchanged. An emitter hit returns them plus the emitter's term from `EmitTerm`. Exhausting the budget returns them. Shadow rays are cast exactly at `ShadowRays`. |
| `Bounce.LambertRayColor` | src/integrator.cpp:85-109 | The result is the scaled sky exactly when some bounce below `depth` misses. It is taken at the first miss, and the throughput is halved once per hit before it. Otherwise the result is black. |
| `Bounce.LightTermsExact` | src/integrator.cpp:149-184 | A light-sampling term for bounce `k` is present if and only if bounce `k` is a non-emissive hit with lights in the scene, a non-delta material, a non-degenerate light sample and an unoccluded shadow ray. |
| `Bounce.ShadowRaysExact` | src/integrator.cpp:149-162 | A shadow ray is cast at bounce `k` if and only if it is a non-emissive hit with lights in the scene, a non-delta material and a non-degenerate light sample. |
| `Bounce.NoLightSamplingWithoutLightsOrOnDelta` | src/integrator.cpp:133-149 | A delta-like surface, or a scene without lights, casts no shadow ray and gets no light-sampling term. |
| `Bounce.LightTermsBounded` | src/integrator.cpp:149-184 | There are no more light-sampling terms than shadow rays, and no more shadow rays than bounces. |

## Left out

- Colour, pdf and direction arithmetic in floating point are not modelled: the per-pixel average (src/integrator.cpp:26, 46), the balance-heuristic weights and their possibly zero denominators (src/integrator.cpp:137, 183), the scaling by the number of lights (src/integrator.cpp:144, 183), and the sky gradient (src/integrator.cpp:100-102). A Disney colour is the list of the terms added to `L`. The throughput of each term is given only by its bounce index, and `oldPDF` is implied by `WeightedEmit`.
- The samples-per-pixel loop (src/integrator.cpp:19-26, 39-46) and the camera, sampler and scene collaborators are folded into the per-pixel oracle `shade` and the per-bounce oracle `path`. The model assumes a pixel's colour depends on the pixel alone. The source does not meet that assumption:
  - `rayColor` draws from `randomInSphere()` and `random_double()` (src/integrator.cpp:94, 151), which take no pixel argument;
  - `StartPixel()` (src/integrator.cpp:19, 39) takes no coordinate;
  - `MultiRender` runs 16 threads on these streams at once (src/integrator.cpp:67).

  So the real `Render` and `MultiRender` do not in general give equal colours. `RendersAgree` holds only under the model's assumption. The fixed depth `10` passed to `rayColor` is part of `shade`.
- The delta-material test on doubles (src/integrator.cpp:133) and the facing test `Dot(wo, n) >= 0` (src/integrator.cpp:136) are oracle booleans.
- The random light index (src/integrator.cpp:151) and `Sample_Li` are folded into the oracle's `lightBlack` and `occluded` flags. The model does not record which light was chosen.
- Threads and joining (src/integrator.cpp:56, 67, 70-72) are not modelled. `MultiRender` computes the ranges with `PartitionRows`, which is the source's loop, and then runs `ScanlineRender` on each range one after another. `WorkersDisjoint` and `EachPixelHasOneWorker` show that the workers write disjoint pixels, which is what lets their writes run without locks. The interleaving of those writes is not modelled.
- The inner column loop that `Render` and `ScanlineRender` share is modelled once, as `ScanRow`.
- Console logging (src/integrator.cpp:17, 37) and the output file name `test.ppm` are not modelled. `WriteFile` records a snapshot of the pixel map.
- The image width and height are `nat`. A negative camera resolution is not modelled.
- `RedIntegrator::rayColor` and `NormalIntegrator::rayColor` map to colour constants and normals only, so they are not modelled. Neither are the unused `fakeDirac` (src/integrator.cpp:163) and the commented-out recursive estimator (src/integrator.cpp:209-232).
