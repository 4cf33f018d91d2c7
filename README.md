# A verified model of the Mandelbrot movie renderer's control structure

The program renders `MANDEL_AMOUNT` (50) zoomed frames of the Mandelbrot set.
The parent process admits frames in batches of at most `MAX_PROC` child
processes. It forks one child per frame. Once a batch is full, or no frames
remain, it waits for every child of the batch. Each child allocates a raw
image, fills it black, computes it and stores it as `mandel<i>.jpg`. With more
than one thread, `compute_image` hands each worker thread a `thread_par`
descriptor. Worker `tid` renders the columns `tid, tid + num_threads, …` of
every row. With one thread or fewer, it scans the grid row by row itself.

This project models the integer control structure around the fractal
arithmetic. It has five modules:

- `Color` (`color.dfy`): `iteration_to_color`, both as written and as evidently
  intended (see Findings).
- `Escape` (`escape.dfy`): the loop of `iterations_at_point`. The point type is a
  type parameter. The recurrence `step` and the magnitude test `bounded` are
  function parameters.
- `Partition` (`partition.dfy`): the `thread_par` descriptor, `compute_image_thread`,
  both branches of `compute_image`, and the child's allocate-fill-compute
  sequence. The image is an `array2<int>` indexed `[column, row]`. Each pass
  returns a ghost log of the cells it wrote.
- `Batch` (`batch.dfy`): the frame/batch loop of `main`. `fork` is an oracle
  sequence of outcomes, consumed one per call. The run is a trace of
  `Spawned`, `ForkFailed` and `Reaped` events.
- `Arith` (`arith.dfy`): facts about Euclidean division that the other modules
  share.

Worker threads are modelled as stripe passes run one after another, in any
order (a `schedule` permutation). This is sound because the stripes are
disjoint. The per-pixel value is `PixelColor(k, max, i, j)`: the corrected colour ramp
(see Findings) of the escape time of the abstract point `k.plane(i, j)`.

## Model

| member | source | states |
|---|---|---|
| `Color.IterationToColor` | mandel.c:269-273 | for `max > 0` and `0 <= iters <= max` the colour lies in `[0, 0xFFFFFF]`; 0 iterations give 0 and `max` iterations give `0xFFFFFF` |
| `Color.ColorMonotone` | mandel.c:269-273 | for a fixed `max > 0` the colour never decreases as `iters` grows |
| `Color.TruncDiv` | mandel.c:271 | C's conversion of the quotient to `int` truncates toward zero: the remainder is smaller than the divisor and has the dividend's sign |
| `Color.IterationToColorAsWritten` | mandel.c:271 | the expression as written is C's truncated quotient of the 32-bit wrapped product `0xFFFFFF*iters` by `max`: the remainder is smaller than `max` and has the wrapped product's sign; whenever the product fits in 32 bits it equals the intended ramp |
| `Color.Wrap32` | mandel.c:271 | the 32-bit product `0xFFFFFF*iters` is the true product reduced to `[-2^31, 2^31)` modulo 2^32, and is unchanged when it fits |
| `Color.AsWrittenAgreesBelowOverflow` | mandel.c:271 | up to 128 iterations the expression as written equals the intended ramp |
| `Color.AsWrittenOverflowsAtDefaultMax` | mandel.c:269-273 | with the default `max` of 1000, a point that never escapes gets colour -402654 as written, while the intended ramp gives `0xFFFFFF` |
| `Escape.IterationsAtPoint` | mandel.c:184-203 | the count is in `[0, max]` (0 when `max <= 0`); every earlier point passed the magnitude test; the point it stops at fails the test unless the count reached `max`; the count equals `EscapeTime` |
| `Escape.EscapeTimeIsFirst` | mandel.c:189-202 | `EscapeTime` is the first step whose point fails the magnitude test, or `max` if every step up to `max - 1` passes |
| `Partition.ThreadPar` | thread_par.h:11-22 | the worker descriptor keeps the source's `max`, `width`, `height`, `tid` and `num_threads` fields; the image handle and the plane bounds are left out |
| `Partition.PixelColor` | mandel.c:46-53 | every corrected pixel colour is in `[0, 0xFFFFFF]` when `max > 0`; it is the corrected colour ramp of the pixel's escape time |
| `Partition.ComputeImageThread` | mandel.c:30-58 | worker `tid` writes exactly the cells whose column is `tid` modulo `num_threads`, each with its pixel colour; it writes each of them once and nothing outside the grid; every other cell keeps its value; a worker with `tid >= width` writes nothing |
| `Partition.ComputeStripeRow` | mandel.c:44-54 | one row of worker `tid`: exactly the cells of row `j` whose column is `tid` modulo `num_threads` receive their pixel colour, each written once; every other cell keeps its value |
| `Partition.ComputeSequential` | mandel.c:218-233 | the row-major scan writes every cell of the grid exactly once, and only cells of the grid, leaving each cell holding its pixel colour |
| `Partition.ComputeImage` | mandel.c:210-262 | both branches, and every completion order of the stripes, leave every cell holding its pixel colour; every cell is written exactly once and every write is inside the grid |
| `Partition.RenderFrame` | mandel.c:139-146 | the child's fresh `width × height` image, filled black and then computed, holds the pixel colour in every cell, every cell written exactly once and only cells of the grid |
| `Batch.RunBatch` | mandel.c:120-169 | one pass of the outer loop admits frames `i0 .. min(i0 + MAX_PROC, 50) - 1`, in order and each once; frame `f` starts with `f - i0` children alive, never more than `MAX_PROC`; all `wait`s come after all forks and leave no child alive; the zoom is applied once per fork attempt; with `MAX_PROC <= 0` the pass changes nothing, so the loop never ends; every failed fork is followed by another fork attempt, never by a `wait` |
| `Batch.RunFrames` | mandel.c:117-170 | the whole loop admits frames `0 .. 49` each exactly once and in increasing order; the active count stays within `[0, MAX_PROC]` at every point; frame `f` starts when exactly `f % MAX_PROC` children are alive, so a frame opening a batch finds the previous batch drained; the run ends with no child alive; every failed fork is followed by another fork attempt |
| `Batch.AdmitFrames` | mandel.c:124-164 | the fork loop stops once `MAX_PROC` children are alive or all 50 frames are admitted, having admitted the frames from `i0` in order; its trace has as many children alive as frames admitted; it consumes one outcome and one zoom step per fork attempt; with `MAX_PROC <= 0` it does nothing; its trace never ends on a failed fork, so each failed fork is followed by the next attempt |
| `Batch.SpawnStep` | mandel.c:126-162 | a successful fork consumes one outcome, admits frame `i` under its file name at the zoomed scale, and raises the active count by one, within `MAX_PROC` |
| `Batch.FailStep` | mandel.c:126-155 | a failed fork consumes one outcome and one zoom step but advances neither `i` nor the active count |
| `Batch.ReapAll` | mandel.c:166-169 | the `wait` loop appends exactly one `Reaped` event per child alive and nothing else, leaving no child alive |
| `Batch.DrainStep` | mandel.c:166-169 | one `wait` lowers the active count by one and keeps every other property of the batch trace |
| `Batch.BatchStep` | mandel.c:120-170 | appending a complete batch's trace to the run so far keeps admission order, the concurrency bound and the batch barrier |
| `Batch.FailedForkRetried` | mandel.c:134-163 | in a trace where each failed fork is followed by another event that is not a `wait`, the event after a failed fork exists, is a fork attempt and is for the same frame |
| `Batch.Decimal` | mandel.c:132 | the `%d` numeral of `n` is non-empty, all digits, starts with `0` exactly when `n` is 0, and reads back as `n` |
| `Batch.FileName` | mandel.c:131-132 | the name is `mandel`, then a numeral, then `.jpg`, and that numeral reads back as the frame index |
| `Batch.ScaleAfter` | mandel.c:126 | from a positive initial scale, every zoomed scale is positive and at most the initial one, and strictly below it after at least one zoom |
| `Batch.DecimalInjective` | mandel.c:132 | two numbers with the same `%d` numeral are equal |
| `Batch.FileNamesDistinct` | mandel.c:131-132 | different frame indices give different file names `mandel<i>.jpg` |
| `Batch.SpawnNamesDistinct` | mandel.c:132-162 | two children of one run render different frames, the later one a larger frame, and write different files |
| `Batch.ScalesDecrease` | mandel.c:126 | with a positive initial scale, a later fork attempt uses a strictly smaller `xscale` |
| `Batch.ScaleClosedForm` | mandel.c:126 | `k` executions of `xscale *= 0.9` scale the initial value by `0.9^k` |
| `Batch.NoFailureAttempts` | mandel.c:126-134 | when no fork fails, frame `f` is forked at the scale reached after `f + 1` zooms |
| `Batch.NoFailureScale` | mandel.c:126-134 | when no fork fails, frame `f` is rendered at `s0 * 0.9^(f+1)`, because the zoom comes before the first fork |

## Left out

- Process and thread mechanics (`fork`, `wait`, `exit`, `pthread_create`, `pthread_join`, `pthread_exit`) are left out. Workers are stripe passes run in sequence, in any order. A child is a `Spawned` event, and its work is `Partition.RenderFrame`.
- Floating point is left out. This covers the plane mapping of pixels to points, the Mandelbrot recurrence, the magnitude test and `yscale`, all of which stay abstract. The zoom `xscale *= 0.9` is modelled on `real`. The centre is reset to (-0.61, -0.60) before every fork, so the `-x` and `-y` options never affect a frame; this is not modelled.
- The image library (`initRawImage`, `setImageCOLOR`, `setPixelCOLOR`, `storeJpegImageFile`, `freeRawImage`) is replaced by an `array2<int>` created zero-filled, plus plain assignment. Storing the file is not modelled.
- Option parsing, `show_help` and the `printf` logging are I/O and are left out. The option string gives `h` an argument and has no `t`. So the `'t'` case is unreachable and the thread count is always 4.
- The `malloc` and `free` of the thread arrays are left out. The descriptors are a `seq<ThreadPar>`.
- `Batch.RunFrames` requires `MAX_PROC >= 1` and at least 50 successful fork outcomes. The source has no such requirement, but without it the loop does not terminate. `Batch.RunBatch` states the `MAX_PROC <= 0` case: a pass makes no progress. A fork that fails forever makes the source retry forever; the model does not cover that.
- `Partition.ComputeImage` requires `max != 0`. With `max == 0` the source converts 0/0.0 (NaN) to `int`, which is undefined behaviour.
- `Color.IterationToColorAsWritten` uses exact integer arithmetic for the quotient, not the source's double division. For 32-bit operands, the double quotient of two integers truncates to the same integer.
- `Partition.PixelColor` writes the corrected colour ramp (`Color.IterationToColor`), not the overflowing expression of mandel.c:271. Every property of `Partition` about pixel colours is therefore about the corrected program. For `iters <= 128` the two agree (`Color.AsWrittenAgreesBelowOverflow`).
- `Partition.ComputeImageThread` does not model overflow of `i += num_threads` near `INT_MAX` widths.

## Findings

| source | as written | input that shows it | evidently intended | confidence | as-written member | corrected member |
|---|---|---|---|---|---|---|
| mandel.c:271 | `0xFFFFFF*iters` is a 32-bit `int` product, formed before the conversion to double, so it overflows once `iters >= 129` (undefined behaviour; modelled as two's-complement wrap) | `iters = max = 1000` (the default `max`) gives colour -402654, outside `[0, 0xFFFFFF]` | `floor(0xFFFFFF * iters / max)`, computed without overflow | high; not executed | `Color.AsWrittenOverflowsAtDefaultMax` | `Color.IterationToColor` |
