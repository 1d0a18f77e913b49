# Edge-highlighting video benchmark, modelled in Dafny

The program reads every frame of a video into memory. It runs an
edge-highlighting stencil over each frame on a fixed-size thread pool. It
writes the filtered frames, in their original order, to an MJPG AVI file
named after the input. It repeats this five times for each pool size 2, 4,
6, 8 and 10.

This project models that core and proves properties of the model:

- `frames.dfy` (module `Frames`): 8-bit B, G, R pixels, the darkness test,
  rectangular frames, and the frame value that a pixel array holds.
- `stencil.dfy` (module `Stencil`): `processFrame` as an imperative method
  over `array2<Pixel>`. It clones the input, runs the four nested loops, and
  is proved equal to the pointwise definition `Filter`. In `Filter`, a pixel
  is red when some in-bounds neighbour, other than the pixel itself, is dark
  in the input, and is copied otherwise.
- `stencil_properties.dfy`: properties of `Filter` (module
  `StencilProperties`), such as idempotence, the identity on bright frames,
  the corner and centre cases, and the strict threshold. Module `PaintOrder`
  proves that painting the neighbourhoods in any order that covers every
  pixel gives `Filter`, and that the source's row-major scan is one such
  order.
- `output_path.dfy` (module `OutputPath`): the output-path expression,
  including its failure when the input has no '.'.
- `pipeline.dfy` (module `Pipeline`): `processVideo` with the thread pool
  replaced by its sequential meaning. Frames are collected in read order with
  empty frames skipped. Every frame is filtered, and the results are written
  in index order. The video writer is a class whose `written` field records
  what reached the file.
- `pipeline_properties.dfy`: order preservation, the prefix left by a fault,
  and the early returns on open failures.
- `benchmark.dfy` (module `Benchmark`): the nested loops of `main` and their
  schedule of 25 calls.

Things outside the program become parameters of a run (`Pipeline.RunEnv`):

- whether the capture opens;
- whether the writer opens;
- the frames the capture reads before `read` returns false;
- the index, if any, at which `Future.get` throws.

Pixels are 8-bit, as they are in the source's 3-channel Mat. So the source's
test `(B + G + R) / 3.0 < 64` becomes the integer test `B + G + R < 192`.
`Frames.DarkIffIntensityBelow64` proves the two agree on exact reals. A
double gives the same answer: every sum from 0 to 191, divided by 3.0,
rounds to a value below 64, and 192 / 3.0 is exactly 64.

The model keeps these points of the code's behaviour:

- The filter reads the original frame (src/Main.java:132), not the clone it
  paints. So its result never depends on pixels it has already painted.
- A failure to open the capture or the writer only returns from that one
  call of `processVideo`. The harness then goes on with the next call.
- A fault while taking results back is caught (the stack trace it prints is
  left out). The writer is still released, and `processVideo` returns
  normally.

## Model

| member | source | states |
|---|---|---|
| Frames.IsDark | src/Main.java:135-137 | a pixel is dark when its channel sum is below 192; `DarkIffIntensityBelow64` proves this is the source's intensity test |
| Frames.IsEmpty | src/Main.java:90 | `frame.empty()`: a frame is empty exactly when it holds no pixels, that is rows × cols is 0 |
| Frames.DarkIffIntensityBelow64 | src/Main.java:135-137 | the integer test `B+G+R < 192` is the source's `(B+G+R)/3 < 64`; a channel sum of exactly 192 is not dark |
| Frames.RedIsNotDark | src/Main.java:135-145 | the paint colour {0,0,255} has intensity 85, so it is never dark |
| Frames.Clone | src/Main.java:126 | `clone` gives a fresh array that holds exactly the given frame |
| Stencil.Filter | src/Main.java:130-152 | the filtered frame has the input's dimensions, and each pixel is red when an in-bounds neighbour other than itself is dark in the input, and the input pixel otherwise |
| Stencil.PaintNeighbours | src/Main.java:138-149 | the two inner loops paint exactly the in-bounds 8-neighbours of (y, x), not (y, x) itself, and change no other cell |
| Stencil.VisitPixel | src/Main.java:132-150 | testing pixel (y, x) of the input, and painting around it when it is dark, extends the painting to the centres before (y, x+1) |
| Stencil.ScanRow | src/Main.java:131-151 | one pass of the outer loop extends the painting from the centres visited before row y to those before row y+1 |
| Stencil.ScanRows | src/Main.java:130-152 | the outer loop, from the untouched clone, paints around every dark input pixel of every row |
| Stencil.ProcessFrame | src/Main.java:125-155 | the result is a fresh array with the input's rows and columns, equal to `Filter` of the input; the input is not modified and no out-of-range cell is written |
| StencilProperties.RedIffDarkNeighbour | src/Main.java:130-152 | an output pixel is red iff it has a dark in-bounds neighbour other than itself, or was red already; if it differs from the input it was painted; with no dark neighbour it equals the input |
| StencilProperties.DarkPixelKeepsOwnValue | src/Main.java:143-145 | a dark pixel whose neighbours are all bright keeps its own value, because the centre is never painted |
| StencilProperties.AllBrightUnchanged | src/Main.java:126-137 | a frame without dark pixels comes back unchanged |
| StencilProperties.SingleDarkPixel | src/Main.java:138-149 | with one dark pixel, exactly its in-bounds neighbours turn red and every other pixel, the dark one included, is copied |
| StencilProperties.DarkCorner | src/Main.java:143-145 | a lone dark pixel at (0,0) paints only (0,1), (1,0) and (1,1) |
| StencilProperties.DarkCentreOfThreeByThree | src/Main.java:138-149 | in a 3x3 frame with only the centre dark, the 8 surrounding pixels turn red and the centre is unchanged |
| StencilProperties.DarkAfterWasDarkBefore | src/Main.java:135-145 | a pixel dark after filtering is unchanged from the input, where it was dark |
| StencilProperties.Idempotent | src/Main.java:125-155 | applying the filter twice gives the same frame as applying it once |
| PaintOrder.PaintAllAt | src/Main.java:130-152 | after painting around a sequence of centres, a cell is red iff one of those centres is an in-bounds dark neighbour of it; otherwise it keeps its earlier value |
| PaintOrder.AnyOrderGivesFilter | src/Main.java:130-152 | painting in any order that visits every pixel, with repeats and out-of-range centres allowed, reading only the input, gives `Filter` |
| PaintOrder.OrderIrrelevant | src/Main.java:130-152 | two such visiting orders give the same frame |
| PaintOrder.ScanOrderGivesFilter | src/Main.java:130-131 | the source's row-major scan order is one that gives `Filter` |
| OutputPath.LastIndexOf | src/Main.java:50 | `lastIndexOf` is -1 iff the character does not occur; otherwise it is the position of an occurrence with none after it |
| OutputPath.Substring | src/Main.java:50 | `substring(begin, end)` fails iff begin < 0, end > length or begin > end, and otherwise returns the characters from begin up to end |
| OutputPath.OutputPathFor | src/Main.java:50 | a failure is StringIndexOutOfBounds; a derived path ends in "_output.avi" and what comes before it is a prefix of the input |
| OutputPath.FailsIffNoDot | src/Main.java:50 | the output path cannot be derived (StringIndexOutOfBounds) exactly when the input has no '.' |
| OutputPath.ResultShape | src/Main.java:50 | a derived path is the input up to, not including, its last '.', followed by "_output.avi" |
| OutputPath.ReplacesLastExtension | src/Main.java:50 | "stem.ext" with no '.' in ext gives "stem_output.avi", keeping any '.' inside the stem |
| Pipeline.NonEmpty | src/Main.java:89-93 | the kept frames are at most as many as were read, and none of them is empty |
| Pipeline.Run | src/Main.java:63-118 | a run writes frames iff both the capture and the writer open; it writes at most the kept frames, frame i being `Filter` of kept frame i, and is complete iff it wrote all of them |
| Pipeline.VideoWriter.constructor | src/Main.java:77 | a new writer is closed and holds no frames |
| Pipeline.VideoWriter.Open | src/Main.java:78-80 | after `open` the writer is open iff the outside world lets it create the file; the file starts empty |
| Pipeline.VideoWriter.Write | src/Main.java:109 | `write` appends the frame the array holds, when the writer is open |
| Pipeline.VideoWriter.Release | src/Main.java:116 | `release` closes the writer and keeps what was written |
| Pipeline.CollectFrames | src/Main.java:86-93 | the frame list is fresh clones, distinct from one another, of exactly the non-empty frames read, in read order |
| Pipeline.SubmitAll | src/Main.java:101-104 | the tasks, run in order, give the filtered frame of every frame, index for index |
| Pipeline.WriteInOrder | src/Main.java:106-113 | the results are written in index order up to the first `get` that throws, and it reports whether one threw |
| Pipeline.ProcessVideo | src/Main.java:63-118 | a run returns early when the capture or the writer does not open; otherwise it writes `Filter` of each kept frame in index order, stops at the first `get` that throws, and reports whether it wrote all of them; the pool size does not affect the result; the writer it creates is released on every path and holds exactly the frames written |
| PipelineProperties.NonEmptyAppend | src/Main.java:89-93 | keeping the non-empty frames respects concatenation, so read order is preserved |
| PipelineProperties.NonEmptyMembers | src/Main.java:89-93 | a frame is kept iff it was read and is not empty |
| PipelineProperties.NonEmptyKeepsAll | src/Main.java:89-93 | when no frame read is empty, all are kept as read |
| PipelineProperties.OpenFailureWritesNothing | src/Main.java:64-84 | a run writes nothing iff the capture or the writer fails to open, and it says which one failed |
| PipelineProperties.CompleteRunWritesAllInOrder | src/Main.java:101-111 | without a fault, frame i written is `Filter` of kept frame i, for every i, and nothing more |
| PipelineProperties.FaultWritesPrefix | src/Main.java:106-113 | a fault at result k < n leaves exactly the first k frames of the fault-free run written, and the run is marked incomplete |
| PipelineProperties.TwoFrameRun | src/Main.java:86-111 | two non-empty 10x10 frames with no fault are written filtered, both, in their original order |
| Benchmark.ThreadCountsAreValid | src/Main.java:49 | the pool sizes are 2, 4, 6, 8, 10, each at least 1 |
| Benchmark.RepetitionsAt | src/Main.java:54-57 | call k of the inner loop is repetition k+1 for the current pool size |
| Benchmark.ScheduleOfAt | src/Main.java:52-58 | call i of the nested loops uses pool size counts[i / 5] and is repetition i % 5 + 1 |
| Benchmark.ScheduleShape | src/Main.java:49-58 | there are 25 calls, pool sizes 2, 4, 6, 8, 10 in ascending order, each run five consecutive times as repetitions 1 to 5 |
| Benchmark.RunRepetitions | src/Main.java:54-57 | the inner loop makes five calls with the same pool size, repetitions 1 to 5, each ending as the pipeline says |
| Benchmark.RunSchedule | src/Main.java:52-58 | the nested loops make the 25 calls of the schedule in order, and call i ends as the pipeline says for what the outside world does during call i |
| Benchmark.RunBenchmark | src/Main.java:46-60 | if the output path cannot be derived, no run happens; otherwise the reports follow the 25-call schedule in order, and call i ends as the pipeline says for what the outside world does during call i |

## Left out

- Loading the native library and exiting when that fails (src/Main.java:17-26): this is process and foreign-library setup.
- The file-chooser dialog and its extension filter (src/Main.java:29-46): this is user interface. The chosen path is a parameter.
- Opening, reading, writing and releasing `VideoCapture` and `VideoWriter`, and the fps, width, height, frame-count and MJPG codec arguments (src/Main.java:64-94, 109, 116): this is codec I/O in foreign code. Whether each open succeeds, and which frames are read, come from the run's environment. The writer keeps only the frames written to it.
- The output file being overwritten by each of the 25 runs: this is file-system behaviour of the foreign writer. Each run's report holds what that run wrote.
- `ExecutorService`, `Future.get` and `shutdown` (src/Main.java:98-115): their purpose is concurrency. The model keeps their sequential meaning. Every task is computed, in index order, and the results are taken back in index order. The exceptions `get` can throw (interruption, or a failed task) become the environment's `fault` index. The model's filter cannot fail by itself.
- VideoWriter.Write never fails in the model. In the source, an exception from `writer.write` (src/Main.java:109), such as OpenCV's `CvException`, is not caught by line 112: it passes through the `finally`, which releases the writer, and ends `main`, so the rest of the 25-call schedule does not run. The model's `Benchmark.RunSchedule` always makes all 25 calls.
- Pipeline.ProcessVideo: requires a pool size of at least 1. `newFixedThreadPool` throws for 0 or less, the model does not model that exception, and the harness only passes 2 to 10.
- Timing with `currentTimeMillis`, the division by 1000.0, `String.format` and all console output (src/Main.java:75, 96, 120-122, and the messages in `main`): these are clock, floating-point and printing work.
- Releasing Mats (src/Main.java:110, 117): this is manual memory management, with no effect on the values.
- The `pixel.length < 3` skip (src/Main.java:133): frames are 3-channel by type, so this branch cannot occur.
- Stencil.ProcessFrame: the result is a Dafny array of pixel triples and not an OpenCV Mat. Channel values are integers 0..255, as the 8-bit Mat delivers them, and not doubles.
