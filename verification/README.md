# A verified model of the blocked, threaded and scheduled parts of KleidiCV

KleidiCV is a library of image kernels for Arm CPUs. Its hardest code makes vectorised, blocked or threaded loops agree
with a simple sequential definition. This project models that code in Dafny and proves the agreement.

SIMD registers are sequences of bounded integers, one per lane, and each instruction is given by its meaning per lane.
Integer widths are explicit where they matter: byte counters wrap modulo 256, gradients are 16-bit, their products
32-bit, sizes 64-bit. Objects that the source mutates are classes, with ghost fields for what they have consumed;
buffers are arrays; loops keep the shape of the source's loops. Schedulers, file contents, the current CPU and
allocation failures are parameters, so every result holds for all of them.

## What is proved

- **Location of minimum and maximum** (`Extremum`, `Lanes`, `MinMaxLoc`, `Images`, `BlockOperation`). The operation keeps
  8-bit offsets per lane relative to a block, sentinel values and a separate scalar part. The invariant behind it holds
  through vectors, scalars and block ends; the index rebuilt from it is the first extreme element of everything
  consumed; the block driver hands over every pixel once and in order, flattened or not; so the reported offset is that
  of the first extreme pixel. Minimum and maximum share one proof over a direction.
- **Counting non-zero bytes** (`CountNonZeros`): the same driver with counters that wrap modulo 256.
- **Canny** (`Sobel`, `Gradients`, `DirectionalMasking`, `NonMaxima`, `Magnitudes`, `Hysteresis`, `Buffers`, `Canny`,
  `CannyOfBytes`). Two separable passes are the Sobel operator; byte-table lookups select the two neighbours along the
  gradient; each lane computes a scalar rule; the flood fill computes exact reachability with a termination measure and
  stays in bounds; the destination is 255 exactly on strong pixels and pixels that an eight-connected path of weak
  pixels joins to one. `CannyOfBytes.StagesMean`, `MagnitudesMean` and `EdgesMean` state the whole call in numbers.
- **Scheduling** (`Batches`, `RowStripes`, `ParallelMinMaxLoc`, `MinMax`, `Stripes`): for every partition of the tasks into
  ranges, in any order, the threaded operations give what a single call gives; where they differ is an exact condition.
- **SME thread limiter and hybrid dispatch** (`HybridDispatch`): a transition system in which any number of tasks load,
  compare-and-swap with spurious failures, run row by row, fail or not, release and report, in every interleaving.
  What a row holds and a call returns depends only on whether the task ever held a slot, and every run can complete.
- **CPU topology** (`SmcuTopology`, `CpuList`): registers composed of fields to domains, slots and allowed CPUs, and a
  two-pass list parser against its grammar, with what numbers, spans and lists denote.
- **Loop drivers, minimum and maximum values, narrowing** (`LoopDrivers`, `MinMax`, `Narrowing`): windows of unrolled and
  rewound loops, predicated tails for any number of lanes, and a lane permutation for every vector length.

## Where code and documentation differ, and exact conditions

- A comment in the direction classification says that a vertical gradient is category 4; the code gives 5 when gy is
  negative, and 1 for -32768 (`Gradients.DegenerateGradients`). The masking comment describes categories 4 and 5 as neighbours at opposite
  corners; the tables select the pixels straight above and below, and the model follows the tables.
- The documented limit for gradients, 27145, is sufficient but not necessary. `Gradients.ClassificationIsExact` gives
  the condition that is both, in terms of the two values, and `Gradients.OverflowingGradient` an input beyond it.
- In the OpenCV-conforming setting a saturating increment stands for a strict comparison. It fails exactly when both
  magnitudes are 32767 (`NonMaxima.IncrementIsStrict`, `NonMaxima.SaturatedPeaks`), which byte images cannot produce
  (`Magnitudes.RuleOnByteImages`).
- Groups of eight pixels without magnitude are cleared early. That is the rule exactly for thresholds that are not
  negative (`NonMaxima.ShortcutAgrees`, `NonMaxima.NegativeThreshold`); `NonMaxima.SuppressedIsRule` gives the condition
  for all thresholds.
- Thresholds are truncated to 16 bits. That changes a comparison only between -1 and 0, where magnitude zero is no longer
  above the threshold (`CannyOfBytes.TruncatedThreshold`).
- The edge detector accepts an image by its width, but may refuse it later by its width aligned to eight lanes
  (`CannyOfBytes.CannyU8`, `CannyOfBytes.AlignmentExceedsLimit`).
- The example scheduler's even split is a partition exactly while its largest product fits in 64 bits
  (`Batches.EvenSplit`, `Batches.ThreeWorkers`).
- Rewinding instead of a scalar tail processes some elements twice. For buffers of their own that is harmless; in place
  it is right exactly if the operation is idempotent there (`LoopDrivers.ProcessInPlace`, `LoopDrivers.RepeatedIncrement`).
- Threaded searches check size and stride per batch, so they also accept images that a single call refuses
  (`RowStripes.OversizedImage`, `RowStripes.MisalignedStride`; `RowStripes.AgreesWithSingleCall` says exactly when, in
  terms of the image alone). The threaded rotation does so too (`Stripes.OversizedRotation`, `Stripes.RotationsAgree`).
- The reduction of the threaded location search reads the source before the error of the calls is returned. It stays
  inside the memory exactly if no output is wanted, there are no rows, or the memory covers one column of pixels
  (`ParallelMinMaxLoc.WhenIsInside`, `ParallelMinMaxLoc.NoColumns`). Without a source, the address of a stripe at a
  distance is not null, so the call for such a stripe does not notice (`RowStripes.WhenInside`,
  `RowStripes.MissingSource`). A single call returns an error in all these cases.
- Converting an offset to row and column is exact if and only if the column lies within the stride, or the stride is zero
  and so is the row (`ParallelMinMaxLoc.CoordsAreRecovered`, `ParallelMinMaxLoc.ColumnBeyondStride`).

## Checking

`dafny verify dfyconfig.toml` checks the whole project. One module per file; helper modules are `Basics`, `Arithmetic`,
`Images` and `Buffers`.

## Model

| member | source | states |
|---|---|---|
| `Extremum.FirstBestIsUnique` | kleidicv/src/analysis/min_max_loc_neon.cpp:11-29 | a sequence has at most one index of a first extreme element, so `IsFirstBest` determines every result stated with it |
| `Lanes.HorizontalMaxIsAnyLane` | kleidicv/src/analysis/min_max_loc_neon.cpp:154-158 | the 32-bit horizontal maximum of a byte vector is non-zero exactly if some byte lane is |
| `Lanes.FirstSmallestLane` | kleidicv/src/analysis/min_max_loc_neon.cpp:261-281 | flags in two 64-bit halves and trailing zeros give the first lane not above the given value |
| `MinMaxLocOperation.VectorStep` | kleidicv/src/analysis/min_max_loc_neon.cpp:124-136 | one vector keeps the full invariant that ties lane offsets, block base, sentinels and scalar part to the consumed elements |
| `MinMaxLocOperation.ScalarStep` | kleidicv/src/analysis/min_max_loc_neon.cpp:138-150 | one scalar element keeps the same invariant |
| `MinMaxLocOperation.BlockStep` | kleidicv/src/analysis/min_max_loc_neon.cpp:152-183 | finishing a block keeps it: lanes holding the best value belong to the block at the block index, their offset is the first vector reaching it, lanes of older blocks are strictly worse, offsets stay in 1..254 |
| `MinMaxLocOperation.UpdatingBlock` | kleidicv/src/analysis/min_max_loc_neon.cpp:154-166 | a block that updates some lane contains the first occurrence of its best value by vector, and the lane of that occurrence remembers it |
| `MinMaxLocOperation.BestIndexIsFirstBest` | kleidicv/src/analysis/min_max_loc_neon.cpp:190-258 | whenever the invariant holds between blocks, the index put together from offset, block and lane, or from the scalar part, is the first extreme element of everything consumed, for minimum and maximum |
| `MinMaxLocOperation.MinMaxLoc.VectorPath` | kleidicv/src/analysis/min_max_loc_neon.cpp:124-136 | the object consumes exactly the sixteen elements and stays valid while a block has room |
| `MinMaxLocOperation.MinMaxLoc.ScalarPath` | kleidicv/src/analysis/min_max_loc_neon.cpp:138-150 | the object consumes exactly one element and stays valid between blocks |
| `MinMaxLocOperation.MinMaxLoc.OnBlockFinished` | kleidicv/src/analysis/min_max_loc_neon.cpp:152-183 | a block ends without changing what was consumed, and a new one may start |
| `MinMaxLocOperation.MinMaxLoc.MinIndex` | kleidicv/src/analysis/min_max_loc_neon.cpp:190-233 | no consumed element is less than the one at the index, and all before it are greater |
| `MinMaxLocOperation.MinMaxLoc.MaxIndex` | kleidicv/src/analysis/min_max_loc_neon.cpp:236-258 | no consumed element is greater than the one at the index, and all before it are less |
| `CountNonZerosOperation.CountVector` | kleidicv/src/analysis/count_nonzeros_neon.cpp:21-23 | the byte accumulators, which count down modulo 256, keep determining the true lane counts of a block |
| `CountNonZerosOperation.CountBlock` | kleidicv/src/analysis/count_nonzeros_neon.cpp:27-30 | negating and summing them at the end of a block of at most 255 vectors recovers the counts without loss |
| `CountNonZerosOperation.CountNonZeros.VectorPath` | kleidicv/src/analysis/count_nonzeros_neon.cpp:21-23 | the object consumes exactly sixteen elements and stays valid while a block has room |
| `CountNonZerosOperation.CountNonZeros.OnBlockFinished` | kleidicv/src/analysis/count_nonzeros_neon.cpp:27-30 | a block ends without changing what was consumed or counted |
| `CountNonZerosOperation.CountNonZeros.Result` | kleidicv/src/analysis/count_nonzeros_neon.cpp:36-36 | the exact number of non-zero bytes consumed |
| `CountNonZerosOperation.NonZerosAreCounted` | kleidicv/src/analysis/count_nonzeros_neon.cpp:36-36 | the count is the size of the set of positions of non-zero bytes |
| `Images.ContinuousPixels` | kleidicv/include/kleidicv/types.h:493-499 | rows without gaps are, row after row, one long row |
| `Images.PixelOfIndex` | kleidicv/include/kleidicv/types.h:328-333 | position y * width + x of the row-major view is the pixel in row y and column x of strided memory |
| `Images.FirstBestOfPixels` | kleidicv/include/kleidicv/types.h:328-333 | `offset_for_index` of the first extreme index is the byte offset of the first extreme pixel |
| `Images.FirstBestOffsetIsUnique` | kleidicv/include/kleidicv/types.h:328-333 | that offset is unique, so two searches that satisfy it agree |
| `Images.PixelAtIs` | kleidicv/include/kleidicv/types.h:328-333 | a pixel lies at base + row * stride + column |
| `Images.FirstSmallest` | kleidicv/include/kleidicv/types.h:328-333 | the specified offset of a minimum is that of a pixel such that no pixel is less and all earlier ones are greater |
| `Images.FirstLargest` | kleidicv/include/kleidicv/types.h:328-333 | the specified offset of a maximum is that of a pixel such that no pixel is greater and all earlier ones are less |
| `BlockOperation.VectorStep` | kleidicv/include/kleidicv/operations.h:284-292 | a step of two vectors hands over both, in order |
| `BlockOperation.ProcessBlock` | kleidicv/include/kleidicv/operations.h:358-371 | a block consumes its stretch of the row once and in order, then notifies the operation with the number of vectors it had |
| `BlockOperation.NextBlock` | kleidicv/include/kleidicv/operations.h:345-356 | the next block has at least one whole iteration, never more vectors than the operation allows, and never more than remain |
| `BlockOperation.ProcessBlocks` | kleidicv/include/kleidicv/operations.h:333-373 | every full group of vectors is consumed exactly once and in order, leaving the exact remainder, for both unroll factors |
| `BlockOperation.RemainingPath` | kleidicv/include/kleidicv/neon.h:601-609 | the scalar tail consumes the remaining elements in order |
| `BlockOperation.ProcessRow` | kleidicv/include/kleidicv/operations.h:274-331 | a row is consumed exactly once and in order for every combination of unrolling tags |
| `BlockOperation.ApplyByRows` | kleidicv/include/kleidicv/types.h:492-506 | flattened or row by row, the operation consumes exactly the pixels of the image in row-major order |
| `BlockOperation.SearchPixels` | kleidicv/src/analysis/min_max_loc_neon.cpp:314-331 | without the checks of the call: the first extreme pixels of any image with pixels |
| `BlockOperation.MinMaxLocate` | kleidicv/src/analysis/min_max_loc_neon.cpp:309-333 | errors for missing source, oversized and empty images; otherwise, for every image and stride, no pixel is less than the one at the minimum offset or greater than the one at the maximum offset, and all earlier ones are greater or less |
| `BlockOperation.CountNonZerosOf` | kleidicv/src/analysis/count_nonzeros_neon.cpp:43-59 | errors for missing pointers and oversized images; otherwise the size of the set of positions with a non-zero pixel |
| `Gradients.ClassificationIsExact` | kleidicv/src/analysis/canny_neon.cpp:111-152 | the 16/32-bit fixed-point category equals that of the exact ratio if and only if no absolute value or product overflows, and the documented limit of 27145 is sufficient for that |
| `Gradients.OverflowingGradient` | kleidicv/src/analysis/canny_neon.cpp:88-105 | the first gradient beyond the documented limit is put into the wrong category |
| `Gradients.DegenerateGradients` | kleidicv/src/analysis/canny_neon.cpp:108-110 | no gradient is category 2; a vertical gradient is category 4, category 5 for negative gy, and category 1 for the most negative one, which has no absolute value |
| `DirectionalMasking.TableEntries` | kleidicv/src/analysis/canny_neon.cpp:257-275 | the entries of the three lookup tables as the byte distances of the column step, per category and setting |
| `DirectionalMasking.BeforeIsSelected` | kleidicv/src/analysis/canny_neon.cpp:284-343 | the byte-table lookups put the neighbour before the pixel along its direction into its lane, for arbitrary rows |
| `DirectionalMasking.AfterIsSelected` | kleidicv/src/analysis/canny_neon.cpp:297-366 | the same for the neighbour after it, which is saturatingly incremented exactly on diagonals of the OpenCV setting |
| `Buffers.Memset` | kleidicv/include/kleidicv/types.h:583-588 | exactly the given cells change |
| `Buffers.FillColumns` | kleidicv/include/kleidicv/types.h:582-626 | one of the four loops fills exactly a rectangle of cells |
| `Buffers.MakeZeroBorderBorder` | kleidicv/include/kleidicv/types.h:578-629 | exactly the complement of the interior is zeroed |
| `Buffers.NewBuffer` | kleidicv/include/kleidicv/types.h:632-675 | an allocated buffer covers the area with its margins, and the margins are zero |
| `NonMaxima.IncrementIsStrict` | kleidicv/src/analysis/canny_neon.cpp:407-421 | comparison lanes, threshold and narrowing give the scalar rule, with the increment standing for a strict comparison, if and only if it does not meet two equal largest magnitudes |
| `NonMaxima.SaturatedPeaks` | kleidicv/src/analysis/canny_neon.cpp:357-366 | two equal largest magnitudes on a diagonal, where the increment does not act as a strict comparison |
| `NonMaxima.ShortcutAgrees` | kleidicv/src/analysis/canny_neon.cpp:390-393 | clearing a group without magnitude agrees with the rule if and only if the high threshold is not negative |
| `NonMaxima.NegativeThreshold` | kleidicv/src/analysis/canny_neon.cpp:416-421 | with any negative threshold a pixel without magnitude is strong for the lanes and for both forms of the rule, whatever its neighbours |
| `NonMaxima.NeighboursAre` | kleidicv/src/analysis/canny_neon.cpp:245-275 | which two padded magnitudes a pixel is compared with, from its derivatives in numbers: left and right, above and below, or along the diagonal that the signs choose, one way in the OpenCV setting and the other way in the other one, where the comparison with the second is strict |
| `NonMaxima.GroupComputesClasses` | kleidicv/src/analysis/canny_neon.cpp:395-421 | every lane of a group computes the class of its pixel from the padded magnitudes |
| `NonMaxima.SuppressedIsRule` | kleidicv/src/analysis/canny_neon.cpp:375-444 | the whole pass computes the scalar rule for a pixel if and only if, below zero, its group has some magnitude and, otherwise, the increment does not saturate |
| `NonMaxima.NoMagnitudeNoEdge` | kleidicv/src/analysis/canny_neon.cpp:390-421 | a pixel without magnitude is never an edge for a non-negative threshold |
| `NonMaxima.PushStrongLanes` | kleidicv/src/analysis/canny_neon.cpp:424-434 | the bit loop pushes the cell of every strong lane, in lane order |
| `NonMaxima.StrongPositionsAre` | kleidicv/src/analysis/canny_neon.cpp:424-434 | those cells are exactly the strong lanes, each once |
| `NonMaxima.HandleGroup` | kleidicv/src/analysis/canny_neon.cpp:389-435 | a group of eight pixels extends the finished part of the image by eight pixels, and the stack by their strong ones |
| `NonMaxima.SuppressNonMaxima` | kleidicv/src/analysis/canny_neon.cpp:375-444 | afterwards every pixel has its class, the margin is still clear, and the stack holds every strong pixel exactly once |
| `NonMaxima.ReadyForHysteresis` | kleidicv/src/analysis/canny_neon.cpp:528-538 | what the pass leaves behind is what hysteresis relies on: distinct stacked pixels, all strong pixels stacked, clear margins |
| `Magnitudes.MagnitudeIs` | kleidicv/src/arithmetics/add_abs_with_threshold_neon.cpp:22-44 | vector and scalar path agree, and give the saturated sum of absolute gradients where it exceeds the threshold |
| `Magnitudes.ComputeMagnitudes` | kleidicv/src/analysis/canny_neon.cpp:515-526 | the padded plane holds the thresholded magnitude of every pixel, and zero elsewhere |
| `Sobel.SeparableIsKernel` | kleidicv/src/filters/sobel_neon.cpp:24-122 | the vertical and horizontal passes, narrowed to 16 bits, are the 3x3 convolution with replicated borders, and no result exceeds 1020 |
| `Sobel.GradientIs` | kleidicv/src/filters/sobel_neon.cpp:24-122 | both derivatives by the memory positions of the pixels around, where rows and columns beyond the border are the outermost ones |
| `Sobel.ProcessVertical` | kleidicv/include/kleidicv/workspace/separable.h:128-136 | by the windows of the row loop the row buffer gets the vertical pass of every column, with rows replicated at the borders |
| `Sobel.ProcessHorizontalRow` | kleidicv/include/kleidicv/workspace/separable.h:185-224 | left border, the windows of the bulk loop and right border give every pixel of the row its derivative |
| `Sobel.Derive` | kleidicv/src/filters/sobel_neon.cpp:125-172 | errors for small and large images and lack of memory; otherwise every pixel has its derivative, and the other columns of the buffer keep what they hold |
| `Magnitudes.RuleOnByteImages` | kleidicv/src/analysis/canny_neon.cpp:375-444 | on gradients of byte images, whose bound `Sobel.SeparableIsKernel` proves, directions are exact and the pass computes the scalar rule for every pixel, both settings and every non-negative threshold |
| `Hysteresis.CountAfterPromotion` | kleidicv/src/analysis/canny_neon.cpp:446-452 | a promotion takes exactly one from the number of weak pixels |
| `Hysteresis.Promote` | kleidicv/src/analysis/canny_neon.cpp:446-452 | promoting and pushing a weak neighbour keeps the invariant of the flood fill |
| `Hysteresis.HandlePotentiallyStrongPixel` | kleidicv/src/analysis/canny_neon.cpp:446-452 | weak pixels plus stack size is unchanged, and the neighbour is settled |
| `Hysteresis.PopTop` | kleidicv/src/analysis/canny_neon.cpp:456-458 | a popped pixel is strong and far enough from the first and last rows that all its neighbours lie in the buffer |
| `Hysteresis.ExpandTop` | kleidicv/src/analysis/canny_neon.cpp:456-471 | one iteration takes exactly one from weak pixels plus stack size and keeps the invariant |
| `Hysteresis.ChainIsReached` | kleidicv/src/analysis/canny_neon.cpp:454-473 | with an empty stack the end of every chain of weak pixels from a strong one is strong |
| `Hysteresis.FilledIsReachability` | kleidicv/src/analysis/canny_neon.cpp:454-473 | the image at that point is the reachability image of the original |
| `Hysteresis.PerformHysteresis` | kleidicv/src/analysis/canny_neon.cpp:454-473 | at exit a pixel is strong if and only if it was strong or is joined to a strong pixel by weak ones, all others are as before, and the number of iterations is exactly the strong pixels plus the promoted ones |
| `Canny.TouchIsNeighbour` | kleidicv/src/analysis/canny_neon.cpp:52-57 | two pixels touch if and only if their cells are neighbours in the padded buffer: no neighbour wraps around a row |
| `Canny.ConnectedOnPlane` | kleidicv/src/analysis/canny_neon.cpp:454-473 | reachability in the buffer is connectedness by eight-connected weak pixels on the image plane, both ways |
| `Canny.FinalThreshold` | kleidicv/src/analysis/canny_neon.cpp:540-544 | the threshold at 0x80 keeps exactly the connected edges |
| `Canny.WriteEdges` | kleidicv/src/analysis/canny_neon.cpp:540-544 | every destination pixel is 255 exactly if it is a connected edge, for any destination stride |
| `Canny.DetectEdges` | kleidicv/src/analysis/canny_neon.cpp:528-544 | suppression, hysteresis and threshold together: the destination shows exactly the connected edges |
| `Canny.PathStaysInImage` | kleidicv/src/analysis/canny_neon.cpp:16-30 | no edge path leads through the columns that only align the width |
| `Canny.DetectEdgesOf` | kleidicv/src/analysis/canny_neon.cpp:475-545 | from gradients and both thresholds to the destination, including failures to allocate the magnitudes and the hysteresis buffer |
| `CannyOfBytes.GradientsOfBytes` | kleidicv/src/analysis/canny_neon.cpp:499-513 | gradients of a byte image are within the bound that makes directions and suppression exact |
| `CannyOfBytes.EdgesByRule` | kleidicv/src/analysis/canny_neon.cpp:375-473 | on gradients of byte images and for non-negative thresholds, connected edges are exactly the edges of the scalar rule |
| `CannyOfBytes.DetectEdgesOfBytes` | kleidicv/src/analysis/canny_neon.cpp:475-545 | with thresholds already truncated: the destination shows the connected edges of the setting that the image and the thresholds make, which for non-negative thresholds are those of the scalar rule, and no path between them leaves the image |
| `CannyOfBytes.CannyU8` | kleidicv/src/analysis/canny_neon.cpp:475-545 | the whole call: its error in terms of the arguments, an untouched destination on errors, and otherwise stages that start from the source with its border repeated and end in a destination that is 255 on edges and 0 on the other pixels, and unchanged elsewhere; the source may be the destination |
| `CannyOfBytes.StagesMean` | kleidicv/src/analysis/canny_neon.cpp:375-444 | in numbers: derivatives with weights 1, 2, 1; the step along the gradient from 32768 |gy| against 13573 |gx| and 79109 |gx| and the signs; survival against the magnitudes one step back and ahead; 255 above the upper threshold, 1 otherwise, and 0 in groups of eight without magnitude, for every threshold |
| `CannyOfBytes.MagnitudesMean` | kleidicv/src/analysis/canny_neon.cpp:515-526 | |gx| + |gy| where it exceeds the lower threshold, and zero elsewhere and beyond the border |
| `CannyOfBytes.EdgesMean` | kleidicv/src/analysis/canny_neon.cpp:454-473 | a pixel is an edge if and only if a sequence of pixels leads to it, each in the neighbouring rows and columns of the one before, the first 255 and all others 1 |
| `CannyOfBytes.StagesAre` | kleidicv/src/analysis/canny_neon.cpp:475-545 | these stages are those of the planes that the passes work on |
| `CannyOfBytes.TruncatedThreshold` | kleidicv/src/analysis/canny_neon.cpp:386-387 | comparing magnitudes with the truncated threshold is comparing them with the threshold itself, except for magnitude zero and thresholds between -1 and 0 |
| `CannyOfBytes.AlignmentExceedsLimit` | kleidicv/src/analysis/canny_neon.cpp:515-526 | an image that is accepted at first and refused once its width is aligned |
| `Batches.ItemInBatch` | kleidicv_thread/src/kleidicv_thread.cpp:47-60 | a batch contains an item if and only if its task range contains the task of the item, which is item / size, or the last task |
| `Batches.BatchesPartition` | kleidicv_thread/src/kleidicv_thread.cpp:46-89 | for every way to split the tasks into non-empty ranges, in any order, the batches are disjoint, non-empty and cover every item |
| `Batches.BatchSizes` | kleidicv_thread/src/kleidicv_thread.cpp:62-78 | no batch is shorter than the minimum, batches before the last are exact multiples of it, and the last one ends with the data |
| `Batches.BatchesSplit` | kleidicv_thread/src/kleidicv_thread.cpp:80-89 | without items there is one task with an empty batch, and otherwise the batches partition the items |
| `Batches.EvenSplit` | examples/threading/main.cpp:75-81 | the even split is a partition of the tasks if and only if (workers - 1) * tasks fits in 64 bits |
| `Batches.EvenLengths` | examples/threading/main.cpp:75-81 | while it does, no two ranges differ in length by more than one task |
| `Batches.OverflowingSplit` | examples/threading/main.cpp:75-81 | when it does not fit, there is a worker whose range ends no later than it begins |
| `Batches.ThreeWorkers` | examples/threading/main.cpp:75-81 | a concrete overflowing split: three workers and 2^63 tasks |
| `Batches.ParallelExample` | examples/threading/main.cpp:58-99 | one call per worker range; success if and only if every call succeeds, and otherwise the first failure in worker order |
| `Batches.ParallelHal` | adapters/opencv/kleidicv_hal.cpp:164-193 | nothing, one call for more than 2^31 - 1 tasks, or the chosen ranges: the calls partition the tasks; success if and only if every call succeeds, and otherwise the error of some call |
| `ParallelMinMaxLoc.StripeBelow` | kleidicv_thread/src/kleidicv_thread.cpp:761-776 | the first extreme pixel of a taller image is that of the stripe below if strictly better, and that of the top otherwise |
| `ParallelMinMaxLoc.FirstPixelOfRow` | kleidicv_thread/src/kleidicv_thread.cpp:761-776 | an unwritten slot reads as the first pixel of its row, which never displaces the answer |
| `ParallelMinMaxLoc.ReduceStep` | kleidicv_thread/src/kleidicv_thread.cpp:768-775 | one iteration of the reduction, for written and unwritten slots |
| `ParallelMinMaxLoc.ReduceOffset` | kleidicv_thread/src/kleidicv_thread.cpp:761-776 | the reduction reads inside the memory if and only if there is nothing to reduce or all slots address elements of the source; of searched slots it gives the first extreme pixel |
| `ParallelMinMaxLoc.SearchStripe` | kleidicv_thread/src/kleidicv_thread.cpp:793-798 | a call that can search its rows stores its result in the slot of their first row; no other slot is touched, whether calls fail or not |
| `ParallelMinMaxLoc.SearchStripes` | kleidicv_thread/src/kleidicv_thread.cpp:799-799 | the calls stay inside the image or not as their arguments say; then the result is success if and only if every call succeeds, and otherwise that of some call |
| `ParallelMinMaxLoc.Locate` | kleidicv_thread/src/kleidicv_thread.cpp:778-805 | for every schedule, source or none, and every width: allocation failure; whether anything outside the memory is read; the error; and on success the offsets of the single search, at which no pixel is less or greater and all earlier ones are greater or less |
| `ParallelMinMaxLoc.WhenSlotsInBounds` | kleidicv_thread/src/kleidicv_thread.cpp:761-776 | whatever was searched, the reduction stays inside the memory if and only if the memory covers one column of pixels |
| `ParallelMinMaxLoc.WhenIsInside` | kleidicv_thread/src/kleidicv_thread.cpp:778-805 | when the whole call reads inside the memory, as a condition on its arguments: with a source, unless an output is wanted of an image without columns; without one, if there is nothing to reduce and no acceptable stripe at a distance |
| `ParallelMinMaxLoc.NoColumns` | kleidicv_thread/src/kleidicv_thread.cpp:799-804 | one row without columns: the single call returns an error, and the threaded call reads a pixel that is not there |
| `RowStripes.WhenInside` | kleidicv_thread/src/kleidicv_thread.cpp:793-798 | the calls of all stripes stay inside if and only if there is a source, or no acceptable stripe lies at a distance from the missing one |
| `RowStripes.AgreesWithSingleCall` | kleidicv_thread/src/kleidicv_thread.cpp:784-805 | threaded and single call succeed together for every schedule if and only if size and stride of the whole image are accepted, or it has no pixels, or a single row is too large |
| `RowStripes.WhenSingleCallSucceeds` | kleidicv_thread/src/kleidicv_thread.cpp:784-805 | for every schedule the threaded call succeeds where the single call does, and never without pixels |
| `RowStripes.SameResult` | kleidicv_thread/src/kleidicv_thread.cpp:784-805 | where size and stride are accepted, the threaded call returns the error of the single call |
| `RowStripes.OversizedImage` | kleidicv_thread/src/kleidicv_thread.cpp:784-805 | an image of 2^40 columns and 512 rows that a single call refuses and calls for single rows accept |
| `RowStripes.MisalignedStride` | kleidicv_thread/src/kleidicv_thread.cpp:674-680 | a stride that a single call refuses for elements of two bytes and calls for single rows accept |
| `RowStripes.MissingSource` | kleidicv_thread/src/kleidicv_thread.cpp:793-798 | two rows of a missing source: the single call returns an error, and the call for the second row reads at an address without image |
| `ParallelMinMaxLoc.CoordsAreRecovered` | adapters/opencv/kleidicv_hal.cpp:1300-1312 | `offset_to_coords` recovers the pixel if and only if the column lies within the stride, or the stride and the row are zero |
| `ParallelMinMaxLoc.ColumnBeyondStride` | adapters/opencv/kleidicv_hal.cpp:1300-1312 | a concrete pixel whose coordinates are not recovered |
| `HybridDispatch.StepKeepsBalance` | kleidicv_thread/src/sme_thread_limiter.cpp:511-522 | every step of every task keeps available slots plus running SME callbacks equal to the slot count |
| `HybridDispatch.RunKeepsBalance` | kleidicv_thread/src/sme_thread_limiter.cpp:498-522 | so does every interleaving of any number of tasks |
| `HybridDispatch.LimiterIsSafe` | kleidicv_thread/src/sme_thread_limiter.h:95-124 | in every interleaving counters and the number of tasks that run an SME callback of a domain stay within its slot count, such tasks belong to domains of allowed CPUs, and when none runs every slot is available again |
| `HybridDispatch.CounterNeverWraps` | kleidicv_thread/src/sme_thread_limiter.cpp:511-522 | an acquisition finds the 32-bit counter positive, a release finds it below the slot count |
| `HybridDispatch.AttemptSawCounter` | kleidicv_thread/src/sme_thread_limiter.cpp:516-521 | what an attempt remembers was the value of the counter at some moment of that attempt |
| `HybridDispatch.RefusedOnlyWhenFull` | kleidicv_thread/src/sme_thread_limiter.cpp:516-521 | a task is refused only if at some moment of its attempt as many tasks ran SME callbacks as the domain has slots |
| `HybridDispatch.StepMakesProgress` | kleidicv_thread/src/sme_thread_limiter.cpp:511-522 | every step but a failed compare-and-swap strictly decreases the work ahead, and a failed one changes nothing but what the task remembers |
| `HybridDispatch.TaskIsNeverStuck` | kleidicv_thread/src/sme_thread_limiter.h:83-124 | an unfinished task can always step, and needs a retry only when the counter has moved since it looked |
| `HybridDispatch.OnSmeWithSlot` | kleidicv_thread/src/sme_thread_limiter.cpp:498-522 | a started task is on the SME backend if and only if it held a slot at some moment of the run |
| `HybridDispatch.RunCompletes` | kleidicv_thread/src/sme_thread_limiter.h:83-124 | every run can be continued until all tasks are done: there is no deadlock |
| `HybridDispatch.RunningIsCardinality` | kleidicv_thread/src/sme_thread_limiter.cpp:498-522 | the running callbacks of the invariant are the set of tasks that run one |
| `HybridDispatch.StepKeepsRows` | kleidicv_thread/src/kleidicv_thread.cpp:140-152 | every step keeps: each row is written at most once, by the callback its batch runs on |
| `HybridDispatch.NoRowTwice` | kleidicv_thread/src/kleidicv_thread.cpp:140-152 | in every state of every run no row was processed twice, and a processed row has the value of the SME callback if its task ever held a slot, and that of the CPU callback otherwise |
| `HybridDispatch.StepKeepsResult` | adapters/opencv/kleidicv_hal.cpp:180-193 | every step keeps: the collected result is success as long as no reported callback failed, and otherwise comes from one that did |
| `HybridDispatch.ResultOfCall` | adapters/opencv/kleidicv_hal.cpp:180-193 | a complete call returns success if and only if every callback did, that of the SME backend for tasks that ever held a slot and that of the CPU for the others, and otherwise the error of one of them |
| `HybridDispatch.EachRowOnce` | kleidicv_thread/src/kleidicv_thread.cpp:140-152 | after a complete run that returns success every row was processed exactly once, by the SME callback if its task held a slot and by the CPU callback otherwise |
| `HybridDispatch.HybridRefinesCpuOnly` | kleidicv_thread/src/kleidicv_thread.cpp:130-152 | with callbacks that agree, every complete run returns success if and only if all CPU callbacks would, then gives the image of one sequential CPU call, and leaves all counters at their initial values |
| `SmcuTopology.FindSharedDomain` | kleidicv_thread/src/sme_thread_limiter.cpp:198-207 | the index of a shared domain with the affinity, or none if there is none |
| `SmcuTopology.JoinOrOpen` | kleidicv_thread/src/sme_thread_limiter.cpp:277-294 | joining a found domain or opening a new one keeps the grouping exact |
| `SmcuTopology.SharingStep` | kleidicv_thread/src/sme_thread_limiter.cpp:297-308 | there are fewer domains than CPUs, and so a shorter array, exactly if some CPUs share units |
| `SmcuTopology.PopulateDomains` | kleidicv_thread/src/sme_thread_limiter.cpp:257-309 | fails if and only if some CPU has a reserved code, two CPUs that share units disagree on their count, or memory for the domains or, where CPUs share units, for the shorter array is lacking; otherwise CPUs are together exactly if they share units, indices are dense, and the table holds every domain |
| `SmcuTopology.ApplyArmPolicy` | kleidicv_thread/src/sme_thread_limiter.cpp:216-231 | the last entry of a CPU decides whether it is allowed, and other CPUs are untouched |
| `SmcuTopology.EnableZeroAffinityDomain` | kleidicv_thread/src/sme_thread_limiter.cpp:233-255 | exactly the CPUs of the first shared domain with affinity zero become allowed |
| `SmcuTopology.ApplyPolicy` | kleidicv_thread/src/sme_thread_limiter.cpp:464-472 | the allowed CPUs, by implementer |
| `SmcuTopology.FromRegisters` | kleidicv_thread/src/sme_thread_limiter.cpp:429-476 | rejects exactly: no CPUs, the largest CPU number, mixed implementers, inconsistent registers, lack of memory for the arrays that are needed; otherwise the topology of the registers |
| `SmcuTopology.AllowedCpuHasSlots` | kleidicv_thread/src/sme_thread_limiter.cpp:429-496 | a task on an allowed CPU attempts to take a slot of the domain of that CPU, which exists and has at least one; on every other CPU it runs on the CPU backend |
| `SmcuTopology.SameDomain` | kleidicv_thread/src/sme_thread_limiter.cpp:257-309 | by the last entry of each CPU, the finished table gives two CPUs the same domain if and only if both are shared with equal affinity |
| `SmcuTopology.AllowedCpus` | kleidicv_thread/src/sme_thread_limiter.cpp:209-255 | by the last entry of a CPU, which CPUs are allowed in terms of the registers alone |
| `SmcuTopology.UnlistedCpu` | kleidicv_thread/src/sme_thread_limiter.cpp:429-476 | CPUs without an entry have no domain and are not allowed |
| `SmcuTopology.DecodedFields` | kleidicv_thread/src/sme_thread_limiter.cpp:35-75 | decoding inverts the composition of both registers from all their fields |
| `SmcuTopology.RejectedFields` | kleidicv_thread/src/sme_thread_limiter.cpp:257-476 | for registers composed of fields: which are refused, for each sharing code and count, and when memory is needed twice |
| `SmcuTopology.TopologyOfFields` | kleidicv_thread/src/sme_thread_limiter.cpp:429-476 | for registers composed of fields: which CPUs share a domain, how many slots it has, and which CPUs are allowed |
| `CpuList.ItemIsRead` | kleidicv_thread/src/sme_thread_limiter.cpp:161-196 | every item of the grammar is read as the range it denotes |
| `CpuList.ReadIsItem` | kleidicv_thread/src/sme_thread_limiter.cpp:161-196 | nothing else is read |
| `CpuList.JoinIsRead` | kleidicv_thread/src/sme_thread_limiter.cpp:362-375 | every comma-separated list of items is read item by item |
| `CpuList.ReadIsJoin` | kleidicv_thread/src/sme_thread_limiter.cpp:362-375 | whatever is read is such a list |
| `CpuList.CountCpus` | kleidicv_thread/src/sme_thread_limiter.cpp:362-375 | the first pass succeeds if and only if the body is readable and its count fits, and then returns the count |
| `CpuList.FillIds` | kleidicv_thread/src/sme_thread_limiter.cpp:377-397 | the second pass writes every slot once and in order: the array is the expansion of the list |
| `CpuList.ReadOnlineCpuIds` | kleidicv_thread/src/sme_thread_limiter.cpp:348-398 | accepts exactly lists of fewer than 512 characters, with at most one final newline, that denote at most 2^61 - 1 numbers, and returns these numbers |
| `CpuList.ParsePrinted` | kleidicv_thread/src/sme_thread_limiter.cpp:348-398 | parsing a printed list of ranges gives back its expansion |
| `CpuList.DigitsDenote` | kleidicv_thread/src/sme_thread_limiter.cpp:169-170 | only decimal digits denote numbers, each its distance from 0 |
| `CpuList.DigitsInFront` | kleidicv_thread/src/sme_thread_limiter.cpp:169-170 | s + t denotes the number of s times ten to the length of t plus the number of t |
| `CpuList.NumberDenotes` | kleidicv_thread/src/sme_thread_limiter.cpp:161-178 | a number is written as itself, must fit in 64 bits, and denotes itself |
| `CpuList.SpanDenotes` | kleidicv_thread/src/sme_thread_limiter.cpp:180-196 | two numbers with a dash denote all numbers from the first to the last, which must be greater, and are not all 64-bit numbers |
| `CpuList.ListsDenote` | kleidicv_thread/src/sme_thread_limiter.cpp:377-397 | lists joined by a comma denote the numbers of the first and then those of the second |
| `CpuList.ReadExample` | kleidicv_thread/src/sme_thread_limiter.cpp:348-398 | 0-3,8,10-12 and a newline are read as the eight numbers |
| `CpuList.ReadMalformed` | kleidicv_thread/src/sme_thread_limiter.cpp:348-398 | ten malformed lists are refused |
| `CpuList.ReadLongest` | kleidicv_thread/src/sme_thread_limiter.cpp:348-398 | a list of 511 characters is read, and refused with a newline |
| `LoopDrivers.LoopUnroll.UnrollNTimes` | kleidicv/include/kleidicv/utils.h:167-183 | consecutive windows of the step size, each element once more, and the exact rest remains |
| `LoopDrivers.LoopUnroll.TryAvoidTailLoop` | kleidicv/include/kleidicv/utils.h:185-199 | steps back to one vector before the end exactly if the row has a full vector and a rest |
| `LoopDrivers.Rewind` | kleidicv/include/kleidicv/operations.h:218-235 | the jump back adds one window at the end of the row and is taken at most once |
| `LoopDrivers.ProcessRow` | kleidicv/include/kleidicv/operations.h:172-253 | for every length and combination of tags: windows stay inside the row, every element is processed once, or twice exactly where the rewound window overlaps, and no remaining call is made when the tail is avoided |
| `LoopDrivers.TimesIsCardinality` | kleidicv/include/kleidicv/operations.h:172-253 | how often an element is processed is the number of calls whose window contains it |
| `LoopDrivers.ExpectedTimesAre` | kleidicv/include/kleidicv/operations.h:172-253 | which elements a row processes twice, in terms of length, lanes and tags |
| `LoopDrivers.ProcessElementwise` | kleidicv/include/kleidicv/operations.h:172-253 | an element-wise operation between separate buffers gives the image of the source for all tags |
| `LoopDrivers.ProcessInPlace` | kleidicv/include/kleidicv/operations.h:172-253 | in place every element is processed as often as the windows say, and the row is right if and only if repeating the operation makes no difference on the overlap |
| `LoopDrivers.RepeatedIncrement` | kleidicv/include/kleidicv/operations.h:218-235 | the row driver, incrementing three zeros in place with vectors of two, rewinds and gives 1, 2, 1 |
| `LoopDrivers.LoopUnroll2.UnrollNTimes` | kleidicv/include/kleidicv/utils.h:297-334 | full windows of the unrolled step from the index on, each element once more, up to what does not fill a step |
| `LoopDrivers.LoopUnroll2.UnrollOnceAvoidingTail` | kleidicv/include/kleidicv/utils.h:303-325 | after any earlier calls the double loop terminates; with at least one vector of length the rest of the row is covered by full windows inside it, overlapping only where the last one is rewound, and shorter rows are left alone |
| `LoopDrivers.LoopUnroll2.Tail` | kleidicv/include/kleidicv/utils.h:263-272 | the remaining elements, one by one and once each |
| `LoopDrivers.ProcessFilterRow` | kleidicv/include/kleidicv/filters/separable_filter_3x3_neon.h:41-127 | pairs, rewound vectors and tail together: for every length full windows inside the row, every element once, or twice exactly on the rewound overlap, and no single elements in rows of at least one vector |
| `MinMaxOperation.FoldIsExtreme` | kleidicv_thread/src/kleidicv_thread.cpp:640-660 | the plain fold is the extreme of the values and the identity |
| `MinMaxOperation.ExtremeIsUnique` | kleidicv_thread/src/kleidicv_thread.cpp:640-660 | there is only one, so all variants agree |
| `MinMaxOperation.AccumulateStep` | kleidicv/src/analysis/min_max_sc.h:24-28 | merging under any predicate keeps the lanes an accumulator of what was consumed |
| `MinMaxOperation.MinMax.VectorPath` | kleidicv/src/analysis/min_max_neon.cpp:24-27 | the object consumes exactly the active elements |
| `MinMaxOperation.MinMax.ScalarPath` | kleidicv/src/analysis/min_max_neon.cpp:29-32 | the object consumes exactly one element |
| `MinMaxOperation.MinMax.GetMin` | kleidicv/src/analysis/min_max_neon.cpp:34-36 | not above any consumed element or the identity, and one of them |
| `MinMaxOperation.MinMax.GetMax` | kleidicv/src/analysis/min_max_neon.cpp:38-40 | not below any consumed element or the identity, and one of them |
| `MinMaxOperation.PredicatedTail` | kleidicv/include/kleidicv/sve2.h:649-665 | the predicate loop ends and consumes exactly the remaining elements, for any number of lanes |
| `MinMaxOperation.ScalarTail` | kleidicv/include/kleidicv/neon.h:601-609 | the scalar loop consumes exactly the remaining elements |
| `MinMaxOperation.ProcessValues` | kleidicv/include/kleidicv/operations.h:172-253 | a row is consumed completely by either variant |
| `MinMaxOperation.ApplyByRows` | kleidicv/include/kleidicv/types.h:492-506 | flattened or row by row, exactly the values of the pixels are consumed |
| `MinMaxOperation.MinMaxOf` | kleidicv/src/analysis/min_max_neon.cpp:47-69 | for any strided image, element size, lanes and limits, both variants return the errors of the call, and otherwise values of pixels that no pixel is below or above, as far as they are asked for |
| `MinMaxOperation.Reduce` | kleidicv_thread/src/kleidicv_thread.cpp:640-660 | the reduction is the plain fold |
| `MinMaxOperation.SlotsGiveExtreme` | kleidicv_thread/src/kleidicv_thread.cpp:662-692 | slots that accumulate values, and hold the identity otherwise, fold to the extreme of these values |
| `MinMaxOperation.ValuesOfStripes` | kleidicv_thread/src/kleidicv_thread.cpp:674-688 | stripes that partition the rows contain exactly the values of the pixels of the image |
| `MinMaxOperation.SearchStripe` | kleidicv_thread/src/kleidicv_thread.cpp:679-684 | a call that can search its rows stores its extremes in the slots of their first row; all other slots keep theirs |
| `MinMaxOperation.ParallelMinMax` | kleidicv_thread/src/kleidicv_thread.cpp:662-692 | for every schedule and choice of variants, source or none: allocation failure, whether the calls stay inside the image, the error, and the extremes of the stripes that could be searched, which on success are values of pixels that no pixel is below or above |
| `Narrowing.TwoStepsAreOne` | kleidicv/include/kleidicv/sve2.h:768-775 | saturating to 16 and then to 8 bits is saturating to 8 bits |
| `Narrowing.SaturatedIsClosest` | kleidicv/include/kleidicv/sve2.h:768-775 | a saturated value lies within the limits and between the original and any value there |
| `Narrowing.PermutationIs` | kleidicv/include/kleidicv/sve2.h:751-764 | the spliced index vector reads every fourth element, for every vector length up to 2048 bits |
| `Narrowing.NarrowedElement` | kleidicv/include/kleidicv/sve2.h:766-778 | where each element of each vector ends |
| `Narrowing.NarrowIsSequential` | kleidicv/include/kleidicv/sve2.h:766-778 | the result is the four vectors, one after the other, limited to -128..127 or 0..255 |
| `Stripes.StripeTarget` | kleidicv_thread/src/kleidicv_thread.cpp:489-496 | a pixel of a stripe goes where the rotation of the whole image puts it, for both directions |
| `Stripes.RotateInStripes` | kleidicv_thread/src/kleidicv_thread.cpp:480-498 | not implemented exactly for other angles than 90, -90 and 270, other pixel sizes or a shared buffer; otherwise success if and only if no stripe reaches 2^48 pixels, and then, for every schedule, a quarter turn clockwise takes row and column to column and height - 1 - row, and one counterclockwise to width - 1 - column and row; cells outside the rotated area are never touched |
| `Stripes.RotationsAgree` | kleidicv/src/transform/rotate_neon.cpp:97-118 | threaded and single rotation succeed together for every schedule if and only if the whole image has fewer than 2^48 pixels, or even the stripe of the last task alone has not |
| `Stripes.OversizedRotation` | kleidicv/src/transform/rotate_neon.cpp:97-118 | an image of 128 columns and 2^41 rows that a single rotation refuses and two stripes accept |
| `Stripes.LumaRowsPartition` | kleidicv_thread/src/kleidicv_thread.cpp:627-637 | for every schedule the stripes convert every luma row exactly once, for odd heights too |
| `Stripes.ChromaRowOfStripe` | kleidicv_thread/src/kleidicv_thread.cpp:627-637 | within a stripe luma row y meets chroma row y / 2 |

## Left out

- Lucas-Kanade tracking, sums, exp, scale and the floating-point instance of min_max: they depend on rounding or NaN.
- Blur, median, resize, remap, YUV and transpose kernels: only the index arithmetic of their threaded callbacks is modelled.
- CannyOfBytes.CannyU8: thresholds are finite, and what the cast to 16 bits gives where the language does not define it is arbitrary; buffers are allocated where they are first used once it is known that all of them can be.
- NonMaxima.SuppressNonMaxima: the stack is a sequence; its storage in blocks is not modelled.
- The limiter as an object: it is a transition system over its counters, which captures interleavings that a class would not. Memory orderings weaker than sequential consistency are not modelled; only the atomicity of each counter is used.
- CpuList.ReadOnlineCpuIds: opening and reading the file is a parameter, as is reading registers in SmcuTopology.FromRegisters.
- RowStripes.MissingSource: address arithmetic on a missing source is modelled on unbounded addresses, so a distance is never zero by wrap-around; misaligned source pointers are not modelled.
- Stripes.RotateInStripes: kleidicv_rotate itself is modelled by its documented effect and its size check; null pointers and misaligned strides are not modelled.
- Narrowing.NarrowIsSequential: the SME2 variant is a single instruction and not modelled.
- Ownership, moves and destruction of heap arrays; the choice of adapters by overloading; dispatch and feature detection.
- Batches.ParallelHal: how OpenCV chooses ranges is arbitrary; that it chooses a partition is its contract.
