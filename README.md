# PlaneStatsMod statistics kernels in Dafny

This project models the two per-frame statistics of the VapourSynth plugin
PlaneStatsMod, on integer planes, and proves what they compute.

- **PlaneMinMax** builds a histogram of one plane's visible samples. There is
  one bucket per value of the bit depth. A one-byte sample is its own bucket
  index. A two-byte sample is clamped to `(1 << bits) - 1`. A forward scan
  then returns the first bucket whose running count exceeds `targetMin`, or
  the last bucket if none does. A backward scan returns the last bucket whose
  running count from the top exceeds `targetMax`, or bucket 0 if none does.
- **PlaneAverage** visits every visible sample. It looks each one up in the
  exclusion list with a linear search. An excluded sample decrements `total`,
  which starts at `height * width`. Any other sample is added to `sum`. The
  mean is the ratio `sum / (total * ((1 << bits) - 1))`.
- Both filter constructors reject a plane index outside `[0, numPlanes)`.

Files:

- `planes.dfy` (module `Planes`) holds what both kernels share. A plane is a
  sequence of samples read row by row: row `y` starts at `RowStart(p, y)`,
  which is `y * stride`, and only the first `width` entries of a row are
  visible. The module also defines `Visible`, sums and the plane-index
  predicate.
- `plane_min_max.dfy` (module `PlaneMinMax`) holds the histogram, the two
  scans, their specification functions `ClippedMin` and `ClippedMax`, and
  the filter's `GetFrame` and `Create`.
- `plane_average.dfy` (module `PlaneAverage`) holds the exclusion-aware
  accumulator, its specification `Kept`, and the filter's `GetFrame` and
  `Create`.
- `wrappers.dfy` (module `Wrappers`) holds `Option` and `Result`.

The histogram is an `array<nat>` that `BuildHistogram` fills in place with
nested loops, as the source does. The scans are loops with `break` over that
array. The histogram build, the two scans and the accumulation are each
proved equal to a recursive specification function (`Tally`, `ClippedMin`,
`ClippedMax`, `Kept` with `Sum`), and the properties the source promises
are proved about those functions. `Find` is proved equal to membership in
the list, and the two `GetFrame` methods state their results in terms of
these functions.

Two behaviours of the code worth knowing:

- The code has no special case for a zero threshold. Both scans always run
  and both results are always written (src/PlaneMinMax.cpp:63-102). With a
  target of 0 the scans return the smallest and the largest occupied bucket
  (`ZeroTargetMinIsSmallestSample`, `ZeroTargetMaxIsLargestSample`).
- The code has no guard for an empty or fully excluded plane. It then
  divides 0 by 0 in `double`, which gives NaN, not 0.0
  (src/PlaneAverage.cpp:47,65). The model returns `Mean.Undefined` in that
  case.

## Model

| member | source | states |
|---|---|---|
| `Planes.VisibleAt` | src/PlaneMinMax.cpp:36-41 | visible sample `y * width + x` is buffer entry `y * stride + x`: each row is read from its row start, which moves on by `stride` |
| `Planes.WellFormedMeaning` | src/PlaneMinMax.cpp:36-41 | the buffer the row loops read is well formed exactly when `width <= stride` and the last row, starting at `(height - 1) * stride`, ends inside it |
| `Planes.RowsStep` | src/PlaneAverage.cpp:32-45 | step lemma of the row loops: one outer iteration appends the next `width` entries from the row pointer to the visited samples, in bounds |
| `Planes.VisibleLength` | src/PlaneAverage.cpp:25 | a plane has exactly `width * height` visible samples |
| `Planes.PaddingIgnored` | src/PlaneAverage.cpp:32-45 | two planes that agree on their visible samples have the same visited sequence, so row padding up to `stride` is never read |
| `Planes.RowInBounds` | src/PlaneMinMax.cpp:36-41 | every visited row lies inside the sample buffer |
| `Planes.MaxPixelValue` | src/PlaneMinMax.cpp:29 | `(1 << bitsPerSample) - 1` lies between 255 and 65535 for the integer formats |
| `PlaneMinMax.BufferSize` | src/PlaneMinMax.cpp:30 | the histogram has at least one bucket: 65536 for four-byte planes, `1 << bits` otherwise |
| `PlaneMinMax.Bucket` | src/PlaneMinMax.cpp:38-46 | a sample's bucket index is in bounds; it is the sample itself up to the bit depth's maximum and that maximum above it |
| `PlaneMinMax.TallyCounts` | src/PlaneMinMax.cpp:30-50 | after the build phase bucket `b` holds exactly the number of visible samples whose bucket is `b`, and buckets start at zero |
| `PlaneMinMax.TallyMass` | src/PlaneMinMax.cpp:36-50 | every counted sample increments exactly one bucket: the counts add up to the number of samples |
| `PlaneMinMax.HistogramMass` | src/PlaneMinMax.cpp:36-50 | the histogram of a plane adds up to `width * height` |
| `PlaneMinMax.BuildHistogram` | src/PlaneMinMax.cpp:30-50 | the array built by the nested loops equals the histogram of the visible samples and has `BufferSize` buckets |
| `PlaneMinMax.CountRow` | src/PlaneMinMax.cpp:44-48 | after one row pass the array is the histogram of the samples visited so far, this row's `width` samples included |
| `PlaneMinMax.ClippedMin` | src/PlaneMinMax.cpp:63-73 | the forward scan's result is a bucket index |
| `PlaneMinMax.ClippedMax` | src/PlaneMinMax.cpp:84-94 | the backward scan's result is a bucket index |
| `PlaneMinMax.ClippedMinIsFirstExceeding` | src/PlaneMinMax.cpp:63-73 | every running count before the result is at most the target; if the total exceeds the target so does the count at the result; otherwise the result is `buffersize - 1` |
| `PlaneMinMax.ClippedMinUnique` | src/PlaneMinMax.cpp:63-73 | those properties determine the forward scan's result |
| `PlaneMinMax.ClippedMaxIsLastExceeding` | src/PlaneMinMax.cpp:84-94 | every running count from the top above the result is at most the target; if the total exceeds the target so does the count down to the result; otherwise the result is 0 |
| `PlaneMinMax.ClippedMaxUnique` | src/PlaneMinMax.cpp:84-94 | those properties determine the backward scan's result |
| `PlaneMinMax.ScanMin` | src/PlaneMinMax.cpp:63-73 | the loop with `break` returns `ClippedMin` of the histogram |
| `PlaneMinMax.ScanMax` | src/PlaneMinMax.cpp:84-94 | the backward loop with `break` returns `ClippedMax` of the histogram |
| `PlaneMinMax.ZeroTargetMin` | src/PlaneMinMax.cpp:63-73 | with target 0 and a non-empty histogram the forward scan stops at the first occupied bucket |
| `PlaneMinMax.ZeroTargetMax` | src/PlaneMinMax.cpp:84-94 | with target 0 and a non-empty histogram the backward scan stops at the last occupied bucket |
| `PlaneMinMax.ZeroTargetMinIsSmallestSample` | src/PlaneMinMax.cpp:63-73 | no zero-threshold skip: with target 0 on a non-empty plane the min result is the smallest bucket of any visible sample |
| `PlaneMinMax.ZeroTargetMaxIsLargestSample` | src/PlaneMinMax.cpp:84-94 | no zero-threshold skip: with target 0 on a non-empty plane the max result is the largest bucket of any visible sample |
| `PlaneMinMax.SingleBucketMin` | src/PlaneMinMax.cpp:63-73 | with a single occupied bucket holding more than the target, the forward scan returns that bucket |
| `PlaneMinMax.SingleBucketMax` | src/PlaneMinMax.cpp:84-94 | with a single occupied bucket holding more than the target, the backward scan returns that bucket |
| `PlaneMinMax.UniformPlane` | src/PlaneMinMax.cpp:63-94 | on a plane of one value `v`, with both targets below `width * height`, both results equal the bucket of `v` |
| `PlaneMinMax.MinAtMostMax` | src/PlaneMinMax.cpp:63-94 | `targetMin + targetMax` below the total implies min result ≤ max result |
| `PlaneMinMax.CountersFitUint32` | src/PlaneMinMax.cpp:31-32 | on fewer than 2^32 samples every bucket and every running count fits the `uint32_t`/`unsigned int` counters, so the unbounded model equals the source's arithmetic |
| `PlaneMinMax.GetFrame` | src/PlaneMinMax.cpp:27-102 | both results are computed for every frame; they equal the scans of the plane's histogram, lie in `[0, buffersize)`, and min ≤ max when the targets sum below `width * height` |
| `PlaneMinMax.Create` | src/PlaneMinMax.cpp:133-141 | a missing plane argument means 0; the plane check passes exactly when `0 <= plane < numPlanes`, otherwise the error "PlaneMinMax: invalid plane specified" is returned |
| `PlaneAverage.KeptMultiplicity` | src/PlaneAverage.cpp:34-43 | a value occurs among the summed samples as often as among the visible samples, unless it is in the list, and then never |
| `PlaneAverage.KeptDependsOnMembershipOnly` | src/PlaneAverage.cpp:35-36 | two exclusion lists with the same members (any order, any duplicates) give the same kept samples, so the same `sum` and `total` |
| `PlaneAverage.KeptWithoutExclusions` | src/PlaneAverage.cpp:25-45 | with an empty list every visible sample is kept |
| `PlaneAverage.KeptAllExcluded` | src/PlaneAverage.cpp:41-47 | when every value present is excluded nothing is kept, so `total` ends at 0 |
| `PlaneAverage.KeptFromSamples` | src/PlaneAverage.cpp:34-39 | the kept samples are at most as many as the visited ones and are drawn from them |
| `PlaneAverage.KeptSumBound` | src/PlaneAverage.cpp:47 | with every sample at most `m`, the kept sum is at most `m` times the kept count: the numerator never exceeds the denominator |
| `PlaneAverage.SumFitsUint64` | src/PlaneAverage.cpp:27 | on at most 2^32 samples the `uint64_t` sum stays below 2^64 |
| `PlaneAverage.KeptAppend` | src/PlaneAverage.cpp:37-43 | step lemma of the inner loop: one more visited sample adds itself to the sum and one to the kept count unless it is in the list |
| `PlaneAverage.Find` | src/PlaneAverage.cpp:35-36 | the linear search reports a hit exactly when the value occurs in the list |
| `PlaneAverage.AccumulateRow` | src/PlaneAverage.cpp:51-62 | one row pass keeps the accumulators exact: afterwards `sum` is the sum of the kept samples visited so far, this row included, and `total` has lost one per excluded sample |
| `PlaneAverage.Accumulate` | src/PlaneAverage.cpp:25-46 | `sum` ends as the sum of the visible samples not in the list, and `total`, started at `height * width`, ends as their number |
| `PlaneAverage.CountDown` | src/PlaneAverage.cpp:25-43 | closing lemma of the row loops: counting `total` down from `height * width` once per excluded sample leaves the number of kept samples |
| `PlaneAverage.GetFrame` | src/PlaneAverage.cpp:25-66 | the mean is `sum / (total * ((1 << bits) - 1))` with a positive denominator, or undefined exactly when no sample is kept; with every sample within the bit depth the numerator is at most the denominator |
| `PlaneAverage.Create` | src/PlaneAverage.cpp:107-121 | the exclusion list is kept as read; a missing plane means 0; the filter is created exactly when `0 <= plane < numPlanes`, otherwise the error "PlaneAverage: invalid plane specified" is returned |

## Left out

- Four-byte (float) planes are not modelled. This covers the `65535.0f * pixel + 0.5f` bucket quantisation, the `retval / 65535.0` outputs, the `double` accumulator and the float-against-int exclusion compare. They are floating-point numerics. `BufferSize` still gives their 65536 buckets, and the scans are the same for any histogram.
- The conversion of the mean to `double` is not modelled. The model keeps the exact numerator and denominator.
- The targets `(unsigned int)(height * width * thr)` are float products. They are taken as natural-number parameters.
- The float range checks on `minthr` and `maxthr` in `planeMinMaxCreate` are not modelled: they are float comparisons.
- VapourSynth API calls are not modelled, because their behaviour is not visible here. This covers frame requests, copies and frees, plane pointers and sizes, property reads and writes (`psmMin`, `psmMax`, `psmAvg`), the int64 to int saturation of `mapGetIntSaturated`, filter creation and freeing. A plane is given to the kernels as a value, and `plane` and `value_exclude` as the values read.
- The `fmParallel` threading mode is not modelled. Every call is independent of the others, and scheduling belongs to the host.
- src/shared.cpp and src/shared.h are not part of this model. They only register the plugin.
- The stride is counted in samples, where the source counts bytes.
- The source has a separate copy of each loop for one-byte and two-byte samples. The model has one loop that picks the bucket rule by `bytesPerSample`; apart from the bucket rule, both copies do the same thing.
- PlaneAverage takes the bit depth from the clip's format, and PlaneMinMax takes it from the frame's. The model gives both kernels one `Format`.
- Counters are unbounded naturals. `CountersFitUint32` and `SumFitsUint64` show that they equal the source's fixed-width counters below 2^32 samples. The wrap-around that larger planes would cause is not modelled. Neither is the `int` overflow of `height * width` in the target computation.
