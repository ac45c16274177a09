/**
 * The histogram-threshold kernel (PlaneMinMax) for integer planes: a bucket
 * histogram of the visible samples, a forward scan for the first bucket whose
 * running count exceeds the low target, and a backward scan for the last
 * bucket whose running count from the top exceeds the high target.
 */
module PlaneMinMax {
  import opened Wrappers
  import opened Planes

  /** Number of histogram buckets: 65536 for four-byte planes, 1 << bitsPerSample otherwise. */
  function BufferSize(f: Format): (r: nat)
    ensures r > 0
  {
    if f.bytesPerSample == 4 then 65536 else Pow2(f.bitsPerSample)
  }

  /**
   * The bucket a sample is counted in: a one-byte sample is its own index; a
   * two-byte sample is clamped to the largest value of the bit depth.
   */
  function Bucket(v: nat, f: Format): (b: nat)
    requires IsIntegerFormat(f) && v < StorageLimit(f)
    ensures b < BufferSize(f)
    ensures v <= MaxPixelValue(f) ==> b == v
    ensures v > MaxPixelValue(f) ==> b == MaxPixelValue(f)
  {
    assert Pow2(8) == 256;
    if f.bytesPerSample == 1 then v
    else if v < MaxPixelValue(f) then v else MaxPixelValue(f)
  }

  /** The bucket of every sample of `vs`, in order. */
  function Buckets(vs: seq<nat>, f: Format): (bs: seq<nat>)
    requires IsIntegerFormat(f) && Fits(vs, f)
    ensures |bs| == |vs|
    ensures forall k :: 0 <= k < |vs| ==> bs[k] == Bucket(vs[k], f)
  {
    seq(|vs|, k requires 0 <= k < |vs| => Bucket(vs[k], f))
  }

  /**
   * The histogram after counting the samples of `vs` one by one into
   * `BufferSize(f)` buckets that all start at zero.
   */
  function Tally(vs: seq<nat>, f: Format): (h: seq<nat>)
    requires IsIntegerFormat(f) && Fits(vs, f)
    ensures |h| == BufferSize(f)
  {
    if vs == [] then seq(BufferSize(f), _ => 0)
    else
      var init := vs[..|vs| - 1];
      var h0 := Tally(init, f);
      var b := Bucket(vs[|vs| - 1], f);
      h0[b := h0[b] + 1]
  }

  /** The histogram of a plane's visible samples. */
  function Histogram(p: Plane, f: Format): (h: seq<nat>)
    requires WellFormed(p) && IsIntegerFormat(f) && Fits(p.samples, f)
    ensures |h| == BufferSize(f)
  {
    VisibleFits(p, f);
    Tally(Visible(p), f)
  }

  lemma VisibleFits(p: Plane, f: Format)
    requires WellFormed(p) && Fits(p.samples, f)
    ensures Fits(Visible(p), f)
  {
    RowsFromSamples(p, p.height);
    forall k | 0 <= k < |Visible(p)|
      ensures Visible(p)[k] < StorageLimit(f)
    {
      assert Visible(p)[k] in p.samples;
    }
  }

  lemma TallyAppend(vs: seq<nat>, v: nat, f: Format)
    requires IsIntegerFormat(f) && Fits(vs, f) && v < StorageLimit(f)
    ensures Fits(vs + [v], f)
    ensures Tally(vs + [v], f) == Tally(vs, f)[Bucket(v, f) := Tally(vs, f)[Bucket(v, f)] + 1]
  {
    assert (vs + [v])[..|vs + [v]| - 1] == vs;
  }

  /** Bucket `b` of the histogram counts exactly the samples whose bucket is `b`. */
  lemma {:induction false} TallyCounts(vs: seq<nat>, f: Format, b: nat)
    requires IsIntegerFormat(f) && Fits(vs, f) && b < BufferSize(f)
    ensures Tally(vs, f)[b] == multiset(Buckets(vs, f))[b]
  {
    if vs != [] {
      var init := vs[..|vs| - 1];
      TallyCounts(init, f, b);
      assert Buckets(vs, f) == Buckets(init, f) + [Bucket(vs[|vs| - 1], f)];
    }
  }

  lemma SumIncrement(h: seq<nat>, b: nat)
    requires b < |h|
    ensures Sum(h[b := h[b] + 1]) == Sum(h) + 1
  {
    var h' := h[b := h[b] + 1];
    assert h == h[..b] + [h[b]] + h[b + 1..];
    assert h' == h[..b] + [h[b] + 1] + h[b + 1..];
    SumConcat(h[..b] + [h[b]], h[b + 1..]);
    SumConcat(h[..b], [h[b]]);
    SumConcat(h[..b] + [h[b] + 1], h[b + 1..]);
    SumConcat(h[..b], [h[b] + 1]);
    assert Sum([h[b]]) == h[b] by { assert [h[b]][..0] == []; }
    assert Sum([h[b] + 1]) == h[b] + 1 by { assert [h[b] + 1][..0] == []; }
  }

  lemma {:induction false} SumZeros(n: nat)
    ensures Sum(seq(n, _ => 0)) == 0
  {
    if n > 0 {
      assert seq(n, _ => 0)[..n - 1] == seq(n - 1, _ => 0);
      SumZeros(n - 1);
    }
  }

  /** Every counted sample lands in exactly one bucket: the counts add up to the number of samples. */
  lemma {:induction false} TallyMass(vs: seq<nat>, f: Format)
    requires IsIntegerFormat(f) && Fits(vs, f)
    ensures Sum(Tally(vs, f)) == |vs|
  {
    if vs == [] {
      SumZeros(BufferSize(f));
    } else {
      var init := vs[..|vs| - 1];
      TallyMass(init, f);
      SumIncrement(Tally(init, f), Bucket(vs[|vs| - 1], f));
    }
  }

  /** The histogram of a plane holds width * height samples in all. */
  lemma HistogramMass(p: Plane, f: Format)
    requires WellFormed(p) && IsIntegerFormat(f) && Fits(p.samples, f)
    ensures Sum(Histogram(p, f)) == p.width * p.height
  {
    VisibleFits(p, f);
    TallyMass(Visible(p), f);
    VisibleLength(p);
  }

  /** `h` is the histogram of the samples `vs`, all of which fit the sample type. */
  predicate Counted(vs: seq<nat>, f: Format, h: seq<nat>)
    requires IsIntegerFormat(f)
  {
    Fits(vs, f) && h == Tally(vs, f)
  }

  /**
   * The build phase: zero `BufferSize(f)` buckets, then visit the rows one
   * after the other, moving the row start on by `stride`, and count the first
   * `width` samples of each row.
   */
  method BuildHistogram(p: Plane, f: Format) returns (accum: array<nat>)
    requires WellFormed(p) && IsIntegerFormat(f) && Fits(p.samples, f)
    ensures accum[..] == Histogram(p, f)
  {
    accum := new nat[BufferSize(f)](_ => 0);
    assert accum[..] == Tally([], f);
    var srcp := 0;
    var y := 0;
    ghost var seen: seq<nat> := [];
    while y < p.height
      invariant 0 <= y <= p.height
      invariant srcp == RowStart(p, y) && seen == Rows(p, y)
      invariant accum.Length == BufferSize(f)
      invariant Counted(seen, f, accum[..])
    {
      RowsStep(p, y);
      CountRow(p.samples, srcp, p.width, f, seen, accum);
      seen := seen + p.samples[srcp .. srcp + p.width];
      srcp := srcp + p.stride;
      y := y + 1;
    }
    assert seen == Visible(p);
    VisibleFits(p, f);
  }

  /**
   * One pass of the inner loop: count the `width` samples from index `srcp`
   * on into a histogram that already holds the samples `before`.
   */
  method CountRow(samples: seq<nat>, srcp: nat, width: nat, f: Format, ghost before: seq<nat>, accum: array<nat>)
    requires IsIntegerFormat(f) && Fits(samples, f) && srcp + width <= |samples|
    requires Counted(before, f, accum[..])
    modifies accum
    ensures Counted(before + samples[srcp .. srcp + width], f, accum[..])
  {
    var maxPixelValue := MaxPixelValue(f);
    ghost var done := before;
    var x := 0;
    while x < width
      invariant 0 <= x <= width
      invariant done == before + samples[srcp .. srcp + x]
      invariant Counted(done, f, accum[..])
    {
      var pixel := samples[srcp + x];
      var b := if f.bytesPerSample == 1 then pixel
               else if pixel < maxPixelValue then pixel else maxPixelValue;
      TallyAppend(done, pixel, f);
      assert b == Bucket(pixel, f);
      ghost var h := accum[..];
      accum[b] := accum[b] + 1;
      assert accum[..] == h[b := h[b] + 1];
      done := done + [pixel];
      x := x + 1;
    }
  }

  /** The bucket of every visible sample of a plane. */
  function VisibleBuckets(p: Plane, f: Format): (bs: seq<nat>)
    requires WellFormed(p) && IsIntegerFormat(f) && Fits(p.samples, f)
    ensures |bs| == |Visible(p)|
  {
    VisibleFits(p, f);
    Buckets(Visible(p), f)
  }

  // ---------------------------------------------------------------------
  // The two threshold scans.

  /**
   * The forward scan: the first bucket at which the running count from
   * bucket 0 exceeds `t`, or the last bucket if none does.
   */
  function ClippedMin(h: seq<nat>, t: nat): (r: nat)
    requires |h| > 0
    ensures r < |h|
    decreases |h|
  {
    if h[0] > t || |h| == 1 then 0 else 1 + ClippedMin(h[1..], t - h[0])
  }

  /**
   * The backward scan: the last bucket at which the running count from the
   * top bucket down exceeds `t`, or bucket 0 if none does.
   */
  function ClippedMax(h: seq<nat>, t: nat): (r: nat)
    requires |h| > 0
    ensures r < |h|
    decreases |h|
  {
    if h[|h| - 1] > t || |h| == 1 then |h| - 1 else ClippedMax(h[..|h| - 1], t - h[|h| - 1])
  }

  /** The running count of the forward scan once bucket `j` is added. */
  function CountUpTo(h: seq<nat>, j: nat): nat
    requires j < |h|
  {
    PrefixSum(h, j + 1)
  }

  lemma SumSingle(x: nat)
    ensures Sum([x]) == x
  {
    assert [x][..0] == [];
  }

  lemma SumCons(h: seq<nat>)
    requires |h| > 0
    ensures Sum(h) == h[0] + Sum(h[1..])
  {
    assert h == [h[0]] + h[1..];
    SumConcat([h[0]], h[1..]);
    SumSingle(h[0]);
  }

  lemma PrefixStep(h: seq<nat>, i: nat)
    requires i < |h|
    ensures CountUpTo(h, i) == PrefixSum(h, i) + h[i]
  {
    assert h[..i + 1][..i] == h[..i];
  }

  lemma SuffixStep(h: seq<nat>, i: nat)
    requires i < |h|
    ensures SuffixSum(h, i) == h[i] + SuffixSum(h, i + 1)
  {
    SumCons(h[i..]);
    assert h[i..][1..] == h[i + 1..];
  }

  lemma PrefixCons(h: seq<nat>, j: nat)
    requires j < |h|
    ensures CountUpTo(h, j) == h[0] + PrefixSum(h[1..], j)
  {
    SumCons(h[..j + 1]);
    assert h[..j + 1][1..] == h[1..][..j];
  }

  lemma SuffixSnoc(h: seq<nat>, j: nat)
    requires j < |h|
    ensures SuffixSum(h, j) == SuffixSum(h[..|h| - 1], j) + h[|h| - 1]
  {
    assert h[j..] == h[..|h| - 1][j..] + [h[|h| - 1]];
    SumConcat(h[..|h| - 1][j..], [h[|h| - 1]]);
    SumSingle(h[|h| - 1]);
  }

  /**
   * The forward scan returns the least bucket whose prefix count exceeds `t`:
   * every earlier prefix is at most `t`, and when even the whole histogram
   * does not exceed `t` the result is the last bucket.
   */
  lemma {:induction false} ClippedMinIsFirstExceeding(h: seq<nat>, t: nat)
    requires |h| > 0
    ensures forall j :: 0 <= j < ClippedMin(h, t) ==> CountUpTo(h, j) <= t
    ensures Sum(h) > t ==> CountUpTo(h, ClippedMin(h, t)) > t
    ensures Sum(h) <= t ==> ClippedMin(h, t) == |h| - 1
  {
    SumCons(h);
    PrefixCons(h, 0);
    assert h[1..][..0] == [];
    if h[0] > t || |h| == 1 {
      assert |h| == 1 ==> h[1..] == [];
    } else {
      var t' := t - h[0];
      ClippedMinIsFirstExceeding(h[1..], t');
      var r := ClippedMin(h, t);
      assert r == 1 + ClippedMin(h[1..], t');
      forall j | 0 <= j < r
        ensures CountUpTo(h, j) <= t
      {
        PrefixCons(h, j);
        if j > 0 {
          assert PrefixSum(h[1..], j) == CountUpTo(h[1..], j - 1);
        }
      }
      PrefixCons(h, r);
    }
  }

  /** Any bucket with the properties of the forward scan's result is that result. */
  lemma ClippedMinUnique(h: seq<nat>, t: nat, r: nat)
    requires |h| > 0 && r < |h|
    requires forall j :: 0 <= j < r ==> CountUpTo(h, j) <= t
    requires CountUpTo(h, r) > t || r == |h| - 1
    ensures r == ClippedMin(h, t)
  {
    ClippedMinIsFirstExceeding(h, t);
    assert h[..|h|] == h;
  }

  /**
   * The backward scan returns the greatest bucket whose suffix count exceeds
   * `t`: every later suffix is at most `t`, and when even the whole histogram
   * does not exceed `t` the result is bucket 0.
   */
  lemma {:induction false} ClippedMaxIsLastExceeding(h: seq<nat>, t: nat)
    requires |h| > 0
    ensures forall j :: ClippedMax(h, t) < j < |h| ==> SuffixSum(h, j) <= t
    ensures Sum(h) > t ==> SuffixSum(h, ClippedMax(h, t)) > t
    ensures Sum(h) <= t ==> ClippedMax(h, t) == 0
  {
    var n := |h|;
    var init := h[..n - 1];
    SuffixSnoc(h, n - 1);
    assert h[n - 1..] == [h[n - 1]];
    SumSingle(h[n - 1]);
    assert h[0..] == h;
    if h[n - 1] > t || n == 1 {
      assert n == 1 ==> init == [];
    } else {
      var t' := t - h[n - 1];
      ClippedMaxIsLastExceeding(init, t');
      var r := ClippedMax(h, t);
      assert r == ClippedMax(init, t');
      forall j | r < j < n
        ensures SuffixSum(h, j) <= t
      {
        SuffixSnoc(h, j);
        if j == n - 1 {
          assert init[j..] == [];
        }
      }
      SuffixSnoc(h, r);
      SuffixSnoc(h, 0);
      assert init[0..] == init;
    }
  }

  /** Any bucket with the properties of the backward scan's result is that result. */
  lemma ClippedMaxUnique(h: seq<nat>, t: nat, r: nat)
    requires |h| > 0 && r < |h|
    requires forall j :: r < j < |h| ==> SuffixSum(h, j) <= t
    requires SuffixSum(h, r) > t || r == 0
    ensures r == ClippedMax(h, t)
  {
    ClippedMaxIsLastExceeding(h, t);
    assert h[0..] == h;
  }

  /**
   * The forward scan over the histogram: add bucket after bucket to the
   * running count and stop at the first one that takes it above the target.
   */
  method ScanMin(accum: array<nat>, targetMin: nat) returns (retvalmin: nat)
    requires accum.Length > 0
    ensures retvalmin == ClippedMin(accum[..], targetMin)
  {
    ghost var h := accum[..];
    retvalmin := accum.Length - 1;
    var countmin := 0;
    var i := 0;
    while i < accum.Length
      invariant 0 <= i <= accum.Length
      invariant countmin == PrefixSum(h, i)
      invariant forall j :: 0 <= j < i ==> CountUpTo(h, j) <= targetMin
      invariant retvalmin == accum.Length - 1
    {
      PrefixStep(h, i);
      countmin := countmin + accum[i];
      if countmin > targetMin {
        retvalmin := i;
        break;
      }
      i := i + 1;
    }
    ClippedMinUnique(h, targetMin, retvalmin);
  }

  /**
   * The backward scan over the histogram: add bucket after bucket from the
   * top to the running count and stop at the first one that takes it above
   * the target.
   */
  method ScanMax(accum: array<nat>, targetMax: nat) returns (retvalmax: nat)
    requires accum.Length > 0
    ensures retvalmax == ClippedMax(accum[..], targetMax)
  {
    ghost var h := accum[..];
    retvalmax := 0;
    var countmax := 0;
    var i := accum.Length - 1;
    assert h[accum.Length..] == [];
    while i >= 0
      invariant -1 <= i < accum.Length
      invariant countmax == SuffixSum(h, i + 1)
      invariant forall j :: i < j < accum.Length ==> SuffixSum(h, j) <= targetMax
      invariant retvalmax == 0
    {
      SuffixStep(h, i);
      countmax := countmax + accum[i];
      if countmax > targetMax {
        retvalmax := i;
        break;
      }
      i := i - 1;
    }
    ClippedMaxUnique(h, targetMax, retvalmax);
  }

  // ---------------------------------------------------------------------
  // What the scans promise.

  /** With a zero target and a non-empty histogram, the forward scan stops at the first occupied bucket. */
  lemma {:induction false} ZeroTargetMin(h: seq<nat>)
    requires |h| > 0 && Sum(h) > 0
    ensures h[ClippedMin(h, 0)] > 0
    ensures forall j :: 0 <= j < ClippedMin(h, 0) ==> h[j] == 0
  {
    SumCons(h);
    if h[0] == 0 {
      assert |h| > 1;
      ZeroTargetMin(h[1..]);
      var r' := ClippedMin(h[1..], 0);
      assert ClippedMin(h, 0) == 1 + r';
      forall j | 0 <= j < 1 + r'
        ensures h[j] == 0
      {
        if j > 0 { assert h[j] == h[1..][j - 1]; }
      }
    }
  }

  /** With a zero target and a non-empty histogram, the backward scan stops at the last occupied bucket. */
  lemma {:induction false} ZeroTargetMax(h: seq<nat>)
    requires |h| > 0 && Sum(h) > 0
    ensures h[ClippedMax(h, 0)] > 0
    ensures forall j :: ClippedMax(h, 0) < j < |h| ==> h[j] == 0
  {
    var n := |h|;
    if h[n - 1] == 0 {
      assert n > 1;
      assert Sum(h) == Sum(h[..n - 1]);
      ZeroTargetMax(h[..n - 1]);
      assert ClippedMax(h, 0) == ClippedMax(h[..n - 1], 0);
    }
  }

  /**
   * There is no special case for a zero target: on a non-empty plane the
   * forward scan then returns the smallest bucket of any visible sample.
   */
  lemma ZeroTargetMinIsSmallestSample(p: Plane, f: Format)
    requires WellFormed(p) && IsIntegerFormat(f) && Fits(p.samples, f) && p.width * p.height > 0
    ensures ClippedMin(Histogram(p, f), 0) in VisibleBuckets(p, f)
    ensures forall b :: b in VisibleBuckets(p, f) ==> ClippedMin(Histogram(p, f), 0) <= b
  {
    var h := Histogram(p, f);
    var bs := VisibleBuckets(p, f);
    VisibleFits(p, f);
    HistogramMass(p, f);
    ZeroTargetMin(h);
    var r := ClippedMin(h, 0);
    ClippedMinIsFirstExceeding(h, 0);
    TallyCounts(Visible(p), f, r);
    forall b | b in bs
      ensures r <= b
    {
      var k :| 0 <= k < |bs| && bs[k] == b;
      TallyCounts(Visible(p), f, b);
    }
  }

  /**
   * There is no special case for a zero target: on a non-empty plane the
   * backward scan then returns the largest bucket of any visible sample.
   */
  lemma ZeroTargetMaxIsLargestSample(p: Plane, f: Format)
    requires WellFormed(p) && IsIntegerFormat(f) && Fits(p.samples, f) && p.width * p.height > 0
    ensures ClippedMax(Histogram(p, f), 0) in VisibleBuckets(p, f)
    ensures forall b :: b in VisibleBuckets(p, f) ==> b <= ClippedMax(Histogram(p, f), 0)
  {
    var h := Histogram(p, f);
    var bs := VisibleBuckets(p, f);
    VisibleFits(p, f);
    HistogramMass(p, f);
    ZeroTargetMax(h);
    var r := ClippedMax(h, 0);
    ClippedMaxIsLastExceeding(h, 0);
    TallyCounts(Visible(p), f, r);
    forall b | b in bs
      ensures b <= r
    {
      var k :| 0 <= k < |bs| && bs[k] == b;
      TallyCounts(Visible(p), f, b);
    }
  }

  /** A histogram with a single occupied bucket that holds more than `t` samples. */
  lemma {:induction false} SingleBucketMin(h: seq<nat>, b: nat, t: nat)
    requires b < |h| && h[b] > t
    requires forall j :: 0 <= j < |h| && j != b ==> h[j] == 0
    ensures ClippedMin(h, t) == b
  {
    if b > 0 {
      SingleBucketMin(h[1..], b - 1, t);
    }
  }

  lemma {:induction false} SingleBucketMax(h: seq<nat>, b: nat, t: nat)
    requires b < |h| && h[b] > t
    requires forall j :: 0 <= j < |h| && j != b ==> h[j] == 0
    ensures ClippedMax(h, t) == b
  {
    if b < |h| - 1 {
      SingleBucketMax(h[..|h| - 1], b, t);
    }
  }

  lemma {:induction false} ConstantMultiset(s: seq<nat>, c: nat, x: nat)
    requires forall k :: 0 <= k < |s| ==> s[k] == c
    ensures multiset(s)[x] == if x == c then |s| else 0
  {
    if s != [] {
      var init := s[..|s| - 1];
      assert s == init + [c];
      ConstantMultiset(init, c, x);
    }
  }

  /**
   * On a plane whose visible samples all equal `v`, both scans return the
   * bucket of `v` whenever both targets are below the number of samples.
   */
  lemma UniformPlane(p: Plane, f: Format, v: nat, targetMin: nat, targetMax: nat)
    requires WellFormed(p) && IsIntegerFormat(f) && Fits(p.samples, f) && v < StorageLimit(f)
    requires forall k :: 0 <= k < |Visible(p)| ==> Visible(p)[k] == v
    requires targetMin < p.width * p.height && targetMax < p.width * p.height
    ensures ClippedMin(Histogram(p, f), targetMin) == Bucket(v, f)
    ensures ClippedMax(Histogram(p, f), targetMax) == Bucket(v, f)
  {
    var h := Histogram(p, f);
    var c := Bucket(v, f);
    VisibleFits(p, f);
    VisibleLength(p);
    var bs := Buckets(Visible(p), f);
    forall j | 0 <= j < |h|
      ensures h[j] == if j == c then p.width * p.height else 0
    {
      TallyCounts(Visible(p), f, j);
      ConstantMultiset(bs, c, j);
    }
    SingleBucketMin(h, c, targetMin);
    SingleBucketMax(h, c, targetMax);
  }

  /**
   * When the two targets together stay below the histogram's total, the
   * forward scan never ends above the backward scan.
   */
  lemma MinAtMostMax(h: seq<nat>, targetMin: nat, targetMax: nat)
    requires |h| > 0 && targetMin + targetMax < Sum(h)
    ensures ClippedMin(h, targetMin) <= ClippedMax(h, targetMax)
  {
    ClippedMinIsFirstExceeding(h, targetMin);
    ClippedMaxIsLastExceeding(h, targetMax);
    var a := ClippedMin(h, targetMin);
    var b := ClippedMax(h, targetMax);
    if a > b {
      assert CountUpTo(h, a - 1) <= targetMin;
      assert SuffixSum(h, a) <= targetMax;
      PrefixSuffixSplit(h, a);
      assert false;
    }
  }

  /**
   * On a plane of fewer than 2^32 samples every bucket and every running
   * count of either scan fits the 32-bit unsigned counters.
   */
  lemma CountersFitUint32(p: Plane, f: Format, j: nat)
    requires WellFormed(p) && IsIntegerFormat(f) && Fits(p.samples, f)
    requires j < BufferSize(f) && p.width * p.height < 0x1_0000_0000
    ensures Histogram(p, f)[j] < 0x1_0000_0000
    ensures CountUpTo(Histogram(p, f), j) < 0x1_0000_0000
    ensures SuffixSum(Histogram(p, f), j) < 0x1_0000_0000
  {
    var h := Histogram(p, f);
    HistogramMass(p, f);
    PrefixSuffixSplit(h, j + 1);
    PrefixSuffixSplit(h, j);
    PrefixStep(h, j);
  }

  // ---------------------------------------------------------------------
  // The filter.

  /**
   * One frame: build the histogram of the selected plane, then run both
   * scans. Both results are always computed; a zero target is not skipped.
   */
  method GetFrame(p: Plane, f: Format, targetMin: nat, targetMax: nat) returns (psmMin: nat, psmMax: nat)
    requires WellFormed(p) && IsIntegerFormat(f) && Fits(p.samples, f)
    ensures psmMin == ClippedMin(Histogram(p, f), targetMin)
    ensures psmMax == ClippedMax(Histogram(p, f), targetMax)
    ensures psmMin < BufferSize(f) && psmMax < BufferSize(f)
    ensures targetMin + targetMax < p.width * p.height ==> psmMin <= psmMax
  {
    var accum := BuildHistogram(p, f);
    psmMin := ScanMin(accum, targetMin);
    psmMax := ScanMax(accum, targetMax);
    var h := Histogram(p, f);
    ClippedMinIsFirstExceeding(h, targetMin);
    ClippedMaxIsLastExceeding(h, targetMax);
    HistogramMass(p, f);
    if targetMin + targetMax < p.width * p.height {
      MinAtMostMax(h, targetMin, targetMax);
    }
  }

  /** The configuration a created filter keeps (the two float thresholds are not modelled). */
  datatype Config = Config(plane: nat)

  /**
   * Filter creation: an absent `plane` argument means plane 0; an index
   * outside the clip's planes is rejected with an error and no filter.
   */
  function Create(plane: Option<int>, numPlanes: int): (r: Result<Config, string>)
    ensures r.Success? <==> ValidPlane(plane.GetOr(0), numPlanes)
    ensures r.Success? ==> r.value.plane == plane.GetOr(0) < numPlanes
    ensures r.Failure? ==> r.error == "PlaneMinMax: invalid plane specified"
  {
    var index := plane.GetOr(0);
    if index < 0 || index >= numPlanes then Failure("PlaneMinMax: invalid plane specified")
    else Success(Config(index))
  }
}
