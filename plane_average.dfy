/**
 * The exclusion-mean kernel (PlaneAverage) for integer planes: the sum of
 * the visible samples that do not occur in the exclusion list, and the
 * number of them, giving the mean as the exact ratio
 * sum / (count * ((1 << bitsPerSample) - 1)).
 */
module PlaneAverage {
  import opened Wrappers
  import opened Planes

  /**
   * The mean as the exact ratio the source converts to a double. With no
   * sample left the source divides 0 by 0, a NaN, here `Undefined`.
   */
  datatype Mean = Ratio(numerator: nat, denominator: nat) | Undefined

  /** The samples of `vs` that do not occur in the exclusion list, in order. */
  function Kept(vs: seq<nat>, pxlist: seq<int>): seq<nat> {
    if vs == [] then []
    else
      var last := vs[|vs| - 1];
      Kept(vs[..|vs| - 1], pxlist) + (if last in pxlist then [] else [last])
  }

  /**
   * A value occurs in the kept samples as often as in `vs` unless it is
   * excluded, and then not at all.
   */
  lemma {:induction false} KeptMultiplicity(vs: seq<nat>, pxlist: seq<int>, v: nat)
    ensures multiset(Kept(vs, pxlist))[v] == if v in pxlist then 0 else multiset(vs)[v]
  {
    if vs != [] {
      var init := vs[..|vs| - 1];
      var last := vs[|vs| - 1];
      assert vs == init + [last];
      KeptMultiplicity(init, pxlist, v);
    }
  }

  /** Only membership in the list matters: its order and its duplicates do not. */
  lemma {:induction false} KeptDependsOnMembershipOnly(vs: seq<nat>, pxlist: seq<int>, other: seq<int>)
    requires forall v: int :: v in pxlist <==> v in other
    ensures Kept(vs, pxlist) == Kept(vs, other)
  {
    if vs != [] {
      KeptDependsOnMembershipOnly(vs[..|vs| - 1], pxlist, other);
    }
  }

  /** With an empty exclusion list every sample is kept. */
  lemma {:induction false} KeptWithoutExclusions(vs: seq<nat>)
    ensures Kept(vs, []) == vs
  {
    if vs != [] {
      KeptWithoutExclusions(vs[..|vs| - 1]);
      assert vs == vs[..|vs| - 1] + [vs[|vs| - 1]];
    }
  }

  /** When every value present is excluded nothing is kept. */
  lemma {:induction false} KeptAllExcluded(vs: seq<nat>, pxlist: seq<int>)
    requires forall k :: 0 <= k < |vs| ==> vs[k] in pxlist
    ensures Kept(vs, pxlist) == []
  {
    if vs != [] {
      KeptAllExcluded(vs[..|vs| - 1], pxlist);
    }
  }

  /** The kept samples are some of the samples of `vs`. */
  lemma {:induction false} KeptFromSamples(vs: seq<nat>, pxlist: seq<int>)
    ensures |Kept(vs, pxlist)| <= |vs|
    ensures forall v :: v in Kept(vs, pxlist) ==> v in vs
  {
    if vs != [] {
      var init := vs[..|vs| - 1];
      KeptFromSamples(init, pxlist);
      assert forall v :: v in init ==> v in vs;
    }
  }

  /**
   * If no sample exceeds `m`, the kept sum is at most `m` per kept sample:
   * the mean numerator never exceeds its denominator.
   */
  lemma KeptSumBound(vs: seq<nat>, pxlist: seq<int>, m: nat)
    requires forall k :: 0 <= k < |vs| ==> vs[k] <= m
    ensures Sum(Kept(vs, pxlist)) <= |Kept(vs, pxlist)| * m
  {
    KeptFromSamples(vs, pxlist);
    SumBound(Kept(vs, pxlist), m);
  }

  /**
   * The 64-bit accumulator cannot overflow: on a plane of at most 2^32
   * samples of at most 16 bits the kept sum stays below 2^64.
   */
  lemma SumFitsUint64(p: Plane, f: Format, pxlist: seq<int>)
    requires WellFormed(p) && Fits(p.samples, f) && p.width * p.height <= 0x1_0000_0000
    ensures Sum(Kept(Visible(p), pxlist)) < 0x1_0000_0000_0000_0000
  {
    var vs := Visible(p);
    VisibleLength(p);
    RowsFromSamples(p, p.height);
    forall k | 0 <= k < |vs|
      ensures vs[k] <= 65535
    {
      assert vs[k] in p.samples;
    }
    KeptSumBound(vs, pxlist, 65535);
    KeptFromSamples(vs, pxlist);
    MulMonotone(|Kept(vs, pxlist)|, 0x1_0000_0000, 65535);
  }

  /** Visiting one more sample adds it to the sum unless it is excluded. */
  lemma KeptAppend(done: seq<nat>, v: nat, pxlist: seq<int>)
    ensures Sum(Kept(done + [v], pxlist)) == Sum(Kept(done, pxlist)) + (if v in pxlist then 0 else v)
    ensures |Kept(done + [v], pxlist)| == |Kept(done, pxlist)| + (if v in pxlist then 0 else 1)
  {
    assert (done + [v])[..|done|] == done;
    var k := Kept(done, pxlist);
    assert Kept(done + [v], pxlist) == k + (if v in pxlist then [] else [v]);
    if v !in pxlist {
      assert (k + [v])[..|k|] == k;
    } else {
      assert k + [] == k;
    }
  }

  /** The membership test of the source (std::find): does `v` occur anywhere in `pxlist`? */
  method Find(pxlist: seq<int>, v: int) returns (found: bool)
    ensures found <==> v in pxlist
  {
    var i := 0;
    while i < |pxlist|
      invariant 0 <= i <= |pxlist|
      invariant forall j :: 0 <= j < i ==> pxlist[j] != v
    {
      if pxlist[i] == v {
        return true;
      }
      i := i + 1;
    }
    return false;
  }

  /**
   * The accumulators after visiting `vs`: `sum` adds up the kept samples and
   * `total`, which started at `n`, has lost one per excluded sample.
   */
  predicate Accumulated(vs: seq<nat>, pxlist: seq<int>, n: int, sum: nat, total: int) {
    sum == Sum(Kept(vs, pxlist)) && total == n - (|vs| - |Kept(vs, pxlist)|)
  }

  /**
   * One pass of the inner loop over the `width` samples from `srcp` on: an
   * excluded sample decrements `total`, any other is added to `sum`. The
   * samples visited before are `before`; `n` is the count `total` started at.
   */
  method AccumulateRow(samples: seq<nat>, srcp: nat, width: nat, pxlist: seq<int>,
                       ghost before: seq<nat>, ghost n: int, sum0: nat, total0: int)
    returns (sum: nat, total: int)
    requires srcp + width <= |samples|
    requires Accumulated(before, pxlist, n, sum0, total0)
    ensures Accumulated(before + samples[srcp .. srcp + width], pxlist, n, sum, total)
  {
    sum, total := sum0, total0;
    ghost var done := before;
    var x := 0;
    while x < width
      invariant 0 <= x <= width
      invariant done == before + samples[srcp .. srcp + x]
      invariant Accumulated(done, pxlist, n, sum, total)
    {
      var pixel := samples[srcp + x];
      var bresult := Find(pxlist, pixel);
      if !bresult {
        sum := sum + pixel;
      }
      if bresult {
        total := total - 1;
      }
      KeptAppend(done, pixel, pxlist);
      done := done + [pixel];
      x := x + 1;
    }
  }

  /**
   * The accumulation loops: visit the rows one after the other, moving the
   * row start on by `stride`. `total` starts at height * width.
   */
  method Accumulate(p: Plane, pxlist: seq<int>) returns (sum: nat, total: int)
    requires WellFormed(p)
    ensures sum == Sum(Kept(Visible(p), pxlist))
    ensures total == |Kept(Visible(p), pxlist)|
  {
    var n := p.height * p.width;
    total := n;
    sum := 0;
    var srcp := 0;
    var y := 0;
    ghost var seen: seq<nat> := [];
    while y < p.height
      invariant 0 <= y <= p.height
      invariant srcp == RowStart(p, y) && seen == Rows(p, y)
      invariant Accumulated(seen, pxlist, n, sum, total)
    {
      RowsStep(p, y);
      sum, total := AccumulateRow(p.samples, srcp, p.width, pxlist, seen, n, sum, total);
      seen := seen + p.samples[srcp .. srcp + p.width];
      srcp := srcp + p.stride;
      y := y + 1;
    }
    assert seen == Visible(p);
    CountDown(p, pxlist, n, sum, total);
  }

  /** Counting down from width * height once per excluded sample leaves the number of kept samples. */
  lemma CountDown(p: Plane, pxlist: seq<int>, n: int, sum: nat, total: int)
    requires WellFormed(p) && n == p.height * p.width
    requires Accumulated(Visible(p), pxlist, n, sum, total)
    ensures sum == Sum(Kept(Visible(p), pxlist))
    ensures total == |Kept(Visible(p), pxlist)|
  {
    VisibleLength(p);
  }

  /**
   * One frame: accumulate, then form the mean of the kept samples scaled by
   * the largest value of the bit depth.
   */
  method GetFrame(p: Plane, f: Format, pxlist: seq<int>) returns (avg: Mean)
    requires WellFormed(p) && IsIntegerFormat(f)
    ensures avg.Undefined? <==> Kept(Visible(p), pxlist) == []
    ensures avg.Ratio? ==> avg.numerator == Sum(Kept(Visible(p), pxlist))
    ensures avg.Ratio? ==> avg.denominator == |Kept(Visible(p), pxlist)| * MaxPixelValue(f)
    ensures avg.Ratio? ==> avg.denominator > 0
    ensures avg.Ratio? && (forall k :: 0 <= k < |Visible(p)| ==> Visible(p)[k] <= MaxPixelValue(f)) ==>
              avg.numerator <= avg.denominator
  {
    var sum, total := Accumulate(p, pxlist);
    var maxValue := MaxPixelValue(f);
    if total == 0 {
      avg := Undefined;
    } else {
      PositiveProduct(total, maxValue);
      avg := Ratio(sum, total * maxValue);
      if forall k :: 0 <= k < |Visible(p)| ==> Visible(p)[k] <= maxValue {
        KeptSumBound(Visible(p), pxlist, maxValue);
      }
    }
  }

  lemma PositiveProduct(a: nat, b: nat)
    requires a > 0 && b > 0
    ensures a * b > 0
  {
  }

  /** The configuration a created filter keeps. */
  datatype Config = Config(plane: nat, pxlist: seq<int>)

  /**
   * Filter creation: `values` is the `value_exclude` list as read (empty
   * when absent); an absent `plane` means plane 0; an index outside the
   * clip's planes is rejected with an error and no filter.
   */
  function Create(values: seq<int>, plane: Option<int>, numPlanes: int): (r: Result<Config, string>)
    ensures r.Success? <==> ValidPlane(plane.GetOr(0), numPlanes)
    ensures r.Success? ==> r.value.plane == plane.GetOr(0) < numPlanes && r.value.pxlist == values
    ensures r.Failure? ==> r.error == "PlaneAverage: invalid plane specified"
  {
    var index := plane.GetOr(0);
    if index < 0 || index >= numPlanes then Failure("PlaneAverage: invalid plane specified")
    else Success(Config(index, values))
  }
}
