/**
 * What the two statistics kernels share: the storage format of a plane, the
 * plane itself as a strided sequence of samples, the row-by-row sequence of
 * the samples a kernel visits, sums, powers of two and the plane-index check
 * that both filter constructors perform.
 */
module Planes {

  /** The two format fields the kernels read: storage bytes and significant bits per sample. */
  datatype Format = Format(bytesPerSample: nat, bitsPerSample: nat)

  /**
   * The integer storage layouts: 8 bits in one byte, or 9 to 16 bits in two
   * bytes. The kernels dispatch on bytesPerSample alone, so a two-byte
   * half-float plane (16 bits) takes the two-byte integer path as well.
   */
  predicate IsIntegerFormat(f: Format) {
    (f.bytesPerSample == 1 && f.bitsPerSample == 8) ||
    (f.bytesPerSample == 2 && 9 <= f.bitsPerSample <= 16)
  }

  /** 1 << n */
  function Pow2(n: nat): (r: nat)
    ensures r > 0
  {
    if n == 0 then 1 else 2 * Pow2(n - 1)
  }

  lemma {:induction false} Pow2Monotone(m: nat, n: nat)
    requires m <= n
    ensures Pow2(m) <= Pow2(n)
  {
    if m < n {
      Pow2Monotone(m, n - 1);
    }
  }

  /** (1 << bitsPerSample) - 1: the largest value the declared bit depth allows. */
  function MaxPixelValue(f: Format): (r: nat)
    requires IsIntegerFormat(f)
    ensures 255 <= r <= 65535
  {
    Pow2Monotone(8, f.bitsPerSample);
    Pow2Monotone(f.bitsPerSample, 16);
    Pow2(f.bitsPerSample) - 1
  }

  /** One more than the largest value the storage type (uint8 or uint16) can hold. */
  function StorageLimit(f: Format): nat {
    if f.bytesPerSample == 1 then 256 else 65536
  }

  /** Every value of `vs` is representable in the storage type of `f`. */
  predicate Fits(vs: seq<nat>, f: Format) {
    forall k :: 0 <= k < |vs| ==> vs[k] < StorageLimit(f)
  }

  /**
   * One plane of a frame: `height` rows of `width` visible samples; row `y`
   * starts at index `y * stride` of `samples`. The entries between `width`
   * and `stride` in each row are padding. The stride is counted in samples.
   */
  datatype Plane = Plane(width: nat, height: nat, stride: nat, samples: seq<nat>)

  /** Index of the first sample of row `y`: the row pointer advanced by `stride` once per row. */
  function RowStart(p: Plane, y: nat): nat {
    if y == 0 then 0 else RowStart(p, y - 1) + p.stride
  }

  /** Rows do not overlap, and the buffer reaches the end of the last row. */
  predicate WellFormed(p: Plane) {
    p.width <= p.stride &&
    (p.height == 0 || RowStart(p, p.height - 1) + p.width <= |p.samples|)
  }

  /** Plane index check of both filter constructors: the index names an existing plane. */
  predicate ValidPlane(plane: int, numPlanes: int) {
    0 <= plane < numPlanes
  }

  lemma {:induction false} RowStartIsProduct(p: Plane, y: nat)
    ensures RowStart(p, y) == y * p.stride
  {
    if y > 0 {
      RowStartIsProduct(p, y - 1);
      MulStep(y - 1, p.stride);
    }
  }

  lemma MulStep(y: nat, c: nat)
    ensures (y + 1) * c == y * c + c
  {
  }

  /** A plane is well formed when `width <= stride` and `(height - 1) * stride + width <= |samples|`. */
  lemma WellFormedMeaning(p: Plane)
    ensures WellFormed(p) <==>
      p.width <= p.stride && (p.height == 0 || (p.height - 1) * p.stride + p.width <= |p.samples|)
  {
    if p.height > 0 {
      RowStartIsProduct(p, p.height - 1);
    }
  }

  lemma {:induction false} RowStartMonotone(p: Plane, y: nat, z: nat)
    requires y <= z
    ensures RowStart(p, y) <= RowStart(p, z)
  {
    if y < z {
      RowStartMonotone(p, y, z - 1);
    }
  }

  /** Every row that is visited lies inside the buffer. */
  lemma RowInBounds(p: Plane, y: nat)
    requires WellFormed(p) && y < p.height
    ensures RowStart(p, y) + p.width <= |p.samples|
  {
    RowStartMonotone(p, y, p.height - 1);
  }

  lemma MulMonotone(a: nat, b: nat, c: nat)
    requires a <= b
    ensures a * c <= b * c
  {
  }

  /** The visible samples of row `y`. */
  function Row(p: Plane, y: nat): (r: seq<nat>)
    requires WellFormed(p) && y < p.height
    ensures |r| == p.width
  {
    RowInBounds(p, y);
    p.samples[RowStart(p, y) .. RowStart(p, y) + p.width]
  }

  /** The visible samples of the first `k` rows, row after row. */
  function Rows(p: Plane, k: nat): seq<nat>
    requires WellFormed(p) && k <= p.height
  {
    if k == 0 then [] else Rows(p, k - 1) + Row(p, k - 1)
  }

  lemma {:induction false} RowsLength(p: Plane, k: nat)
    requires WellFormed(p) && k <= p.height
    ensures |Rows(p, k)| == k * p.width
  {
    if k > 0 {
      RowsLength(p, k - 1);
      MulStep(k - 1, p.width);
    }
  }

  /** One more row: the row pointer's next `width` buffer entries. */
  lemma RowsStep(p: Plane, y: nat)
    requires WellFormed(p) && y < p.height
    ensures RowStart(p, y) + p.width <= |p.samples|
    ensures Rows(p, y + 1) == Rows(p, y) + p.samples[RowStart(p, y) .. RowStart(p, y) + p.width]
  {
    RowInBounds(p, y);
  }

  /** Every visible sample, in the order both kernels visit them. */
  function Visible(p: Plane): seq<nat>
    requires WellFormed(p)
  {
    Rows(p, p.height)
  }

  /** A plane has width * height visible samples. */
  lemma VisibleLength(p: Plane)
    requires WellFormed(p)
    ensures |Visible(p)| == p.width * p.height
  {
    RowsLength(p, p.height);
  }

  /** Visible sample `x` of row `y`, read from the buffer. */
  function SampleAt(p: Plane, y: nat, x: nat): nat
    requires WellFormed(p) && y < p.height && x < p.width
  {
    RowInBounds(p, y);
    p.samples[RowStart(p, y) + x]
  }

  /**
   * Visible sample `y * width + x` is the buffer entry `y * stride + x`:
   * the kernels read exactly the first `width` entries of each row.
   */
  lemma VisibleAt(p: Plane, y: nat, x: nat)
    requires WellFormed(p) && y < p.height && x < p.width
    ensures y * p.width + x < |Visible(p)| && y * p.stride + x < |p.samples|
    ensures Visible(p)[y * p.width + x] == p.samples[y * p.stride + x]
  {
    RowInBounds(p, y);
    RowStartIsProduct(p, y);
    RowsAt(p, p.height, y, x);
  }

  lemma {:induction false} RowsAt(p: Plane, k: nat, y: nat, x: nat)
    requires WellFormed(p) && k <= p.height && y < k && x < p.width
    ensures y * p.width + x < |Rows(p, k)|
    ensures Rows(p, k)[y * p.width + x] == SampleAt(p, y, x)
  {
    var prev := Rows(p, k - 1);
    var i := y * p.width + x;
    RowsLength(p, k - 1);
    assert Rows(p, k) == prev + Row(p, k - 1);
    if y == k - 1 {
      assert i == |prev| + x;
      RowAt(p, y, x);
    } else {
      IndexInEarlierRows(y, k - 1, p.width, x);
      RowsAt(p, k - 1, y, x);
    }
  }

  lemma IndexInEarlierRows(y: nat, k: nat, w: nat, x: nat)
    requires y < k && x < w
    ensures y * w + x < k * w
  {
    MulStep(y, w);
    MulMonotone(y + 1, k, w);
  }

  /** Entry `x` of row `y` is the buffer entry `RowStart(p, y) + x`. */
  lemma RowAt(p: Plane, y: nat, x: nat)
    requires WellFormed(p) && y < p.height && x < p.width
    ensures Row(p, y)[x] == SampleAt(p, y, x)
  {
    RowInBounds(p, y);
    SliceAt(p.samples, RowStart(p, y), p.width, x);
  }

  lemma SliceAt(s: seq<nat>, a: nat, w: nat, x: nat)
    requires a + w <= |s| && x < w
    ensures s[a .. a + w][x] == s[a + x]
  {
  }

  /** Two planes that differ only in their padding have the same visible samples. */
  lemma {:induction false} PaddingIgnored(p: Plane, q: Plane, k: nat)
    requires WellFormed(p) && WellFormed(q)
    requires p.width == q.width && p.height == q.height && p.stride == q.stride
    requires forall y: nat, x: nat :: y < p.height && x < p.width ==> SampleAt(p, y, x) == SampleAt(q, y, x)
    requires k <= p.height
    ensures Rows(p, k) == Rows(q, k)
  {
    if k > 0 {
      PaddingIgnored(p, q, k - 1);
      var y := k - 1;
      forall x | 0 <= x < p.width
        ensures Row(p, y)[x] == Row(q, y)[x]
      {
        RowAt(p, y, x);
        RowAt(q, y, x);
      }
    }
  }

  /** Every visible sample is a sample of the buffer. */
  lemma {:induction false} RowsFromSamples(p: Plane, k: nat)
    requires WellFormed(p) && k <= p.height
    ensures forall v :: v in Rows(p, k) ==> v in p.samples
  {
    if k > 0 {
      RowsFromSamples(p, k - 1);
      var y := k - 1;
      RowInBounds(p, y);
      forall v | v in Row(p, y)
        ensures v in p.samples
      {
        var i :| 0 <= i < |Row(p, y)| && Row(p, y)[i] == v;
        assert p.samples[RowStart(p, y) + i] == v;
      }
    }
  }

  /** Sum of a sequence of counts or samples. */
  function Sum(s: seq<nat>): nat {
    if s == [] then 0 else Sum(s[..|s| - 1]) + s[|s| - 1]
  }

  lemma {:induction false} SumConcat(a: seq<nat>, b: seq<nat>)
    ensures Sum(a + b) == Sum(a) + Sum(b)
  {
    if b == [] {
      assert a + b == a;
    } else {
      assert (a + b)[..|a + b| - 1] == a + b[..|b| - 1];
      SumConcat(a, b[..|b| - 1]);
    }
  }

  /** Sum of the first `k` entries. */
  function PrefixSum(h: seq<nat>, k: nat): nat
    requires k <= |h|
  {
    Sum(h[..k])
  }

  /** Sum of the entries from index `k` on. */
  function SuffixSum(h: seq<nat>, k: nat): nat
    requires k <= |h|
  {
    Sum(h[k..])
  }

  /** Prefix and suffix at the same split add up to the whole. */
  lemma PrefixSuffixSplit(h: seq<nat>, k: nat)
    requires k <= |h|
    ensures PrefixSum(h, k) + SuffixSum(h, k) == Sum(h)
  {
    assert h == h[..k] + h[k..];
    SumConcat(h[..k], h[k..]);
  }

  /** A sum of `|s|` values each at most `m` is at most `|s| * m`. */
  lemma {:induction false} SumBound(s: seq<nat>, m: nat)
    requires forall v :: v in s ==> v <= m
    ensures Sum(s) <= |s| * m
  {
    if s != [] {
      var init := s[..|s| - 1];
      assert forall v :: v in init ==> v in s;
      SumBound(init, m);
      assert s[|s| - 1] in s;
      MulStep(|init|, m);
    }
  }
}
