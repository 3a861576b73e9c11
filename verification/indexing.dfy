/**
 Index arithmetic of the volume reassembly.

 The packed R×R×R output buffer is flattened as `x + y*R + z*R*R`; a slice of
 the volume (one depth index z) is an R×R pixel buffer that the reassembly reads
 at `y + x*R`, i.e. with its two in-plane axes transposed relative to the
 output. This module defines both maps, proves they stay in bounds, gives the
 inverse of each, and shows that the triple loop `z, y, x` visits every output
 cell exactly once, in increasing order.
 */
module Indexing {

  /** A voxel coordinate of the cubic grid. */
  datatype Coord = Coord(x: nat, y: nat, z: nat)

  /** A pixel coordinate inside one slice: `x` is the slow axis of the slice buffer. */
  datatype Pixel = Pixel(x: nat, y: nat)

  predicate InGrid(R: nat, c: Coord) {
    c.x < R && c.y < R && c.z < R
  }

  predicate InSlice(R: nat, p: Pixel) {
    p.x < R && p.y < R
  }

  // ---------------------------------------------------------------------------
  // Arithmetic helpers
  // ---------------------------------------------------------------------------

  lemma MulMonotone(a: int, b: int, c: int)
    requires a <= b && 0 <= c
    ensures a * c <= b * c
  {
    assert b * c - a * c == (b - a) * c;
  }

  /** Euclidean division has a unique quotient and remainder. */
  lemma DivModUnique(n: int, d: int, q: int, r: int)
    requires 0 < d && 0 <= r < d && n == q * d + r
    ensures n / d == q && n % d == r
  {
    var q0, r0 := n / d, n % d;
    assert n == q0 * d + r0;
    assert (q - q0) * d == r0 - r;
    if q > q0 {
      MulMonotone(1, q - q0, d);
      assert false;
    } else if q < q0 {
      MulMonotone(1, q0 - q, d);
      assert false;
    }
  }

  /** A two-digit mixed-radix number stays below the product of its radices. */
  lemma MixedRadixBound(lo: nat, hi: nat, m: nat, n: nat)
    requires lo < m && hi < n
    ensures lo + hi * m < m * n
  {
    MulMonotone(hi, n - 1, m);
    assert (n - 1) * m == n * m - m;
  }

  lemma MulDistrib(a: int, b: int, c: int)
    ensures (a + b) * c == a * c + b * c
  {
  }

  lemma MulAssoc(a: int, b: int, c: int)
    ensures (a * b) * c == a * (b * c)
  {
  }

  lemma CubeAssoc(R: nat, z: nat)
    ensures z * R * R == z * (R * R)
    ensures R * R * R == R * (R * R)
  {
    MulAssoc(z, R, R);
    MulAssoc(R, R, R);
  }

  // ---------------------------------------------------------------------------
  // Output (packed volume) indexing
  // ---------------------------------------------------------------------------

  /** Flat offset of voxel (x, y, z) in the packed output buffer; it is always inside the R³ buffer. */
  function VoxelIndex(R: nat, x: nat, y: nat, z: nat): (i: nat)
    requires x < R && y < R && z < R
    ensures i < R * R * R
  {
    MixedRadixBound(x, y, R, R);
    MixedRadixBound(x + y * R, z, R * R, R);
    CubeAssoc(R, z);
    x + y * R + z * R * R
  }

  /** The quotient/remainder digits of `i` in radix R reassemble to `i`, and the top digit is below R. */
  lemma VoxelDigits(R: nat, i: nat)
    requires i < R * R * R
    ensures 0 < R
    ensures i / (R * R) < R
    ensures (i % R) + ((i / R) % R) * R + (i / (R * R)) * R * R == i
  {
    assert 0 < R;
    var t := i / R;
    var x, y, z := i % R, t % R, t / R;
    assert i == t * R + x;
    assert t == z * R + y;
    MulDistrib(z * R, y, R);
    assert i == x + y * R + z * R * R;
    MixedRadixBound(x, y, R, R);
    MulAssoc(z, R, R);
    DivModUnique(i, R * R, z, x + y * R);
    if z >= R {
      MulMonotone(R, z, R);
      MulMonotone(R * R, z * R, R);
      assert false;
    }
  }

  /** The inverse of the flattening: the voxel stored at flat offset `i`. */
  function VoxelCoord(R: nat, i: nat): (c: Coord)
    requires i < R * R * R
    ensures InGrid(R, c)
    ensures VoxelIndex(R, c.x, c.y, c.z) == i
  {
    VoxelDigits(R, i);
    Coord(i % R, (i / R) % R, i / (R * R))
  }

  /** Flattening then un-flattening gives back the voxel. */
  lemma VoxelCoordOfIndex(R: nat, x: nat, y: nat, z: nat)
    requires x < R && y < R && z < R
    ensures VoxelCoord(R, VoxelIndex(R, x, y, z)) == Coord(x, y, z)
  {
    var i := VoxelIndex(R, x, y, z);
    MulDistrib(z * R, y, R);
    assert i == (z * R + y) * R + x;
    DivModUnique(i, R, z * R + y, x);
    DivModUnique(z * R + y, R, z, y);
    MixedRadixBound(x, y, R, R);
    MulAssoc(z, R, R);
    DivModUnique(i, R * R, z, x + y * R);
  }

  /** Distinct in-grid voxels occupy distinct output cells. */
  lemma VoxelIndexInjective(R: nat, a: Coord, b: Coord)
    requires InGrid(R, a) && InGrid(R, b)
    requires VoxelIndex(R, a.x, a.y, a.z) == VoxelIndex(R, b.x, b.y, b.z)
    ensures a == b
  {
    VoxelCoordOfIndex(R, a.x, a.y, a.z);
    VoxelCoordOfIndex(R, b.x, b.y, b.z);
  }

  /** Every offset of `[z*R*R, (z+1)*R*R)` is the offset of a voxel of depth layer z. */
  lemma LayerRange(R: nat, z: nat, i: nat)
    requires z < R && z * (R * R) <= i < (z + 1) * (R * R)
    ensures i < R * R * R && VoxelCoord(R, i).z == z
  {
    MulMonotone(z + 1, R, R * R);
    CubeAssoc(R, z);
    DivModUnique(i, R * R, z, i - z * (R * R));
  }

  /** Every voxel of depth layer z has its offset in `[z*R*R, (z+1)*R*R)`. */
  lemma LayerOfVoxel(R: nat, x: nat, y: nat, z: nat)
    requires x < R && y < R && z < R
    ensures z * (R * R) <= VoxelIndex(R, x, y, z) < (z + 1) * (R * R)
  {
    MixedRadixBound(x, y, R, R);
    CubeAssoc(R, z);
    MulDistrib(z, 1, R * R);
  }

  // ---------------------------------------------------------------------------
  // Slice (input) indexing
  // ---------------------------------------------------------------------------

  /** Flat offset at which the reassembly reads pixel (x, y) of a slice: transposed, `y` is the fast axis. */
  function SliceIndex(R: nat, x: nat, y: nat): (p: nat)
    requires x < R && y < R
    ensures p < R * R
  {
    MixedRadixBound(y, x, R, R);
    y + x * R
  }

  lemma SliceDigits(R: nat, p: nat)
    requires p < R * R
    ensures 0 < R
    ensures p / R < R && p % R + (p / R) * R == p
  {
    DivModUnique(p, R, p / R, p % R);
    if p / R >= R {
      MulMonotone(R, p / R, R);
      assert false;
    }
  }

  /** The inverse of `SliceIndex`: the pixel that the reassembly reads from flat slice offset `p`. */
  function SlicePixel(R: nat, p: nat): (q: Pixel)
    requires p < R * R
    ensures InSlice(R, q)
    ensures SliceIndex(R, q.x, q.y) == p
  {
    SliceDigits(R, p);
    Pixel(p / R, p % R)
  }

  lemma SlicePixelOfIndex(R: nat, x: nat, y: nat)
    requires x < R && y < R
    ensures SlicePixel(R, SliceIndex(R, x, y)) == Pixel(x, y)
  {
    DivModUnique(SliceIndex(R, x, y), R, x, y);
  }

  // ---------------------------------------------------------------------------
  // Write order of the triple loop
  // ---------------------------------------------------------------------------

  /** Offsets written by the innermost loop (x = 0..R-1) for one row y of layer z. */
  function RowWrites(R: nat, y: nat, z: nat): (w: seq<nat>)
    requires y < R && z < R
    ensures |w| == R
  {
    seq(R, x requires 0 <= x < R => VoxelIndex(R, x, y, z))
  }

  /** Offsets written for the first `rows` rows of layer z, in loop order. */
  function LayerWrites(R: nat, z: nat, rows: nat): seq<nat>
    requires rows <= R && z < R
  {
    if rows == 0 then [] else LayerWrites(R, z, rows - 1) + RowWrites(R, rows - 1, z)
  }

  /** Offsets written for the first `layers` depth layers, in loop order. */
  function VolumeWrites(R: nat, layers: nat): seq<nat>
    requires layers <= R
  {
    if layers == 0 then [] else VolumeWrites(R, layers - 1) + LayerWrites(R, layers - 1, R)
  }

  /** Within layer z the loop writes the consecutive offsets `z*R*R, z*R*R + 1, ...`. */
  lemma {:induction false} LayerWritesConsecutive(R: nat, z: nat, rows: nat)
    requires rows <= R && z < R
    ensures |LayerWrites(R, z, rows)| == rows * R
    ensures forall j :: 0 <= j < rows * R ==> LayerWrites(R, z, rows)[j] == z * (R * R) + j
  {
    if rows > 0 {
      LayerWritesConsecutive(R, z, rows - 1);
      var w := LayerWrites(R, z, rows);
      var row := RowWrites(R, rows - 1, z);
      assert (rows - 1) * R + R == rows * R;
      forall j | 0 <= j < rows * R
        ensures w[j] == z * (R * R) + j
      {
        if j >= (rows - 1) * R {
          var x := j - (rows - 1) * R;
          assert w[j] == row[x];
          CubeAssoc(R, z);
        }
      }
    }
  }

  /** The first `layers` layers write exactly the offsets `0, 1, ..., layers*R*R - 1`, in that order. */
  lemma {:induction false} VolumeWritesAscending(R: nat, layers: nat)
    requires layers <= R
    ensures |VolumeWrites(R, layers)| == layers * (R * R)
    ensures forall i :: 0 <= i < layers * (R * R) ==> VolumeWrites(R, layers)[i] == i
  {
    if layers > 0 {
      VolumeWritesAscending(R, layers - 1);
      LayerWritesConsecutive(R, layers - 1, R);
      assert (layers - 1) * (R * R) + R * R == layers * (R * R);
      var w := VolumeWrites(R, layers);
      forall i | 0 <= i < layers * (R * R)
        ensures w[i] == i
      {
        if i >= (layers - 1) * (R * R) {
          assert w[i] == LayerWrites(R, layers - 1, R)[i - (layers - 1) * (R * R)];
        }
      }
    }
  }

  /** The full triple loop writes each of the R³ output cells exactly once. */
  lemma EachCellWrittenOnce(R: nat)
    ensures |VolumeWrites(R, R)| == R * R * R
    ensures forall i :: 0 <= i < R * R * R ==> i in VolumeWrites(R, R)
    ensures forall j, k :: 0 <= j < k < |VolumeWrites(R, R)| ==> VolumeWrites(R, R)[j] != VolumeWrites(R, R)[k]
  {
    VolumeWritesAscending(R, R);
    CubeAssoc(R, 0);
    var w := VolumeWrites(R, R);
    forall i | 0 <= i < R * R * R
      ensures i in w
    {
      assert w[i] == i;
    }
  }
}
