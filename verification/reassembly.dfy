/**
 Reassembly of the baked volume from its depth slices.

 The density volume lives in a 3D render texture that cannot be handed to the
 density-volume component directly. The baker therefore reads the volume back
 one depth slice at a time (slice z is an R×R colour image), and then fills a
 flat R³ colour buffer: for every voxel (x, y, z) it reads pixel `y + x*R` of
 slice z, averages its red, green and blue channels, and stores that mean in all
 four channels of output cell `x + y*R + z*R*R`. The buffer becomes the pixels
 of an R×R×R texture named after the density volume.
 */
module Reassembly {
  import opened Indexing
  import SaveName
  import opened Wrappers

  /** The resolution the baker is configured with; the model takes R as a parameter and this is one instance. */
  const VoxelResolution: nat := 32

  /** An RGBA colour; channels are reals (the half/single-precision floats are not modelled). */
  datatype Color = Color(r: real, g: real, b: real, a: real)

  /** One depth slice as read back from the GPU: R*R pixels in a flat buffer. */
  type Slice = seq<Color>

  /** The output texture: name, extent and flat pixel buffer. */
  datatype Texture3D = Texture3D(name: string, width: nat, height: nat, depth: nat, pixels: seq<Color>)

  /** The mean of the three colour channels. */
  function Mean(c: Color): real {
    (c.r + c.g + c.b) / 3.0
  }

  /** A grey value broadcast into all four channels. */
  function Gray(v: real): Color {
    Color(v, v, v, v)
  }

  /** R slices of R*R pixels each. */
  predicate WellFormedSlices(R: nat, slices: seq<Slice>) {
    |slices| == R && forall z :: 0 <= z < R ==> |slices[z]| == R * R
  }

  /** The value voxel c receives: pixel `y + x*R` of slice z, averaged and broadcast. */
  function PackedCell(R: nat, slices: seq<Slice>, c: Coord): Color
    requires WellFormedSlices(R, slices) && InGrid(R, c)
  {
    Gray(Mean(slices[c.z][SliceIndex(R, c.x, c.y)]))
  }

  /** The contract of the reassembly: an R³ buffer whose cell `x + y*R + z*R*R` holds the value for voxel (x, y, z). */
  ghost predicate IsPacked(R: nat, slices: seq<Slice>, out: seq<Color>)
    requires WellFormedSlices(R, slices)
  {
    && |out| == R * R * R
    && forall x: nat, y: nat, z: nat :: x < R && y < R && z < R ==> out[VoxelIndex(R, x, y, z)] == PackedCell(R, slices, Coord(x, y, z))
  }

  /** The reference packed volume, defined cell by cell through the inverse of the flattening. */
  function Packed(R: nat, slices: seq<Slice>): (out: seq<Color>)
    requires WellFormedSlices(R, slices)
    ensures |out| == R * R * R
  {
    seq(R * R * R, i requires 0 <= i < R * R * R => PackedCell(R, slices, VoxelCoord(R, i)))
  }

  /** The reference buffer meets the contract of the reassembly. */
  lemma PackedIsPacked(R: nat, slices: seq<Slice>)
    requires WellFormedSlices(R, slices)
    ensures IsPacked(R, slices, Packed(R, slices))
  {
    var out := Packed(R, slices);
    forall x: nat, y: nat, z: nat | x < R && y < R && z < R
      ensures out[VoxelIndex(R, x, y, z)] == PackedCell(R, slices, Coord(x, y, z))
    {
      VoxelCoordOfIndex(R, x, y, z);
    }
  }

  /** The contract of the reassembly determines the buffer: every cell is some voxel's cell. */
  lemma PackedUnique(R: nat, slices: seq<Slice>, out: seq<Color>)
    requires WellFormedSlices(R, slices) && IsPacked(R, slices, out)
    ensures out == Packed(R, slices)
  {
    var ref := Packed(R, slices);
    forall i | 0 <= i < R * R * R
      ensures out[i] == ref[i]
    {
      var c := VoxelCoord(R, i);
      assert out[VoxelIndex(R, c.x, c.y, c.z)] == PackedCell(R, slices, Coord(c.x, c.y, c.z));
    }
  }

  /** The first `k` cells of the output array already hold their final values. */
  ghost predicate FilledUpTo(R: nat, slices: seq<Slice>, out: array<Color>, k: int)
    requires WellFormedSlices(R, slices)
    reads out
  {
    out.Length == R * R * R &&
    forall i :: 0 <= i < k && i < R * R * R ==> out[i] == PackedCell(R, slices, VoxelCoord(R, i))
  }

  /** A completely filled array holds the packed buffer. */
  lemma FilledIsPacked(R: nat, slices: seq<Slice>, out: array<Color>)
    requires WellFormedSlices(R, slices) && FilledUpTo(R, slices, out, R * R * R)
    ensures out[..] == Packed(R, slices)
    ensures IsPacked(R, slices, out[..])
  {
    assert out[..] == Packed(R, slices);
    PackedIsPacked(R, slices);
  }

  /** Reads back one slice per depth index, in order 0..R-1. `capture(i)` stands for the GPU slice copy and readback of depth i. */
  method CollectSlices(R: nat, capture: nat -> Slice) returns (slices: seq<Slice>)
    ensures |slices| == R
    ensures forall i :: 0 <= i < R ==> slices[i] == capture(i)
  {
    var volumeSlices := new Slice[R];
    var i := 0;
    while i < R
      invariant i <= R
      invariant forall j :: 0 <= j < i ==> volumeSlices[j] == capture(j)
    {
      volumeSlices[i] := capture(i);
      i := i + 1;
    }
    slices := volumeSlices[..];
  }

  /**
   The innermost loop: fills row y of depth layer z, voxel x = 0..R-1;
   `rowStart` is the offset of the row's first cell. `rowWrites` records, in
   order, the offset of each array write the loop performs.
   */
  method FillRow(R: nat, slices: seq<Slice>, outputPixels: array<Color>, y: nat, z: nat, ghost rowStart: nat)
    returns (ghost rowWrites: seq<nat>)
    requires WellFormedSlices(R, slices) && y < R && z < R
    requires rowStart == z * (R * R) + y * R
    requires FilledUpTo(R, slices, outputPixels, rowStart)
    modifies outputPixels
    ensures FilledUpTo(R, slices, outputPixels, rowStart + R)
    ensures rowWrites == RowWrites(R, y, z)
    ensures forall i :: 0 <= i < outputPixels.Length && !(rowStart <= i < rowStart + R) ==> outputPixels[i] == old(outputPixels[i])
  {
    var slicePixels := slices[z];
    rowWrites := [];
    var x := 0;
    while x < R
      invariant x <= R
      invariant FilledUpTo(R, slices, outputPixels, rowStart + x)
      invariant rowWrites == RowWrites(R, y, z)[..x]
      invariant forall i :: 0 <= i < outputPixels.Length && !(rowStart <= i < rowStart + x) ==> outputPixels[i] == old(outputPixels[i])
    {
      var col := slicePixels[SliceIndex(R, x, y)];
      var a := (col.r + col.g + col.b) / 3.0;
      var c := Color(a, a, a, a);
      var k := VoxelIndex(R, x, y, z);
      VoxelCoordOfIndex(R, x, y, z);
      MulAssoc(z, R, R);
      assert k == rowStart + x;
      rowWrites := rowWrites + [k];
      outputPixels[k] := c;
      assert RowWrites(R, y, z)[..x + 1] == RowWrites(R, y, z)[..x] + [k];
      x := x + 1;
    }
    assert RowWrites(R, y, z)[..R] == RowWrites(R, y, z);
  }

  /**
   The triple loop that fills the output buffer. `writes` concatenates, in
   order, the offsets of the array writes each row reports.
   */
  method Reassemble(R: nat, slices: seq<Slice>) returns (pixels: seq<Color>, ghost writes: seq<nat>)
    requires WellFormedSlices(R, slices)
    ensures IsPacked(R, slices, pixels)
    ensures forall i :: 0 <= i < |pixels| ==> pixels[i].r == pixels[i].g == pixels[i].b == pixels[i].a
    ensures writes == VolumeWrites(R, R)
  {
    var outputPixels := new Color[R * R * R](_ => Color(0.0, 0.0, 0.0, 0.0));
    writes := [];
    ghost var filled := 0;
    var z := 0;
    while z < R
      invariant z <= R
      invariant filled == z * (R * R)
      invariant writes == VolumeWrites(R, z)
      invariant FilledUpTo(R, slices, outputPixels, filled)
    {
      var y := 0;
      while y < R
        invariant y <= R
        invariant filled == z * (R * R) + y * R
        invariant writes == VolumeWrites(R, z) + LayerWrites(R, z, y)
        invariant FilledUpTo(R, slices, outputPixels, filled)
      {
        ghost var rowWrites := FillRow(R, slices, outputPixels, y, z, filled);
        writes := writes + rowWrites;
        assert writes == VolumeWrites(R, z) + LayerWrites(R, z, y + 1);
        MulDistrib(y, 1, R);
        filled := filled + R;
        y := y + 1;
      }
      MulDistrib(z, 1, R * R);
      z := z + 1;
    }
    pixels := outputPixels[..];
    CubeAssoc(R, 0);
    FilledIsPacked(R, slices, outputPixels);
  }

  /**
   The bake's readback and reassembly: one slice per depth index, then the
   packed buffer, wrapped in an R×R×R texture named after the density volume.
   */
  method RenderTexture3D(R: nat, volumeName: string, capture: nat -> Slice) returns (tex: Texture3D)
    requires forall i :: 0 <= i < R ==> |capture(i)| == R * R
    ensures tex.width == R && tex.height == R && tex.depth == R
    ensures tex.name == SaveName.DefaultTextureName(volumeName)
    ensures |tex.pixels| == R * R * R
    ensures forall x: nat, y: nat, z: nat :: x < R && y < R && z < R ==>
              tex.pixels[VoxelIndex(R, x, y, z)] == Gray(Mean(capture(z)[SliceIndex(R, x, y)]))
  {
    var volumeSlices := CollectSlices(R, capture);
    var outputPixels, writes := Reassemble(R, volumeSlices);
    tex := Texture3D(SaveName.DefaultTextureName(volumeName), R, R, R, outputPixels);
  }

  /**
   The bake at the component's fixed resolution: a 32×32×32 texture of 32768
   cells, where cell i holds the channel mean of pixel `y + x*32` of slice z
   for x = i % 32, y = (i / 32) % 32, z = i / 1024.
   */
  method RenderDefaultTexture3D(volumeName: string, capture: nat -> Slice) returns (tex: Texture3D)
    requires forall i :: 0 <= i < VoxelResolution ==> |capture(i)| == VoxelResolution * VoxelResolution
    ensures tex.width == 32 && tex.height == 32 && tex.depth == 32
    ensures |tex.pixels| == 32768
    ensures forall i :: 0 <= i < 32768 ==>
              tex.pixels[i] == Gray(Mean(capture(i / 1024)[(i / 32) % 32 + (i % 32) * 32]))
  {
    tex := RenderTexture3D(VoxelResolution, volumeName, capture);
    forall i | 0 <= i < 32768
      ensures tex.pixels[i] == Gray(Mean(capture(i / 1024)[(i / 32) % 32 + (i % 32) * 32]))
    {
      var c := VoxelCoord(VoxelResolution, i);
      assert tex.pixels[VoxelIndex(32, c.x, c.y, c.z)] == Gray(Mean(capture(c.z)[SliceIndex(32, c.x, c.y)]));
    }
  }

  // ---------------------------------------------------------------------------
  // Properties of the packed volume
  // ---------------------------------------------------------------------------

  /** Output cells of depth layer z depend on slice z only. */
  lemma LayerIndependence(R: nat, slices1: seq<Slice>, slices2: seq<Slice>, z: nat)
    requires WellFormedSlices(R, slices1) && WellFormedSlices(R, slices2)
    requires z < R && slices1[z] == slices2[z]
    ensures (z + 1) * (R * R) <= R * R * R
    ensures Packed(R, slices1)[z * (R * R)..(z + 1) * (R * R)] == Packed(R, slices2)[z * (R * R)..(z + 1) * (R * R)]
  {
    MulMonotone(z + 1, R, R * R);
    CubeAssoc(R, 0);
    var p1, p2 := Packed(R, slices1), Packed(R, slices2);
    forall i | z * (R * R) <= i < (z + 1) * (R * R)
      ensures p1[i] == p2[i]
    {
      LayerRange(R, z, i);
    }
  }

  /** When every input channel lies in [0, 1], so does every output channel. */
  lemma PackedInUnitRange(R: nat, slices: seq<Slice>)
    requires WellFormedSlices(R, slices)
    requires forall z, p :: 0 <= z < R && 0 <= p < R * R ==>
               0.0 <= slices[z][p].r <= 1.0 && 0.0 <= slices[z][p].g <= 1.0 && 0.0 <= slices[z][p].b <= 1.0
    ensures forall i :: 0 <= i < R * R * R ==> 0.0 <= Packed(R, slices)[i].a <= 1.0
  {
  }

  // ---------------------------------------------------------------------------
  // Transpose round trip
  // ---------------------------------------------------------------------------

  /** The number that identifies voxel c: its own packed offset. */
  function Encode(R: nat, c: Coord): real
    requires InGrid(R, c)
  {
    VoxelIndex(R, c.x, c.y, c.z) as real
  }

  /** Reads a voxel coordinate back from a grey output value, if it names one. */
  function Decode(R: nat, v: Color): (o: Option<Coord>)
    ensures o.Some? ==> InGrid(R, o.value)
  {
    if 0 <= v.a.Floor < R * R * R then Some(VoxelCoord(R, v.a.Floor)) else None
  }

  /** Test slices whose pixel `y + x*R` of slice z carries the code of voxel (x, y, z) in every channel. */
  function CoordinateSlices(R: nat): (slices: seq<Slice>)
    ensures WellFormedSlices(R, slices)
  {
    seq(R, z requires 0 <= z < R =>
      seq(R * R, p requires 0 <= p < R * R =>
        var q := SlicePixel(R, p);
        Gray(Encode(R, Coord(q.x, q.y, z)))))
  }

  /** Reassembling the coordinate slices yields, at the offset of every voxel, a value that decodes to that voxel. */
  lemma TransposeRoundTrip(R: nat, x: nat, y: nat, z: nat)
    requires x < R && y < R && z < R
    ensures Decode(R, Packed(R, CoordinateSlices(R))[VoxelIndex(R, x, y, z)]) == Some(Coord(x, y, z))
  {
    var slices := CoordinateSlices(R);
    PackedIsPacked(R, slices);
    SlicePixelOfIndex(R, x, y);
    var v := Encode(R, Coord(x, y, z));
    assert Mean(Gray(v)) == v;
    assert slices[z][SliceIndex(R, x, y)] == Gray(v);
    VoxelCoordOfIndex(R, x, y, z);
  }
}
