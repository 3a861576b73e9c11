# Density volume baker — Dafny model

The baker fills a cubic R×R×R density volume on the GPU. It then turns that
volume into the 3D texture that the renderer's density-volume component
accepts (R = 32 in the component). The target texture cannot be written by a
compute shader. So the volume is read back one depth slice at a time, and the
slices are put back together on the CPU into one flat colour buffer.

This project models the CPU side of that round trip:

- **Slice collection.** One R×R slice is read back per depth index
  0..R-1, in order.
- **Reassembly.** A triple loop `z, y, x` reads pixel `y + x*R` of slice z.
  The slice's two in-plane axes are therefore transposed relative to the
  output. The loop averages the pixel's red, green and blue channels and
  stores that mean in all four channels of output cell `x + y*R + z*R*R`.
- **Shape selection.** The `Shape` enum is turned into the four boolean
  shader flags DrawSphere, DrawCylinder, DrawTorus and DrawNoise.
- **Default save name.** An empty save-file name becomes the density
  volume's name followed by `_densityTex`.

Modules:

- `Indexing`: the output flattening and the slice read offset, with their
  bounds and inverses. It also defines the order in which the triple loop
  writes cells.
- `Reassembly`: colours, slice collection, the reassembly loop, a reference
  definition of the packed buffer, and the properties of that buffer.
- `ShapeFlags`: the enum, its integer codes, and the four-flag selection.
- `SaveName`: the validation rule for the save-file name, and the name given
  to the texture.
- `Wrappers`: `Option`.

The resolution R is a parameter. The component's fixed value 32 is the
constant `Reassembly.VoxelResolution`. The GPU copy and readback of depth
slice i is the function parameter `capture(i)` of
`Reassembly.RenderTexture3D`.

Two behaviours of the code worth stating explicitly:

- The code has no check on R: R is the constant 32
  (Assets/VolumeBaker/VolumeBaker.cs:32). Nor is there a check on the shape:
  an enum integer outside 0..3 fires none of the four `if`s
  (Assets/VolumeBaker/VolumeBaker.cs:134-161), so the shader keeps the flags
  it already had. `ShapeFlags.SelectShapeCode` models this.
- The C# does not clamp the averaged value (lines 226-227).
  `Reassembly.PackedInUnitRange` takes the [0, 1] range of the read-back
  channels as a hypothesis and derives the same range for the output.

## Model

| member | source | states |
|---|---|---|
| `Indexing.VoxelIndex` | Assets/VolumeBaker/VolumeBaker.cs:228 | the write offset `x + y*R + z*R*R` of every in-grid voxel lies in [0, R³) |
| `Indexing.SliceIndex` | Assets/VolumeBaker/VolumeBaker.cs:225 | the read offset `y + x*R` of every in-slice pixel lies in [0, R²) |
| `Indexing.VoxelCoord` | Assets/VolumeBaker/VolumeBaker.cs:215-228 | every offset of the R³ buffer is the write offset of exactly the in-grid voxel `(i % R, (i / R) % R, i / (R*R))`, so the flattening is onto |
| `Indexing.VoxelCoordOfIndex` | Assets/VolumeBaker/VolumeBaker.cs:228 | un-flattening the write offset of (x, y, z) gives back (x, y, z): the two maps are inverse |
| `Indexing.VoxelIndexInjective` | Assets/VolumeBaker/VolumeBaker.cs:228 | two in-grid voxels with the same write offset are the same voxel |
| `Indexing.LayerRange` | Assets/VolumeBaker/VolumeBaker.cs:217-230 | every offset in `[z*R², (z+1)*R²)` is the offset of a voxel of depth layer z |
| `Indexing.LayerOfVoxel` | Assets/VolumeBaker/VolumeBaker.cs:217-230 | every voxel of depth layer z has its offset in `[z*R², (z+1)*R²)`; with `Indexing.LayerRange`, that range is exactly layer z |
| `Indexing.SlicePixel` | Assets/VolumeBaker/VolumeBaker.cs:225 | every offset of an R×R slice is the read offset of the in-slice pixel `(p / R, p % R)`, so x is the slow axis of the slice buffer |
| `Indexing.SlicePixelOfIndex` | Assets/VolumeBaker/VolumeBaker.cs:225 | the read offset of pixel (x, y) decodes back to (x, y) |
| `Indexing.LayerWritesConsecutive` | Assets/VolumeBaker/VolumeBaker.cs:221-230 | the y and x loops of layer z write the R² consecutive offsets starting at z*R², in increasing order |
| `Indexing.VolumeWritesAscending` | Assets/VolumeBaker/VolumeBaker.cs:217-231 | the first n iterations of the z loop write exactly the offsets 0, 1, …, n·R² − 1, in that order |
| `Indexing.EachCellWrittenOnce` | Assets/VolumeBaker/VolumeBaker.cs:215-231 | the full triple loop makes R³ writes, covers every cell of the buffer and never writes a cell twice |
| `Reassembly.CollectSlices` | Assets/VolumeBaker/VolumeBaker.cs:203-208 | exactly R slices are collected, and slice i is the readback of depth index i |
| `Reassembly.FillRow` | Assets/VolumeBaker/VolumeBaker.cs:223-229 | after the x loop of row y of layer z, every cell up to the end of that row holds its final value; the offsets it writes are, in order, the R offsets of that row; no cell outside the row changes |
| `Reassembly.Reassemble` | Assets/VolumeBaker/VolumeBaker.cs:215-231 | the buffer has R³ cells; cell `x + y*R + z*R*R` holds the mean of r, g, b of pixel `y + x*R` of slice z in all four channels; the offsets of the array writes, as reported by each row, are exactly the loop order that covers each cell once |
| `Reassembly.RenderTexture3D` | Assets/VolumeBaker/VolumeBaker.cs:201-237 | the texture is R×R×R, is named after the volume with `_densityTex`, and each cell holds the channel mean of the transposed pixel of the slice captured for its depth |
| `Reassembly.RenderDefaultTexture3D` | Assets/VolumeBaker/VolumeBaker.cs:32 | at the component's resolution 32 the texture is 32×32×32 with 32768 cells, and cell i holds the channel mean of pixel `y + x*32` of slice z for x = i % 32, y = (i / 32) % 32, z = i / 1024 |
| `Reassembly.PackedIsPacked` | Assets/VolumeBaker/VolumeBaker.cs:217-231 | the reference buffer, defined through the inverse of the flattening, meets the per-voxel contract of the loop |
| `Reassembly.PackedUnique` | Assets/VolumeBaker/VolumeBaker.cs:217-231 | any buffer meeting the per-voxel contract equals the reference buffer, so no cell is left unconstrained |
| `Reassembly.LayerIndependence` | Assets/VolumeBaker/VolumeBaker.cs:217-228 | the output range `[z*R², (z+1)*R²)` depends only on slice z: changing other slices leaves it unchanged |
| `Reassembly.PackedInUnitRange` | Assets/VolumeBaker/VolumeBaker.cs:226-227 | if every input channel lies in [0, 1], every output value lies in [0, 1] |
| `Reassembly.TransposeRoundTrip` | Assets/VolumeBaker/VolumeBaker.cs:219-228 | if pixel `y + x*R` of slice z encodes voxel (x, y, z) in its colour channels, then the output at that voxel's offset decodes back to (x, y, z) |
| `ShapeFlags.Code` | Assets/VolumeBaker/VolumeBaker.cs:34-40 | each shape's underlying integer lies in 0..3 |
| `ShapeFlags.ShapeOfCode` | Assets/VolumeBaker/VolumeBaker.cs:34-40 | an integer names a shape iff it lies in 0..3, and that shape's code is the integer |
| `ShapeFlags.CodeRoundTrip` | Assets/VolumeBaker/VolumeBaker.cs:34-40 | decoding a shape's integer gives back the shape |
| `ShapeFlags.DrawnShape` | Assets/VolumeBaker/VolumeBaker.cs:134-161 | a flag set names a shape iff exactly one of its four flags is set |
| `ShapeFlags.DrawnShapeIff` | Assets/VolumeBaker/VolumeBaker.cs:134-161 | a flag set names shape s iff it is the flag set that the branch for s writes |
| `ShapeFlags.SelectShapeCode` | Assets/VolumeBaker/VolumeBaker.cs:134-161 | for an integer of a declared shape, exactly one flag ends up set and it names that shape; for any other integer the previous flags are kept |
| `ShapeFlags.SelectShape` | Assets/VolumeBaker/VolumeBaker.cs:134-161 | for every shape, exactly one of DrawSphere, DrawCylinder, DrawTorus, DrawNoise is set, and it is the selected shape's flag |
| `ShapeFlags.SelectShapeForgetsPrevious` | Assets/VolumeBaker/VolumeBaker.cs:134-161 | the flags after selecting a shape do not depend on the flags left by a previous bake |
| `SaveName.DefaultTextureName` | Assets/VolumeBaker/VolumeBaker.cs:84 | the default name is the volume's name followed by exactly `_densityTex` |
| `SaveName.OnValidate` | Assets/VolumeBaker/VolumeBaker.cs:79-88 | a non-empty name is never changed; an empty name becomes the default name when a volume is attached; with no volume it stays empty and the warning is logged; the warning is logged iff the name stays empty |
| `SaveName.OnValidateIdempotent` | Assets/VolumeBaker/VolumeBaker.cs:81-87 | validating an already validated name changes nothing |
| `SaveName.DefaultNameRecoversVolume` | Assets/VolumeBaker/VolumeBaker.cs:84 | stripping the suffix from a filled-in name gives back the volume's name |

## Left out

- The compute-shader kernels are not part of this model. That covers the density field (sphere, cylinder, torus, noise, falloff) and the slice-copy kernel that projects the 3D volume onto a 2D slice. The model starts from the slices as read back.
- The `SetTexture`, `SetInt`, `SetFloat`, `SetBool` and `Dispatch` calls, and the thread-group sizes at lines 163 and 183, are left out. They are GPU calls into code outside the model.
- Render-texture and texture creation, `ReadPixels`, `GetPixels`, `SetPixels` and `Apply` are engine I/O. A slice readback is the parameter `capture`. The texture's wrap and filter modes are not modelled.
- Channels are reals. Half- and single-precision rounding of the channel mean is not modelled.
- The 8-bit quantisation of the Alpha8 output format is not modelled.
- `Save` and its check against overwriting an existing asset file are left out. So are `Start` and `InitVoxelRenderTexture3D`. These are file-system and asset-database I/O, and scene wiring.
- SaveName.OnValidate: a null string is treated as the empty string, because `String.IsNullOrEmpty` treats them alike. The volume reference is `Option<string>` holding the volume's name. The text of the logged warning is not modelled, only whether it is logged.
- Reassembly.FillRow: its contract uses `modifies` and `old`, because it fills a row of the output array in place. It is a step of `Reassembly.Reassemble`, which carries the full contract.
