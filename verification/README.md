# Tiling and stitching of density maps (cnn/map_splitter.py)

This project models the map splitter of the Ca-Backbone-Prediction pipeline.
A 3D protein density map is cut into overlapping 64³ tiles, the input size
of the network. After the network has processed them, the tiles are stitched
back together. Only the trusted 50³ centre of each tile is kept, which
discards boundary effects near the tile faces.

- `geometry.dfy` (module `Geometry`) holds the constants, 64 (`BoxSize`), 50
  (`CoreSize`), 7 (`Margin`) and 57 (`StartPoint`). It also holds the ceiling
  arithmetic and `get_manifest_dimensions`. Tiles are ordered by a linear index
  `TileIndex = ix + iy·nx + iz·nx·ny` (x fastest, then y, then z). The module
  proves that this index is a bijection with the grid, and proves the wrap and
  guard tests of the splitting loop.
- `volume.dfy` (module `Volumes`) defines a volume as a value: a shape plus a
  dense nested sequence. `Sample` reads the map as if it were extended by zeros.
  `Slice` is the copy that a numpy basic slice of a 3D array makes.
- `splitter.dfy` (module `Splitter`) is `create_manifest`. `PadVolume` fills a
  zeroed `array3` with the map at offset 64, using one bulk slice assignment.
  `CreateManifest` is the source's `while` loop over `cur_x`/`cur_y`/`cur_z`,
  with its resets. It is proved equal to the specification `Manifest`, which
  gives the tile at each grid position at that position's linear index.
- `stitcher.dfy` (module `Stitcher`) is `reconstruct_map`. `ReconstructMap` is
  the triple `for` loop with its running `counter`. It writes 50³ blocks
  (`WriteBlock`) into a zeroed `array3` of the rounded-up grid and then crops
  the grid. It is proved equal to the specification `Stitch`. `RoundTrip`
  proves that stitching an unmodified manifest gives back the original map, for
  every shape.

The code's behaviour differs in places from the usual description of this
component. The model follows the code:

- **Tile count.** The x and y wrap tests run after the append, so an x row or
  y column always holds at least one tile. The manifest therefore has
  `max(1,⌈Sx/50⌉)·max(1,⌈Sy/50⌉)·⌈Sz/50⌉` tiles. This equals the product of the
  three ceilings when Sx and Sy are positive, or when Sz = 0. When Sz = 0 the
  manifest is empty.
- **Consumed tiles.** `reconstruct_map` consumes `⌈Sx/50⌉·⌈Sy/50⌉·⌈Sz/50⌉`
  tiles. That is zero for any empty axis, so a map with an empty x or y axis and a
  non-empty z axis is still split into tiles that are never read. Its output is empty either way,
  so the round trip holds.
- **Manifest length.** `reconstruct_map` fails only when the manifest is too
  short: the IndexError of `manifest[counter]`. The model returns this as
  `Failure(ManifestTooShort)`. Extra tiles are silently ignored
  (`ExtraTilesIgnored`).

## Model

| member | source | states |
|---|---|---|
| Geometry.CoreBlocks | cnn/map_splitter.py:18-20 | the result n is the ceiling of s/50: 50·n ≥ s, and 50·(n−1) < s when n > 0 |
| Geometry.ManifestDimension | cnn/map_splitter.py:18-20 | one axis of the padded grid is a multiple of 50, at least s, below s+50, zero exactly when s is zero, and holds ⌈s/50⌉ blocks |
| Geometry.GetManifestDimensions | cnn/map_splitter.py:16-21 | every axis of the result is the input axis rounded up to a multiple of 50 (multiple, ≥ input, < input+50), and zero exactly when the input axis is zero |
| Geometry.RowLength | cnn/map_splitter.py:50-58 | an x row or y column holds the least n ≥ 1 with 50·n ≥ s tiles, at least one even for an empty axis |
| Geometry.TileOriginFits | cnn/map_splitter.py:42-49 | every origin 57+50·i of a row, plus 64, stays within the padded extent s+128, so every slice is a full 64-voxel window |
| Geometry.RowWrap | cnn/map_splitter.py:51-55 | the wrap test `cur + 7 >= s + 64`, made after stepping past tile i, fires exactly when i was the last tile of the row |
| Geometry.LayerGuard | cnn/map_splitter.py:46 | the loop guard `cur_z + 7 < s + 64` holds at layer i exactly when i < ⌈s/50⌉ |
| Geometry.NextIndex | cnn/map_splitter.py:50-58 | each append-and-step of the loop (next x, else reset x and next y, else reset both and next z) raises the linear index by exactly one |
| Geometry.RowEnd | cnn/map_splitter.py:70-82 | the counter at the end of an x row equals the index of the start of the next y row |
| Geometry.LayerEnd | cnn/map_splitter.py:70-82 | the counter at the end of a y column equals the index of the start of the next z layer |
| Geometry.EndIndex | cnn/map_splitter.py:70-82 | the position after the last layer has index nx·ny·nz, the total number of tiles |
| Geometry.IndexInRange | cnn/map_splitter.py:69-82 | the index ix+iy·nx+iz·nx·ny of every grid position is below nx·ny·nz |
| Geometry.DecodeIndex | cnn/map_splitter.py:43-58 | decoding the index of a grid position gives that position back |
| Geometry.IndexDecode | cnn/map_splitter.py:69-82 | every index below nx·ny·nz decodes to a grid position whose index it is, so the order is gap-free |
| Geometry.IndexInjective | cnn/map_splitter.py:69-82 | two grid positions with the same index are equal, so no block is written from two tiles |
| Volumes.Slice | cnn/map_splitter.py:47-49 | a slice of a 3D array is a dense volume of the requested shape whose voxel (i,j,k) is the array's voxel at origin+(i,j,k); also used for the crop at lines 84-86 |
| Splitter.TileAt | cnn/map_splitter.py:47-49 | every tile is a dense 64×64×64 volume |
| Splitter.Manifest | cnn/map_splitter.py:40-59 | every tile of a manifest is a dense 64³ volume |
| Splitter.ManifestCount | cnn/map_splitter.py:46-58 | the manifest has max(1,⌈Sx/50⌉)·max(1,⌈Sy/50⌉)·⌈Sz/50⌉ tiles; this is ⌈Sx/50⌉·⌈Sy/50⌉·⌈Sz/50⌉ when Sx,Sy > 0 or Sz = 0; it is empty exactly when Sz = 0 |
| Splitter.ManifestTileAt | cnn/map_splitter.py:42-58 | tile number ix+iy·nx+iz·nx·ny exists and is the window at origin (57+50·ix, 57+50·iy, 57+50·iz), which fits inside the padded map |
| Splitter.TileVoxels | cnn/map_splitter.py:34-49 | voxel (a,b,c) of the tile at grid position p is the map's voxel (50·ix−7+a, 50·iy−7+b, 50·iz−7+c), or 0 outside the map |
| Splitter.SmallMapSingleTile | cnn/map_splitter.py:27-50 | a map with at most 50 voxels on the x and y axes (possibly none) and 1 to 50 on the z axis gives exactly one tile, holding the map at offset 7 and zero everywhere else |
| Splitter.PadVolume | cnn/map_splitter.py:26-38 | the padded array has shape S+128 on every axis, equals the map at offset 64 (`padded[64+i,64+j,64+k] == full[i][j][k]`) and is zero everywhere else |
| Splitter.PaddedIsSample | cnn/map_splitter.py:34-38 | the padded array read at (i,j,k) is the zero-extended map at (i−64, j−64, k−64) |
| Splitter.CutTile | cnn/map_splitter.py:47-49 | the 64³ slice of the padded array at the cursor (cur_x, cur_y, cur_z) of grid position p is exactly the tile at p |
| Splitter.AppendTile | cnn/map_splitter.py:47-58 | appending the tile at p to the tiles of all positions before p gives the tiles of all positions before the one the cursor steps to next, in manifest order |
| Splitter.CreateManifest | cnn/map_splitter.py:25-59 | the while loop, with its resets and its guard, returns exactly the manifest: the tile at every grid position, in x-fastest, then y, then z order |
| Stitcher.BlockIndex | cnn/map_splitter.py:69-82 | the counter value at which the block of an output voxel is filled is below the number of tiles consumed |
| Stitcher.Stitch | cnn/map_splitter.py:63-87 | the result is an IndexError exactly when the manifest holds fewer than ⌈Sx/50⌉·⌈Sy/50⌉·⌈Sz/50⌉ tiles; otherwise it is a dense volume of exactly the requested shape |
| Stitcher.MarginsIgnored | cnn/map_splitter.py:77-81 | two manifests that agree on the [7:57]³ core of every consumed tile stitch to the same result, whatever the margins hold |
| Stitcher.ExtraTilesIgnored | cnn/map_splitter.py:69-82 | only the first ⌈Sx/50⌉·⌈Sy/50⌉·⌈Sz/50⌉ tiles are read: cutting the manifest there changes nothing |
| Stitcher.ExampleShapes | cnn/map_splitter.py:16-59 | the shapes (50,50,50) and (100,50,50) give the same grid and 1 and 2 tiles; the shape (0,50,50) gives 1 tile and stitches back to an empty map of shape (0,50,50) without error |
| Stitcher.ManifestCore | cnn/map_splitter.py:42-49 | the core voxel (7+a, 7+b, 7+c) of the tile at grid position p is the map's voxel (50·ix+a, 50·iy+b, 50·iz+c), or 0 past the map's edge |
| Stitcher.BlockOfManifest | cnn/map_splitter.py:42-81 | on a map with no empty axis, the tile read for output voxel (x,y,z) is in the map's own manifest and its core holds the map's voxel (x,y,z) |
| Stitcher.RoundTrip | cnn/map_splitter.py:25-87 | stitching the unmodified manifest of any map, with its own shape, succeeds and returns that map voxel for voxel |
| Stitcher.WriteBlock | cnn/map_splitter.py:73-81 | the slice assignment writes block b of the grid from the tile's core, (i,j,k) from the tile's (7+i mod 50, 7+j mod 50, 7+k mod 50); every other voxel is unchanged |
| Stitcher.CropIsStitch | cnn/map_splitter.py:84-86 | once every block of the grid holds its tile's core, the crop to the map's shape is exactly the stitched map |
| Stitcher.ReconstructMap | cnn/map_splitter.py:63-87 | the triple loop with its counter, then the crop, returns exactly Stitch: it fails only on a short manifest, and output voxel (x,y,z) is `manifest[counter(x/50, y/50, z/50)][7+x%50][7+y%50][7+z%50]` |

## Left out

- Voxel values are integers. The float densities and the float32 conversion at
  line 83 are an identity here, because no arithmetic is done on voxels.
- `math.ceil(s / 50)` and the float comparisons in the loop guards (lines 18-20,
  46, 52, 55) are exact integer arithmetic here. Every operand is an integer and
  the margin is exactly 7.
- numpy slices are views. The model takes copies, since the manifest is never
  written through them. Input maps are dense 3D volumes (`Volume.Valid`), as a
  numpy array always is.
- The network that processes the tiles between splitting and stitching is not
  part of this model. It can be any change to the manifest: `MarginsIgnored`
  says what of its output matters, and `RoundTrip` uses the identity.
- ReconstructMap: requires every consumed tile to be dense with at least 57
  voxels on each axis (`ReadableManifest`), as the network's 64³ outputs are.
  For smaller tiles numpy raises a broadcast error instead. A tile with exactly
  8 voxels on an axis is broadcast along that axis. Neither behaviour is
  modelled.
- Stitch: has the same precondition as ReconstructMap, for the same reason.
