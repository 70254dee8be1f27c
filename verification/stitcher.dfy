/**
 * The stitching half of map_splitter.py: reconstruct_map copies the trusted
 * 50^3 core of each tile into its block of a zero grid rounded up to whole
 * blocks, consuming tiles in manifest order, and crops the grid to the shape
 * of the original map.
 */
module Stitcher {
  import opened Geometry
  import opened Volumes
  import opened Splitter

  /** manifest[counter] past the end of the manifest: Python's IndexError. */
  datatype StitchError = ManifestTooShort

  datatype Result<T> = Success(value: T) | Failure(error: StitchError)

  /** A tile whose core [7:57] can be sliced on every axis: dense and at least 57 voxels along each axis. */
  predicate CoreReadable(t: Volume)
  {
    t.Valid() && t.shape.x >= Margin + CoreSize && t.shape.y >= Margin + CoreSize && t.shape.z >= Margin + CoreSize
  }

  /** Tiles reconstruct_map consumes for a map of this shape: one per block of the rounded-up grid. */
  function TilesNeeded(s: Shape): nat
  {
    CoreBlocks(s.x) * CoreBlocks(s.y) * CoreBlocks(s.z)
  }

  /** Every tile that reconstruct_map reaches before running out of blocks can have its core sliced. */
  predicate ReadableManifest(manifest: seq<Volume>, s: Shape)
  {
    forall k | 0 <= k < |manifest| && k < TilesNeeded(s) :: CoreReadable(manifest[k])
  }

  /** The block of the stitched grid that holds voxel (x, y, z). */
  function BlockOf(x: nat, y: nat, z: nat): GridPos
  {
    GridPos(x / CoreSize, y / CoreSize, z / CoreSize)
  }

  /** The counter value at which reconstruct_map fills the block of voxel (x, y, z) of the map. */
  function BlockIndex(s: Shape, x: nat, y: nat, z: nat): (k: nat)
    requires InShape(s, x, y, z)
    ensures k < TilesNeeded(s)
  {
    IndexInRange(BlockOf(x, y, z), CoreBlocks(s.x), CoreBlocks(s.y), CoreBlocks(s.z));
    TileIndex(BlockOf(x, y, z), CoreBlocks(s.x), CoreBlocks(s.y))
  }

  /** The voxel of a tile's core that lands on grid voxel (x, y, z) of its block. */
  function CoreVoxel(t: Volume, x: nat, y: nat, z: nat): Voxel
    requires CoreReadable(t)
  {
    t.cells[Margin + x % CoreSize][Margin + y % CoreSize][Margin + z % CoreSize]
  }

  /**
   * What reconstruct_map returns: an IndexError when the manifest holds fewer
   * tiles than there are blocks, and otherwise a map of exactly the requested
   * shape whose voxel (x, y, z) is CoreVoxel of the tile with the block's index.
   */
  function Stitch(manifest: seq<Volume>, s: Shape): (r: Result<Volume>)
    requires ReadableManifest(manifest, s)
    ensures r.Success? <==> TilesNeeded(s) <= |manifest|
    ensures r.Success? ==> r.value.Valid() && r.value.shape == s
  {
    if |manifest| < TilesNeeded(s) then Failure(ManifestTooShort)
    else
      Success(Volume(s,
        seq(s.x, x requires 0 <= x < s.x =>
          seq(s.y, y requires 0 <= y < s.y =>
            seq(s.z, z requires 0 <= z < s.z =>
              CoreVoxel(manifest[BlockIndex(s, x, y, z)], x, y, z))))))
  }

  /**
   * Only the cores are read: two manifests of the same length whose consumed
   * tiles agree on [7:57]^3 stitch to the same result, whatever their margins hold.
   */
  lemma MarginsIgnored(m1: seq<Volume>, m2: seq<Volume>, s: Shape)
    requires ReadableManifest(m1, s) && ReadableManifest(m2, s) && |m1| == |m2|
    requires forall k, i, j, l | 0 <= k < |m1| && k < TilesNeeded(s) &&
      Margin <= i < Margin + CoreSize && Margin <= j < Margin + CoreSize && Margin <= l < Margin + CoreSize ::
      m1[k].cells[i][j][l] == m2[k].cells[i][j][l]
    ensures Stitch(m1, s) == Stitch(m2, s)
  {
    if TilesNeeded(s) <= |m1| {
      forall x, y, z | InShape(s, x, y, z)
        ensures Stitch(m1, s).value.cells[x][y][z] == Stitch(m2, s).value.cells[x][y][z]
      {
        var k := BlockIndex(s, x, y, z);
        assert m1[k].cells[Margin + x % CoreSize][Margin + y % CoreSize][Margin + z % CoreSize]
            == m2[k].cells[Margin + x % CoreSize][Margin + y % CoreSize][Margin + z % CoreSize];
      }
      VolumeExt(Stitch(m1, s).value, Stitch(m2, s).value);
    }
  }

  /**
   * Only the first TilesNeeded(s) tiles are read: tiles past them change nothing,
   * so a manifest that is too long is stitched as if it had been cut there.
   */
  lemma ExtraTilesIgnored(m: seq<Volume>, s: Shape)
    requires ReadableManifest(m, s) && TilesNeeded(s) <= |m|
    ensures ReadableManifest(m[..TilesNeeded(s)], s)
    ensures Stitch(m[..TilesNeeded(s)], s) == Stitch(m, s)
  {
    var m' := m[..TilesNeeded(s)];
    forall x, y, z | InShape(s, x, y, z)
      ensures Stitch(m', s).value.cells[x][y][z] == Stitch(m, s).value.cells[x][y][z]
    {
      assert m'[BlockIndex(s, x, y, z)] == m[BlockIndex(s, x, y, z)];
    }
    VolumeExt(Stitch(m', s).value, Stitch(m, s).value);
  }

  /**
   * The three worked shapes: a single block, two blocks along x, and a map
   * with no x extent, which still yields one all-zero tile and stitches back
   * to an empty map of shape (0, 50, 50).
   */
  lemma ExampleShapes(full: Volume)
    requires full.Valid()
    ensures full.shape == Shape(50, 50, 50) ==>
      GetManifestDimensions(full.shape) == full.shape && |Manifest(full)| == 1
    ensures full.shape == Shape(100, 50, 50) ==>
      GetManifestDimensions(full.shape) == full.shape && |Manifest(full)| == 2
    ensures full.shape == Shape(0, 50, 50) ==>
      GetManifestDimensions(full.shape) == full.shape && |Manifest(full)| == 1 &&
      ReadableManifest(Manifest(full), full.shape) &&
      Stitch(Manifest(full), full.shape) == Success(Volume(Shape(0, 50, 50), []))
  {
    ManifestCount(full);
    if full.shape == Shape(100, 50, 50) {
      assert CoreBlocks(100) == 2;
    }
    if full.shape == Shape(0, 50, 50) {
      RoundTrip(full);
    }
  }

  /**
   * The core of the tile at grid position p of a manifest is the map's block p:
   * voxel (7 + a, 7 + b, 7 + c) of that tile is voxel (50 ix + a, 50 iy + b,
   * 50 iz + c) of the map, zero beyond its edge.
   */
  lemma ManifestCore(full: Volume, p: GridPos, a: nat, b: nat, c: nat)
    requires full.Valid()
    requires InGrid(p, SplitCountX(full.shape), SplitCountY(full.shape), SplitCountZ(full.shape))
    requires InShape(Cube(CoreSize), a, b, c)
    ensures TileIndex(p, SplitCountX(full.shape), SplitCountY(full.shape)) < |Manifest(full)|
    ensures Manifest(full)[TileIndex(p, SplitCountX(full.shape), SplitCountY(full.shape))].cells[Margin + a][Margin + b][Margin + c]
      == Sample(full, CoreSize * p.ix + a, CoreSize * p.iy + b, CoreSize * p.iz + c)
  {
    ManifestTileAt(full, p);
    TileVoxels(full, p);
  }

  /**
   * Round trip: stitching the untouched manifest of a map gives the map back,
   * for every shape, the empty ones included.
   */
  lemma RoundTrip(full: Volume)
    requires full.Valid()
    ensures ReadableManifest(Manifest(full), full.shape)
    ensures Stitch(Manifest(full), full.shape) == Success(full)
  {
    var s := full.shape;
    var m := Manifest(full);
    ManifestCount(full);
    if s.x == 0 || s.y == 0 || s.z == 0 {
      assert TilesNeeded(s) == 0;
      VolumeExt(Stitch(m, s).value, full);
    } else {
      assert TilesNeeded(s) == |m|;
      forall x, y, z | InShape(s, x, y, z)
        ensures Stitch(m, s).value.cells[x][y][z] == full.cells[x][y][z]
      {
        BlockOfManifest(full, x, y, z);
      }
      VolumeExt(Stitch(m, s).value, full);
    }
  }

  /**
   * On a map with no empty axis, the tile reconstruct_map reads for voxel
   * (x, y, z) is a tile of the map's own manifest whose core holds that voxel.
   */
  lemma BlockOfManifest(full: Volume, x: nat, y: nat, z: nat)
    requires full.Valid() && full.shape.x > 0 && full.shape.y > 0 && full.shape.z > 0
    requires InShape(full.shape, x, y, z)
    ensures BlockIndex(full.shape, x, y, z) < |Manifest(full)|
    ensures CoreReadable(Manifest(full)[BlockIndex(full.shape, x, y, z)])
    ensures CoreVoxel(Manifest(full)[BlockIndex(full.shape, x, y, z)], x, y, z) == full.cells[x][y][z]
  {
    ManifestCore(full, BlockOf(x, y, z), x % CoreSize, y % CoreSize, z % CoreSize);
  }

  /** Grid voxels filled so far: every voxel whose block index is below counter holds its tile's core voxel. */
  ghost predicate Filled(recon: array3<Voxel>, manifest: seq<Volume>, counter: nat, nx: nat, ny: nat)
    reads recon
  {
    counter <= |manifest| &&
    (forall k | 0 <= k < counter :: CoreReadable(manifest[k])) &&
    forall i, j, k | 0 <= i < recon.Length0 && 0 <= j < recon.Length1 && 0 <= k < recon.Length2 &&
      TileIndex(BlockOf(i, j, k), nx, ny) < counter ::
      recon[i, j, k] == CoreVoxel(manifest[TileIndex(BlockOf(i, j, k), nx, ny)], i, j, k)
  }

  /** One slice assignment of reconstruct_map: block b of recon receives the core of tile, nothing else changes. */
  method WriteBlock(recon: array3<Voxel>, tile: Volume, b: GridPos)
    requires CoreReadable(tile)
    requires CoreSize * (b.ix + 1) <= recon.Length0
    requires CoreSize * (b.iy + 1) <= recon.Length1
    requires CoreSize * (b.iz + 1) <= recon.Length2
    modifies recon
    ensures forall i, j, k | 0 <= i < recon.Length0 && 0 <= j < recon.Length1 && 0 <= k < recon.Length2 ::
      recon[i, j, k] == if BlockOf(i, j, k) == b then CoreVoxel(tile, i, j, k) else old(recon[i, j, k])
  {
    var x0, y0, z0 := CoreSize * b.ix, CoreSize * b.iy, CoreSize * b.iz;
    forall i, j, k | x0 <= i < x0 + CoreSize && y0 <= j < y0 + CoreSize && z0 <= k < z0 + CoreSize {
      recon[i, j, k] := tile.cells[Margin + (i - x0)][Margin + (j - y0)][Margin + (k - z0)];
    }
  }

  /**
   * reconstruct_map: the triple loop over the rounded-up grid, z outermost and
   * x innermost, with its running counter, then the crop to the map's shape.
   * It raises exactly when the manifest is shorter than the number of blocks.
   */
  method ReconstructMap(manifest: seq<Volume>, s: Shape) returns (r: Result<Volume>)
    requires ReadableManifest(manifest, s)
    ensures r == Stitch(manifest, s)
  {
    var dims := GetManifestDimensions(s);
    var recon := new Voxel[dims.x, dims.y, dims.z]((i, j, k) => 0);
    var nx, ny, nz := dims.x / CoreSize, dims.y / CoreSize, dims.z / CoreSize;
    assert nx == CoreBlocks(s.x) && ny == CoreBlocks(s.y) && nz == CoreBlocks(s.z);
    var counter := 0;
    for zs := 0 to nz
      invariant counter == TileIndex(GridPos(0, 0, zs), nx, ny)
      invariant Filled(recon, manifest, counter, nx, ny)
    {
      for ys := 0 to ny
        invariant counter == TileIndex(GridPos(0, ys, zs), nx, ny)
        invariant Filled(recon, manifest, counter, nx, ny)
      {
        for xs := 0 to nx
          invariant counter == TileIndex(GridPos(xs, ys, zs), nx, ny)
          invariant Filled(recon, manifest, counter, nx, ny)
        {
          var b := GridPos(xs, ys, zs);
          IndexInRange(b, nx, ny, nz);
          if counter >= |manifest| {
            return Failure(ManifestTooShort);
          }
          WriteBlock(recon, manifest[counter], b);
          forall i, j, k | 0 <= i < recon.Length0 && 0 <= j < recon.Length1 && 0 <= k < recon.Length2 &&
            TileIndex(BlockOf(i, j, k), nx, ny) < counter + 1
            ensures recon[i, j, k] == CoreVoxel(manifest[TileIndex(BlockOf(i, j, k), nx, ny)], i, j, k)
          {
            if BlockOf(i, j, k) != b && TileIndex(BlockOf(i, j, k), nx, ny) == counter {
              IndexInjective(BlockOf(i, j, k), b, nx, ny);
            }
          }
          counter := counter + 1;
        }
        RowEnd(nx, ny, ys, zs);
      }
      LayerEnd(nx, ny, zs);
    }
    EndIndex(nx, ny, nz);
    var out := Slice(recon, 0, 0, 0, s);
    CropIsStitch(recon, manifest, s, out);
    r := Success(out);
  }

  /** Once every block is filled, cropping the grid to the map's shape gives the stitched map. */
  lemma CropIsStitch(recon: array3<Voxel>, manifest: seq<Volume>, s: Shape, out: Volume)
    requires ReadableManifest(manifest, s) && TilesNeeded(s) <= |manifest|
    requires s.x <= recon.Length0 && s.y <= recon.Length1 && s.z <= recon.Length2
    requires Filled(recon, manifest, TilesNeeded(s), CoreBlocks(s.x), CoreBlocks(s.y))
    requires out == Slice(recon, 0, 0, 0, s)
    ensures out == Stitch(manifest, s).value
  {
    forall x, y, z | InShape(s, x, y, z)
      ensures out.cells[x][y][z] == Stitch(manifest, s).value.cells[x][y][z]
    {
      IndexInRange(BlockOf(x, y, z), CoreBlocks(s.x), CoreBlocks(s.y), CoreBlocks(s.z));
    }
    VolumeExt(out, Stitch(manifest, s).value);
  }
}
