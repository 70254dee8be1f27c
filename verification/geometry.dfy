/**
 * Integer geometry shared by the splitter and the stitcher of map_splitter.py:
 * the tile constants, per-axis ceiling arithmetic, the rounded-up grid of
 * get_manifest_dimensions and the linear tile index that orders a manifest.
 */
module Geometry {

  /** Edge length of a tile, the input size of the network. */
  const BoxSize: nat := 64
  /** Edge length of the trusted centre of a tile, and the stride between tile origins. */
  const CoreSize: nat := 50
  /** Border discarded on each side of a tile: (64 - 50) / 2 = 7. */
  const Margin: nat := (BoxSize - CoreSize) / 2
  /** First tile origin, in padded coordinates: 64 - 7 = 57. */
  const StartPoint: nat := BoxSize - Margin

  /** The extent of a volume along x, y and z. */
  datatype Shape = Shape(x: nat, y: nat, z: nat)

  function Cube(n: nat): Shape
  {
    Shape(n, n, n)
  }

  /** ceil(s / CoreSize), the number of core blocks needed to cover s voxels. */
  function CoreBlocks(s: nat): (n: nat)
    ensures CoreSize * n >= s
    ensures n > 0 ==> CoreSize * (n - 1) < s
  {
    (s + CoreSize - 1) / CoreSize
  }

  /** d is s rounded up to the next multiple of CoreSize. */
  predicate RoundedUp(s: nat, d: nat)
  {
    d % CoreSize == 0 && s <= d < s + CoreSize
  }

  /** One axis of get_manifest_dimensions. */
  function ManifestDimension(s: nat): (d: nat)
    ensures RoundedUp(s, d)
    ensures d == 0 <==> s == 0
    ensures d / CoreSize == CoreBlocks(s)
  {
    CoreBlocks(s) * CoreSize
  }

  /** The padded grid reconstruct_map fills before cropping. */
  function GetManifestDimensions(shape: Shape): (d: Shape)
    ensures RoundedUp(shape.x, d.x) && RoundedUp(shape.y, d.y) && RoundedUp(shape.z, d.z)
    ensures (d.x == 0 <==> shape.x == 0) && (d.y == 0 <==> shape.y == 0) && (d.z == 0 <==> shape.z == 0)
  {
    Shape(ManifestDimension(shape.x), ManifestDimension(shape.y), ManifestDimension(shape.z))
  }

  /**
   * Tiles create_manifest emits along one x row or y column. The wrap test
   * follows the append, so a row holds at least one tile even when s is 0:
   * the least n >= 1 with CoreSize * n >= s.
   */
  function RowLength(s: nat): (n: nat)
    ensures n >= 1 && CoreSize * n >= s
    ensures n > 1 ==> CoreSize * (n - 1) < s
  {
    if s == 0 then 1 else CoreBlocks(s)
  }

  /** Padded coordinate of the origin of the i-th tile along an axis: 57 + 50 i. */
  function TileOrigin(i: nat): nat
  {
    StartPoint + CoreSize * i
  }

  /**
   * A tile whose origin stays inside the row (or the first one) fits, with all
   * its BoxSize voxels, into an axis of s + 2 * BoxSize padded voxels.
   */
  lemma TileOriginFits(s: nat, i: nat)
    requires i < RowLength(s)
    ensures TileOrigin(i) + BoxSize <= s + 2 * BoxSize
  {
  }

  /**
   * The x and y wrap test of create_manifest, cur + 7 >= s + 64 right after
   * the origin moved to tile i + 1, fires exactly at the end of a row.
   */
  lemma RowWrap(s: nat, i: nat)
    requires i < RowLength(s)
    ensures TileOrigin(i + 1) + Margin >= s + BoxSize <==> i + 1 == RowLength(s)
  {
  }

  /** The z guard of create_manifest, cur_z + 7 < s + 64, holds exactly for the first ceil(s / 50) layers. */
  lemma LayerGuard(s: nat, i: nat)
    ensures TileOrigin(i) + Margin < s + BoxSize <==> i < CoreBlocks(s)
  {
  }

  /** Position of a tile in the grid: ix counts along x, iy along y, iz along z. */
  datatype GridPos = GridPos(ix: nat, iy: nat, iz: nat)

  predicate InGrid(p: GridPos, nx: nat, ny: nat, nz: nat)
  {
    p.ix < nx && p.iy < ny && p.iz < nz
  }

  /** Position of tile p in a manifest: x varies fastest, then y, then z. */
  function TileIndex(p: GridPos, nx: nat, ny: nat): nat
  {
    p.ix + p.iy * nx + p.iz * nx * ny
  }

  /**
   * The grid position after p in manifest order: the next x in the row, else
   * the start of the next y column, else the start of the next z layer.
   */
  function Next(p: GridPos, nx: nat, ny: nat): GridPos
  {
    if p.ix + 1 < nx then GridPos(p.ix + 1, p.iy, p.iz)
    else if p.iy + 1 < ny then GridPos(0, p.iy + 1, p.iz)
    else GridPos(0, 0, p.iz + 1)
  }

  /** Consecutive positions in manifest order have consecutive indices. */
  lemma NextIndex(p: GridPos, nx: nat, ny: nat)
    requires p.ix < nx && p.iy < ny
    ensures TileIndex(Next(p, nx, ny), nx, ny) == TileIndex(p, nx, ny) + 1
  {
  }

  /** Running off the end of an x row is the start of the next y column. */
  lemma RowEnd(nx: nat, ny: nat, y: nat, z: nat)
    ensures TileIndex(GridPos(nx, y, z), nx, ny) == TileIndex(GridPos(0, y + 1, z), nx, ny)
  {
  }

  /** Running off the end of a y column is the start of the next z layer. */
  lemma LayerEnd(nx: nat, ny: nat, z: nat)
    ensures TileIndex(GridPos(0, ny, z), nx, ny) == TileIndex(GridPos(0, 0, z + 1), nx, ny)
  {
  }

  /** The position just past the last layer has the index of the whole grid's size. */
  lemma EndIndex(nx: nat, ny: nat, nz: nat)
    ensures TileIndex(GridPos(0, 0, nz), nx, ny) == nx * ny * nz
  {
  }

  /** The grid position of the k-th tile, inverse of TileIndex. */
  function Decode(k: nat, nx: nat, ny: nat): GridPos
    requires nx > 0 && ny > 0
  {
    GridPos(k % nx, (k / nx) % ny, (k / nx) / ny)
  }

  lemma MulMono(a: nat, b: nat, n: nat)
    requires a <= b
    ensures a * n <= b * n
  {
  }

  /** Division by n is determined by a quotient and a remainder below n. */
  lemma DivModUnique(x: nat, n: nat, q: nat, r: nat)
    requires 0 <= r < n && x == q * n + r
    ensures x / n == q && x % n == r
  {
    var q', r' := x / n, x % n;
    assert x == q' * n + r';
    if q' < q {
      MulMono(q' + 1, q, n);
    } else if q < q' {
      MulMono(q + 1, q', n);
    }
  }

  /** TileIndex lands inside the manifest of a grid of nx * ny * nz tiles. */
  lemma {:induction false} IndexInRange(p: GridPos, nx: nat, ny: nat, nz: nat)
    requires InGrid(p, nx, ny, nz)
    ensures TileIndex(p, nx, ny) < nx * ny * nz
  {
    var row := p.ix + p.iy * nx;
    MulMono(p.iy, ny - 1, nx);
    assert row < nx * ny;
    MulMono(p.iz, nz - 1, nx * ny);
    assert p.iz * nx * ny == p.iz * (nx * ny);
    assert nx * ny * nz == (nz - 1) * (nx * ny) + nx * ny;
  }

  /** Decoding the index of a grid position gives the position back. */
  lemma {:induction false} DecodeIndex(p: GridPos, nx: nat, ny: nat)
    requires p.ix < nx && p.iy < ny
    ensures Decode(TileIndex(p, nx, ny), nx, ny) == p
  {
    var k := TileIndex(p, nx, ny);
    var q := p.iy + p.iz * ny;
    assert k == q * nx + p.ix;
    DivModUnique(k, nx, q, p.ix);
    DivModUnique(q, ny, p.iz, p.iy);
  }

  /** Every index below nx * ny * nz is the index of exactly the grid position it decodes to. */
  lemma {:induction false} IndexDecode(k: nat, nx: nat, ny: nat, nz: nat)
    requires nx > 0 && ny > 0 && k < nx * ny * nz
    ensures InGrid(Decode(k, nx, ny), nx, ny, nz)
    ensures TileIndex(Decode(k, nx, ny), nx, ny) == k
  {
  }

  /** Distinct grid positions get distinct manifest indices. */
  lemma IndexInjective(p: GridPos, p': GridPos, nx: nat, ny: nat)
    requires p.ix < nx && p.iy < ny && p'.ix < nx && p'.iy < ny
    requires TileIndex(p, nx, ny) == TileIndex(p', nx, ny)
    ensures p == p'
  {
    DecodeIndex(p, nx, ny);
    DecodeIndex(p', nx, ny);
  }
}
