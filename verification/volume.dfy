/**
 * Volumes as values: a shape and a dense x-major nested sequence of voxels.
 * Tiles, the input map and the stitched output are all volumes; the two
 * scratch grids that map_splitter.py fills in place are `array3`s, and
 * `Slice` is the copy a numpy basic slice of such a grid produces.
 */
module Volumes {
  import opened Geometry

  /** A voxel value. No arithmetic is done on voxels, so an integer stands for the float density. */
  type Voxel = int

  datatype Volume = Volume(shape: Shape, cells: seq<seq<seq<Voxel>>>)
  {
    /** The nested sequences are a dense box of the declared shape. */
    predicate Valid()
    {
      |cells| == shape.x &&
      (forall i | 0 <= i < |cells| :: |cells[i]| == shape.y) &&
      (forall i, j | 0 <= i < |cells| && 0 <= j < |cells[i]| :: |cells[i][j]| == shape.z)
    }
  }

  predicate InShape(s: Shape, x: int, y: int, z: int)
  {
    0 <= x < s.x && 0 <= y < s.y && 0 <= z < s.z
  }

  /** The volume extended by zeros in every direction: what a zero-padded copy holds at (x, y, z). */
  function Sample(v: Volume, x: int, y: int, z: int): Voxel
    requires v.Valid()
  {
    if InShape(v.shape, x, y, z) then v.cells[x][y][z] else 0
  }

  /** Two dense volumes of one shape that agree voxel by voxel are the same value. */
  lemma {:induction false} VolumeExt(u: Volume, v: Volume)
    requires u.Valid() && v.Valid() && u.shape == v.shape
    requires forall x, y, z | InShape(u.shape, x, y, z) :: u.cells[x][y][z] == v.cells[x][y][z]
    ensures u == v
  {
    forall x, y | 0 <= x < u.shape.x && 0 <= y < u.shape.y
      ensures u.cells[x][y] == v.cells[x][y]
    {
      assert forall z | 0 <= z < u.shape.z :: u.cells[x][y][z] == v.cells[x][y][z];
    }
    forall x | 0 <= x < u.shape.x
      ensures u.cells[x] == v.cells[x]
    {
    }
  }

  /**
   * The copy of the box of the given shape whose corner is (ox, oy, oz) in the
   * grid a: voxel (i, j, k) of the result is a[ox + i, oy + j, oz + k].
   */
  function Slice(a: array3<Voxel>, ox: nat, oy: nat, oz: nat, shape: Shape): (v: Volume)
    reads a
    requires ox + shape.x <= a.Length0 && oy + shape.y <= a.Length1 && oz + shape.z <= a.Length2
    ensures v.Valid() && v.shape == shape
    ensures forall i, j, k | InShape(shape, i, j, k) :: v.cells[i][j][k] == a[ox + i, oy + j, oz + k]
  {
    Volume(shape,
      seq(shape.x, i requires 0 <= i < shape.x reads a =>
        seq(shape.y, j requires 0 <= j < shape.y reads a =>
          seq(shape.z, k requires 0 <= k < shape.z reads a => a[ox + i, oy + j, oz + k]))))
  }
}
