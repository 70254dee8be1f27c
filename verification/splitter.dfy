/**
 * The splitting half of map_splitter.py: create_manifest pads the map by a
 * full tile of zeros on every side and cuts it into overlapping 64^3 tiles
 * whose origins step by 50, x fastest, then y, then z.
 */
module Splitter {
  import opened Geometry
  import opened Volumes

  /** Tiles per x row of the manifest of a map of this shape. */
  function SplitCountX(s: Shape): nat { RowLength(s.x) }
  /** Tiles per y column of the manifest. */
  function SplitCountY(s: Shape): nat { RowLength(s.y) }
  /** Number of z layers of the manifest. */
  function SplitCountZ(s: Shape): nat { CoreBlocks(s.z) }

  /**
   * The tile at grid position p: the BoxSize cube of the padded map whose
   * origin is (TileOrigin(ix), TileOrigin(iy), TileOrigin(iz)).
   */
  function TileAt(full: Volume, p: GridPos): (t: Volume)
    requires full.Valid()
    ensures t.Valid() && t.shape == Cube(BoxSize)
  {
    Volume(Cube(BoxSize),
      seq(BoxSize, a =>
        seq(BoxSize, b =>
          seq(BoxSize, c =>
            Sample(full, TileOrigin(p.ix) + a - BoxSize, TileOrigin(p.iy) + b - BoxSize, TileOrigin(p.iz) + c - BoxSize)))))
  }

  /** The manifest of full: the tile at every grid position, at that position's linear index. */
  function Manifest(full: Volume): (tiles: seq<Volume>)
    requires full.Valid()
    ensures forall t | t in tiles :: t.Valid() && t.shape == Cube(BoxSize)
  {
    var s := full.shape;
    var nx, ny, nz := SplitCountX(s), SplitCountY(s), SplitCountZ(s);
    seq(nx * ny * nz, k requires 0 <= k < nx * ny * nz => TileAt(full, Decode(k, nx, ny)))
  }

  /**
   * The tile number of create_manifest: the manifest holds
   * max(1, ceil(Sx/50)) * max(1, ceil(Sy/50)) * ceil(Sz/50) tiles, which is
   * ceil(Sx/50) * ceil(Sy/50) * ceil(Sz/50) when Sx and Sy are positive or
   * Sz is 0, and none at all exactly when the map has no z extent.
   */
  lemma ManifestCount(full: Volume)
    requires full.Valid()
    ensures |Manifest(full)| == RowLength(full.shape.x) * RowLength(full.shape.y) * CoreBlocks(full.shape.z)
    ensures (full.shape.x > 0 && full.shape.y > 0) || full.shape.z == 0 ==>
      |Manifest(full)| == CoreBlocks(full.shape.x) * CoreBlocks(full.shape.y) * CoreBlocks(full.shape.z)
    ensures Manifest(full) == [] <==> full.shape.z == 0
  {
  }

  /**
   * Tile number TileIndex(p) of the manifest is the 64^3 window of the padded
   * map whose origin is 57 + 50 i on each axis, and that window fits inside the
   * padded map.
   */
  lemma {:induction false} ManifestTileAt(full: Volume, p: GridPos)
    requires full.Valid()
    requires InGrid(p, SplitCountX(full.shape), SplitCountY(full.shape), SplitCountZ(full.shape))
    ensures TileIndex(p, SplitCountX(full.shape), SplitCountY(full.shape)) < |Manifest(full)|
    ensures Manifest(full)[TileIndex(p, SplitCountX(full.shape), SplitCountY(full.shape))] == TileAt(full, p)
    ensures TileOrigin(p.ix) + BoxSize <= full.shape.x + 2 * BoxSize
    ensures TileOrigin(p.iy) + BoxSize <= full.shape.y + 2 * BoxSize
    ensures TileOrigin(p.iz) + BoxSize <= full.shape.z + 2 * BoxSize
  {
    var s := full.shape;
    var nx, ny, nz := SplitCountX(s), SplitCountY(s), SplitCountZ(s);
    IndexInRange(p, nx, ny, nz);
    DecodeIndex(p, nx, ny);
    TileOriginFits(s.x, p.ix);
    TileOriginFits(s.y, p.iy);
    LayerGuard(s.z, p.iz);
  }

  /**
   * Voxel (a, b, c) of the tile at grid position p is the map's voxel
   * (50 ix - 7 + a, 50 iy - 7 + b, 50 iz - 7 + c), or 0 where that lies
   * outside the map.
   */
  lemma TileVoxels(full: Volume, p: GridPos)
    requires full.Valid()
    ensures forall a, b, c | InShape(Cube(BoxSize), a, b, c) ::
      TileAt(full, p).cells[a][b][c] ==
        Sample(full, CoreSize * p.ix - Margin + a, CoreSize * p.iy - Margin + b, CoreSize * p.iz - Margin + c)
  {
    forall i: nat
      ensures TileOrigin(i) - BoxSize == CoreSize * i - Margin
    {
    }
  }

  /**
   * A map that fits in one core block on every axis, with a non-empty z axis
   * (an empty x or y axis still gets its one tile per row), yields a single
   * tile, holding the map at offset 7 on each axis and zeros everywhere else.
   */
  lemma SmallMapSingleTile(full: Volume)
    requires full.Valid()
    requires full.shape.x <= CoreSize && full.shape.y <= CoreSize && 0 < full.shape.z <= CoreSize
    ensures |Manifest(full)| == 1
    ensures forall a, b, c | InShape(Cube(BoxSize), a, b, c) ::
      Manifest(full)[0].cells[a][b][c] ==
        if InShape(full.shape, a - Margin, b - Margin, c - Margin) then full.cells[a - Margin][b - Margin][c - Margin] else 0
  {
    var s := full.shape;
    var p := GridPos(0, 0, 0);
    var t := TileAt(full, p);
    forall a, b, c | InShape(Cube(BoxSize), a, b, c)
      ensures t.cells[a][b][c] == Sample(full, a - Margin, b - Margin, c - Margin)
    {
      assert t.cells[a][b][c] == Sample(full, TileOrigin(0) + a - BoxSize, TileOrigin(0) + b - BoxSize, TileOrigin(0) + c - BoxSize);
      assert TileOrigin(0) + a - BoxSize == a - Margin;
    }
    assert SplitCountX(s) == 1 && SplitCountY(s) == 1 && SplitCountZ(s) == 1;
    ManifestCount(full);
    assert |Manifest(full)| == 1 * 1 * 1;
    assert Decode(0, 1, 1) == p;
    assert Manifest(full)[0] == t;
    forall a, b, c | InShape(Cube(BoxSize), a, b, c)
      ensures Manifest(full)[0].cells[a][b][c] ==
        if InShape(s, a - Margin, b - Margin, c - Margin) then full.cells[a - Margin][b - Margin][c - Margin] else 0
    {
      assert t.cells[a][b][c] == Sample(full, a - Margin, b - Margin, c - Margin);
    }
  }

  /**
   * The zero-padded copy of full made by create_manifest: an array BoxSize
   * larger than the map on both sides of every axis, holding the map at
   * offset BoxSize and zero everywhere else.
   */
  method PadVolume(full: Volume) returns (padded: array3<Voxel>)
    requires full.Valid()
    ensures fresh(padded)
    ensures padded.Length0 == full.shape.x + 2 * BoxSize
    ensures padded.Length1 == full.shape.y + 2 * BoxSize
    ensures padded.Length2 == full.shape.z + 2 * BoxSize
    ensures forall i, j, k | InShape(full.shape, i, j, k) :: padded[BoxSize + i, BoxSize + j, BoxSize + k] == full.cells[i][j][k]
    ensures forall i, j, k |
      0 <= i < padded.Length0 && 0 <= j < padded.Length1 && 0 <= k < padded.Length2 &&
      !InShape(full.shape, i - BoxSize, j - BoxSize, k - BoxSize) :: padded[i, j, k] == 0
  {
    var s := full.shape;
    padded := new Voxel[s.x + 2 * BoxSize, s.y + 2 * BoxSize, s.z + 2 * BoxSize]((i, j, k) => 0);
    forall i, j, k | 0 <= i < s.x && 0 <= j < s.y && 0 <= k < s.z {
      padded[BoxSize + i, BoxSize + j, BoxSize + k] := full.cells[i][j][k];
    }
  }

  /**
   * create_manifest: walks the tile origins with the source's wrap tests and
   * loop guard and appends a copy of the window at each origin. The result is
   * the manifest of full (see ManifestCount and ManifestTileAt).
   */
  method CreateManifest(full: Volume) returns (manifest: seq<Volume>)
    requires full.Valid()
    ensures manifest == Manifest(full)
  {
    var s := full.shape;
    var padded := PadVolume(full);
    PaddedIsSample(full, padded);
    ghost var nx, ny, nz := SplitCountX(s), SplitCountY(s), SplitCountZ(s);
    manifest := [];
    var curX, curY, curZ := StartPoint, StartPoint, StartPoint;
    ghost var p := GridPos(0, 0, 0);
    LayerGuard(s.z, 0);
    while curZ + Margin < s.z + BoxSize
      invariant p.ix < nx && p.iy < ny && p.iz <= nz
      invariant curX == TileOrigin(p.ix) && curY == TileOrigin(p.iy) && curZ == TileOrigin(p.iz)
      invariant p.iz == nz ==> p.ix == 0 && p.iy == 0
      invariant ManifestPrefix(full, manifest, p)
      invariant PaddedFrom(full, padded)
      decreases nz - p.iz, ny - p.iy, nx - p.ix
    {
      LayerGuard(s.z, p.iz);
      var tile := CutTile(full, padded, p, curX, curY, curZ);
      AppendTile(full, manifest, p);
      manifest := manifest + [tile];
      RowWrap(s.x, p.ix);
      RowWrap(s.y, p.iy);
      curX := curX + CoreSize;
      if curX + Margin >= s.x + BoxSize {
        curY := curY + CoreSize;
        curX := StartPoint;
        if curY + Margin >= s.y + BoxSize {
          curZ := curZ + CoreSize;
          curY := StartPoint;
          curX := StartPoint;
        }
      }
      p := Next(p, nx, ny);
      LayerGuard(s.z, p.iz);
    }
    LayerGuard(s.z, p.iz);
    assert p == GridPos(0, 0, nz);
    EndIndex(nx, ny, nz);
    assert |manifest| == |Manifest(full)|;
  }

  /** The first TileIndex(p) tiles of the manifest of full, in order: what the loop has appended before reaching p. */
  ghost predicate ManifestPrefix(full: Volume, manifest: seq<Volume>, p: GridPos)
    requires full.Valid()
  {
    var nx, ny := SplitCountX(full.shape), SplitCountY(full.shape);
    |manifest| == TileIndex(p, nx, ny) &&
    forall k | 0 <= k < |manifest| :: manifest[k] == TileAt(full, Decode(k, nx, ny))
  }

  /** Appending the tile at p to the prefix before p gives the prefix before the position that follows p. */
  lemma AppendTile(full: Volume, manifest: seq<Volume>, p: GridPos)
    requires full.Valid() && p.ix < SplitCountX(full.shape) && p.iy < SplitCountY(full.shape)
    requires ManifestPrefix(full, manifest, p)
    ensures ManifestPrefix(full, manifest + [TileAt(full, p)], Next(p, SplitCountX(full.shape), SplitCountY(full.shape)))
  {
    var nx, ny := SplitCountX(full.shape), SplitCountY(full.shape);
    DecodeIndex(p, nx, ny);
    NextIndex(p, nx, ny);
  }

  /** The padded array holds the zero-extended map shifted by BoxSize. */
  ghost predicate PaddedFrom(full: Volume, padded: array3<Voxel>)
    requires full.Valid()
    reads padded
  {
    padded.Length0 == full.shape.x + 2 * BoxSize &&
    padded.Length1 == full.shape.y + 2 * BoxSize &&
    padded.Length2 == full.shape.z + 2 * BoxSize &&
    forall i, j, k | 0 <= i < padded.Length0 && 0 <= j < padded.Length1 && 0 <= k < padded.Length2 ::
      padded[i, j, k] == Sample(full, i - BoxSize, j - BoxSize, k - BoxSize)
  }

  /**
   * One slice of create_manifest: the 64^3 window of the padded array at the
   * origin of grid position p, which lies inside the array, is the tile at p.
   */
  method CutTile(full: Volume, padded: array3<Voxel>, ghost p: GridPos, curX: nat, curY: nat, curZ: nat) returns (tile: Volume)
    requires full.Valid() && PaddedFrom(full, padded)
    requires InGrid(p, SplitCountX(full.shape), SplitCountY(full.shape), SplitCountZ(full.shape))
    requires curX == TileOrigin(p.ix) && curY == TileOrigin(p.iy) && curZ == TileOrigin(p.iz)
    ensures tile == TileAt(full, p)
  {
    TileOriginFits(full.shape.x, p.ix);
    TileOriginFits(full.shape.y, p.iy);
    LayerGuard(full.shape.z, p.iz);
    tile := Slice(padded, curX, curY, curZ, Cube(BoxSize));
    VolumeExt(tile, TileAt(full, p));
  }

  /** The zero-padded copy read through Sample: the map where it lies, zero around it. */
  lemma PaddedIsSample(full: Volume, padded: array3<Voxel>)
    requires full.Valid()
    requires padded.Length0 == full.shape.x + 2 * BoxSize
    requires padded.Length1 == full.shape.y + 2 * BoxSize
    requires padded.Length2 == full.shape.z + 2 * BoxSize
    requires forall i, j, k | InShape(full.shape, i, j, k) :: padded[BoxSize + i, BoxSize + j, BoxSize + k] == full.cells[i][j][k]
    requires forall i, j, k |
      0 <= i < padded.Length0 && 0 <= j < padded.Length1 && 0 <= k < padded.Length2 &&
      !InShape(full.shape, i - BoxSize, j - BoxSize, k - BoxSize) :: padded[i, j, k] == 0
    ensures PaddedFrom(full, padded)
  {
  }

}
