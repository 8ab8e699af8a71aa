/** The validator shared by both rearrangers, and the error they raise when it rejects. */
module Validation {
  import opened Ordering
  import opened Tiling

  /** A return value or the message of the `ValueError` the source raises. */
  datatype Result<T> = Ok(value: T) | Failure(error: string)

  const InvalidMessage: string := "The tile size or ordering are not valid for the given image"

  /** The three checks of the validator, all of which must pass: the tile size divides
      both dimensions, there is one ordering entry per tile, and no entry repeats.
      Nothing requires the entries to lie in `0..TileCount()-1`. */
  predicate IsValid(g: Grid, ordering: seq<int>)
    requires g.TileSizePositive()
  {
    g.Divides() && g.TileCount() == |ordering| && NoDuplicates(ordering)
  }

  /** The validator as written: each failed check appends to a list of failures, the
      duplicate scan counts every entry and stops at the first one counted twice, and
      the input is accepted exactly when the list stayed empty. `imageSize` and
      `tileSize` are paired component by component, whichever axis comes first. */
  method ValidInput(imageSize: (int, int), tileSize: (int, int), ordering: seq<int>) returns (ok: bool)
    requires tileSize.0 > 0 && tileSize.1 > 0
    ensures ok <==> IsValid(Grid(imageSize.0, imageSize.1, tileSize.0, tileSize.1), ordering)
  {
    var failures: seq<bool> := [];
    var numTilesWidth := imageSize.0 / tileSize.0;
    var numTilesHeight := imageSize.1 / tileSize.1;
    var numOfTiles := numTilesWidth * numTilesHeight;
    if numOfTiles != |ordering| {
      failures := failures + [false];
    }
    if imageSize.0 % tileSize.0 != 0 || imageSize.1 % tileSize.1 != 0 {
      failures := failures + [false];
    }
    ghost var beforeScan := failures;
    var i := 0;
    while i < |ordering|
      invariant 0 <= i <= |ordering|
      invariant failures == beforeScan
      invariant forall k :: 0 <= k < i ==> Count(ordering, ordering[k]) <= 1
    {
      var count := Count(ordering, ordering[i]);
      if count > 1 {
        failures := failures + [false];
        break;
      }
      i := i + 1;
    }
    CountScanDetectsDuplicates(ordering);
    ok := failures == [];
  }

  /** Exchanging the axes in both the image size and the tile size together does not
      change the verdict, so a height-major call agrees with a width-major one. */
  lemma ValidSwappedAxes(width: int, height: int, tileWidth: int, tileHeight: int, ordering: seq<int>)
    requires tileWidth > 0 && tileHeight > 0
    ensures IsValid(Grid(height, width, tileHeight, tileWidth), ordering)
        <==> IsValid(Grid(width, height, tileWidth, tileHeight), ordering)
  {
    var g := Grid(width, height, tileWidth, tileHeight);
    var h := Grid(height, width, tileHeight, tileWidth);
    assert h.TileCount() == g.TilesPerColumn() * g.TilesPerRow();
  }

  /** A tile size that does not divide the width or the height is rejected, whatever
      the ordering. */
  lemma RejectsIndivisible(g: Grid, ordering: seq<int>)
    requires g.TileSizePositive()
    requires g.width % g.tileWidth != 0 || g.height % g.tileHeight != 0
    ensures !IsValid(g, ordering)
  {
  }

  /** An ordering whose length differs from the tile count is rejected. */
  lemma RejectsCountMismatch(g: Grid, ordering: seq<int>)
    requires g.TileSizePositive() && g.TilesPerRow() * g.TilesPerColumn() != |ordering|
    ensures !IsValid(g, ordering)
  {
  }

  /** An ordering with a repeated entry is rejected, even when its length is right. */
  lemma RejectsRepeatedEntry(g: Grid, ordering: seq<int>, i: int, j: int)
    requires g.TileSizePositive() && 0 <= i < j < |ordering| && ordering[i] == ordering[j]
    ensures !IsValid(g, ordering)
  {
  }

  /** The validator never looks at the range of the entries: a 2x1 image of 1x1 tiles
      accepts `[5, 7]`, which names no tile at all. */
  lemma AcceptsOutOfRangeEntries()
    ensures IsValid(Grid(2, 1, 1, 1), [5, 7])
    ensures !InRange([5, 7], Grid(2, 1, 1, 1).TileCount())
  {
    assert Grid(2, 1, 1, 1).TileCount() == 2;
    assert [5, 7][0] == 5;
  }

  /** The validator as its own contract describes it: besides the three checks, every
      entry must name a tile. The rearrangers run only on inputs that meet this. */
  predicate IsValidChecked(g: Grid, ordering: seq<int>)
    requires g.TileSizePositive()
  {
    IsValid(g, ordering) && InRange(ordering, g.TileCount())
  }

  /** Every tile `0..n-1` occurs exactly once in `ordering`. */
  predicate EachTileOnce(ordering: seq<int>, n: int)
  {
    forall t :: 0 <= t < n ==> Count(ordering, t) == 1
  }

  /** The checked validator accepts exactly when the tile size divides the image and the
      ordering uses each tile exactly once: one entry per tile, every entry a tile, and
      every tile counted once. */
  lemma CheckedUsesEachTileOnce(g: Grid, ordering: seq<int>)
    requires g.TileSizePositive()
    ensures IsValidChecked(g, ordering) <==>
      g.Divides() && |ordering| == g.TileCount() && InRange(ordering, g.TileCount()) &&
      EachTileOnce(ordering, g.TileCount())
  {
    var n := g.TileCount();
    if IsValidChecked(g, ordering) {
      PermutationCovers(ordering);
      forall t | 0 <= t < n ensures Count(ordering, t) == 1 {
        CountDistinct(ordering, IndexOf(ordering, t));
      }
    }
    if g.Divides() && |ordering| == n && InRange(ordering, n) && EachTileOnce(ordering, n) {
      if !NoDuplicates(ordering) {
        var i, j :| 0 <= i < j < |ordering| && ordering[i] == ordering[j];
        CountRepeated(ordering, i, j);
        assert false;
      }
    }
  }

  /** A valid ordering whose entries all name tiles is a permutation of the tile slots,
      so it has an inverse that is itself valid. */
  lemma ValidInRangeIsPermutation(g: Grid, ordering: seq<int>)
    requires g.TileSizePositive() && IsValid(g, ordering) && InRange(ordering, g.TileCount())
    ensures IsPermutation(ordering)
    ensures IsValid(g, Inverse(ordering)) && InRange(Inverse(ordering), g.TileCount())
  {
  }
}
