/** The rearranger built on an image library with `crop` and `paste`: the image size is
    read width first, the validator is called width-major, and each tile is cut out of
    the source into a tile of its own and then pasted onto a blank canvas. */
module PilQualifier {
  import opened Ordering
  import opened Tiling
  import opened Validation
  import opened Canvas

  /** `image.crop((left, upper, right, lower))`: a new tile holding the box of rows
      `[upper, lower)` and columns `[left, right)` of `image`. */
  method Crop<P>(image: array2<P>, left: int, upper: int, right: int, lower: int) returns (tile: array2<P>)
    requires 0 <= left <= right <= image.Length1 && 0 <= upper <= lower <= image.Length0
    ensures fresh(tile)
    ensures tile.Length0 == lower - upper && tile.Length1 == right - left
    ensures forall i, j :: 0 <= i < tile.Length0 && 0 <= j < tile.Length1 ==> tile[i, j] == image[upper + i, left + j]
  {
    tile := new P[lower - upper, right - left]((i: nat, j: nat)
      reads image
      requires i < lower - upper && j < right - left
      => image[upper + i, left + j]);
  }

  /** `canvas.paste(tile, (left, upper))`: the box of `canvas` at `(upper, left)` takes the
      pixels of `tile`; every other pixel of `canvas` keeps its value. */
  method Paste<P>(canvas: array2<P>, tile: array2<P>, left: int, upper: int)
    requires canvas != tile
    requires 0 <= upper && upper + tile.Length0 <= canvas.Length0
    requires 0 <= left && left + tile.Length1 <= canvas.Length1
    modifies canvas
    ensures forall y, x :: 0 <= y < canvas.Length0 && 0 <= x < canvas.Length1 ==>
      canvas[y, x] == if upper <= y < upper + tile.Length0 && left <= x < left + tile.Length1
                      then tile[y - upper, x - left] else old(canvas[y, x])
  {
    forall y, x | upper <= y < upper + tile.Length0 && left <= x < left + tile.Length1 {
      canvas[y, x] := tile[y - upper, x - left];
    }
  }

  /** Rearranges the tiles of `image` by `ordering`, where `ordering[k]` is the source
      tile shown in destination slot `k`. A rejected input yields the fixed error, which
      carries no canvas; otherwise the result is a new canvas of the image's size in which
      every pixel comes from the source pixel `SourceOf` names, so destination tile `k`
      holds exactly the pixels of source tile `ordering[k]`. `blank` is the value of the
      fresh canvas's pixels. */
  method RearrangeTiles<P>(image: array2<P>, tileSize: (int, int), ordering: seq<int>, blank: P)
    returns (result: Result<array2<P>>)
    requires tileSize.0 > 0 && tileSize.1 > 0
    requires IsValid(ImageGrid(image, tileSize), ordering) ==> InRange(ordering, ImageGrid(image, tileSize).TileCount())
    ensures result.Failure? <==> !IsValid(ImageGrid(image, tileSize), ordering)
    ensures result.Failure? ==> result.error == InvalidMessage
    ensures result.Ok? ==>
      var g, canvas := ImageGrid(image, tileSize), result.value;
      fresh(canvas) && canvas.Length0 == image.Length0 && canvas.Length1 == image.Length1 &&
      Fits(g, ordering) &&
      forall y, x :: 0 <= y < canvas.Length0 && 0 <= x < canvas.Length1 ==>
        var p := SourceOf(g, ordering, y, x); canvas[y, x] == image[p.0, p.1]
    ensures result.Ok? && ordering == Identity(|ordering|) ==>
      forall y, x :: 0 <= y < image.Length0 && 0 <= x < image.Length1 ==> result.value[y, x] == image[y, x]
  {
    var imgWidth, imgHeight := image.Length1, image.Length0;
    var tileWidth, tileHeight := tileSize.0, tileSize.1;
    var numTilesWidth := imgWidth / tileWidth;

    var isValid := ValidInput((imgWidth, imgHeight), tileSize, ordering);
    if !isValid {
      return Failure(InvalidMessage);
    }

    ghost var g := ImageGrid(image, tileSize);
    assert IsValid(g, ordering) && InRange(ordering, g.TileCount());
    var newImage := new P[imgHeight, imgWidth]((y, x) => blank);

    var newTileIndex := 0;
    BlankIsFilledUpToZero(g, ordering, image, Rows(newImage), blank);
    while newTileIndex < |ordering|
      invariant 0 <= newTileIndex <= |ordering|
      invariant FilledUpTo(g, ordering, image, Rows(newImage), newTileIndex, blank)
    {
      var oldTileIndex := ordering[newTileIndex];
      TileInBounds(g, oldTileIndex);
      TileInBounds(g, newTileIndex);

      var oldCol := oldTileIndex % numTilesWidth;
      var oldRow := oldTileIndex / numTilesWidth;
      var left := oldCol * tileWidth;
      var upper := oldRow * tileHeight;
      var right := left + tileWidth;
      var lower := upper + tileHeight;

      var newCol := newTileIndex % numTilesWidth;
      var newRow := newTileIndex / numTilesWidth;
      var newLeft := newCol * tileWidth;
      var newUpper := newRow * tileHeight;

      ghost var before := Rows(newImage);
      var tile := Crop(image, left, upper, right, lower);
      Paste(newImage, tile, newLeft, newUpper);
      CopyExtends(g, ordering, image, before, Rows(newImage), newTileIndex, blank, upper, left, newUpper, newLeft);
      newTileIndex := newTileIndex + 1;
    }
    FilledAll(g, ordering, image, Rows(newImage), blank);
    return Ok(newImage);
  }
}
