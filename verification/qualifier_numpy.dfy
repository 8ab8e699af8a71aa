/** The rearranger built on an array library: the image is a row-major pixel array whose
    shape is read height first, the validator is called height-major (both pairs swapped),
    tile coordinates come from `divmod`, and each tile is copied by slice assignment into
    a zero-filled canvas of the same shape. */
module NumpyQualifier {
  import opened Ordering
  import opened Tiling
  import opened Validation
  import opened Canvas

  /** `dst[dstUpper : dstUpper + height, dstLeft : dstLeft + width] =
      src[srcUpper : srcUpper + height, srcLeft : srcLeft + width]`: the block of `dst`
      takes the block of `src`; every other pixel of `dst` keeps its value. */
  method AssignBlock<P>(dst: array2<P>, dstUpper: int, dstLeft: int,
                        src: array2<P>, srcUpper: int, srcLeft: int, height: int, width: int)
    requires dst != src && height >= 0 && width >= 0
    requires 0 <= dstUpper && dstUpper + height <= dst.Length0 && 0 <= dstLeft && dstLeft + width <= dst.Length1
    requires 0 <= srcUpper && srcUpper + height <= src.Length0 && 0 <= srcLeft && srcLeft + width <= src.Length1
    modifies dst
    ensures forall y, x :: 0 <= y < dst.Length0 && 0 <= x < dst.Length1 ==>
      dst[y, x] == if dstUpper <= y < dstUpper + height && dstLeft <= x < dstLeft + width
                   then src[srcUpper + (y - dstUpper), srcLeft + (x - dstLeft)] else old(dst[y, x])
  {
    forall y, x | dstUpper <= y < dstUpper + height && dstLeft <= x < dstLeft + width {
      dst[y, x] := src[srcUpper + (y - dstUpper), srcLeft + (x - dstLeft)];
    }
  }

  /** Rearranges the tiles of `image` by `ordering` (`ordering[k]` is the source tile shown
      in destination slot `k`). The validator sees `(height, width)` and
      `(tileHeight, tileWidth)`; that verdict is the width-major one. A rejected input yields
      the fixed error before the canvas exists; otherwise the result is a new canvas of the
      image's shape in which every pixel comes from the source pixel `SourceOf` names.
      `blank` is the zero pixel of the canvas. */
  method RearrangeTiles<P>(image: array2<P>, tileSize: (int, int), ordering: seq<int>, blank: P)
    returns (result: Result<array2<P>>)
    requires tileSize.0 > 0 && tileSize.1 > 0
    requires IsValid(ImageGrid(image, tileSize), ordering) ==> InRange(ordering, ImageGrid(image, tileSize).TileCount())
    ensures result.Failure? <==> !IsValid(ImageGrid(image, tileSize), ordering)
    ensures result.Failure? ==> result.error == InvalidMessage
    ensures result.Ok? ==>
      var g, canvas := ImageGrid(image, tileSize), result.value;
      fresh(canvas) && canvas.Length0 == image.Length0 && canvas.Length1 == image.Length1 &&
      Fits(g, ordering) &&
      forall y, x :: 0 <= y < canvas.Length0 && 0 <= x < canvas.Length1 ==>
        var p := SourceOf(g, ordering, y, x); canvas[y, x] == image[p.0, p.1]
    ensures result.Ok? && ordering == Identity(|ordering|) ==>
      forall y, x :: 0 <= y < image.Length0 && 0 <= x < image.Length1 ==> result.value[y, x] == image[y, x]
  {
    var imgHeight, imgWidth := image.Length0, image.Length1;
    var tileWidth, tileHeight := tileSize.0, tileSize.1;

    var isValid := ValidInput((imgHeight, imgWidth), (tileHeight, tileWidth), ordering);
    ValidSwappedAxes(imgWidth, imgHeight, tileWidth, tileHeight, ordering);
    if !isValid {
      return Failure(InvalidMessage);
    }

    ghost var g := ImageGrid(image, tileSize);
    assert IsValid(g, ordering);
    assert InRange(ordering, g.TileCount());
    var numTilesWidth := imgWidth / tileWidth;
    var newImage := new P[imgHeight, imgWidth]((y, x) => blank);

    var newTileIndex := 0;
    BlankIsFilledUpToZero(g, ordering, image, Rows(newImage), blank);
    while newTileIndex < |ordering|
      invariant 0 <= newTileIndex <= |ordering|
      invariant FilledUpTo(g, ordering, image, Rows(newImage), newTileIndex, blank)
    {
      var oldTileIndex := ordering[newTileIndex];
      TileInBounds(g, oldTileIndex);
      TileInBounds(g, newTileIndex);

      var oldRow, oldCol := oldTileIndex / numTilesWidth, oldTileIndex % numTilesWidth;
      var newRow, newCol := newTileIndex / numTilesWidth, newTileIndex % numTilesWidth;
      var oldUpper, oldLeft := oldRow * tileHeight, oldCol * tileWidth;
      var newUpper, newLeft := newRow * tileHeight, newCol * tileWidth;

      ghost var before := Rows(newImage);
      AssignBlock(newImage, newUpper, newLeft, image, oldUpper, oldLeft, tileHeight, tileWidth);
      CopyExtends(g, ordering, image, before, Rows(newImage), newTileIndex, blank,
                  oldUpper, oldLeft, newUpper, newLeft);
      newTileIndex := newTileIndex + 1;
    }
    FilledAll(g, ordering, image, Rows(newImage), blank);
    return Ok(newImage);
  }
}
