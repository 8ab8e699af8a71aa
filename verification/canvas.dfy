/** What the copy loop of both rearrangers knows about the canvas while it runs, and the
    step that one tile copy adds to it. */
module Canvas {
  import opened Ordering
  import opened Tiling

  /** The pixels of an image as a value: `Rows(a)[y][x] == a[y, x]`. */
  ghost function Rows<P>(a: array2<P>): (r: seq<seq<P>>)
    reads a
    ensures |r| == a.Length0
    ensures forall y :: 0 <= y < a.Length0 ==> |r[y]| == a.Length1
    ensures forall y, x :: 0 <= y < a.Length0 && 0 <= x < a.Length1 ==> r[y][x] == a[y, x]
  {
    seq(a.Length0, (y: int) requires 0 <= y < a.Length0 reads a =>
      seq(a.Length1, (x: int) requires 0 <= x < a.Length1 reads a => a[y, x]))
  }

  /** `canvas` has the grid's size. */
  predicate Shaped<P>(g: Grid, canvas: seq<seq<P>>)
  {
    |canvas| == g.height && forall y :: 0 <= y < |canvas| ==> |canvas[y]| == g.width
  }

  /** Destination slots `0..k-1` hold their source tiles and every other pixel of the
      canvas is still blank. */
  ghost predicate FilledUpTo<P>(g: Grid, ordering: seq<int>, image: array2<P>, canvas: seq<seq<P>>, k: int, blank: P)
    reads image
    requires Fits(g, ordering) && image.Length0 == g.height && image.Length1 == g.width && Shaped(g, canvas)
  {
    forall y, x :: 0 <= y < g.height && 0 <= x < g.width ==>
      canvas[y][x] == if g.TileIndexAt(y, x) < k
                      then var p := SourceOf(g, ordering, y, x); image[p.0, p.1]
                      else blank
  }

  /** A blank canvas has no slot filled yet. */
  lemma BlankIsFilledUpToZero<P>(g: Grid, ordering: seq<int>, image: array2<P>, canvas: seq<seq<P>>, blank: P)
    requires Fits(g, ordering) && image.Length0 == g.height && image.Length1 == g.width && Shaped(g, canvas)
    requires forall y, x :: 0 <= y < g.height && 0 <= x < g.width ==> canvas[y][x] == blank
    ensures FilledUpTo(g, ordering, image, canvas, 0, blank)
  {
    forall y, x | 0 <= y < g.height && 0 <= x < g.width
      ensures g.TileIndexAt(y, x) >= 0
    {
      PixelCovered(g, y, x);
    }
  }

  /** Copying the box of source tile `ordering[k]` onto the box of destination tile `k`,
      and nothing else, extends the filled slots from `0..k-1` to `0..k`. The copy cannot
      undo an earlier one because the boxes of distinct slots are disjoint. */
  lemma CopyExtends<P>(g: Grid, ordering: seq<int>, image: array2<P>, before: seq<seq<P>>, after: seq<seq<P>>,
                       k: int, blank: P, srcUpper: int, srcLeft: int, dstUpper: int, dstLeft: int)
    requires Fits(g, ordering) && image.Length0 == g.height && image.Length1 == g.width
    requires Shaped(g, before) && Shaped(g, after)
    requires 0 <= k < |ordering| && g.TilesPerRow() > 0
    requires srcUpper == g.Upper(ordering[k]) && srcLeft == g.Left(ordering[k])
    requires dstUpper == g.Upper(k) && dstLeft == g.Left(k)
    requires 0 <= srcUpper && srcUpper + g.tileHeight <= g.height && 0 <= srcLeft && srcLeft + g.tileWidth <= g.width
    requires FilledUpTo(g, ordering, image, before, k, blank)
    requires forall y, x :: 0 <= y < g.height && 0 <= x < g.width ==>
      after[y][x] == if dstUpper <= y < dstUpper + g.tileHeight && dstLeft <= x < dstLeft + g.tileWidth
                     then image[srcUpper + (y - dstUpper), srcLeft + (x - dstLeft)]
                     else before[y][x]
    ensures FilledUpTo(g, ordering, image, after, k + 1, blank)
  {
    forall y, x | 0 <= y < g.height && 0 <= x < g.width
      ensures after[y][x] == if g.TileIndexAt(y, x) < k + 1
                             then var p := SourceOf(g, ordering, y, x); image[p.0, p.1]
                             else blank
    {
      SourceOfInTile(g, ordering, k, y, x);
    }
  }

  /** Once every slot is filled, every pixel of the canvas is the source pixel `SourceOf`
      names; with the identity ordering the canvas equals the image. */
  lemma FilledAll<P>(g: Grid, ordering: seq<int>, image: array2<P>, canvas: seq<seq<P>>, blank: P)
    requires Fits(g, ordering) && image.Length0 == g.height && image.Length1 == g.width && Shaped(g, canvas)
    requires FilledUpTo(g, ordering, image, canvas, |ordering|, blank)
    ensures forall y, x :: 0 <= y < g.height && 0 <= x < g.width ==>
      var p := SourceOf(g, ordering, y, x); canvas[y][x] == image[p.0, p.1]
    ensures ordering == Identity(|ordering|) ==>
      forall y, x :: 0 <= y < g.height && 0 <= x < g.width ==> canvas[y][x] == image[y, x]
  {
    forall y, x | 0 <= y < g.height && 0 <= x < g.width
      ensures g.TileIndexAt(y, x) < |ordering|
      ensures ordering == Identity(|ordering|) ==> SourceOf(g, ordering, y, x) == (y, x)
    {
      PixelCovered(g, y, x);
      IdentitySourceOf(g, y, x);
    }
  }
}
