/** The tile grid of an image and the arithmetic that maps a linear tile index to its
    pixel box. Pixel coordinates are `(y, x)`: `y` is the row (0 at the top, below
    `height`), `x` the column (0 at the left, below `width`). Tiles are numbered row-major
    with a row stride of `TilesPerRow()`. */
module Tiling {
  import opened Ordering

  /** An image size together with a tile size. */
  datatype Grid = Grid(width: int, height: int, tileWidth: int, tileHeight: int)
  {
    predicate TileSizePositive()
    {
      tileWidth > 0 && tileHeight > 0
    }

    /** The tile size divides both image dimensions. */
    predicate Divides()
      requires TileSizePositive()
    {
      width % tileWidth == 0 && height % tileHeight == 0
    }

    /** A grid the copy loop can work on: a real image cut into whole tiles. */
    predicate Tiles()
    {
      TileSizePositive() && width >= 0 && height >= 0 && Divides()
    }

    function TilesPerRow(): int
      requires TileSizePositive()
    {
      width / tileWidth
    }

    function TilesPerColumn(): int
      requires TileSizePositive()
    {
      height / tileHeight
    }

    function TileCount(): int
      requires TileSizePositive()
    {
      TilesPerRow() * TilesPerColumn()
    }

    /** Grid row of linear tile index `i`. */
    function Row(i: int): int
      requires TileSizePositive() && TilesPerRow() > 0
    {
      i / TilesPerRow()
    }

    /** Grid column of linear tile index `i`. */
    function Column(i: int): int
      requires TileSizePositive() && TilesPerRow() > 0
    {
      i % TilesPerRow()
    }

    /** Top pixel row of tile `i`. */
    function Upper(i: int): int
      requires TileSizePositive() && TilesPerRow() > 0
    {
      Row(i) * tileHeight
    }

    /** Leftmost pixel column of tile `i`. */
    function Left(i: int): int
      requires TileSizePositive() && TilesPerRow() > 0
    {
      Column(i) * tileWidth
    }

    /** Pixel `(y, x)` lies in the box `[Upper(i), Upper(i) + tileHeight) x [Left(i), Left(i) + tileWidth)`. */
    predicate InTile(i: int, y: int, x: int)
      requires TileSizePositive() && TilesPerRow() > 0
    {
      Upper(i) <= y < Upper(i) + tileHeight && Left(i) <= x < Left(i) + tileWidth
    }

    /** Linear index of the tile that pixel `(y, x)` falls in. */
    function TileIndexAt(y: int, x: int): int
      requires TileSizePositive()
    {
      (y / tileHeight) * TilesPerRow() + x / tileWidth
    }
  }

  /** The grid of an image stored as rows of pixels (`Length0` rows of `Length1` pixels)
      cut into tiles of `tileSize == (tileWidth, tileHeight)`. */
  function ImageGrid<P>(image: array2<P>, tileSize: (int, int)): Grid
  {
    Grid(image.Length1, image.Length0, tileSize.0, tileSize.1)
  }

  lemma MulMonotone(a: int, b: int, c: int)
    requires a <= b && c >= 0
    ensures a * c <= b * c
  {
  }

  lemma DivisorTimesQuotient(n: int, d: int)
    requires d > 0 && n % d == 0
    ensures (n / d) * d == n
  {
  }

  /** Division with remainder has one answer. */
  lemma {:induction false} DivModUnique(n: int, d: int, q: int, r: int)
    requires d > 0 && 0 <= r < d && n == q * d + r
    ensures n / d == q && n % d == r
  {
    var q0, r0 := n / d, n % d;
    assert n == q0 * d + r0;
    if q0 < q {
      MulMonotone(q0 + 1, q, d);
      assert false;
    } else if q < q0 {
      MulMonotone(q + 1, q0, d);
      assert false;
    }
  }

  /** A product of two natural numbers that is positive has positive factors, and a
      quotient by one factor of an index below it stays below the other. */
  lemma QuotientBelow(i: int, a: int, b: int)
    requires a >= 0 && b >= 0 && 0 <= i < a * b
    ensures a > 0 && b > 0 && i / a < b
  {
    if a == 0 || b == 0 {
      assert false;
    }
    if i / a >= b {
      MulMonotone(b, i / a, a);
      assert false;
    }
  }

  /** A row-major index built from an in-range row and column is below the tile count. */
  lemma LinearIndexBelow(row: int, col: int, perRow: int, perColumn: int)
    requires 0 <= row < perColumn && 0 <= col < perRow
    ensures 0 <= row * perRow + col < perRow * perColumn
  {
    MulMonotone(row + 1, perColumn, perRow);
  }

  /** `divmod(i, TilesPerRow())`: the row and column of tile `i` recombine to `i`, the
      column is below the row stride, and a tile index below `TileCount()` has its row
      below `TilesPerColumn()`. */
  lemma TileCoordinates(g: Grid, i: int)
    requires g.Tiles() && 0 <= i < g.TileCount()
    ensures g.TilesPerRow() > 0 && g.TilesPerColumn() > 0
    ensures g.Row(i) * g.TilesPerRow() + g.Column(i) == i
    ensures 0 <= g.Column(i) < g.TilesPerRow()
    ensures 0 <= g.Row(i) < g.TilesPerColumn()
  {
    QuotientBelow(i, g.TilesPerRow(), g.TilesPerColumn());
  }

  /** The box of every tile index below `TileCount()` lies inside the image. */
  lemma TileInBounds(g: Grid, i: int)
    requires g.Tiles() && 0 <= i < g.TileCount()
    ensures g.TilesPerRow() > 0
    ensures 0 <= g.Upper(i) && g.Upper(i) + g.tileHeight <= g.height
    ensures 0 <= g.Left(i) && g.Left(i) + g.tileWidth <= g.width
  {
    TileCoordinates(g, i);
    MulMonotone(g.Row(i) + 1, g.TilesPerColumn(), g.tileHeight);
    MulMonotone(g.Column(i) + 1, g.TilesPerRow(), g.tileWidth);
    DivisorTimesQuotient(g.height, g.tileHeight);
    DivisorTimesQuotient(g.width, g.tileWidth);
  }

  /** Every pixel of the image lies in the box of the tile `TileIndexAt` names, at the
      offset `(y % tileHeight, x % tileWidth)` inside it: together the tiles cover the image. */
  lemma PixelCovered(g: Grid, y: int, x: int)
    requires g.Tiles() && 0 <= y < g.height && 0 <= x < g.width
    ensures g.TilesPerRow() > 0
    ensures 0 <= g.TileIndexAt(y, x) < g.TileCount()
    ensures g.Row(g.TileIndexAt(y, x)) == y / g.tileHeight
    ensures g.Column(g.TileIndexAt(y, x)) == x / g.tileWidth
    ensures g.Upper(g.TileIndexAt(y, x)) + y % g.tileHeight == y
    ensures g.Left(g.TileIndexAt(y, x)) + x % g.tileWidth == x
    ensures g.InTile(g.TileIndexAt(y, x), y, x)
  {
    var ntw, nth := g.TilesPerRow(), g.TilesPerColumn();
    DivisorTimesQuotient(g.width, g.tileWidth);
    DivisorTimesQuotient(g.height, g.tileHeight);
    QuotientBelow(x, g.tileWidth, ntw);
    QuotientBelow(y, g.tileHeight, nth);
    var row, col := y / g.tileHeight, x / g.tileWidth;
    LinearIndexBelow(row, col, ntw, nth);
    DivModUnique(row * ntw + col, ntw, row, col);
  }

  /** The pixel at offset `(dy, dx)` inside the box of tile `i` lies in the image, belongs
      to tile `i`, and keeps that offset as its remainder. */
  lemma OffsetInTile(g: Grid, i: int, dy: int, dx: int)
    requires g.Tiles() && 0 <= i < g.TileCount()
    requires 0 <= dy < g.tileHeight && 0 <= dx < g.tileWidth
    ensures g.TilesPerRow() > 0
    ensures 0 <= g.Upper(i) + dy < g.height && 0 <= g.Left(i) + dx < g.width
    ensures g.TileIndexAt(g.Upper(i) + dy, g.Left(i) + dx) == i
    ensures (g.Upper(i) + dy) % g.tileHeight == dy && (g.Left(i) + dx) % g.tileWidth == dx
  {
    TileInBounds(g, i);
    TileOfPixel(g, i, g.Upper(i) + dy, g.Left(i) + dx);
    DivModUnique(g.Upper(i) + dy, g.tileHeight, g.Row(i), dy);
    DivModUnique(g.Left(i) + dx, g.tileWidth, g.Column(i), dx);
  }

  /** A pixel in the box of tile `i` belongs to tile `i` and to no other. */
  lemma TileOfPixel(g: Grid, i: int, y: int, x: int)
    requires g.Tiles() && 0 <= i < g.TileCount()
    ensures g.TilesPerRow() > 0
    ensures g.InTile(i, y, x) ==> g.TileIndexAt(y, x) == i
  {
    TileCoordinates(g, i);
    if g.InTile(i, y, x) {
      DivModUnique(y, g.tileHeight, g.Row(i), y - g.Upper(i));
      DivModUnique(x, g.tileWidth, g.Column(i), x - g.Left(i));
    }
  }

  /** Distinct tile indices have disjoint boxes, so a later paste never overwrites an
      earlier one. */
  lemma TilesDisjoint(g: Grid, i: int, j: int, y: int, x: int)
    requires g.Tiles() && 0 <= i < g.TileCount() && 0 <= j < g.TileCount()
    requires g.InTile(i, y, x) && g.InTile(j, y, x)
    ensures i == j
  {
    TileOfPixel(g, i, y, x);
    TileOfPixel(g, j, y, x);
  }

  /** The ordering is well formed for the copy loop: one entry per tile, each naming a tile. */
  predicate Fits(g: Grid, ordering: seq<int>)
  {
    g.Tiles() && |ordering| == g.TileCount() && InRange(ordering, g.TileCount())
  }

  /** The source pixel that the rearranged image shows at `(y, x)`: destination tile
      `d = TileIndexAt(y, x)` receives source tile `ordering[d]`, and the pixel keeps its
      offset inside the tile. */
  function SourceOf(g: Grid, ordering: seq<int>, y: int, x: int): (p: (int, int))
    requires Fits(g, ordering) && 0 <= y < g.height && 0 <= x < g.width
    ensures 0 <= p.0 < g.height && 0 <= p.1 < g.width
    ensures 0 <= g.TileIndexAt(y, x) < |ordering| && g.TileIndexAt(p.0, p.1) == ordering[g.TileIndexAt(y, x)]
    ensures p.0 % g.tileHeight == y % g.tileHeight && p.1 % g.tileWidth == x % g.tileWidth
  {
    PixelCovered(g, y, x);
    var s := ordering[g.TileIndexAt(y, x)];
    OffsetInTile(g, s, y % g.tileHeight, x % g.tileWidth);
    (g.Upper(s) + y % g.tileHeight, g.Left(s) + x % g.tileWidth)
  }

  /** Inside destination tile `k`, the source pixel is found at the same offset inside
      source tile `ordering[k]`: the copy loop moves tile `ordering[k]` as one block. */
  lemma SourceOfInTile(g: Grid, ordering: seq<int>, k: int, y: int, x: int)
    requires Fits(g, ordering) && 0 <= k < |ordering|
    requires 0 <= y < g.height && 0 <= x < g.width
    ensures g.TilesPerRow() > 0
    ensures g.InTile(k, y, x) <==> g.TileIndexAt(y, x) == k
    ensures g.InTile(k, y, x) ==>
      SourceOf(g, ordering, y, x) == (g.Upper(ordering[k]) + (y - g.Upper(k)), g.Left(ordering[k]) + (x - g.Left(k)))
  {
    PixelCovered(g, y, x);
    TileOfPixel(g, k, y, x);
  }

  /** With the identity ordering every pixel is its own source. */
  lemma IdentitySourceOf(g: Grid, y: int, x: int)
    requires g.Tiles() && g.TileCount() >= 0 && 0 <= y < g.height && 0 <= x < g.width
    ensures Fits(g, Identity(g.TileCount()))
    ensures SourceOf(g, Identity(g.TileCount()), y, x) == (y, x)
  {
    PixelCovered(g, y, x);
  }

  /** Rearranging by a permutation and then by its inverse (or the other way round)
      brings every pixel back: the composed source maps are the identity. */
  lemma InverseRoundTrip(g: Grid, ordering: seq<int>, y: int, x: int)
    requires Fits(g, ordering) && IsPermutation(ordering) && 0 <= y < g.height && 0 <= x < g.width
    ensures Fits(g, Inverse(ordering))
    ensures var q := SourceOf(g, Inverse(ordering), y, x); SourceOf(g, ordering, q.0, q.1) == (y, x)
    ensures var q := SourceOf(g, ordering, y, x); SourceOf(g, Inverse(ordering), q.0, q.1) == (y, x)
  {
    var inv := Inverse(ordering);
    PixelCovered(g, y, x);
    var q := SourceOf(g, inv, y, x);
    SourceBack(g, ordering, inv, q, y, x);
    var q' := SourceOf(g, ordering, y, x);
    SourceBack(g, inv, ordering, q', y, x);
  }

  /** One half of the round trip: if `q` is where `first` fetches pixel `(y, x)` from and
      `second` undoes `first` tile by tile, then `second` fetches `q` from `(y, x)`. */
  lemma SourceBack(g: Grid, second: seq<int>, first: seq<int>, q: (int, int), y: int, x: int)
    requires Fits(g, second) && Fits(g, first) && 0 <= y < g.height && 0 <= x < g.width
    requires forall d :: 0 <= d < |first| ==> second[first[d]] == d
    requires q == SourceOf(g, first, y, x)
    ensures SourceOf(g, second, q.0, q.1) == (y, x)
  {
    PixelCovered(g, y, x);
    PixelCovered(g, q.0, q.1);
    var d := g.TileIndexAt(y, x);
    assert g.TileIndexAt(q.0, q.1) == first[d];
    assert second[first[d]] == d;
  }

  /** A 32x32 image cut into 16x16 tiles has tiles 0 (top left), 1 (top right),
      2 (bottom left) and 3 (bottom right); the ordering `[3, 2, 1, 0]` fills the top left
      tile from the bottom right one and the top right tile from the bottom left one. */
  lemma ReversedQuadrants(y: int, x: int)
    requires 0 <= y < 16 && 0 <= x < 16
    ensures Fits(Grid(32, 32, 16, 16), [3, 2, 1, 0])
    ensures SourceOf(Grid(32, 32, 16, 16), [3, 2, 1, 0], y, x) == (y + 16, x + 16)
    ensures SourceOf(Grid(32, 32, 16, 16), [3, 2, 1, 0], y, x + 16) == (y + 16, x)
    ensures SourceOf(Grid(32, 32, 16, 16), [3, 2, 1, 0], y + 16, x) == (y, x + 16)
    ensures SourceOf(Grid(32, 32, 16, 16), [3, 2, 1, 0], y + 16, x + 16) == (y, x)
  {
    var g := Grid(32, 32, 16, 16);
    assert g.TilesPerRow() == 2 && g.TileCount() == 4;
    DivModUnique(y, 16, 0, y);
    DivModUnique(x, 16, 0, x);
    DivModUnique(x + 16, 16, 1, x);
    DivModUnique(y + 16, 16, 1, y);
    assert g.TileIndexAt(y, x) == 0 && g.TileIndexAt(y, x + 16) == 1;
    assert g.TileIndexAt(y + 16, x) == 2 && g.TileIndexAt(y + 16, x + 16) == 3;
    DivModUnique(3, 2, 1, 1);
    DivModUnique(2, 2, 1, 0);
    DivModUnique(1, 2, 0, 1);
    DivModUnique(0, 2, 0, 0);
    assert g.Upper(3) == 16 && g.Left(3) == 16;
    assert g.Upper(2) == 16 && g.Left(2) == 0;
    assert g.Upper(1) == 0 && g.Left(1) == 16;
    assert g.Upper(0) == 0 && g.Left(0) == 0;
  }
}
