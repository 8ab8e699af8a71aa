# Tile rearranger: validation and tile permutation

This project models a small image-puzzle tool. An image is cut into tiles of a fixed
size. An *ordering* then says, for every destination tile slot `k`, which source tile
`ordering[k]` goes there. The tool has two parts:

- a **validator**. It accepts an (image size, tile size, ordering) triple exactly when
  three checks pass: the tile size divides both image dimensions, the ordering has one
  entry per tile, and no entry repeats;
- a **rearranger**. It validates first and fails with the fixed message "The tile size
  or ordering are not valid for the given image". Otherwise it creates a blank canvas of
  the image's size and copies every source tile `ordering[k]` into destination tile `k`.
  Tile `i` has row `i // tiles_per_row` and column `i % tiles_per_row`.

The repository has this operation twice, once per image library:

- `qualifier/qualifier_2.py` reads the size width first. It calls the validator
  width-major and moves each tile with `crop` followed by `paste`. This is module
  `PilQualifier` (`qualifier_pil.dfy`).
- `qualifier/qualifier.py` reads the array shape height first. It calls the validator
  with both pairs swapped, takes tile coordinates from `divmod`, and copies each tile by
  slice assignment into a zero-filled canvas. This is module `NumpyQualifier`
  (`qualifier_numpy.dfy`).

The validator has the same text in both files (`qualifier/qualifier_2.py:4-23` and
`qualifier/qualifier.py:5-24`). It is modelled once, as `Validation.ValidInput`. That
method keeps the source's list of failures, its appends, and the duplicate scan that
stops at the first entry counted twice. `Validation.ValidSwappedAxes` shows that the
height-major call in `qualifier.py` gives the same verdict as a width-major one.

An image is an `array2<P>` of opaque pixels: `Length0` rows (the height) of `Length1`
pixels (the width). Pixel `(y, x)` is row `y`, column `x`. The zero/transparent pixel of
the fresh canvas is the parameter `blank`. The rearranger returns
`Result<array2<P>>`. `Failure(InvalidMessage)` stands for the raised `ValueError`. On
`Ok(canvas)`, the canvas is what the source would save.

The pure geometry lives in `Tiling`. `SourceOf(g, ordering, y, x)` names the source pixel
that the rearranged image shows at `(y, x)`. Both rearrangers are proved against it, and
the lemmas about it (coverage, disjoint tiles, identity, inverse round trip) carry over to
both. `Ordering` holds distinctness, the occurrence count used by the duplicate scan, the
identity ordering and the inverse permutation. `Canvas` states what the copy loop knows
about the canvas after each tile: its invariant `FilledUpTo` and the step one tile copy
takes. The loop takes a ghost snapshot of the canvas before each copy to relate the two states.

## Model

| member | source | states |
|---|---|---|
| `Validation.ValidInput` | qualifier/qualifier_2.py:4-23 | Accepts exactly when the tile size divides width and height, `(W//tw)*(H//th)` equals the ordering's length, and no entry repeats. Pairs are matched component by component, so the same method serves `valid_input` at qualifier/qualifier.py:5-24 |
| `Validation.RejectsIndivisible` | qualifier/qualifier_2.py:13-14 | A tile size that does not divide the width or the height is rejected, whatever the ordering |
| `Validation.RejectsCountMismatch` | qualifier/qualifier_2.py:8-12 | A tile count different from the ordering's length is rejected |
| `Validation.RejectsRepeatedEntry` | qualifier/qualifier_2.py:15-19 | Any value at two positions is rejected, even when the length is right |
| `Validation.AcceptsOutOfRangeEntries` | qualifier/qualifier_2.py:20-23 | The validator as written accepts the 2x1 image with 1x1 tiles and ordering `[5, 7]`, whose entries name no tile |
| `Validation.CheckedUsesEachTileOnce` | qualifier/qualifier_2.py:35-37 | With the range check added, acceptance holds exactly when the tile size divides the image and the ordering uses each tile exactly once (both directions) |
| `Validation.ValidSwappedAxes` | qualifier/qualifier.py:9-15 | Swapping both the image-size pair and the tile-size pair leaves the verdict unchanged, so the `(height, width)` call at line 44 agrees with the width-major check |
| `Validation.ValidInRangeIsPermutation` | qualifier/qualifier.py:36-37 | A valid ordering whose entries name tiles is a permutation of the tile slots, and its inverse is valid too |
| `Ordering.Count` | qualifier/qualifier_2.py:16 | `list.count`: the number of occurrences of `v` in `s`, at most the length of `s`, and equal to it only when every entry is `v`. `Ordering.CountDistinct` shows it is 1 for each entry of a duplicate-free sequence and `Ordering.CountRepeated` at least 2 for a repeated one |
| `Ordering.CountDistinct` | qualifier/qualifier.py:17 | In a duplicate-free ordering every entry is counted exactly once, so the scan never fires |
| `Ordering.CountRepeated` | qualifier/qualifier.py:17-19 | A value at two positions is counted at least twice, so the scan fires on it |
| `Ordering.CountScanDetectsDuplicates` | qualifier/qualifier.py:16-20 | The scan "some entry has `ordering.count(entry) > 1`" fires exactly when two positions hold the same value |
| `Ordering.PermutationCovers` | qualifier/qualifier_2.py:35-36 | A duplicate-free ordering of length `n` with entries in `0..n-1` uses every tile slot |
| `Ordering.Inverse` | qualifier/qualifier_2.py:52 | The inverse of a permutation is a permutation and undoes it on both sides: `inv[ordering[k]] == k` and `ordering[inv[d]] == d` |
| `Tiling.TileCoordinates` | qualifier/qualifier.py:53-54 | `divmod(i, tiles_per_row)` gives `(row, col)` with `row*tiles_per_row + col == i` and `0 <= col < tiles_per_row`; for `i` below the tile count, `row < tiles_per_column` |
| `Tiling.TileInBounds` | qualifier/qualifier_2.py:53-59 | For a tile index below the tile count, the box `left = col*tw`, `upper = row*th`, `right = left+tw`, `lower = upper+th` lies inside the image |
| `Tiling.PixelCovered` | qualifier/qualifier.py:52-64 | Every image pixel lies in the box of tile `TileIndexAt(y, x)`, which is below the tile count, at offset `(y % th, x % tw)`. The tiles cover the image |
| `Tiling.OffsetInTile` | qualifier/qualifier_2.py:64-68 | The pixel at offset `(dy, dx)` of tile `i`'s box lies in the image, belongs to tile `i`, and keeps that offset as its remainder |
| `Tiling.TileOfPixel` | qualifier/qualifier_2.py:61-65 | A pixel in the box of tile `i` has tile index `i` |
| `Tiling.TilesDisjoint` | qualifier/qualifier_2.py:52-68 | Two tile indices whose boxes share a pixel are equal, so a later paste never overwrites an earlier one |
| `Tiling.SourceOf` | qualifier/qualifier.py:52-64 | The source pixel for output pixel `(y, x)` lies in the image, in tile `ordering[TileIndexAt(y, x)]`, at the same offset inside its tile |
| `Tiling.SourceOfInTile` | qualifier/qualifier.py:56-64 | Inside destination tile `k`, and only there, pixels come from source tile `ordering[k]`, shifted by the difference of the two boxes' corners |
| `Tiling.IdentitySourceOf` | qualifier/qualifier_2.py:52-68 | With the identity ordering `[0..N-1]` every pixel is its own source |
| `Tiling.InverseRoundTrip` | qualifier/qualifier.py:52-64 | Rearranging by a permutation and then by its inverse, in either order, brings every pixel back to where it started |
| `Tiling.ReversedQuadrants` | qualifier/qualifier_2.py:52-68 | For a 32x32 image with 16x16 tiles and ordering `[3, 2, 1, 0]`, the top-left tile shows the old bottom-right tile, the top-right tile the old bottom-left one, the bottom-left tile the old top-right one and the bottom-right tile the old top-left one |
| `Canvas.BlankIsFilledUpToZero` | qualifier/qualifier.py:50 | A canvas whose every pixel is blank has no slot filled, the state in which the copy loop starts |
| `Canvas.CopyExtends` | qualifier/qualifier.py:52-64 | If slots `0..k-1` hold their source tiles and all other pixels are blank, copying source box `ordering[k]` onto destination box `k` and nothing else leaves slots `0..k` filled and the rest blank |
| `Canvas.FilledAll` | qualifier/qualifier_2.py:52-68 | Once all slots are filled, every canvas pixel equals the source pixel `SourceOf` names, and with the identity ordering the canvas equals the image |
| `PilQualifier.Crop` | qualifier/qualifier_2.py:67 | The new tile has the box's size and holds the box's pixels |
| `PilQualifier.Paste` | qualifier/qualifier_2.py:68 | The box at `(upper, left)` takes the tile's pixels; every other canvas pixel keeps its value |
| `PilQualifier.RearrangeTiles` | qualifier/qualifier_2.py:26-69 | Fails with the fixed message exactly when the width-major validator rejects, for any ordering, including one whose entries name no tile; the `Failure` carries no canvas. Otherwise it returns a fresh canvas of the image's size where every pixel equals the source pixel `SourceOf` names; with the identity ordering the canvas equals the image. Loop invariant: after slot `k` the boxes of slots `0..k` hold their source tiles and every other pixel is still blank |
| `NumpyQualifier.AssignBlock` | qualifier/qualifier.py:56-64 | Slice assignment: the destination block takes the source block pixel for pixel; the rest of the destination keeps its value |
| `NumpyQualifier.RearrangeTiles` | qualifier/qualifier.py:27-66 | The same contract as the width-major rearranger, error path included, reached through the height-major validator call with both pairs swapped (the `ValueError` at qualifier/qualifier.py:45-46), `divmod` coordinates and slice copies into a zero canvas |

## Findings

| source | as written | input that shows it | evidently intended | confidence | as-written member | corrected member |
|---|---|---|---|---|---|---|
| qualifier/qualifier_2.py:4-23 (same text at qualifier/qualifier.py:5-24) | The validator checks divisibility, length and distinctness, but never that entries name a tile | a 2x1 image, 1x1 tiles, ordering `[5, 7]`: accepted | The docstring at qualifier/qualifier_2.py:35-37 requires every tile to be used exactly once, which rejects this ordering | medium, not executed | `Validation.AcceptsOutOfRangeEntries` | `Validation.CheckedUsesEachTileOnce` |

Both rearrangers reject every input the validator as written rejects, whatever its
entries. Only on an input the validator accepts do they require every entry to name a
tile, so the inputs they copy are exactly those `IsValidChecked` accepts.

## Left out

- Image decoding and encoding and all file I/O (`Image.open`, `.save`, `cv2.imread`,
  `cv2.imwrite`) are not modelled. The image is given as an array, and the canvas is
  returned instead of written to `out_path`. So "no output file on failure" shows up only
  as a `Failure` that carries no canvas.
- Pixel formats are not modelled: PIL's `"RGBA"` canvas, the conversion `paste` applies
  to a tile of another mode, and numpy's dtype and channel axis. A pixel is an opaque
  value that holds all of its channels and is copied unchanged.
- A single-channel image, whose 2-D `image.shape` makes the three-way unpacking in
  qualifier/qualifier.py:41 raise, is not modelled.
- PilQualifier.RearrangeTiles: on an input the validator accepts, requires every
  ordering entry to lie in `0..N-1`; rejected inputs are modelled whatever their entries.
  An accepted out-of-range entry reaches `crop`, which pads the part of the box outside
  the image with the zero pixel of the source's mode; `paste` then converts that into the
  RGBA canvas, so an RGB source gives opaque black rather than the canvas's transparent
  pixel. This library behaviour is not modelled.
- NumpyQualifier.RearrangeTiles: on an input the validator accepts, requires every
  ordering entry to lie in `0..N-1`, as above. Numpy slicing is not modelled for such an
  entry. Negative slice bounds count from the end, so an entry whose `divmod` row lies
  between `-tiles_per_column` and `-2` silently copies a real tile (on a 32x32 image with
  16x16 tiles, `[0, 1, 2, -4]` puts tile 0 in slot 3). A row of `-1`, or one at or past
  `tiles_per_column`, gives an empty or clipped block and the assignment fails on a shape
  mismatch. On such entries the two rearrangers disagree: one pastes a zero-padded tile,
  the other copies a wrapped real tile or fails.
- Zero or negative tile sizes are excluded by precondition. In Python they raise
  `ZeroDivisionError` or lead to floor-division results that the tool does not intend.
  With positive divisors, Python's `//` and `%` agree with Dafny's, so the validator
  accepts any integer image size.
- The commented-out driver code that reads order files (qualifier/qualifier_2.py:72-81,
  qualifier/qualifier.py:69-78) is not part of this model.
- Only the result of `ordering.count` is modelled (the function `Ordering.Count`), not
  its quadratic cost.
