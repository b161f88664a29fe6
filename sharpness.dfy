/** The integer geometry of the sharpness analysis: the downscaling width
    rule, the centred crop taken before scoring, and the 3x3 grid of tiles
    scored one by one. The Laplacian and Tenengrad kernels are opaque: a score
    is computed from the rectangle of the image it is given, or raises. */
module Sharpness {
  import opened Common

  /** `downscale_width`. */
  const DownscaleWidth: nat := 800
  /** `grid_size`. */
  const GridSize: nat := 3

  /** `image.shape[:2]`: height and width in pixels. */
  datatype Shape = Shape(h: nat, w: nat)

  /** The rows `top <= y < bottom` and the columns `left <= x < right` of an image. */
  datatype Rect = Rect(top: int, left: int, bottom: int, right: int)

  predicate Covers(r: Rect, y: int, x: int)
  {
    r.top <= y < r.bottom && r.left <= x < r.right
  }

  /** The rectangle lies inside an image of shape `s`. */
  predicate Inside(r: Rect, s: Shape)
  {
    0 <= r.top <= r.bottom <= s.h && 0 <= r.left <= r.right <= s.w
  }

  /** `downscale`: the shape of the image it returns. `newH` is the height
      `int(h * (downscale_width / w))` computed in floating point; when it
      truncates to zero, `cv2.resize` refuses the empty target size and raises. */
  function Downscale(s: Shape, newH: nat): (r: Result<Shape>)
    ensures s.w <= DownscaleWidth ==> r == Success(s)
    ensures s.w > DownscaleWidth ==> (r.Success? <==> newH > 0)
    ensures s.w > DownscaleWidth && r.Success? ==> r.value == Shape(newH, DownscaleWidth)
    ensures r.Success? ==> r.value.w <= DownscaleWidth || r.value == s
  {
    if s.w <= DownscaleWidth then Success(s)
    else if newH == 0 then Failure("resize to an empty size")
    else Success(Shape(newH, DownscaleWidth))
  }

  /** A downscaled image is left as it is by a second downscale, whatever
      height the second one would have computed. */
  lemma DownscaleIdempotent(s: Shape, newH: nat, newH': nat)
    requires Downscale(s, newH).Success?
    ensures Downscale(Downscale(s, newH).value, newH') == Downscale(s, newH)
  {
  }

  /** `center_crop` given the cropped height `ch = int(h * 0.7)` and width
      `cw = int(w * 0.7)`: the crop lies inside the image, has exactly that
      size, and sits in the middle, the margin below (right of) it being the
      margin above (left of) it or one more row (column). */
  function CenterCrop(s: Shape, ch: nat, cw: nat): (r: Rect)
    requires ch <= s.h && cw <= s.w
    ensures Inside(r, s)
    ensures r.bottom - r.top == ch && r.right - r.left == cw
    ensures s.h - r.bottom == r.top || s.h - r.bottom == r.top + 1
    ensures s.w - r.right == r.left || s.w - r.right == r.left + 1
  {
    var y1 := (s.h - ch) / 2;
    var x1 := (s.w - cw) / 2;
    Rect(y1, x1, y1 + ch, x1 + cw)
  }

  function TileHeight(s: Shape): nat { s.h / GridSize }
  function TileWidth(s: Shape): nat { s.w / GridSize }

  /** The tile in grid row `row` and column `col`:
      `image[row*tile_h:(row+1)*tile_h, col*tile_w:(col+1)*tile_w]`. */
  function Tile(s: Shape, row: nat, col: nat): Rect
  {
    Rect(row * TileHeight(s), col * TileWidth(s), (row + 1) * TileHeight(s), (col + 1) * TileWidth(s))
  }

  /** The tile of grid position `k`, counted row by row. */
  function TileAt(s: Shape, k: nat): Rect
  {
    Tile(s, k / GridSize, k % GridSize)
  }

  /** A rectangle with no pixel in it. */
  predicate Empty(r: Rect)
  {
    r.bottom <= r.top || r.right <= r.left
  }

  /** `grid_sharpness_scores` with the tile kernel `score`, which either gives
      a tile's scores or raises: the scores of the tiles row by row and, within
      a row, column by column, or the exception of the first tile whose
      scoring raised, after which no later tile is scored. */
  method GridSharpnessScores(s: Shape, score: Rect -> Result<(real, real)>) returns (r: Result<seq<(real, real)>>)
    ensures r.Success? <==> forall k :: 0 <= k < GridSize * GridSize ==> score(TileAt(s, k)).Success?
    ensures r.Success? ==> |r.value| == GridSize * GridSize
    ensures r.Success? ==> forall k :: 0 <= k < |r.value| ==> score(TileAt(s, k)) == Success(r.value[k])
    ensures r.Failure? ==> exists k :: 0 <= k < GridSize * GridSize && score(TileAt(s, k)) == Failure(r.error)
                                       && forall j :: 0 <= j < k ==> score(TileAt(s, j)).Success?
  {
    var scores := [];
    for row := 0 to GridSize
      invariant |scores| == row * GridSize
      invariant forall k :: 0 <= k < |scores| ==> score(TileAt(s, k)) == Success(scores[k])
    {
      for col := 0 to GridSize
        invariant |scores| == row * GridSize + col
        invariant forall k :: 0 <= k < |scores| ==> score(TileAt(s, k)) == Success(scores[k])
      {
        ghost var k := |scores|;
        assert k / GridSize == row && k % GridSize == col;
        assert TileAt(s, k) == Tile(s, row, col);
        match score(Tile(s, row, col))
        case Failure(e) =>
          return Failure(e);
        case Success(v) =>
          scores := scores + [v];
      }
    }
    return Success(scores);
  }

  /** The tiles are all empty exactly when the image is less than three
      pixels high or wide, and otherwise none is: a kernel that raises on an
      empty tile (as `cv2.cvtColor` does) makes the whole grid raise. */
  lemma {:induction false} ThinImageEmptyTiles(s: Shape)
    ensures s.h < GridSize || s.w < GridSize <==> forall k :: 0 <= k < GridSize * GridSize ==> Empty(TileAt(s, k))
    ensures s.h >= GridSize && s.w >= GridSize ==> forall k :: 0 <= k < GridSize * GridSize ==> !Empty(TileAt(s, k))
  {
    if s.h >= GridSize && s.w >= GridSize {
      assert TileHeight(s) >= 1 && TileWidth(s) >= 1;
      forall k | 0 <= k < GridSize * GridSize ensures !Empty(TileAt(s, k)) {
        var row, col := k / GridSize, k % GridSize;
        assert (row + 1) * TileHeight(s) == row * TileHeight(s) + TileHeight(s);
        assert (col + 1) * TileWidth(s) == col * TileWidth(s) + TileWidth(s);
      }
      assert !Empty(TileAt(s, 0));
    } else {
      assert TileHeight(s) == 0 || TileWidth(s) == 0;
    }
  }

  lemma MulMonotone(a: nat, b: nat, c: nat)
    requires a <= b
    ensures a * c <= b * c
  {
  }

  /** Every tile lies inside the image and is `tile_h` by `tile_w`. */
  lemma TileInside(s: Shape, row: nat, col: nat)
    requires row < GridSize && col < GridSize
    ensures Inside(Tile(s, row, col), s)
    ensures Tile(s, row, col).bottom - Tile(s, row, col).top == TileHeight(s)
    ensures Tile(s, row, col).right - Tile(s, row, col).left == TileWidth(s)
  {
    MulMonotone(row + 1, GridSize, TileHeight(s));
    MulMonotone(col + 1, GridSize, TileWidth(s));
  }

  /** A run of tiles of size `t`: the offset `y` lies in the `i`-th one exactly when `i == y / t`. */
  lemma BandOf(y: int, t: nat, i: nat)
    requires i * t <= y < (i + 1) * t
    ensures t > 0 && i == y / t
  {
    var q := y / t;
    assert q * t <= y < (q + 1) * t;
    if i < q {
      MulMonotone(i + 1, q, t);
    } else if q < i {
      MulMonotone(q + 1, i, t);
    }
  }

  /** Two different tiles share no pixel. */
  lemma TilesDisjoint(s: Shape, r1: nat, c1: nat, r2: nat, c2: nat, y: int, x: int)
    requires (r1, c1) != (r2, c2)
    ensures !(Covers(Tile(s, r1, c1), y, x) && Covers(Tile(s, r2, c2), y, x))
  {
    if Covers(Tile(s, r1, c1), y, x) && Covers(Tile(s, r2, c2), y, x) {
      BandOf(y, TileHeight(s), r1);
      BandOf(y, TileHeight(s), r2);
      BandOf(x, TileWidth(s), c1);
      BandOf(x, TileWidth(s), c2);
    }
  }

  /** The grid covers exactly the top-left `3*tile_h` by `3*tile_w` pixels,
      each in the tile of its row band and column band; the fewer than three
      remaining rows at the bottom and columns at the right are in no tile. */
  lemma GridCoverage(s: Shape, y: int, x: int)
    ensures 0 <= s.h - GridSize * TileHeight(s) < GridSize
    ensures 0 <= s.w - GridSize * TileWidth(s) < GridSize
    ensures (exists row: nat, col: nat :: row < GridSize && col < GridSize && Covers(Tile(s, row, col), y, x))
            <==> 0 <= y < GridSize * TileHeight(s) && 0 <= x < GridSize * TileWidth(s)
  {
    if 0 <= y < GridSize * TileHeight(s) && 0 <= x < GridSize * TileWidth(s) {
      var row, col := PixelTile(s, y, x);
    }
    if exists row: nat, col: nat :: row < GridSize && col < GridSize && Covers(Tile(s, row, col), y, x) {
      var row: nat, col: nat :| row < GridSize && col < GridSize && Covers(Tile(s, row, col), y, x);
      TileInside(s, row, col);
    }
  }

  /** The tile holding a pixel of the covered part: that of its row and column bands. */
  lemma PixelTile(s: Shape, y: int, x: int) returns (row: nat, col: nat)
    requires 0 <= y < GridSize * TileHeight(s) && 0 <= x < GridSize * TileWidth(s)
    ensures row < GridSize && col < GridSize && Covers(Tile(s, row, col), y, x)
  {
    row := Band(y, TileHeight(s));
    col := Band(x, TileWidth(s));
  }

  /** The band of size `t` among the first three that holds the offset `y`. */
  lemma Band(y: int, t: nat) returns (i: nat)
    requires 0 <= y < GridSize * t
    ensures i < GridSize && i * t <= y < (i + 1) * t
  {
    i := y / t;
    if i >= GridSize {
      MulMonotone(GridSize, i, t);
    }
  }
}
