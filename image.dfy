/**
  The image buffer (`impp::image`): a flat, row-major vector of RGBA32
  pixels with a width, a height and an orientation flag. Under `LeftTop`
  the logical row `y` is stored as row `height - 1 - y`; under
  `LeftBottom` it is stored as row `y`.
*/
module ImageBuffer {
  import opened Pixels

  datatype Option<T> = None | Some(value: T)

  /** `image::orientation_value` */
  datatype Orientation = LeftBottom | LeftTop

  /**
    What a decoder hands back to be wrapped into an image: a width, a height
    and the pixels in storage order.
  */
  datatype Raster = Raster(width: nat, height: nat, pixels: seq<Pixel>)

  /** The outcome `image::null()` stands for: 0x0 and no pixels. */
  const NullRaster := Raster(0, 0, [])

  // ---------------------------------------------------------------------
  // Row-major storage

  /** `std::min` */
  function Min(a: nat, b: nat): (m: nat)
    ensures m <= a && m <= b && (m == a || m == b)
  {
    if a <= b then a else b
  }

  /** The storage index of column `col` of storage row `row`: `row * width + col`. */
  function Cell(width: nat, row: nat, col: nat): nat {
    row * width + col
  }

  lemma MulLe(a: nat, b: nat, c: nat)
    requires a <= b
    ensures a * c <= b * c
  {
  }

  /** Storage row `row` fills the indices `Cell(width, row, 0)` up to `Cell(width, row + 1, 0)`. */
  lemma RowSpan(width: nat, height: nat, row: nat)
    requires row < height
    ensures Cell(width, row + 1, 0) == Cell(width, row, 0) + width
    ensures Cell(width, row + 1, 0) <= width * height
  {
    MulLe(row + 1, height, width);
  }

  lemma CellBound(width: nat, height: nat, row: nat, col: nat)
    requires row < height && col < width
    ensures Cell(width, row, col) < width * height
  {
    RowSpan(width, height, row);
  }

  lemma RowBelow(width: nat, height: nat, i: nat)
    requires i < width * height
    ensures width > 0 && i / width < height
  {
    if i / width >= height {
      MulLe(height, i / width, width);
    }
  }

  /** A grid has no cells exactly when it has no rows or no columns. */
  lemma EmptyGrid(width: nat, height: nat)
    ensures width * height == 0 <==> width == 0 || height == 0
  {
    if width != 0 && height != 0 {
      CellBound(width, height, 0, 0);
    }
  }

  /** The storage row and column of index `i`. */
  function Coord(width: nat, height: nat, i: nat): (rc: (nat, nat))
    requires i < width * height
    ensures rc.0 < height && rc.1 < width && Cell(width, rc.0, rc.1) == i
  {
    RowBelow(width, height, i);
    (i / width, i % width)
  }

  /** A cell's coordinates are recovered from its index. */
  lemma CoordOfCell(width: nat, height: nat, row: nat, col: nat)
    requires row < height && col < width
    ensures Cell(width, row, col) < width * height
    ensures Coord(width, height, Cell(width, row, col)) == (row, col)
  {
    CellBound(width, height, row, col);
    var rc := Coord(width, height, Cell(width, row, col));
    if rc.0 < row {
      MulLe(rc.0 + 1, row, width);
    } else if rc.0 > row {
      MulLe(row + 1, rc.0, width);
    }
  }

  // ---------------------------------------------------------------------
  // Logical coordinates

  /** The storage row of logical row `y`: `LeftTop` reverses the y axis. */
  function StorageRow(height: nat, o: Orientation, y: nat): (row: nat)
    requires y < height
    ensures row < height
    ensures o == LeftTop ==> row + y == height - 1
    ensures o == LeftBottom ==> row == y
  {
    if o == LeftTop then height - y - 1 else y
  }

  /** Mapping a row twice is the identity, so storage and logical rows correspond one to one. */
  lemma StorageRowInvolution(height: nat, o: Orientation, y: nat)
    requires y < height
    ensures StorageRow(height, o, StorageRow(height, o, y)) == y
  {
  }

  /** The storage index of the logical pixel `(x, y)`. */
  function Index(width: nat, height: nat, o: Orientation, x: nat, y: nat): (i: nat)
    requires x < width && y < height
    ensures i < width * height
  {
    CellBound(width, height, StorageRow(height, o, y), x);
    Cell(width, StorageRow(height, o, y), x)
  }

  /** The logical pixel `(x, y)`, or `None` (a null pointer) outside the image. */
  function At(p: seq<Pixel>, width: nat, height: nat, o: Orientation, x: nat, y: nat): Option<Pixel>
    requires |p| == width * height
  {
    if x < width && y < height then Some(p[Index(width, height, o, x, y)]) else None
  }

  /** `p` with the logical pixel `(x, y)` set to `c`; unchanged outside the image. */
  function Put(p: seq<Pixel>, width: nat, height: nat, o: Orientation, x: nat, y: nat, c: Pixel): (r: seq<Pixel>)
    requires |p| == width * height
    ensures |r| == |p|
    ensures AllOf(p, c.LayoutOf()) ==> AllOf(r, c.LayoutOf())
  {
    if x < width && y < height then p[Index(width, height, o, x, y) := c] else p
  }

  /** Two pixel vectors of one geometry that agree on every logical pixel are equal. */
  lemma SamePixels(p: seq<Pixel>, q: seq<Pixel>, width: nat, height: nat, o: Orientation)
    requires |p| == |q| == width * height
    requires forall x, y :: At(p, width, height, o, x, y) == At(q, width, height, o, x, y)
    ensures p == q
  {
    forall i | 0 <= i < |p|
      ensures p[i] == q[i]
    {
      var rc := Coord(width, height, i);
      var y := StorageRow(height, o, rc.0);
      StorageRowInvolution(height, o, rc.0);
      assert At(p, width, height, o, rc.1, y) == At(q, width, height, o, rc.1, y);
    }
  }

  /** Reading back a pixel just written in range yields the written colour. */
  lemma AtPut(p: seq<Pixel>, width: nat, height: nat, o: Orientation, x: nat, y: nat, c: Pixel)
    requires |p| == width * height && x < width && y < height
    ensures At(Put(p, width, height, o, x, y, c), width, height, o, x, y) == Some(c)
  {
  }

  /** Writing one pixel leaves every other logical pixel as it was. */
  lemma AtPutOther(p: seq<Pixel>, width: nat, height: nat, o: Orientation, x: nat, y: nat, c: Pixel, x': nat, y': nat)
    requires |p| == width * height && (x', y') != (x, y)
    ensures At(Put(p, width, height, o, x, y, c), width, height, o, x', y') == At(p, width, height, o, x', y')
  {
    if x < width && y < height && x' < width && y' < height {
      CoordOfCell(width, height, StorageRow(height, o, y), x);
      CoordOfCell(width, height, StorageRow(height, o, y'), x');
      StorageRowInvolution(height, o, y);
      StorageRowInvolution(height, o, y');
    }
  }

  // ---------------------------------------------------------------------
  // Painting a rectangle

  /** The logical pixels `(x, y)` with `x0 <= x < x1` and `y0 <= y < y1`. */
  datatype Area = Area(x0: nat, y0: nat, x1: nat, y1: nat) {
    predicate Contains(x: nat, y: nat) { x0 <= x < x1 && y0 <= y < y1 }
  }

  /** Where the colours of a painted rectangle come from. */
  datatype Brush =
    | Solid(colour: Pixel)                                      // `fill_rect`: one colour
    | Copy(src: seq<Pixel>, sw: nat, sh: nat, so: Orientation)  // `overwrite`: another image

  /** The colour a brush gives at offset `(dx, dy)` from its origin, if any. */
  function Ink(b: Brush, dx: nat, dy: nat): Option<Pixel> {
    match b
    case Solid(c) => Some(c)
    case Copy(s, sw, sh, so) => if |s| == sw * sh then At(s, sw, sh, so, dx, dy) else None
  }

  /** Every colour the brush gives has layout `l`. */
  predicate BrushOf(b: Brush, l: Layout) {
    match b
    case Solid(c) => c.LayoutOf() == l
    case Copy(s, _, _, _) => AllOf(s, l)
  }

  lemma InkOf(b: Brush, l: Layout, dx: nat, dy: nat)
    requires BrushOf(b, l) && Ink(b, dx, dy).Some?
    ensures Ink(b, dx, dy).value.LayoutOf() == l
  {
    if b.Copy? {
      assert Index(b.sw, b.sh, b.so, dx, dy) < |b.src|;
    }
  }

  /**
    The colour the logical pixel `(x, y)` takes when the brush, held with its
    origin at `(ox, oy)`, paints the area; `None` where it leaves the pixel.
  */
  function Stroke(x: nat, y: nat, a: Area, ox: nat, oy: nat, b: Brush): Option<Pixel> {
    if a.Contains(x, y) && ox <= x && oy <= y then Ink(b, x - ox, y - oy) else None
  }

  /**
    `p` after the brush, with its origin at `(ox, oy)` and under orientation
    `o`, has painted every logical pixel of the area for which it has a
    colour.
  */
  function Paint(p: seq<Pixel>, width: nat, height: nat, o: Orientation,
                 a: Area, ox: nat, oy: nat, b: Brush): (r: seq<Pixel>)
    requires |p| == width * height
    ensures |r| == |p|
    ensures AllOf(p, RGBA32) && BrushOf(b, RGBA32) ==> AllOf(r, RGBA32)
  {
    var r := seq(|p|, i requires 0 <= i < |p| =>
      var rc := Coord(width, height, i);
      match Stroke(rc.1, StorageRow(height, o, rc.0), a, ox, oy, b)
      case Some(c) => c
      case None => p[i]);
    assert AllOf(p, RGBA32) && BrushOf(b, RGBA32) ==> AllOf(r, RGBA32) by {
      if AllOf(p, RGBA32) && BrushOf(b, RGBA32) {
        forall i | 0 <= i < |r|
          ensures r[i].LayoutOf() == RGBA32
        {
          var rc := Coord(width, height, i);
          var y := StorageRow(height, o, rc.0);
          if Stroke(rc.1, y, a, ox, oy, b).Some? {
            InkOf(b, RGBA32, rc.1 - ox, y - oy);
          }
        }
      }
    }
    r
  }

  /**
    The meaning of `Paint`: a logical pixel of the image takes the brush's
    colour where the brush has one for it, and keeps its value everywhere
    else.
  */
  lemma PaintAt(p: seq<Pixel>, width: nat, height: nat, o: Orientation,
                a: Area, ox: nat, oy: nat, b: Brush, x: nat, y: nat)
    requires |p| == width * height
    ensures var s := Stroke(x, y, a, ox, oy, b);
      At(Paint(p, width, height, o, a, ox, oy, b), width, height, o, x, y) ==
        if x < width && y < height && s.Some? then s else At(p, width, height, o, x, y)
  {
    if x < width && y < height {
      CoordOfCell(width, height, StorageRow(height, o, y), x);
      StorageRowInvolution(height, o, y);
    }
  }

  /** An area without rows or without columns paints nothing. */
  lemma PaintNone(p: seq<Pixel>, width: nat, height: nat, o: Orientation, a: Area, ox: nat, oy: nat, b: Brush)
    requires |p| == width * height && (a.x1 <= a.x0 || a.y1 <= a.y0)
    ensures Paint(p, width, height, o, a, ox, oy, b) == p
  {
  }

  /** Painting rows `y0 .. y1 - 1` and then row `y1` paints rows `y0 .. y1`. */
  lemma PaintRows(p: seq<Pixel>, width: nat, height: nat, o: Orientation,
                  x0: nat, y0: nat, x1: nat, y1: nat, ox: nat, oy: nat, b: Brush)
    requires |p| == width * height && y0 <= y1
    ensures Paint(Paint(p, width, height, o, Area(x0, y0, x1, y1), ox, oy, b),
                  width, height, o, Area(x0, y1, x1, y1 + 1), ox, oy, b) ==
            Paint(p, width, height, o, Area(x0, y0, x1, y1 + 1), ox, oy, b)
  {
  }

  /**
    Extending a painted row segment by the pixel `(x1, y)`: writing the
    brush's colour there, or nothing when it has none.
  */
  lemma PaintStep(p: seq<Pixel>, width: nat, height: nat, o: Orientation,
                  x0: nat, x1: nat, y: nat, ox: nat, oy: nat, b: Brush)
    requires |p| == width * height && x0 <= x1 < width && y < height
    ensures var q := Paint(p, width, height, o, Area(x0, y, x1, y + 1), ox, oy, b);
      var s := Stroke(x1, y, Area(x0, y, x1 + 1, y + 1), ox, oy, b);
      Paint(p, width, height, o, Area(x0, y, x1 + 1, y + 1), ox, oy, b) ==
        if s.Some? then Put(q, width, height, o, x1, y, s.value) else q
  {
    var target := Index(width, height, o, x1, y);
    CoordOfCell(width, height, StorageRow(height, o, y), x1);
    StorageRowInvolution(height, o, y);
    forall i | 0 <= i < |p| && i != target
      ensures var rc := Coord(width, height, i); (rc.1, StorageRow(height, o, rc.0)) != (x1, y)
    {
      var rc := Coord(width, height, i);
      StorageRowInvolution(height, o, rc.0);
    }
  }

  // ---------------------------------------------------------------------
  // Mirroring

  /** Storage row `row` of `p`. */
  function StoredRow(p: seq<Pixel>, width: nat, height: nat, row: nat): (s: seq<Pixel>)
    requires |p| == width * height && row < height
    ensures |s| == width
  {
    RowSpan(width, height, row);
    p[Cell(width, row, 0)..Cell(width, row + 1, 0)]
  }

  lemma StoredRowAt(p: seq<Pixel>, width: nat, height: nat, row: nat, k: nat)
    requires |p| == width * height && row < height && k < width
    ensures Cell(width, row, k) < |p|
    ensures StoredRow(p, width, height, row)[k] == p[Cell(width, row, k)]
  {
    RowSpan(width, height, row);
  }

  /** The index of the pixel that lands at index `i` when the rows are put in reverse order. */
  function UpsideDown(width: nat, height: nat, i: nat): (j: nat)
    requires i < width * height
    ensures j < width * height
  {
    var rc := Coord(width, height, i);
    CellBound(width, height, height - 1 - rc.0, rc.1);
    Cell(width, height - 1 - rc.0, rc.1)
  }

  /** The index of the pixel that lands at index `i` when each row is reversed. */
  function LeftRight(width: nat, height: nat, i: nat): (j: nat)
    requires i < width * height
    ensures j < width * height
  {
    var rc := Coord(width, height, i);
    CellBound(width, height, rc.0, width - 1 - rc.1);
    Cell(width, rc.0, width - 1 - rc.1)
  }

  /** Storage row `r` of the result is storage row `height - 1 - r` of `p`. */
  function VFlip(p: seq<Pixel>, width: nat, height: nat): (r: seq<Pixel>)
    requires |p| == width * height
    ensures |r| == |p|
    ensures forall i :: 0 <= i < |p| ==> r[i] == p[UpsideDown(width, height, i)]
  {
    seq(|p|, i requires 0 <= i < |p| => p[UpsideDown(width, height, i)])
  }

  /** Every storage row of the result is the corresponding row of `p`, reversed. */
  function HFlip(p: seq<Pixel>, width: nat, height: nat): (r: seq<Pixel>)
    requires |p| == width * height
    ensures |r| == |p|
    ensures forall i :: 0 <= i < |p| ==> r[i] == p[LeftRight(width, height, i)]
  {
    seq(|p|, i requires 0 <= i < |p| => p[LeftRight(width, height, i)])
  }

  /** `std::reverse` */
  function Reversed<T>(s: seq<T>): (r: seq<T>)
    ensures |r| == |s|
  {
    seq(|s|, k requires 0 <= k < |s| => s[|s| - 1 - k])
  }

  /** What the logical picture looks like after `VFlip`: turned upside down, whatever the orientation. */
  lemma VFlipAt(p: seq<Pixel>, width: nat, height: nat, o: Orientation, x: nat, y: nat)
    requires |p| == width * height && x < width && y < height
    ensures At(VFlip(p, width, height), width, height, o, x, y) == At(p, width, height, o, x, height - 1 - y)
  {
    CoordOfCell(width, height, StorageRow(height, o, y), x);
  }

  /** What the logical picture looks like after `HFlip`: mirrored left to right. */
  lemma HFlipAt(p: seq<Pixel>, width: nat, height: nat, o: Orientation, x: nat, y: nat)
    requires |p| == width * height && x < width && y < height
    ensures At(HFlip(p, width, height), width, height, o, x, y) == At(p, width, height, o, width - 1 - x, y)
  {
    CoordOfCell(width, height, StorageRow(height, o, y), x);
  }

  lemma UpsideDownTwice(width: nat, height: nat, i: nat)
    requires i < width * height
    ensures UpsideDown(width, height, UpsideDown(width, height, i)) == i
  {
    var rc := Coord(width, height, i);
    CoordOfCell(width, height, height - 1 - rc.0, rc.1);
  }

  lemma LeftRightTwice(width: nat, height: nat, i: nat)
    requires i < width * height
    ensures LeftRight(width, height, LeftRight(width, height, i)) == i
  {
    var rc := Coord(width, height, i);
    CoordOfCell(width, height, rc.0, width - 1 - rc.1);
  }

  lemma {:induction false} VFlipTwice(p: seq<Pixel>, width: nat, height: nat)
    requires |p| == width * height
    ensures VFlip(VFlip(p, width, height), width, height) == p
  {
    var q := VFlip(p, width, height);
    forall i | 0 <= i < |p|
      ensures VFlip(q, width, height)[i] == p[i]
    {
      UpsideDownTwice(width, height, i);
    }
  }

  lemma {:induction false} HFlipTwice(p: seq<Pixel>, width: nat, height: nat)
    requires |p| == width * height
    ensures HFlip(HFlip(p, width, height), width, height) == p
  {
    var q := HFlip(p, width, height);
    forall i | 0 <= i < |p|
      ensures HFlip(q, width, height)[i] == p[i]
    {
      LeftRightTwice(width, height, i);
    }
  }

  /** Row `row` of `VFlip(p)` is row `height - 1 - row` of `p`: one `memcpy` of the mirror loop. */
  lemma VFlipRow(p: seq<Pixel>, width: nat, height: nat, row: nat)
    requires |p| == width * height && row < height
    ensures StoredRow(VFlip(p, width, height), width, height, row) == StoredRow(p, width, height, height - 1 - row)
  {
    var q := VFlip(p, width, height);
    forall k | 0 <= k < width
      ensures StoredRow(q, width, height, row)[k] == StoredRow(p, width, height, height - 1 - row)[k]
    {
      CoordOfCell(width, height, row, k);
      StoredRowAt(q, width, height, row, k);
      StoredRowAt(p, width, height, height - 1 - row, k);
    }
  }

  /** Row `row` of `HFlip(p)` is row `row` of `p` reversed: one `std::reverse` of the mirror loop. */
  lemma HFlipRow(p: seq<Pixel>, width: nat, height: nat, row: nat)
    requires |p| == width * height && row < height
    ensures StoredRow(HFlip(p, width, height), width, height, row) == Reversed(StoredRow(p, width, height, row))
  {
    var q := HFlip(p, width, height);
    forall k | 0 <= k < width
      ensures StoredRow(q, width, height, row)[k] == Reversed(StoredRow(p, width, height, row))[k]
    {
      CoordOfCell(width, height, row, k);
      StoredRowAt(q, width, height, row, k);
      StoredRowAt(p, width, height, row, width - 1 - k);
    }
  }

  /** `p` with storage row `row` replaced by `r`. */
  function ReplaceRow(p: seq<Pixel>, width: nat, height: nat, row: nat, r: seq<Pixel>): (q: seq<Pixel>)
    requires |p| == width * height && row < height && |r| == width
    ensures |q| == |p|
    ensures AllOf(p, RGBA32) && AllOf(r, RGBA32) ==> AllOf(q, RGBA32)
  {
    RowSpan(width, height, row);
    p[..Cell(width, row, 0)] + r + p[Cell(width, row + 1, 0)..]
  }

  /** Replacing a row changes that row and no other. */
  lemma ReplaceRowRows(p: seq<Pixel>, width: nat, height: nat, row: nat, r: seq<Pixel>, other: nat)
    requires |p| == width * height && row < height && |r| == width && other < height
    ensures StoredRow(ReplaceRow(p, width, height, row, r), width, height, other) ==
      if other == row then r else StoredRow(p, width, height, other)
  {
    var q := ReplaceRow(p, width, height, row, r);
    var a, b := Cell(width, row, 0), Cell(width, row + 1, 0);
    RowSpan(width, height, row);
    RowSpan(width, height, other);
    if other < row {
      MulLe(other + 1, row, width);
      assert q[..a] == p[..a];
    } else if other > row {
      MulLe(row + 1, other, width);
      assert q[b..] == p[b..];
    } else {
      assert q[a..b] == r;
    }
  }

  lemma ReplaceRowOnly(p: seq<Pixel>, width: nat, height: nat, row: nat, r: seq<Pixel>)
    requires |p| == width * height && row < height && |r| == width
    ensures forall other :: 0 <= other < height ==>
      StoredRow(ReplaceRow(p, width, height, row, r), width, height, other) ==
        if other == row then r else StoredRow(p, width, height, other)
  {
    forall other | 0 <= other < height
      ensures StoredRow(ReplaceRow(p, width, height, row, r), width, height, other) ==
        if other == row then r else StoredRow(p, width, height, other)
    {
      ReplaceRowRows(p, width, height, row, r, other);
    }
  }

  /** One step of the vertical mirror loop: rows `0 .. py` of the result are in place. */
  lemma VFlipStep(p: seq<Pixel>, copy: seq<Pixel>, width: nat, height: nat, py: nat)
    requires |p| == |copy| == width * height && py < height
    requires forall r :: 0 <= r < py ==>
      StoredRow(p, width, height, r) == StoredRow(VFlip(copy, width, height), width, height, r)
    ensures var q := ReplaceRow(p, width, height, py, StoredRow(copy, width, height, height - 1 - py));
      forall r :: 0 <= r < py + 1 ==>
        StoredRow(q, width, height, r) == StoredRow(VFlip(copy, width, height), width, height, r)
  {
    VFlipRow(copy, width, height, py);
    ReplaceRowOnly(p, width, height, py, StoredRow(copy, width, height, height - 1 - py));
  }

  /** Pixel vectors that agree row by row are equal. */
  lemma RowsEqual(p: seq<Pixel>, q: seq<Pixel>, width: nat, height: nat)
    requires |p| == |q| == width * height
    requires forall r :: 0 <= r < height ==> StoredRow(p, width, height, r) == StoredRow(q, width, height, r)
    ensures p == q
  {
    forall i | 0 <= i < |p|
      ensures p[i] == q[i]
    {
      var rc := Coord(width, height, i);
      StoredRowAt(p, width, height, rc.0, rc.1);
      StoredRowAt(q, width, height, rc.0, rc.1);
    }
  }

  // ---------------------------------------------------------------------
  // The image

  /** `impp::image`: the pixel vector is reassigned by every operation that changes it. */
  class Image {
    var width: nat
    var height: nat
    var pixels: seq<Pixel>
    var orientation: Orientation

    /**
      One RGBA32 pixel per cell. `create(width, height)` establishes it;
      `create(width, height, bytes)` leaves it to its caller.
    */
    ghost predicate Valid()
      reads this
    {
      |pixels| == width * height && AllOf(pixels, RGBA32)
    }

    /** `image::create(width, height)`: `width * height` all-zero pixels, orientation `LeftTop`. */
    constructor Create(w: nat, h: nat)
      ensures width == w && height == h && orientation == LeftTop
      ensures pixels == seq(w * h, _ => Zero(RGBA32))
      ensures Valid()
    {
      width := w;
      height := h;
      pixels := seq(w * h, _ => Zero(RGBA32));
      orientation := LeftTop;
    }

    /** `image::create(width, height, bytes)`: takes the pixels as they come, unchecked. */
    constructor CreateFrom(w: nat, h: nat, bytes: seq<Pixel>)
      ensures width == w && height == h && pixels == bytes && orientation == LeftTop
      ensures Valid() <==> |bytes| == w * h && AllOf(bytes, RGBA32)
    {
      width := w;
      height := h;
      pixels := bytes;
      orientation := LeftTop;
    }

    /** `image::null()`: `create(0, 0)`. */
    constructor Null()
      ensures width == 0 && height == 0 && pixels == [] && orientation == LeftTop
      ensures Valid() && Empty()
    {
      width := 0;
      height := 0;
      pixels := [];
      orientation := LeftTop;
    }

    /**
      The move constructor: width, height and pixels are carried over, the
      orientation is not and starts as `LeftTop`.
    */
    constructor Move(r: Image)
      ensures width == r.width && height == r.height && pixels == r.pixels
      ensures orientation == LeftTop
      ensures r.Valid() ==> Valid()
    {
      width := r.width;
      height := r.height;
      pixels := r.pixels;
      orientation := LeftTop;
    }

    /** `empty()`: no pixels, which for a valid image means no rows or no columns. */
    function Empty(): (e: bool)
      reads this
      ensures e <==> |pixels| == 0
      ensures Valid() ==> (e <==> width == 0 || height == 0)
    {
      EmptyGrid(width, height);
      |pixels| == 0
    }

    /** `set_orientation` */
    method SetOrientation(o: Orientation)
      modifies this
      ensures orientation == o
      ensures width == old(width) && height == old(height) && pixels == old(pixels)
    {
      orientation := o;
    }

    /**
      `set_pixel(x, y, colour)`: nothing outside the image, otherwise the one
      logical pixel `(x, y)` under the current orientation is overwritten.
    */
    method SetPixel(x: nat, y: nat, c: Pixel)
      requires Valid() && c.LayoutOf() == RGBA32
      modifies this
      ensures Valid()
      ensures width == old(width) && height == old(height) && orientation == old(orientation)
      ensures pixels == Put(old(pixels), width, height, orientation, x, y, c)
    {
      if x >= width {
        return;
      }
      if y >= height {
        return;
      }
      var row := y;
      if orientation == LeftTop {
        row := height - y - 1;
      }
      var idx := row * width + x;
      assert idx == Index(width, height, orientation, x, y);
      pixels := pixels[idx := c];
    }

    /**
      `get_pixel(x, y)`: null outside the image, otherwise the logical pixel
      `(x, y)` under the current orientation.
    */
    function GetPixel(x: nat, y: nat): (r: Option<Pixel>)
      reads this
      requires Valid()
      ensures r.None? <==> x >= width || y >= height
      ensures r.Some? ==> r.value == pixels[Index(width, height, orientation, x, y)]
      ensures r.Some? ==> r.value.LayoutOf() == RGBA32
    {
      if x >= width then None
      else if y >= height then None
      else
        var row := if orientation == LeftTop then height - y - 1 else y;
        CellBound(width, height, row, x);
        Some(pixels[row * width + x])
    }

    /** The inner loop of `fill_rect`: row `y` from column `x0` up to `x1`. */
    method FillRow(x0: nat, x1: nat, y: nat, ghost ox: nat, ghost oy: nat, c: Pixel)
      requires Valid() && c.LayoutOf() == RGBA32
      requires x1 <= width && y < height && ox <= x0 && oy <= y
      modifies this
      ensures Valid()
      ensures width == old(width) && height == old(height) && orientation == old(orientation)
      ensures pixels == Paint(old(pixels), width, height, orientation, Area(x0, y, x1, y + 1), ox, oy, Solid(c))
    {
      PaintNone(pixels, width, height, orientation, Area(x0, y, x0, y + 1), ox, oy, Solid(c));
      var px := x0;
      while px < x1
        invariant x0 <= px && (px <= x1 || px == x0)
        invariant Valid()
        invariant width == old(width) && height == old(height) && orientation == old(orientation)
        invariant pixels == Paint(old(pixels), width, height, orientation, Area(x0, y, px, y + 1), ox, oy, Solid(c))
      {
        PaintStep(old(pixels), width, height, orientation, x0, px, y, ox, oy, Solid(c));
        SetPixel(px, y, c);
        px := px + 1;
      }
      if x1 < x0 {
        PaintNone(old(pixels), width, height, orientation, Area(x0, y, x1, y + 1), ox, oy, Solid(c));
      }
    }

    /**
      `fill_rect(x, y, w, h, colour)`: every logical pixel with
      `x <= px < min(x + w, width)` and `y <= py < min(y + h, height)` takes
      the colour, every other pixel keeps its value.
    */
    method FillRect(x: nat, y: nat, w: nat, h: nat, c: Pixel)
      requires Valid() && c.LayoutOf() == RGBA32
      modifies this
      ensures Valid()
      ensures width == old(width) && height == old(height) && orientation == old(orientation)
      ensures pixels == Paint(old(pixels), width, height, orientation,
                              Area(x, y, Min(x + w, width), Min(y + h, height)), x, y, Solid(c))
    {
      var fx := Min(x + w, width);
      var fy := Min(y + h, height);
      PaintNone(pixels, width, height, orientation, Area(x, y, fx, y), x, y, Solid(c));
      var py := y;
      while py < fy
        invariant y <= py && (py <= fy || py == y)
        invariant Valid()
        invariant width == old(width) && height == old(height) && orientation == old(orientation)
        invariant pixels == Paint(old(pixels), width, height, orientation, Area(x, y, fx, py), x, y, Solid(c))
      {
        FillRow(x, fx, py, x, y, c);
        PaintRows(old(pixels), width, height, orientation, x, y, fx, py, x, y, Solid(c));
        py := py + 1;
      }
      if fy < y {
        PaintNone(old(pixels), width, height, orientation, Area(x, y, fx, fy), x, y, Solid(c));
      }
    }

    /** `blank_rect`: `fill_rect` with the all-zero pixel. */
    method BlankRect(x: nat, y: nat, w: nat, h: nat)
      requires Valid()
      modifies this
      ensures Valid()
      ensures width == old(width) && height == old(height) && orientation == old(orientation)
      ensures pixels == Paint(old(pixels), width, height, orientation,
                              Area(x, y, Min(x + w, width), Min(y + h, height)), x, y, Solid(Zero(RGBA32)))
    {
      FillRect(x, y, w, h, Zero(RGBA32));
    }

    /** The inner loop of `overwrite`: row `py` from column `x0` up to `x1`, read from `src` row `sy`. */
    method OverwriteRow(x0: nat, x1: nat, py: nat, ghost oy: nat, sy: nat, src: Image)
      requires Valid() && src.Valid() && src != this && orientation == src.orientation
      requires x1 <= width && py < height && oy <= py && sy == py - oy
      modifies this
      ensures Valid()
      ensures width == old(width) && height == old(height) && orientation == old(orientation)
      ensures pixels == Paint(old(pixels), width, height, orientation, Area(x0, py, x1, py + 1), x0, oy,
                              Copy(src.pixels, src.width, src.height, src.orientation))
    {
      ghost var b := Copy(src.pixels, src.width, src.height, src.orientation);
      PaintNone(pixels, width, height, orientation, Area(x0, py, x0, py + 1), x0, oy, b);
      var px, sx := x0, 0;
      while px < x1
        invariant x0 <= px && (px <= x1 || px == x0) && sx == px - x0
        invariant Valid()
        invariant width == old(width) && height == old(height) && orientation == old(orientation)
        invariant pixels == Paint(old(pixels), width, height, orientation, Area(x0, py, px, py + 1), x0, oy, b)
      {
        PaintStep(old(pixels), width, height, orientation, x0, px, py, x0, oy, b);
        var colour := src.GetPixel(sx, sy);
        if colour.Some? {
          SetPixel(px, py, colour.value);
        }
        px, sx := px + 1, sx + 1;
      }
      if x1 < x0 {
        PaintNone(old(pixels), width, height, orientation, Area(x0, py, x1, py + 1), x0, oy, b);
      }
    }

    /**
      `overwrite(x, y, src)`: under `src`'s orientation, every logical pixel
      `(px, py)` with `x <= px < min(x + src.width, width)` and
      `y <= py < min(y + src.height, height)` takes the pixel
      `(px - x, py - y)` of `src`; every other pixel keeps its value, and
      the orientation is restored.
    */
    method Overwrite(x: nat, y: nat, src: Image)
      requires Valid() && src.Valid() && src != this
      modifies this
      ensures Valid()
      ensures width == old(width) && height == old(height) && orientation == old(orientation)
      ensures pixels == Paint(old(pixels), width, height, src.orientation,
                              Area(x, y, Min(x + src.width, width), Min(y + src.height, height)), x, y,
                              Copy(src.pixels, src.width, src.height, src.orientation))
    {
      ghost var b := Copy(src.pixels, src.width, src.height, src.orientation);
      var oror := orientation;
      var fx := Min(x + src.width, width);
      var fy := Min(y + src.height, height);
      SetOrientation(src.orientation);
      PaintNone(pixels, width, height, orientation, Area(x, y, fx, y), x, y, b);
      var py, sy := y, 0;
      while py < fy
        invariant y <= py && (py <= fy || py == y) && sy == py - y
        invariant Valid() && orientation == src.orientation
        invariant width == old(width) && height == old(height)
        invariant pixels == Paint(old(pixels), width, height, orientation, Area(x, y, fx, py), x, y, b)
      {
        OverwriteRow(x, fx, py, y, sy, src);
        PaintRows(old(pixels), width, height, orientation, x, y, fx, py, x, y, b);
        py, sy := py + 1, sy + 1;
      }
      if fy < y {
        PaintNone(old(pixels), width, height, orientation, Area(x, y, fx, fy), x, y, b);
      }
      SetOrientation(oror);
    }

    /**
      `vertical_mirror()`: from a copy of the pixels, storage row `py` is
      overwritten (one `memcpy`) with storage row `height - 1 - py`.
    */
    method VerticalMirror()
      requires Valid()
      modifies this
      ensures Valid()
      ensures width == old(width) && height == old(height) && orientation == old(orientation)
      ensures pixels == VFlip(old(pixels), width, height)
    {
      var copy := pixels;
      ghost var goal := VFlip(copy, width, height);
      var py := 0;
      while py < height
        invariant py <= height && |pixels| == width * height
        invariant width == old(width) && height == old(height) && orientation == old(orientation)
        invariant forall r :: 0 <= r < py ==> StoredRow(pixels, width, height, r) == StoredRow(goal, width, height, r)
      {
        VFlipStep(pixels, copy, width, height, py);
        pixels := ReplaceRow(pixels, width, height, py, StoredRow(copy, width, height, height - 1 - py));
        py := py + 1;
      }
      RowsEqual(pixels, goal, width, height);
    }

    /** `horizontal_mirror()`: every storage row is reversed in place (one `std::reverse`). */
    method HorizontalMirror()
      requires Valid()
      modifies this
      ensures Valid()
      ensures width == old(width) && height == old(height) && orientation == old(orientation)
      ensures pixels == HFlip(old(pixels), width, height)
    {
      ghost var orig := pixels;
      ghost var goal := HFlip(orig, width, height);
      var py := 0;
      while py < height
        invariant py <= height && |pixels| == width * height
        invariant width == old(width) && height == old(height) && orientation == old(orientation)
        invariant forall r :: 0 <= r < py ==> StoredRow(pixels, width, height, r) == StoredRow(goal, width, height, r)
        invariant forall r :: py <= r < height ==> StoredRow(pixels, width, height, r) == StoredRow(orig, width, height, r)
      {
        ghost var before := pixels;
        pixels := ReplaceRow(pixels, width, height, py, Reversed(StoredRow(pixels, width, height, py)));
        HFlipRow(orig, width, height, py);
        ReplaceRowOnly(before, width, height, py, Reversed(StoredRow(before, width, height, py)));
        py := py + 1;
      }
      RowsEqual(pixels, goal, width, height);
    }
  }
}
