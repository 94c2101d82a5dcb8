/**
 * Pixel buffers as the composition engine sees them: an 8-bit RGB or RGBA
 * image of positive size, stored row by row. An RGB image keeps every alpha
 * byte at 255, so converting it to RGBA adds an opaque alpha channel.
 */
module Imaging {

  /** One 8-bit channel value. */
  type byte = x: int | 0 <= x < 256

  datatype Color = Color(r: byte, g: byte, b: byte)

  const White: Color := Color(255, 255, 255)
  const Black: Color := Color(0, 0, 0)

  datatype Pixel = Pixel(rgb: Color, a: byte)

  /** The fully transparent pixel (0, 0, 0, 0) of a fresh RGBA layer. */
  const Transparent: Pixel := Pixel(Black, 0)

  datatype Mode = RGB | RGBA

  /** A single 8-bit channel (PIL mode "L"), such as an alpha band. */
  type Grid = seq<seq<byte>>

  datatype Image = Image(mode: Mode, width: nat, height: nat, rows: seq<seq<Pixel>>)
  {
    /** Positive size, rows of the declared width, and an opaque alpha in RGB mode. */
    predicate Valid() {
      && width > 0 && height > 0
      && |rows| == height
      && (forall y :: 0 <= y < |rows| ==> |rows[y]| == width)
      && (mode == RGB ==> forall y, x :: 0 <= y < |rows| && 0 <= x < |rows[y]| ==> rows[y][x].a == 255)
    }

    predicate SameSize(other: Image) {
      width == other.width && height == other.height
    }
  }

  predicate IsGrid(g: Grid, w: nat, h: nat) {
    |g| == h && forall y :: 0 <= y < |g| ==> |g[y]| == w
  }

  /** A `w` by `h` image with every pixel equal to `p` (PIL `Image.new`). */
  function Fill(mode: Mode, w: nat, h: nat, p: Pixel): (img: Image)
    requires w > 0 && h > 0
    requires mode == RGB ==> p.a == 255
    ensures img.Valid() && img.mode == mode && img.width == w && img.height == h
    ensures forall y, x :: 0 <= y < h && 0 <= x < w ==> img.rows[y][x] == p
  {
    Image(mode, w, h, seq(h, _ => seq(w, _ => p)))
  }

  /** Drops the alpha channel (PIL `convert('RGB')`): colours kept, alpha made opaque. */
  function ToRGB(img: Image): (r: Image)
    requires img.Valid()
    ensures r.Valid() && r.mode == RGB && r.SameSize(img)
    ensures forall y, x :: 0 <= y < img.height && 0 <= x < img.width ==>
              r.rows[y][x] == Pixel(img.rows[y][x].rgb, 255)
  {
    Image(RGB, img.width, img.height,
      seq(img.height, y requires 0 <= y < img.height =>
        seq(img.width, x requires 0 <= x < img.width => Pixel(img.rows[y][x].rgb, 255))))
  }

  /** PIL `convert('RGBA')`: the pixels are unchanged because an RGB image is already opaque. */
  function ToRGBA(img: Image): (r: Image)
    requires img.Valid()
    ensures r.Valid() && r.mode == RGBA && r.SameSize(img) && r.rows == img.rows
  {
    Image(RGBA, img.width, img.height, img.rows)
  }

  /** The alpha band of an image (PIL `split()[-1]` of an RGBA image). */
  function AlphaChannel(img: Image): (g: Grid)
    requires img.Valid()
    ensures IsGrid(g, img.width, img.height)
    ensures forall y, x :: 0 <= y < img.height && 0 <= x < img.width ==> g[y][x] == img.rows[y][x].a
  {
    seq(img.height, y requires 0 <= y < img.height =>
      seq(img.width, x requires 0 <= x < img.width => img.rows[y][x].a))
  }

  function RowColors(img: Image, y: nat): (s: seq<Color>)
    requires img.Valid() && y < img.height
    ensures |s| == img.width
    ensures forall x :: 0 <= x < img.width ==> s[x] == img.rows[y][x].rgb
  {
    seq(img.width, x requires 0 <= x < img.width => img.rows[y][x].rgb)
  }

  function ColumnColors(img: Image, x: nat): (s: seq<Color>)
    requires img.Valid() && x < img.width
    ensures |s| == img.height
    ensures forall y :: 0 <= y < img.height ==> s[y] == img.rows[y][x].rgb
  {
    seq(img.height, y requires 0 <= y < img.height => img.rows[y][x].rgb)
  }

  /**
   * The four border lines in the order the source reads them: top row,
   * bottom row, left column, right column. Corners are listed twice, and a
   * one-pixel-high image lists its single row twice.
   */
  function Border(img: Image): (b: seq<Color>)
    requires img.Valid()
    ensures |b| == 2 * img.width + 2 * img.height
    ensures b[..img.width] == RowColors(img, 0)
    ensures b[img.width..2 * img.width] == RowColors(img, img.height - 1)
    ensures b[2 * img.width..2 * img.width + img.height] == ColumnColors(img, 0)
    ensures b[2 * img.width + img.height..] == ColumnColors(img, img.width - 1)
  {
    RowColors(img, 0) + RowColors(img, img.height - 1)
      + ColumnColors(img, 0) + ColumnColors(img, img.width - 1)
  }

  /** All pixels in row-major order (numpy `reshape(-1, channels)`). */
  function Flatten(rows: seq<seq<Pixel>>): seq<Pixel>
  {
    if |rows| == 0 then [] else rows[0] + Flatten(rows[1..])
  }

  /** Where pixel (x, y) of a `w`-wide image lands when its rows are laid end to end. */
  function Offset(w: nat, y: nat, x: nat): nat
  {
    y * w + x
  }

  /** The pixels of an image in row-major order: pixel (x, y) sits at index y * width + x. */
  function Pixels(img: Image): (ps: seq<Pixel>)
    ensures img.Valid() ==> |ps| == img.width * img.height
    ensures img.Valid() ==>
              forall y, x :: 0 <= y < img.height && 0 <= x < img.width ==>
                Offset(img.width, y, x) < |ps| && ps[Offset(img.width, y, x)] == img.rows[y][x]
  {
    if img.Valid() then
      PixelsLength(img);
      PixelsIndexed(img);
      Flatten(img.rows)
    else
      Flatten(img.rows)
  }

  lemma PixelsLength(img: Image)
    requires img.Valid()
    ensures |Flatten(img.rows)| == img.width * img.height
  {
    FlattenLength(img.rows, img.width);
    assert |img.rows| == img.height;
  }

  lemma PixelsIndexed(img: Image)
    requires img.Valid()
    ensures forall y, x :: 0 <= y < img.height && 0 <= x < img.width ==>
              Offset(img.width, y, x) < |Flatten(img.rows)| && Flatten(img.rows)[Offset(img.width, y, x)] == img.rows[y][x]
  {
    forall y, x | 0 <= y < img.height && 0 <= x < img.width
      ensures Offset(img.width, y, x) < |Flatten(img.rows)| && Flatten(img.rows)[Offset(img.width, y, x)] == img.rows[y][x]
    {
      FlattenAt(img.rows, img.width, y, x);
    }
  }

  lemma RowStep(y: nat, w: nat)
    ensures (y + 1) * w == y * w + w
  {
  }

  /** Index i of a w-wide grid of h rows is pixel (i % w, i / w). */
  lemma SplitIndex(i: nat, w: nat, h: nat) returns (y: nat, x: nat)
    requires w > 0 && i < h * w
    ensures y < h && x < w && i == Offset(w, y, x)
  {
    y, x := i / w, i % w;
  }

  lemma RowsBelow(y: nat, n: nat, w: nat, x: nat)
    requires y < n && x < w
    ensures y * w + x < n * w
  {
    var k := n - y - 1;
    assert n * w == y * w + w + k * w by {
      assert n == y + 1 + k;
    }
  }

  /** Rows of one width flatten to width * height pixels. */
  lemma {:induction false} FlattenLength(rows: seq<seq<Pixel>>, w: nat)
    requires forall y :: 0 <= y < |rows| ==> |rows[y]| == w
    ensures |Flatten(rows)| == |rows| * w
  {
    if |rows| > 0 {
      FlattenLength(rows[1..], w);
      RowStep(|rows| - 1, w);
    }
  }

  /** In rows of one width, pixel (x, y) is flattened to index y * w + x. */
  lemma {:induction false} FlattenAt(rows: seq<seq<Pixel>>, w: nat, y: nat, x: nat)
    requires forall r :: 0 <= r < |rows| ==> |rows[r]| == w
    requires y < |rows| && x < w
    ensures Offset(w, y, x) < |Flatten(rows)| && Flatten(rows)[Offset(w, y, x)] == rows[y][x]
  {
    FlattenLength(rows, w);
    RowsBelow(y, |rows|, w, x);
    var tail := rows[1..];
    assert Flatten(rows) == rows[0] + Flatten(tail);
    if y > 0 {
      assert tail[y - 1] == rows[y];
      FlattenAt(tail, w, y - 1, x);
      RowStep(y - 1, w);
      var k := (y - 1) * w + x;
      assert y * w + x == |rows[0]| + k;
    }
  }
}
