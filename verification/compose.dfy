/**
 * Building the wallpaper canvas and pasting the subject onto it: the solid
 * and blurred-cover backdrops (`create_blur_background`, `Image.new`) and
 * the two pastes at the end of `generate_wallpaper`.
 */
module Compose {
  import opened Imaging
  import opened Oracles
  import opened Geometry

  /** Gaussian blur radius of the blurred backdrop. */
  const BackdropBlurRadius: real := 20.0

  /** The canvas point (cx, cy) lies under a w by h box whose top-left corner is (x0, y0). */
  predicate Covered(x0: int, y0: int, w: int, h: int, cx: int, cy: int) {
    x0 <= cx < x0 + w && y0 <= cy < y0 + h
  }

  /** `Image.new('RGB', (w, h), color)`. */
  function SolidCanvas(w: nat, h: nat, color: Color): (r: Image)
    requires w > 0 && h > 0
    ensures r.Valid() && r.mode == RGB && r.width == w && r.height == h
    ensures forall y, x :: 0 <= y < h && 0 <= x < w ==> r.rows[y][x].rgb == color
  {
    Fill(RGB, w, h, Pixel(color, 255))
  }

  /**
   * `canvas.paste(src, (x0, y0))` without a mask onto an RGB canvas: the
   * colours of `src` overwrite the part of the canvas under it, clipped to
   * the canvas; every other canvas pixel is kept.
   */
  function PasteOpaque(canvas: Image, src: Image, x0: int, y0: int): (r: Image)
    requires canvas.Valid() && canvas.mode == RGB && src.Valid()
    ensures r.Valid() && r.mode == RGB && r.SameSize(canvas)
    ensures forall cy, cx ::
              (0 <= cy < canvas.height && 0 <= cx < canvas.width && !Covered(x0, y0, src.width, src.height, cx, cy)) ==>
                r.rows[cy][cx] == canvas.rows[cy][cx]
    ensures forall cy, cx ::
              (0 <= cy < canvas.height && 0 <= cx < canvas.width && Covered(x0, y0, src.width, src.height, cx, cy)) ==>
                r.rows[cy][cx] == Pixel(src.rows[cy - y0][cx - x0].rgb, 255)
  {
    Image(RGB, canvas.width, canvas.height,
      seq(canvas.height, cy requires 0 <= cy < canvas.height =>
        seq(canvas.width, cx requires 0 <= cx < canvas.width =>
          if Covered(x0, y0, src.width, src.height, cx, cy)
          then Pixel(src.rows[cy - y0][cx - x0].rgb, 255)
          else canvas.rows[cy][cx])))
  }

  /**
   * The transparent layer of `generate_wallpaper` after
   * `temp.paste(src, (x0, y0), src)`: each covered pixel blends `src` into
   * transparency under `src`'s own alpha; the rest stays transparent.
   */
  function MaskedLayer(o: Oracles, w: nat, h: nat, src: Image, x0: int, y0: int): (r: Image)
    requires w > 0 && h > 0 && src.Valid()
    ensures r.Valid() && r.mode == RGBA && r.width == w && r.height == h
  {
    Image(RGBA, w, h,
      seq(h, cy requires 0 <= cy < h =>
        seq(w, cx requires 0 <= cx < w =>
          if Covered(x0, y0, src.width, src.height, cx, cy)
          then o.maskBlend(src.rows[cy - y0][cx - x0], Transparent, src.rows[cy - y0][cx - x0].a)
          else Transparent)))
  }

  /** `Image.alpha_composite(base, layer)` followed by `convert('RGB')`. */
  function CompositeOver(o: Oracles, base: Image, layer: Image): (r: Image)
    requires base.Valid() && layer.Valid() && layer.SameSize(base)
    ensures r.Valid() && r.mode == RGB && r.SameSize(base)
  {
    Image(RGB, base.width, base.height,
      seq(base.height, cy requires 0 <= cy < base.height =>
        seq(base.width, cx requires 0 <= cx < base.width =>
          Pixel(o.over(layer.rows[cy][cx], base.rows[cy][cx]).rgb, 255))))
  }

  /**
   * The alpha-aware paste of `generate_wallpaper` for an RGBA subject, with
   * the result made RGB. Canvas pixels outside the subject's footprint are
   * unchanged; under it an opaque subject pixel replaces the canvas colour
   * and a fully transparent one leaves the canvas as it was.
   */
  function PasteComposite(o: Oracles, canvas: Image, src: Image, x0: int, y0: int): (r: Image)
    requires ValidOracles(o) && canvas.Valid() && canvas.mode == RGB && src.Valid()
    ensures r.Valid() && r.mode == RGB && r.SameSize(canvas)
    ensures forall cy, cx ::
              (0 <= cy < canvas.height && 0 <= cx < canvas.width && !Covered(x0, y0, src.width, src.height, cx, cy)) ==>
                r.rows[cy][cx] == canvas.rows[cy][cx]
    ensures forall cy, cx ::
              (0 <= cy < canvas.height && 0 <= cx < canvas.width && Covered(x0, y0, src.width, src.height, cx, cy)
               && src.rows[cy - y0][cx - x0].a == 255) ==>
                r.rows[cy][cx] == Pixel(src.rows[cy - y0][cx - x0].rgb, 255)
    ensures forall cy, cx ::
              (0 <= cy < canvas.height && 0 <= cx < canvas.width && Covered(x0, y0, src.width, src.height, cx, cy)
               && src.rows[cy - y0][cx - x0].a == 0) ==>
                r.rows[cy][cx] == canvas.rows[cy][cx]
  {
    var layer := MaskedLayer(o, canvas.width, canvas.height, src, x0, y0);
    CompositeOver(o, ToRGBA(canvas), layer)
  }

  /** Size of the scaled copy behind a blurred backdrop. */
  function BackdropSize(src: Image, tw: nat, th: nat): (size: Size)
    requires src.Valid() && tw > 0 && th > 0
    ensures size.w >= tw && size.h >= th && (size.w == tw || size.h == th)
  {
    CoverFit(src.width, src.height, tw, th)
  }

  /** The source resized to cover the target, then blurred with radius 20. */
  function BlurredCopy(o: Oracles, src: Image, tw: nat, th: nat): (bg: Image)
    requires ValidOracles(o) && src.Valid() && tw > 0 && th > 0
    ensures bg.Valid() && bg.width == BackdropSize(src, tw, th).w && bg.height == BackdropSize(src, tw, th).h
  {
    var size := BackdropSize(src, tw, th);
    o.blur(o.resize(src, size.w, size.h), BackdropBlurRadius)
  }

  /**
   * `create_blur_background`: the blurred cover-fitted copy centred on a
   * black tw by th canvas. The copy covers the whole canvas, so every output
   * pixel is the blurred pixel at the centred position and no black remains.
   */
  function BlurredCanvas(o: Oracles, src: Image, tw: nat, th: nat): (r: Image)
    requires ValidOracles(o) && src.Valid() && tw > 0 && th > 0
    ensures r.Valid() && r.mode == RGB && r.width == tw && r.height == th
    ensures var bg := BlurredCopy(o, src, tw, th);
            var x0 := CentreOffset(tw, bg.width);
            var y0 := CentreOffset(th, bg.height);
            && x0 <= 0 && y0 <= 0
            && forall cy, cx :: 0 <= cy < th && 0 <= cx < tw ==>
                 r.rows[cy][cx] == Pixel(bg.rows[cy - y0][cx - x0].rgb, 255)
  {
    var bg := BlurredCopy(o, src, tw, th);
    var x0 := CentreOffset(tw, bg.width);
    var y0 := CentreOffset(th, bg.height);
    CentredCoverCovers(tw, bg.width);
    CentredCoverCovers(th, bg.height);
    PasteOpaque(SolidCanvas(tw, th, Black), bg, x0, y0)
  }
}
