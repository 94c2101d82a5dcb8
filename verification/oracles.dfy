/**
 * The primitives the engine calls but does not define: PIL's LANCZOS
 * resize, `thumbnail` and Gaussian blur, the paste-with-mask and
 * `alpha_composite` pixel arithmetic, Python's `hash` of the raw bytes, and
 * the external background remover behind a PNG encode/decode round trip.
 * They are parameters of the model; `ValidOracles` states the little that
 * the engine relies on: output sizes and modes, and what the two blending
 * operators do at alpha 0 and alpha 255.
 */
module Oracles {
  import opened Wrappers
  import opened Imaging

  datatype Oracles = Oracles(
    /** `image.resize((w, h), LANCZOS)`. */
    resize: (Image, nat, nat) -> Image,
    /** `image.filter(GaussianBlur(radius))`. */
    blur: (Image, real) -> Image,
    /** The same blur applied to a single band. */
    blurBand: (Grid, real) -> Grid,
    /** `image.thumbnail((n, n), LANCZOS)`: shrink to fit an n by n box. */
    thumbnail: (Image, nat) -> Image,
    /** `hash(image.tobytes())`. */
    hash: Image -> int,
    /** Whether the background-removal package could be imported. */
    rembgAvailable: bool,
    /** PNG-encode, call the remover, decode, `convert('RGBA')`; None when any step raises. */
    rembg: Image -> Option<Image>,
    /** One pixel of `dst.paste(src, box, mask)`: `maskBlend(src, dst, m)`. */
    maskBlend: (Pixel, Pixel, byte) -> Pixel,
    /** One pixel of `Image.alpha_composite(dst, src)`: `over(src, dst)`. */
    over: (Pixel, Pixel) -> Pixel)

  ghost predicate ValidResize(o: Oracles) {
    forall img: Image, w: nat, h: nat {:trigger o.resize(img, w, h)} ::
      img.Valid() && w > 0 && h > 0 ==>
        && o.resize(img, w, h).Valid()
        && o.resize(img, w, h).mode == img.mode
        && o.resize(img, w, h).width == w
        && o.resize(img, w, h).height == h
  }

  ghost predicate ValidBlur(o: Oracles) {
    && (forall img: Image, radius: real {:trigger o.blur(img, radius)} ::
          img.Valid() ==>
            && o.blur(img, radius).Valid()
            && o.blur(img, radius).mode == img.mode
            && o.blur(img, radius).SameSize(img))
    && (forall g: Grid, w: nat, h: nat, radius: real {:trigger IsGrid(o.blurBand(g, radius), w, h)} ::
          IsGrid(g, w, h) ==> IsGrid(o.blurBand(g, radius), w, h))
  }

  ghost predicate ValidThumbnail(o: Oracles) {
    forall img: Image, n: nat {:trigger o.thumbnail(img, n)} ::
      img.Valid() && n > 0 ==>
        && o.thumbnail(img, n).Valid()
        && o.thumbnail(img, n).mode == img.mode
        && o.thumbnail(img, n).width <= img.width
        && o.thumbnail(img, n).height <= img.height
        && o.thumbnail(img, n).width <= n
        && o.thumbnail(img, n).height <= n
  }

  /** The remover's answer, when there is one, is an RGBA image the size of its input. */
  ghost predicate ValidRemover(o: Oracles) {
    forall img: Image {:trigger o.rembg(img)} ::
      img.Valid() && o.rembg(img).Some? ==>
        && o.rembg(img).value.Valid()
        && o.rembg(img).value.mode == RGBA
        && o.rembg(img).value.SameSize(img)
  }

  /**
   * A mask byte of 255 copies the source pixel and 0 keeps the destination;
   * an alpha-255 source covers the destination and an alpha-0 source leaves
   * it as it was. Partial alpha is left unspecified.
   */
  ghost predicate ValidBlending(o: Oracles) {
    && (forall s: Pixel, d: Pixel {:trigger o.maskBlend(s, d, 255)} :: o.maskBlend(s, d, 255) == s)
    && (forall s: Pixel, d: Pixel {:trigger o.maskBlend(s, d, 0)} :: o.maskBlend(s, d, 0) == d)
    && (forall s: Pixel, d: Pixel {:trigger o.over(s, d)} ::
          (s.a == 255 ==> o.over(s, d) == Pixel(s.rgb, 255)) && (s.a == 0 ==> o.over(s, d) == d))
  }

  ghost predicate ValidOracles(o: Oracles) {
    ValidResize(o) && ValidBlur(o) && ValidThumbnail(o) && ValidRemover(o) && ValidBlending(o)
  }
}
