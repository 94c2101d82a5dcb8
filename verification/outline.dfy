/**
 * `add_outline_to_image`: a white halo grown from the subject's alpha band
 * (blurred, then thresholded at 10) with the unmodified subject drawn over it.
 */
module Outline {
  import opened Imaging
  import opened Oracles

  /** Default `outline_width` of the source. */
  const DefaultOutlineWidth: nat := 6

  /** Blurred alpha above this value joins the halo. */
  const HaloThreshold: byte := 10

  /** The binarised band: 255 where the blurred alpha exceeds the threshold, 0 elsewhere. */
  function HaloMask(blurred: Grid, w: nat, h: nat): (mask: Grid)
    requires IsGrid(blurred, w, h)
    ensures IsGrid(mask, w, h)
    ensures forall y, x :: 0 <= y < h && 0 <= x < w ==>
              (mask[y][x] == 255 <==> blurred[y][x] > HaloThreshold) && (mask[y][x] == 0 || mask[y][x] == 255)
  {
    seq(h, y requires 0 <= y < h =>
      seq(w, x requires 0 <= x < w => if blurred[y][x] > HaloThreshold then 255 else 0))
  }

  /** The halo mask of an image: its alpha band blurred with radius `outlineWidth / 2`, then binarised. */
  function Halo(o: Oracles, img: Image, outlineWidth: nat): (mask: Grid)
    requires ValidOracles(o) && img.Valid()
    ensures IsGrid(mask, img.width, img.height)
    ensures var blurred := o.blurBand(AlphaChannel(ToRGBA(img)), outlineWidth as real / 2.0);
            && IsGrid(blurred, img.width, img.height)
            && forall y, x :: 0 <= y < img.height && 0 <= x < img.width ==>
                 (mask[y][x] == 255 <==> blurred[y][x] > HaloThreshold) && (mask[y][x] == 0 || mask[y][x] == 255)
  {
    var alpha := AlphaChannel(ToRGBA(img));
    HaloMask(o.blurBand(alpha, outlineWidth as real / 2.0), img.width, img.height)
  }

  /** `dst.paste(src, (0, 0), mask)` for same-sized RGBA images. */
  function PasteMasked(o: Oracles, dst: Image, src: Image, mask: Grid): (r: Image)
    requires dst.Valid() && dst.mode == RGBA && src.Valid() && src.SameSize(dst)
    requires IsGrid(mask, dst.width, dst.height)
    ensures r.Valid() && r.mode == RGBA && r.SameSize(dst)
  {
    Image(RGBA, dst.width, dst.height,
      seq(dst.height, y requires 0 <= y < dst.height =>
        seq(dst.width, x requires 0 <= x < dst.width =>
          o.maskBlend(src.rows[y][x], dst.rows[y][x], mask[y][x]))))
  }

  /**
   * The outlined image has the input's size and is RGBA. Where the input is
   * opaque it is unchanged; where the input is fully transparent the result
   * is white whose alpha is the halo mask: opaque white inside the halo and
   * (255, 255, 255, 0) outside it.
   */
  function AddOutline(o: Oracles, img: Image, outlineWidth: nat): (r: Image)
    requires ValidOracles(o) && img.Valid()
    ensures r.Valid() && r.mode == RGBA && r.SameSize(img)
    ensures forall y, x :: 0 <= y < img.height && 0 <= x < img.width && img.rows[y][x].a == 255 ==>
              r.rows[y][x] == img.rows[y][x]
    ensures forall y, x :: 0 <= y < img.height && 0 <= x < img.width && img.rows[y][x].a == 0 ==>
              r.rows[y][x] == Pixel(White, Halo(o, img, outlineWidth)[y][x])
  {
    var subject := ToRGBA(img);
    var mask := Halo(o, img, outlineWidth);
    var clear := Fill(RGBA, img.width, img.height, Pixel(White, 0));
    var white := Fill(RGBA, img.width, img.height, Pixel(White, 255));
    var halo := PasteMasked(o, clear, white, mask);
    assert forall y, x :: 0 <= y < img.height && 0 <= x < img.width ==>
             halo.rows[y][x] == Pixel(White, mask[y][x]);
    PasteMasked(o, halo, subject, AlphaChannel(subject))
  }

  /**
   * On an opaque (RGB) image the halo is hidden entirely: the outline step
   * only converts the image to RGBA.
   */
  lemma OutlineOfOpaqueImage(o: Oracles, img: Image, outlineWidth: nat)
    requires ValidOracles(o) && img.Valid() && img.mode == RGB
    ensures AddOutline(o, img, outlineWidth) == ToRGBA(img)
  {
    var r := AddOutline(o, img, outlineWidth);
    forall y | 0 <= y < img.height ensures r.rows[y] == img.rows[y] {
      assert forall x :: 0 <= x < img.width ==> r.rows[y][x] == img.rows[y][x];
    }
    assert r.rows == img.rows;
  }
}
