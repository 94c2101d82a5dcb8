/**
 * Integer geometry of the composition: the contain fit of the subject, the
 * cover fit of the blurred backdrop, and horizontal/vertical placement.
 *
 * The source compares float ratios `w / h > tw / th`; here they are compared
 * by cross-multiplication `w * th > tw * h`, and `int(a / b)` on
 * non-negative values is `a / b` on integers (truncation). Python's `//`
 * by 2 is Dafny's `/` by 2 (both round toward negative infinity for a
 * positive divisor).
 */
module Geometry {

  /** A width and height in pixels. */
  datatype Size = Size(w: nat, h: nat)

  function Min(a: int, b: int): int {
    if a <= b then a else b
  }

  /** The source's `img_ratio > target_ratio` for positive sizes. */
  predicate WiderThan(w: nat, h: nat, tw: nat, th: nat) {
    w * th > tw * h
  }

  /** For n > 0, `a / n` is the unique q with q * n <= a < (q + 1) * n. */
  lemma DivBracket(a: nat, n: nat)
    requires n > 0
    ensures (a / n) * n <= a < (a / n + 1) * n
  {
    var q, r := a / n, a % n;
    assert a == q * n + r && 0 <= r < n;
  }

  /** If a < c * n then a / n < c. */
  lemma DivBelow(a: nat, n: nat, c: nat)
    requires n > 0 && a < c * n
    ensures a / n < c
  {
    DivBracket(a, n);
    if a / n >= c {
      MulMonotone(c, a / n, n);
    }
  }

  /** If c * n <= a then c <= a / n. */
  lemma DivAbove(a: nat, n: nat, c: nat)
    requires n > 0 && c * n <= a
    ensures c <= a / n
  {
    DivBracket(a, n);
    if c > a / n {
      MulMonotone(a / n + 1, c, n);
    }
  }

  lemma MulMonotone(a: nat, b: nat, n: nat)
    requires a <= b
    ensures a * n <= b * n
  {
  }

  /** The derived side of a fit: the exact proportion `n * num / den`, truncated, is below `bound` when `n * num < bound * den`. */
  lemma ScaledSide(n: nat, num: nat, den: nat, bound: nat)
    requires den > 0 && n * num < bound * den
    ensures n * num / den < bound
    ensures (n * num / den) * den <= n * num < (n * num / den + 1) * den
  {
    DivBracket(n * num, den);
    DivBelow(n * num, den, bound);
  }

  /** The wide branch: the width meets its bound and the height follows. */
  function ContainWide(w: nat, h: nat, tw: nat, th: nat): (size: Size)
    requires w > 0 && h > 0 && tw > 0 && th > 0 && WiderThan(w, h, tw, th)
    ensures size.w <= tw && size.w <= w && size.h <= th && size.h <= h
    ensures size.w == Min(tw, w) && size.h * w <= size.w * h < (size.h + 1) * w
  {
    var nw := Min(tw, w);
    var nh := nw * h / w;
    WideBounds(w, h, tw, th, nw, nh);
    Size(nw, nh)
  }

  lemma WideBounds(w: nat, h: nat, tw: nat, th: nat, nw: nat, nh: nat)
    requires w > 0 && h > 0 && nw <= tw && nw <= w && w * th > tw * h && nh == nw * h / w
    ensures nh <= th && nh <= h
    ensures nh * w <= nw * h < (nh + 1) * w
  {
    DivBracket(nw * h, w);
    MulMonotone(nw, tw, h);
    assert nw * h < th * w;
    ScaledSide(nw, h, w, th);
    MulMonotone(nw, w, h);
    assert (h + 1) * w == h * w + w;
    ScaledSide(nw, h, w, h + 1);
  }

  /** The tall branch: the height meets its bound and the width follows. */
  function ContainTall(w: nat, h: nat, tw: nat, th: nat): (size: Size)
    requires w > 0 && h > 0 && tw > 0 && th > 0 && !WiderThan(w, h, tw, th)
    ensures size.w <= tw && size.w <= w && size.h <= th && size.h <= h
    ensures size.h == Min(th, h) && size.w * h <= size.h * w < (size.w + 1) * h
  {
    var nh := Min(th, h);
    TallBounds(w, h, tw, th, nh);
    var nw := nh * w / h;
    assert nw * h <= nh * w < (nw + 1) * h;
    Size(nw, nh)
  }

  lemma TallBounds(w: nat, h: nat, tw: nat, th: nat, nh: nat)
    requires w > 0 && h > 0 && nh <= th && nh <= h && w * th <= tw * h
    ensures nh * w / h <= tw && nh * w / h <= w
    ensures (nh * w / h) * h <= nh * w < (nh * w / h + 1) * h
  {
    DivBracket(nh * w, h);
    MulMonotone(nh, th, w);
    assert nh * w <= tw * h;
    assert (tw + 1) * h == tw * h + h;
    ScaledSide(nh, w, h, tw + 1);
    MulMonotone(nh, h, w);
    assert (w + 1) * h == w * h + h;
    ScaledSide(nh, w, h, w + 1);
  }

  /**
   * Contain fit (lazypaper/logic.py, `generate_wallpaper`): the subject of
   * size w by h is scaled to fit a tw by th target, never beyond its own size.
   * The result fits the target and the subject, one side meets its bound,
   * and the other is the exact proportional length truncated down.
   */
  function ContainFit(w: nat, h: nat, tw: nat, th: nat): (size: Size)
    requires w > 0 && h > 0 && tw > 0 && th > 0
    ensures size.w <= tw && size.w <= w && size.h <= th && size.h <= h
    ensures WiderThan(w, h, tw, th) ==>
              size.w == Min(tw, w) && size.h * w <= size.w * h < (size.h + 1) * w
    ensures !WiderThan(w, h, tw, th) ==>
              size.h == Min(th, h) && size.w * h <= size.h * w < (size.w + 1) * h
  {
    if WiderThan(w, h, tw, th) then ContainWide(w, h, tw, th) else ContainTall(w, h, tw, th)
  }

  /** A subject that already fits the target keeps its size, so it is not resampled. */
  lemma ContainFitKeepsFittingSubject(w: nat, h: nat, tw: nat, th: nat)
    requires w > 0 && h > 0 && w <= tw && h <= th
    ensures ContainFit(w, h, tw, th) == Size(w, h)
  {
    var size := ContainFit(w, h, tw, th);
    if WiderThan(w, h, tw, th) {
      assert size.w == w;
      assert size.h * w <= h * w < (size.h + 1) * w;
      ExactQuotient(size.h, w, h);
    } else {
      assert size.h == h;
      assert size.w * h <= w * h < (size.w + 1) * h;
      ExactQuotient(size.w, h, w);
    }
  }

  /** The floor bracket around an exact multiple pins the quotient down. */
  lemma ExactQuotient(q: nat, n: nat, k: nat)
    requires n > 0 && q * n <= k * n < (q + 1) * n
    ensures q == k
  {
    if q < k {
      MulMonotone(q + 1, k, n);
    } else if q > k {
      MulMonotone(k + 1, q, n);
      MulMonotone(q, q, n);
    }
  }

  /**
   * Cover fit (`create_blur_background`): the source of size w by h is
   * scaled to cover a tw by th target. One side equals the target's, the
   * other is at least the target's and is the exact proportional length
   * truncated down.
   */
  function CoverFit(w: nat, h: nat, tw: nat, th: nat): (size: Size)
    requires w > 0 && h > 0 && tw > 0 && th > 0
    ensures size.w >= tw && size.h >= th
    ensures WiderThan(w, h, tw, th) ==>
              size.h == th && size.w * h <= w * th < (size.w + 1) * h
    ensures !WiderThan(w, h, tw, th) ==>
              size.w == tw && size.h * w <= tw * h < (size.h + 1) * w
  {
    if WiderThan(w, h, tw, th) then
      DivBracket(w * th, h);
      DivAbove(w * th, h, tw);
      Size(w * th / h, th)
    else
      DivBracket(tw * h, w);
      DivAbove(tw * h, w, th);
      Size(tw, tw * h / w)
  }

  /** Offset that centres a length n in a length t: `(t - n) // 2`. */
  function CentreOffset(t: int, n: int): (off: int)
    ensures 0 <= (t - n) - 2 * off <= 1
  {
    (t - n) / 2
  }

  /**
   * An oversized backdrop centred on the target covers all of it: the
   * offset is not positive and the far edge reaches the target's edge.
   */
  lemma CentredCoverCovers(t: int, n: int)
    requires n >= t
    ensures CentreOffset(t, n) <= 0 && CentreOffset(t, n) + n >= t
  {
  }

  datatype Position = Left | Center | Right

  /** The `position` option: "left" and "right" are recognised, anything else centres. */
  function ParsePosition(s: string): (p: Position)
    ensures p == Left <==> s == "left"
    ensures p == Right <==> s == "right"
  {
    if s == "left" then Left else if s == "right" then Right else Center
  }

  /**
   * Left edge of a subject of width nw on a target of width tw: flush left,
   * flush right or centred, then shifted by the unclamped offset.
   */
  function PlaceX(pos: Position, tw: int, nw: int, offsetX: int): (x: int)
    ensures pos == Left ==> x - offsetX == 0
    ensures pos == Right ==> x - offsetX + nw == tw
    ensures pos == Center ==> 0 <= (x - offsetX) - (tw - (x - offsetX + nw)) + 1 <= 1
  {
    match pos
    case Left => offsetX
    case Right => tw - nw + offsetX
    case Center => CentreOffset(tw, nw) + offsetX
  }

  /** Top edge: always centred vertically, then shifted by the unclamped offset. */
  function PlaceY(th: int, nh: int, offsetY: int): (y: int)
    ensures 0 <= (th - nh) - 2 * (y - offsetY) <= 1
  {
    CentreOffset(th, nh) + offsetY
  }

  /** With zero offsets a subject no larger than the target lies inside it. */
  lemma PlacementInside(pos: Position, tw: int, th: int, nw: int, nh: int)
    requires 0 <= nw <= tw && 0 <= nh <= th
    ensures 0 <= PlaceX(pos, tw, nw, 0) && PlaceX(pos, tw, nw, 0) + nw <= tw
    ensures 0 <= PlaceY(th, nh, 0) && PlaceY(th, nh, 0) + nh <= th
  {
  }
}
