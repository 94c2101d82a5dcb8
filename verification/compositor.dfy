/**
 * `generate_wallpaper`: the linear composition pipeline. Every failure of
 * the source (`return None`, or an exception caught and turned into `None`)
 * is an `Err` here, with the reason it happened.
 */
module Compositor {
  import opened Wrappers
  import opened Imaging
  import opened Oracles
  import opened SingleSlot
  import opened Geometry
  import opened Compose
  import opened Outline
  import opened Removal

  /** The options dictionary and target size handed to `generate_wallpaper`. */
  datatype Request = Request(
    targetW: int, targetH: int,
    removeBg: bool, addOutline: bool, blurBg: bool,
    position: Position, offsetX: int, offsetY: int,
    bgColor: Color)

  datatype Failure =
    | NoSourceImage          // no image loaded
    | BackgroundRemovalFailed // removal requested and the remover gave no answer
    | InvalidTargetSize      // a non-positive target side: division by zero or a PIL size error
    | DegenerateSubjectSize  // the contain fit truncated a side to 0, which PIL's resize rejects

  /** What the removal cache may hold: RGBA images, as the remover produces. */
  predicate CacheOk(cache: Slot<Image>) {
    cache.Entry? ==> cache.value.Valid() && cache.value.mode == RGBA
  }

  /**
   * Step 2, the subject: the original image, or (when removal is requested)
   * the removed cut-out, outlined when that is requested too. A failed
   * removal fails the step; there is no fallback to the original.
   */
  function PrepareSubject(o: Oracles, img: Image, req: Request, cache: Slot<Image>): (res: (Result<Image, Failure>, Slot<Image>))
    requires ValidOracles(o) && img.Valid() && CacheOk(cache)
    ensures CacheOk(res.1)
    ensures res.0.Ok? ==> res.0.value.Valid()
    ensures !req.removeBg ==> res == (Ok(img), cache)
    ensures req.removeBg ==>
              var removed := RemoveBackground(o, img, cache);
              && res.1 == removed.1
              && (removed.0.None? ==> res.0 == Err(BackgroundRemovalFailed))
              && (removed.0.Some? && req.addOutline ==> res.0 == Ok(AddOutline(o, removed.0.value, DefaultOutlineWidth)))
              && (removed.0.Some? && !req.addOutline ==> res.0 == Ok(removed.0.value))
  {
    if !req.removeBg then (Ok(img), cache)
    else
      var removed := RemoveBackground(o, img, cache);
      match removed.0
      case None => (Err(BackgroundRemovalFailed), removed.1)
      case Some(cut) =>
        if req.addOutline then (Ok(AddOutline(o, cut, DefaultOutlineWidth)), removed.1)
        else (Ok(cut), removed.1)
  }

  /** Step 3: a blurred cover of the original only when blur is asked for without removal; otherwise the solid colour. */
  function Backdrop(o: Oracles, img: Image, req: Request): (canvas: Image)
    requires ValidOracles(o) && img.Valid() && req.targetW > 0 && req.targetH > 0
    ensures canvas.Valid() && canvas.mode == RGB && canvas.width == req.targetW && canvas.height == req.targetH
    ensures req.blurBg && !req.removeBg ==> canvas == BlurredCanvas(o, img, req.targetW, req.targetH)
    ensures !(req.blurBg && !req.removeBg) ==>
              forall y, x :: 0 <= y < req.targetH && 0 <= x < req.targetW ==> canvas.rows[y][x].rgb == req.bgColor
  {
    if req.blurBg && !req.removeBg then BlurredCanvas(o, img, req.targetW, req.targetH)
    else SolidCanvas(req.targetW, req.targetH, req.bgColor)
  }

  /**
   * Step 4: the subject contain-fitted into the target. It is resampled only
   * when its size changes, and a fit with a zero side is refused.
   */
  function FitSubject(o: Oracles, work: Image, tw: nat, th: nat): (fitted: Option<Image>)
    requires ValidOracles(o) && work.Valid() && tw > 0 && th > 0
    ensures var size := ContainFit(work.width, work.height, tw, th);
            && (fitted.None? <==> size.w == 0 || size.h == 0)
            && (fitted.Some? ==>
                  && fitted.value.Valid() && fitted.value.mode == work.mode
                  && fitted.value.width == size.w && fitted.value.height == size.h)
            && (size == Size(work.width, work.height) ==> fitted == Some(work))
  {
    var size := ContainFit(work.width, work.height, tw, th);
    if size == Size(work.width, work.height) then Some(work)
    else if size.w == 0 || size.h == 0 then None
    else Some(o.resize(work, size.w, size.h))
  }

  /** Steps 5 and 6: place the fitted subject and paste it, alpha-aware when it is RGBA. */
  function Place(o: Oracles, canvas: Image, subject: Image, req: Request): (r: Image)
    requires ValidOracles(o) && canvas.Valid() && canvas.mode == RGB && subject.Valid()
    ensures r.Valid() && r.mode == RGB && r.SameSize(canvas)
    ensures var x, y := PlaceX(req.position, canvas.width, subject.width, req.offsetX),
                        PlaceY(canvas.height, subject.height, req.offsetY);
            forall cy, cx ::
              (0 <= cy < canvas.height && 0 <= cx < canvas.width && !Covered(x, y, subject.width, subject.height, cx, cy)) ==>
                r.rows[cy][cx] == canvas.rows[cy][cx]
    ensures var x, y := PlaceX(req.position, canvas.width, subject.width, req.offsetX),
                        PlaceY(canvas.height, subject.height, req.offsetY);
            forall cy, cx ::
              (0 <= cy < canvas.height && 0 <= cx < canvas.width && Covered(x, y, subject.width, subject.height, cx, cy)
               && subject.rows[cy - y][cx - x].a == 255) ==>
                r.rows[cy][cx] == Pixel(subject.rows[cy - y][cx - x].rgb, 255)
    ensures var x, y := PlaceX(req.position, canvas.width, subject.width, req.offsetX),
                        PlaceY(canvas.height, subject.height, req.offsetY);
            forall cy, cx ::
              (0 <= cy < canvas.height && 0 <= cx < canvas.width && Covered(x, y, subject.width, subject.height, cx, cy)
               && subject.rows[cy - y][cx - x].a == 0) ==>
                r.rows[cy][cx] == canvas.rows[cy][cx]
  {
    var x := PlaceX(req.position, canvas.width, subject.width, req.offsetX);
    var y := PlaceY(canvas.height, subject.height, req.offsetY);
    if subject.mode == RGBA then PasteComposite(o, canvas, subject, x, y)
    else PasteOpaque(canvas, subject, x, y)
  }

  /**
   * `generate_wallpaper`. No image: fails and touches nothing. Removal
   * requested and unanswered: fails. A non-positive target side fails. A
   * success is an RGB image of exactly the target size. The removal cache
   * changes only when removal is requested.
   */
  function Generate(o: Oracles, original: Option<Image>, req: Request, cache: Slot<Image>)
    : (out: (Result<Image, Failure>, Slot<Image>))
    requires ValidOracles(o) && (original.Some? ==> original.value.Valid()) && CacheOk(cache)
    ensures CacheOk(out.1)
    ensures original.None? ==> out == (Err(NoSourceImage), cache)
    ensures original.Some? && req.removeBg && RemoveBackground(o, original.value, cache).0.None? ==>
              out.0 == Err(BackgroundRemovalFailed)
    ensures original.Some? && req.removeBg ==> out.1 == RemoveBackground(o, original.value, cache).1
    ensures !req.removeBg ==> out.1 == cache
    ensures original.Some? && (req.targetW <= 0 || req.targetH <= 0) ==> out.0.Err?
    ensures out.0 == Err(InvalidTargetSize) ==> req.targetW <= 0 || req.targetH <= 0
    ensures out.0.Ok? ==>
              && req.targetW > 0 && req.targetH > 0
              && out.0.value.Valid() && out.0.value.mode == RGB
              && out.0.value.width == req.targetW && out.0.value.height == req.targetH
  {
    match original
    case None => (Err(NoSourceImage), cache)
    case Some(img) =>
      var prepared := PrepareSubject(o, img, req, cache);
      match prepared.0
      case Err(e) => (Err(e), prepared.1)
      case Ok(work) =>
        if req.targetW <= 0 || req.targetH <= 0 then (Err(InvalidTargetSize), prepared.1)
        else
          var canvas := Backdrop(o, img, req);
          match FitSubject(o, work, req.targetW, req.targetH)
          case None => (Err(DegenerateSubjectSize), prepared.1)
          case Some(subject) => (Ok(Place(o, canvas, subject, req)), prepared.1)
  }

  /**
   * The pixels of a successful generation. Let `subject` be the prepared
   * subject after the contain fit, placed at (x, y) on the backdrop `canvas`.
   * The subject never exceeds the target; canvas pixels outside its footprint
   * are unchanged; under it, an opaque subject pixel (every pixel of an RGB
   * subject is one) replaces the canvas colour, clipped to the canvas, and a
   * fully transparent one leaves the canvas as it was.
   */
  lemma GeneratePixels(o: Oracles, img: Image, req: Request, cache: Slot<Image>,
                       work: Image, subject: Image)
    requires ValidOracles(o) && img.Valid() && CacheOk(cache)
    requires PrepareSubject(o, img, req, cache).0 == Ok(work)
    requires req.targetW > 0 && req.targetH > 0
    requires FitSubject(o, work, req.targetW, req.targetH) == Some(subject)
    ensures subject.width <= req.targetW && subject.height <= req.targetH
    ensures subject.width <= work.width && subject.height <= work.height
    ensures var r := Generate(o, Some(img), req, cache).0;
            var canvas := Backdrop(o, img, req);
            var x := PlaceX(req.position, req.targetW, subject.width, req.offsetX);
            var y := PlaceY(req.targetH, subject.height, req.offsetY);
            && r.Ok?
            && (forall cy, cx ::
                  (0 <= cy < req.targetH && 0 <= cx < req.targetW && !Covered(x, y, subject.width, subject.height, cx, cy)) ==>
                    r.value.rows[cy][cx] == canvas.rows[cy][cx])
            && (forall cy, cx ::
                  (0 <= cy < req.targetH && 0 <= cx < req.targetW && Covered(x, y, subject.width, subject.height, cx, cy)
                   && subject.rows[cy - y][cx - x].a == 255) ==>
                    r.value.rows[cy][cx] == Pixel(subject.rows[cy - y][cx - x].rgb, 255))
            && (forall cy, cx ::
                  (0 <= cy < req.targetH && 0 <= cx < req.targetW && Covered(x, y, subject.width, subject.height, cx, cy)
                   && subject.rows[cy - y][cx - x].a == 0) ==>
                    r.value.rows[cy][cx] == canvas.rows[cy][cx])
  {
  }

  /**
   * The outline flag matters only when removal is requested and available;
   * otherwise the result and the cache are the same whichever way it is set.
   */
  lemma OutlineFlagInertWithoutRemoval(o: Oracles, original: Option<Image>, req: Request, cache: Slot<Image>)
    requires ValidOracles(o) && (original.Some? ==> original.value.Valid()) && CacheOk(cache)
    requires !(req.removeBg && o.rembgAvailable)
    ensures Generate(o, original, req.(addOutline := true), cache) == Generate(o, original, req.(addOutline := false), cache)
  {
  }

  /** With removal requested the blur flag is ignored: the backdrop is the solid colour. */
  lemma BlurFlagInertWithRemoval(o: Oracles, original: Option<Image>, req: Request, cache: Slot<Image>)
    requires ValidOracles(o) && (original.Some? ==> original.value.Valid()) && CacheOk(cache)
    requires req.removeBg
    ensures Generate(o, original, req.(blurBg := true), cache) == Generate(o, original, req.(blurBg := false), cache)
  {
  }

  /**
   * An 800 by 600 opaque photo on a 1920 by 1080 black wallpaper, centred,
   * without removal or blur: the photo is not enlarged, it lands at
   * (560, 240) pixel for pixel, and everything around it is black.
   */
  lemma CentredPhotoScenario(o: Oracles, img: Image, cache: Slot<Image>)
    requires ValidOracles(o) && img.Valid() && img.mode == RGB && img.width == 800 && img.height == 600
    requires CacheOk(cache)
    ensures var req := Request(1920, 1080, false, false, false, Center, 0, 0, Black);
            var out := Generate(o, Some(img), req, cache);
            && out.1 == cache
            && out.0.Ok?
            && forall cy, cx :: 0 <= cy < 1080 && 0 <= cx < 1920 ==>
                 out.0.value.rows[cy][cx] ==
                   if 560 <= cx < 1360 && 240 <= cy < 840 then img.rows[cy - 240][cx - 560] else Pixel(Black, 255)
  {
    var req := Request(1920, 1080, false, false, false, Center, 0, 0, Black);
    ContainFitKeepsFittingSubject(800, 600, 1920, 1080);
    assert FitSubject(o, img, 1920, 1080) == Some(img);
    GeneratePixels(o, img, req, cache, img, img);
  }
}
