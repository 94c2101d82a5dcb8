/**
 * `remove_background`: the external remover behind a single-slot cache keyed
 * by the hash of the raw pixel bytes, with a downscaled round trip for
 * large inputs.
 */
module Removal {
  import opened Wrappers
  import opened Imaging
  import opened Oracles
  import opened SingleSlot

  /** Inputs with more pixels than this are shrunk before removal (2000 * 2000). */
  const DownscaleThreshold: nat := 2000 * 2000

  /** Box the large-input copy is shrunk to fit. */
  const RemovalSide: nat := 1500

  predicate IsLarge(img: Image) {
    img.width * img.height > DownscaleThreshold
  }

  /** What is sent to the remover: a copy shrunk into 1500 by 1500 when the input is large, else the input. */
  function RemoverInput(o: Oracles, img: Image): (sent: Image)
    requires ValidOracles(o) && img.Valid()
    ensures sent.Valid() && sent.mode == img.mode
    ensures IsLarge(img) ==> sent.width <= RemovalSide && sent.height <= RemovalSide
    ensures !IsLarge(img) ==> sent == img
  {
    if IsLarge(img) then o.thumbnail(img, RemovalSide) else img
  }

  /** An uncached removal: the remover's answer, resized back to the input's size for a large input. */
  function RemoveUncached(o: Oracles, img: Image): (r: Option<Image>)
    requires ValidOracles(o) && img.Valid()
    ensures r.None? <==> o.rembg(RemoverInput(o, img)).None?
    ensures r.Some? ==> r.value.Valid() && r.value.mode == RGBA && r.value.SameSize(img)
    ensures !IsLarge(img) ==> r == o.rembg(img)
    ensures IsLarge(img) && r.Some? ==>
              r.value == o.resize(o.rembg(RemoverInput(o, img)).value, img.width, img.height)
  {
    var sent := RemoverInput(o, img);
    match o.rembg(sent)
    case None => None
    case Some(cut) =>
      if IsLarge(img) then Some(o.resize(cut, img.width, img.height)) else Some(cut)
  }

  /**
   * The cached removal. Unavailable: no answer, slot untouched. A slot
   * holding this image's hash answers with its value and stays as it was.
   * On a miss the remover is consulted; a failure leaves the slot alone and
   * a success is stored under the hash and returned, an RGBA image the size
   * of the input. A hit is only as good as the hash: its value is whatever
   * was stored under that hash.
   */
  function RemoveBackground(o: Oracles, img: Image, cache: Slot<Image>): (res: (Option<Image>, Slot<Image>))
    requires ValidOracles(o) && img.Valid()
    requires cache.Entry? ==> cache.value.Valid() && cache.value.mode == RGBA
    ensures !o.rembgAvailable ==> res == (None, cache)
    ensures o.rembgAvailable && Lookup(cache, o.hash(img)).Some? ==> res == (Some(cache.value), cache)
    ensures o.rembgAvailable && Lookup(cache, o.hash(img)).None? ==>
              (res.0.None? <==> o.rembg(RemoverInput(o, img)).None?)
              && res.0 == RemoveUncached(o, img)
              && (res.0.None? ==> res.1 == cache)
              && (res.0.Some? ==> res.1 == Entry(o.hash(img), res.0.value)
                                  && res.0.value.Valid() && res.0.value.mode == RGBA && res.0.value.SameSize(img))
    ensures res.1.Entry? ==> res.1.value.Valid() && res.1.value.mode == RGBA
  {
    if !o.rembgAvailable then (None, cache)
    else
      var h := o.hash(img);
      match Lookup(cache, h)
      case Some(hit) => (Some(hit), cache)
      case None =>
        match RemoveUncached(o, img)
        case None => (None, cache)
        case Some(cut) => (Some(cut), Entry(h, cut))
  }

  /** Removing twice in a row: the second call is a hit with the same answer and slot. */
  lemma RemoveBackgroundRepeatable(o: Oracles, img: Image, cache: Slot<Image>)
    requires ValidOracles(o) && img.Valid()
    requires cache.Entry? ==> cache.value.Valid() && cache.value.mode == RGBA
    requires RemoveBackground(o, img, cache).0.Some?
    ensures RemoveBackground(o, img, RemoveBackground(o, img, cache).1) == RemoveBackground(o, img, cache)
  {
  }

  /**
   * A hit does not call the remover: environments that agree on the hash
   * give the same answer whatever their removers return.
   */
  lemma HitIgnoresRemover(o1: Oracles, o2: Oracles, img: Image, cache: Slot<Image>)
    requires ValidOracles(o1) && ValidOracles(o2) && img.Valid()
    requires cache.Entry? ==> cache.value.Valid() && cache.value.mode == RGBA
    requires o1.rembgAvailable && o2.rembgAvailable && o1.hash(img) == o2.hash(img)
    requires Lookup(cache, o1.hash(img)).Some?
    ensures RemoveBackground(o1, img, cache) == RemoveBackground(o2, img, cache)
  {
  }
}
