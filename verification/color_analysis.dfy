/**
 * The two border heuristics of `LazyPaperLogic`: the uniform-background
 * probe (`detect_uniform_background`) and the dominant colour with its
 * single-slot cache (`get_dominant_color`).
 */
module ColorAnalysis {
  import opened Wrappers
  import opened Imaging
  import opened Oracles
  import opened Tally
  import opened SingleSlot

  /** Longest side of the copy `get_dominant_color` analyses. */
  const AnalysisSide: nat := 100

  /** `count / total > 0.8`, exactly. */
  predicate OverFourFifths(count: nat, total: nat) {
    5 * count > 4 * total
  }

  /**
   * `count > total * 0.3`, exactly. The double nearest to `total * 0.3` is
   * `3 * total / 10` whenever that is an integer, so the float comparison
   * and this one agree on integers.
   */
  predicate OverThreeTenths(count: nat, total: nat) {
    10 * count > 3 * total
  }

  // ---------------------------------------------------------------------
  // Uniform background
  // ---------------------------------------------------------------------

  ghost predicate SomeColourOverFourFifths(border: seq<Color>) {
    exists c: Color :: OverFourFifths(Count(border, c), |border|)
  }

  /** The probe on a list of border colours: some colour covers more than 80% of it. */
  function UniformBorder(border: seq<Color>): (r: bool)
    requires |border| > 0
    ensures r <==> SomeColourOverFourFifths(border)
  {
    var top := MostCommon(border);
    assert (exists c: Color :: OverFourFifths(Count(border, c), |border|)) ==> OverFourFifths(top.1, |border|) by {
      forall c: Color | OverFourFifths(Count(border, c), |border|) ensures OverFourFifths(top.1, |border|) {
        assert Count(border, c) <= top.1;
      }
    }
    var winner: Color := top.0;
    assert Count(border, winner) == top.1;
    assert OverFourFifths(top.1, |border|) ==> exists c: Color :: OverFourFifths(Count(border, c), |border|);
    OverFourFifths(top.1, |border|)
  }

  /**
   * `detect_uniform_background`: false with no image loaded; otherwise true
   * exactly when some colour fills more than 80% of the 2w + 2h border
   * entries. `convert('RGB')` keeps the colour channels, so the border of the
   * image itself is tallied.
   */
  function UniformBackground(original: Option<Image>): (r: bool)
    requires original.Some? ==> original.value.Valid()
    ensures original.None? ==> !r
    ensures original.Some? ==>
              (r <==> SomeColourOverFourFifths(Border(original.value)))
  {
    match original
    case None => false
    case Some(img) =>
      UniformBorder(Border(img))
  }

  /** A border painted in one colour is always reported as uniform. */
  lemma {:induction false} SolidBorderIsUniform(img: Image, c: Color)
    requires img.Valid()
    requires forall i :: 0 <= i < |Border(img)| ==> Border(img)[i] == c
    ensures UniformBackground(Some(img))
  {
    CountConstant(Border(img), c);
    assert OverFourFifths(Count(Border(img), c), |Border(img)|);
  }

  // ---------------------------------------------------------------------
  // Dominant colour
  // ---------------------------------------------------------------------

  datatype Channel = R | G | B

  function Component(c: Color, ch: Channel): byte {
    match ch
    case R => c.r
    case G => c.g
    case B => c.b
  }

  function Sum(cs: seq<Color>, ch: Channel): nat {
    if |cs| == 0 then 0 else Component(cs[0], ch) + Sum(cs[1..], ch)
  }

  lemma {:induction false} SumBounds(cs: seq<Color>, ch: Channel, lo: int, hi: int)
    requires forall i :: 0 <= i < |cs| ==> lo <= Component(cs[i], ch) <= hi
    ensures |cs| * lo <= Sum(cs, ch) <= |cs| * hi
  {
    if |cs| > 0 {
      var tail := cs[1..];
      assert forall i :: 0 <= i < |tail| ==> lo <= Component(tail[i], ch) <= hi by {
        forall i | 0 <= i < |tail| ensures lo <= Component(tail[i], ch) <= hi {
          assert tail[i] == cs[i + 1];
        }
      }
      SumBounds(tail, ch, lo, hi);
      assert lo <= Component(cs[0], ch) <= hi;
      AddOne(|tail|, lo);
      AddOne(|tail|, hi);
    }
  }

  lemma AddOne(n: int, x: int)
    ensures (n + 1) * x == n * x + x
  {
  }

  lemma NonPositiveFactor(n: int, d: int)
    requires n > 0 && n * d <= 0
    ensures d <= 0
  {
  }

  /** Truncated division brackets the dividend: `q * n <= s < (q + 1) * n`. */
  lemma QuotientBounds(s: int, n: int, lo: int, hi: int)
    requires n > 0 && n * lo <= s <= n * hi
    ensures lo <= s / n <= hi
    ensures (s / n) * n <= s < (s / n + 1) * n
  {
    var q, r := s / n, s % n;
    assert s == n * q + r && 0 <= r < n;
    assert n * (q - hi) == n * q - n * hi;
    NonPositiveFactor(n, q - hi);
    assert n * (lo - q - 1) == n * lo - n * q - n;
    NonPositiveFactor(n, lo - q - 1);
  }

  /** Per-channel mean, truncated (numpy `mean(axis=0).astype(int)`). */
  function MeanColor(cs: seq<Color>): (m: Color)
    requires |cs| > 0
    ensures forall ch :: Component(m, ch) * |cs| <= Sum(cs, ch) < (Component(m, ch) + 1) * |cs|
  {
    var m := Color(ChannelMean(cs, R), ChannelMean(cs, G), ChannelMean(cs, B));
    assert forall ch :: Component(m, ch) == ChannelMean(cs, ch);
    m
  }

  /** The truncated mean of one channel: a byte, bracketing the channel's sum. */
  function ChannelMean(cs: seq<Color>, ch: Channel): (v: byte)
    requires |cs| > 0
    ensures v * |cs| <= Sum(cs, ch) < (v + 1) * |cs|
  {
    SumBounds(cs, ch, 0, 255);
    QuotientBounds(Sum(cs, ch), |cs|, 0, 255);
    Sum(cs, ch) / |cs|
  }

  /** The mean of colours whose channel lies in [lo, hi] lies in [lo, hi] too. */
  lemma MeanWithinBounds(cs: seq<Color>, ch: Channel, lo: int, hi: int)
    requires |cs| > 0
    requires forall i :: 0 <= i < |cs| ==> lo <= Component(cs[i], ch) <= hi
    ensures lo <= Component(MeanColor(cs), ch) <= hi
  {
    SumBounds(cs, ch, lo, hi);
    QuotientBounds(Sum(cs, ch), |cs|, lo, hi);
  }

  /** Each pixel as the pair (alpha exceeds 10, colour) that numpy's alpha mask selects on. */
  function Tagged(ps: seq<Pixel>): (ts: seq<(bool, Color)>)
    ensures |ts| == |ps| && forall i :: 0 <= i < |ps| ==> ts[i] == (ps[i].a > 10, ps[i].rgb)
  {
    seq(|ps|, i requires 0 <= i < |ps| => (ps[i].a > 10, ps[i].rgb))
  }

  /**
   * Colours of the pixels whose alpha exceeds 10 (numpy
   * `arr[arr[:,:,3] > 10][:, :3]`): each colour occurs exactly as often as
   * there are visible pixels of that colour.
   */
  function Visible(ps: seq<Pixel>): (cs: seq<Color>)
    ensures |cs| <= |ps|
    ensures |cs| == 0 <==> forall i :: 0 <= i < |ps| ==> ps[i].a <= 10
    ensures forall c :: c in cs ==> exists i :: 0 <= i < |ps| && ps[i].a > 10 && ps[i].rgb == c
    ensures forall c :: Count(cs, c) == Count(Tagged(ps), (true, c))
  {
    if |ps| == 0 then []
    else
      var rest := Visible(ps[1..]);
      assert forall c :: c in rest ==> exists i :: 0 <= i < |ps| && ps[i].a > 10 && ps[i].rgb == c by {
        forall c | c in rest ensures exists i :: 0 <= i < |ps| && ps[i].a > 10 && ps[i].rgb == c {
          var i :| 0 <= i < |ps[1..]| && ps[1..][i].a > 10 && ps[1..][i].rgb == c;
          assert ps[i + 1] == ps[1..][i];
        }
      }
      var cs := if ps[0].a > 10 then [ps[0].rgb] + rest else rest;
      assert forall c :: Count(cs, c) == Count(Tagged(ps), (true, c)) by {
        assert Tagged(ps)[1..] == Tagged(ps[1..]);
        forall c ensures Count(cs, c) == Count(Tagged(ps), (true, c)) {
          if ps[0].a > 10 {
            assert cs[1..] == rest;
          }
        }
      }
      cs
  }

  function Colors(ps: seq<Pixel>): (cs: seq<Color>)
    ensures |cs| == |ps| && forall i :: 0 <= i < |ps| ==> cs[i] == ps[i].rgb
  {
    seq(|ps|, i requires 0 <= i < |ps| => ps[i].rgb)
  }

  /** Every alpha byte is at most 10: numpy `np.any(alpha)` is false. */
  predicate AllTransparent(t: Image)
    requires t.Valid()
  {
    t.mode == RGBA && forall y, x :: 0 <= y < t.height && 0 <= x < t.width ==> t.rows[y][x].a <= 10
  }

  /**
   * The colours the mean fallback averages: every pixel of an RGB thumbnail
   * in row-major order, and for an RGBA thumbnail each colour as often as
   * pixels of that colour have alpha above 10.
   */
  function AnalysedColors(t: Image): (cs: seq<Color>)
    requires t.Valid()
    ensures |cs| == 0 <==> AllTransparent(t)
    ensures t.mode == RGB ==>
              && |cs| == t.width * t.height
              && forall y, x :: 0 <= y < t.height && 0 <= x < t.width ==>
                   Offset(t.width, y, x) < |cs| && cs[Offset(t.width, y, x)] == t.rows[y][x].rgb
    ensures t.mode == RGBA ==> forall c :: Count(cs, c) == Count(Tagged(Pixels(t)), (true, c))
  {
    var ps := Pixels(t);
    assert Offset(t.width, 0, 0) < |ps| && ps[Offset(t.width, 0, 0)] == t.rows[0][0];
    if t.mode == RGBA then
      VisibleOfTransparent(t);
      Visible(ps)
    else
      Colors(ps)
  }

  /** No pixel of the flattened image has alpha above 10 exactly when the image is all transparent. */
  lemma VisibleOfTransparent(t: Image)
    requires t.Valid() && t.mode == RGBA
    ensures (forall i :: 0 <= i < |Pixels(t)| ==> Pixels(t)[i].a <= 10) <==> AllTransparent(t)
  {
    var ps := Pixels(t);
    if forall i :: 0 <= i < |ps| ==> ps[i].a <= 10 {
      forall y, x | 0 <= y < t.height && 0 <= x < t.width ensures t.rows[y][x].a <= 10 {
        assert ps[Offset(t.width, y, x)] == t.rows[y][x];
      }
    }
    if AllTransparent(t) {
      forall i | 0 <= i < |ps| ensures ps[i].a <= 10 {
        var y, x := SplitIndex(i, t.width, t.height);
        assert ps[Offset(t.width, y, x)] == t.rows[y][x];
      }
    }
  }

  ghost predicate SomeBorderColourOverThreeTenths(border: seq<Color>) {
    exists c: Color :: OverThreeTenths(Count(border, c), |border|)
  }

  /**
   * The uncached colour of an analysed thumbnail `t`: None when it is RGBA
   * and fully transparent (the caller answers white); the most common border
   * colour when some border colour covers more than 30% of the 2w + 2h border
   * entries (transparent pixels included); otherwise the truncated mean of the
   * analysed pixels.
   */
  function DominantOf(t: Image): (r: Option<Color>)
    requires t.Valid()
    ensures r.None? <==> AllTransparent(t)
    ensures r.Some? && SomeBorderColourOverThreeTenths(Border(t)) ==> r.value == MostCommon(Border(t)).0
    ensures r.Some? && !SomeBorderColourOverThreeTenths(Border(t)) ==> r.value == MeanColor(AnalysedColors(t))
  {
    var analysed := AnalysedColors(t);
    if |analysed| == 0 then None
    else Some(BorderOrMean(Border(t), analysed))
  }

  /** The border's most common colour when it covers more than 30% of the border, else the mean. */
  function BorderOrMean(border: seq<Color>, analysed: seq<Color>): (c: Color)
    requires |border| > 0 && |analysed| > 0
    ensures SomeBorderColourOverThreeTenths(border) ==> c == MostCommon(border).0
    ensures !SomeBorderColourOverThreeTenths(border) ==> c == MeanColor(analysed)
  {
    var top := MostCommon(border);
    if OverThreeTenths(top.1, |border|) then top.0
    else MeanColor(analysed)
  }

  /**
   * `get_dominant_color` with its cache: a slot holding this image's hash is
   * answered from the slot, which stays as it was. On a miss a fully
   * transparent thumbnail gives white and leaves the slot alone; any other
   * answer is stored in the slot under the hash.
   */
  function DominantColor(o: Oracles, img: Image, cache: Slot<Color>): (res: (Color, Slot<Color>))
    requires ValidOracles(o) && img.Valid()
    ensures Lookup(cache, o.hash(img)).Some? ==> res == (cache.value, cache)
    ensures Lookup(cache, o.hash(img)).None? ==>
              var t := o.thumbnail(img, AnalysisSide);
              && (AllTransparent(t) ==> res == (White, cache))
              && (!AllTransparent(t) ==> Some(res.0) == DominantOf(t) && res.1 == Entry(o.hash(img), res.0))
  {
    var h := o.hash(img);
    match Lookup(cache, h)
    case Some(c) => (c, cache)
    case None =>
      var t := o.thumbnail(img, AnalysisSide);
      match DominantOf(t)
      case None => (White, cache)
      case Some(c) => (c, Entry(h, c))
  }

  /** A second call on the same image is a hit: same colour, slot untouched. */
  lemma DominantColorRepeatable(o: Oracles, img: Image, cache: Slot<Color>)
    requires ValidOracles(o) && img.Valid()
    ensures var first := DominantColor(o, img, cache);
            DominantColor(o, img, first.1) == first
  {
  }

  /**
   * A hit never consults the thumbnail: two environments that hash alike
   * give the cached answer whatever their resampling does.
   */
  lemma DominantColorHitIgnoresPixels(o1: Oracles, o2: Oracles, img: Image, cache: Slot<Color>)
    requires ValidOracles(o1) && ValidOracles(o2) && img.Valid()
    requires o1.hash(img) == o2.hash(img)
    requires Lookup(cache, o1.hash(img)).Some?
    ensures DominantColor(o1, img, cache) == DominantColor(o2, img, cache)
  {
  }

  /** A picture whose analysed pixels all share one colour has that colour as its mean. */
  lemma MeanOfSolidColors(cs: seq<Color>, c: Color)
    requires |cs| > 0 && forall i :: 0 <= i < |cs| ==> cs[i] == c
    ensures MeanColor(cs) == c
  {
    MeanWithinBounds(cs, R, c.r, c.r);
    MeanWithinBounds(cs, G, c.g, c.g);
    MeanWithinBounds(cs, B, c.b, c.b);
  }
}
