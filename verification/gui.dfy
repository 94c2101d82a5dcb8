/**
 * The pure helpers of the Tk front end (lazypaper/gui.py): the target
 * resolution chosen in the combo box or typed in, the background colour
 * option, the fine position adjustment by keys and buttons, when the
 * outline check box is enabled, and the arithmetic that fits the preview
 * into its canvas. Widgets, message boxes, threads and the debounce timer
 * are not modelled; their inputs arrive as parameters.
 */
module Gui {
  import opened Wrappers
  import opened Imaging
  import opened Oracles
  import opened SingleSlot
  import opened PyInt
  import opened Geometry
  import opened ColorAnalysis
  import opened Compositor

  // ---------------------------------------------------------------------
  // Target resolution
  // ---------------------------------------------------------------------

  /** A width and height as plain Python integers. */
  datatype Resolution = Resolution(w: int, h: int)

  const Fallback := Resolution(1920, 1080)

  /** The combo box entry that switches to the typed-in width and height. */
  const CustomLabel := "Personalizado"

  /**
   * The resolutions dictionary. Three labels name a size other than the one
   * they map to; the model keeps the sizes the program uses.
   */
  const Resolutions: map<string, Option<Resolution>> := map[
    "Desktop HD (1280x720)" := Some(Resolution(1280, 720)),
    "Desktop FHD (1920x1080)" := Some(Resolution(1920, 1080)),
    "Desktop QHD (2560x1440)" := Some(Resolution(2560, 1440)),
    "Desktop 4K (3840x2160)" := Some(Resolution(3840, 2160)),
    "Mobile HD (1080x2150)" := Some(Resolution(1080, 2160)),
    "Mobile QHD (1170x2532)" := Some(Resolution(1440, 2960)),
    "Apple iPad (2048x1536)" := Some(Resolution(2048, 1536)),
    "Apple iPad Pro (2048x2732)" := Some(Resolution(2048, 2732)),
    "Tablet Android HD (1920x1200)" := Some(Resolution(1920, 1200)),
    "Tablet Android Full HD (2048x2732)" := Some(Resolution(2560, 1600)),
    "Personalizado" := None
  ]

  predicate Positive(r: Resolution) {
    r.w > 0 && r.h > 0
  }

  /** Every preset is a positive size, and only the custom entry has none. */
  lemma PresetsArePositive()
    ensures forall name :: name in Resolutions ==> (Resolutions[name].None? <==> name == CustomLabel)
    ensures forall name :: name in Resolutions && Resolutions[name].Some? ==> Positive(Resolutions[name].value)
  {
  }

  /** The typed-in size: both fields must parse as decimal integers and be positive. */
  function CustomResolution(width: string, height: string): (r: Option<Resolution>)
    ensures r.Some? <==>
              ParseInt(width, 10).Some? && ParseInt(height, 10).Some?
              && ParseInt(width, 10).value > 0 && ParseInt(height, 10).value > 0
    ensures r.Some? ==> r.value == Resolution(ParseInt(width, 10).value, ParseInt(height, 10).value)
  {
    match (ParseInt(width, 10), ParseInt(height, 10))
    case (Some(w), Some(h)) => if w > 0 && h > 0 then Some(Resolution(w, h)) else None
    case _ => None
  }

  /**
   * `get_target_resolution`: no selection and an invalid custom size fall
   * back to 1920 by 1080 (after a warning), the custom entry uses the typed
   * size, and any other name is looked up in the table with the same
   * fallback. The answer is always a positive size.
   */
  function TargetResolution(name: string, width: string, height: string): (r: Resolution)
    ensures Positive(r)
    ensures name == "" ==> r == Fallback
    ensures name == CustomLabel ==>
              r == (if CustomResolution(width, height).Some? then CustomResolution(width, height).value else Fallback)
    ensures name != "" && name != CustomLabel && name in Resolutions ==> Some(r) == Resolutions[name]
    ensures name != "" && name !in Resolutions ==> r == Fallback
  {
    PresetsArePositive();
    if name == "" then Fallback
    else if name == CustomLabel then
      match CustomResolution(width, height)
      case Some(r) => r
      case None => Fallback
    else if name in Resolutions && Resolutions[name].Some? then Resolutions[name].value
    else Fallback
  }

  /** A typed-in positive size written in decimal is used exactly, unless a side has more than 4300 digits. */
  lemma CustomResolutionRoundTrip(w: nat, h: nat)
    requires w > 0 && h > 0
    ensures TargetResolution(CustomLabel, Decimal(w), Decimal(h)) ==
              if |Decimal(w)| <= MaxStrDigits && |Decimal(h)| <= MaxStrDigits then Resolution(w, h) else Fallback
  {
    ParseDecimal(w);
    ParseDecimal(h);
  }

  /** The fields' initial contents select 1920 by 1080. */
  lemma InitialCustomFields()
    ensures TargetResolution(CustomLabel, "1920", "1080") == Resolution(1920, 1080)
  {
    assert Decimal(1920) == "1920";
    assert Decimal(1080) == "1080";
    CustomResolutionRoundTrip(1920, 1080);
  }

  /**
   * A typed size that is not a number or not positive in either field is
   * refused in favour of 1920 by 1080; conversely the custom entry only
   * yields 1920 by 1080 for such a size or when 1920 by 1080 was typed.
   */
  lemma NonPositiveCustomFallsBack(width: string, height: string)
    ensures var w, h := ParseInt(width, 10), ParseInt(height, 10);
            (w.None? || h.None? || w.value <= 0 || h.value <= 0) ==> TargetResolution(CustomLabel, width, height) == Fallback
    ensures var w, h := ParseInt(width, 10), ParseInt(height, 10);
            TargetResolution(CustomLabel, width, height) == Fallback ==>
              w.None? || h.None? || w.value <= 0 || h.value <= 0 || (w.value == 1920 && h.value == 1080)
  {
  }

  /** Two instances: a minus sign before digits, and a bare zero. */
  lemma SignedFieldsFallBack(digits: string, height: string)
    requires WellFormedDigits(digits, 10)
    ensures TargetResolution(CustomLabel, "-" + digits, height) == Fallback
    ensures TargetResolution(CustomLabel, "0", height) == Fallback
  {
    ParseNegatedDigits(digits, 10);
    ParseDecimal(0);
    assert Decimal(0) == "0";
    NonPositiveCustomFallsBack("-" + digits, height);
    NonPositiveCustomFallsBack("0", height);
  }

  /** A size from the front end never makes generation fail for an invalid target. */
  lemma FrontEndTargetIsAccepted(o: Oracles, original: Option<Image>, req: Request, cache: Slot<Image>,
                                 name: string, width: string, height: string)
    requires ValidOracles(o) && (original.Some? ==> original.value.Valid()) && CacheOk(cache)
    ensures var t := TargetResolution(name, width, height);
            Generate(o, original, req.(targetW := t.w, targetH := t.h), cache).0 != Err(InvalidTargetSize)
  {
  }

  // ---------------------------------------------------------------------
  // Background colour
  // ---------------------------------------------------------------------

  /** A colour as the Python tuple the front end hands on; its parts are not range-checked. */
  datatype Rgb = Rgb(r: int, g: int, b: int)

  const WhiteRgb := Rgb(255, 255, 255)

  function AsRgb(c: Color): Rgb {
    Rgb(c.r, c.g, c.b)
  }

  /** `s.lstrip('#')`. */
  function StripHashes(s: string): (t: string)
    ensures |t| <= |s| && t == s[|s| - |t|..]
    ensures forall i :: 0 <= i < |s| - |t| ==> s[i] == '#'
    ensures |t| > 0 ==> t[0] != '#'
  {
    if |s| > 0 && s[0] == '#' then StripHashes(s[1..]) else s
  }

  /** Python's slice `s[i:j]` for non-negative bounds, which are clamped to the length. */
  function Slice(s: string, i: nat, j: nat): (t: string)
    ensures i <= j <= |s| ==> t == s[i..j]
    ensures i <= |s| <= j ==> t == s[i..]
    ensures i >= |s| ==> t == []
    ensures j <= i ==> t == []
  {
    var a := if i <= |s| then i else |s|;
    var b := if j <= |s| then j else |s|;
    if a <= b then s[a..b] else []
  }

  /** The custom colour string: three two-character slices, each read in base 16; any failure gives white. */
  function CustomColor(custom: string): (c: Rgb)
    ensures var hex := StripHashes(custom);
            var r, g, b := ParseInt(Slice(hex, 0, 2), 16), ParseInt(Slice(hex, 2, 4), 16), ParseInt(Slice(hex, 4, 6), 16);
            && (r.Some? && g.Some? && b.Some? ==> c == Rgb(r.value, g.value, b.value))
            && (r.None? || g.None? || b.None? ==> c == WhiteRgb)
  {
    var hex := StripHashes(custom);
    match (ParseInt(Slice(hex, 0, 2), 16), ParseInt(Slice(hex, 2, 4), 16), ParseInt(Slice(hex, 4, 6), 16))
    case (Some(r), Some(g), Some(b)) => Rgb(r, g, b)
    case _ => WhiteRgb
  }

  /** `'#%02x%02x%02x' % colour`, as the preview paints the background. */
  function HexColor(c: Color): (s: string)
    ensures |s| == 7 && s[0] == '#'
  {
    "#" + Hex2(c.r) + Hex2(c.g) + Hex2(c.b)
  }

  /** A colour written as `#rrggbb` reads back as itself, with any number of leading hashes. */
  lemma CustomColorRoundTrip(c: Color, hashes: nat)
    ensures CustomColor(seq(hashes, _ => '#') + HexColor(c)) == AsRgb(c)
  {
    HashesStripped(c, hashes);
    HexColorSlices(c);
    ParseHex2(c.r);
    ParseHex2(c.g);
    ParseHex2(c.b);
    CustomColorOfParts(seq(hashes, _ => '#') + HexColor(c), Hex2(c.r) + Hex2(c.g) + Hex2(c.b), c.r, c.g, c.b);
  }

  lemma HexColorSlices(c: Color)
    ensures var hex := Hex2(c.r) + Hex2(c.g) + Hex2(c.b);
            Slice(hex, 0, 2) == Hex2(c.r) && Slice(hex, 2, 4) == Hex2(c.g) && Slice(hex, 4, 6) == Hex2(c.b)
  {
    var hex := Hex2(c.r) + Hex2(c.g) + Hex2(c.b);
    assert hex == (Hex2(c.r) + Hex2(c.g)) + Hex2(c.b);
  }

  lemma CustomColorOfParts(custom: string, hex: string, r: int, g: int, b: int)
    requires StripHashes(custom) == hex
    requires ParseInt(Slice(hex, 0, 2), 16) == Some(r)
    requires ParseInt(Slice(hex, 2, 4), 16) == Some(g)
    requires ParseInt(Slice(hex, 4, 6), 16) == Some(b)
    ensures CustomColor(custom) == Rgb(r, g, b)
  {
  }

  lemma HashesStripped(c: Color, hashes: nat)
    ensures StripHashes(seq(hashes, _ => '#') + HexColor(c)) == Hex2(c.r) + Hex2(c.g) + Hex2(c.b)
  {
    var hex := Hex2(c.r) + Hex2(c.g) + Hex2(c.b);
    assert seq(hashes, _ => '#') + HexColor(c) == seq(hashes + 1, _ => '#') + hex;
    assert DigitValue(hex[0]).Some?;
    StripHashesPrefix(hashes + 1, hex);
  }

  lemma {:induction false} StripHashesPrefix(n: nat, t: string)
    requires |t| > 0 && t[0] != '#'
    ensures StripHashes(seq(n, _ => '#') + t) == t
  {
    if n > 0 {
      assert (seq(n, _ => '#') + t)[1..] == seq(n - 1, _ => '#') + t;
      StripHashesPrefix(n - 1, t);
    } else {
      assert seq(n, _ => '#') + t == t;
    }
  }

  /** The initial custom colour "#FFFFFF" is white. */
  lemma InitialCustomColorIsWhite()
    ensures CustomColor("#FFFFFF") == WhiteRgb
  {
    InitialColorParts();
    ParseUpperFF();
    CustomColorOfParts("#FFFFFF", "FFFFFF", 255, 255, 255);
  }

  lemma InitialColorParts()
    ensures StripHashes("#FFFFFF") == "FFFFFF"
    ensures Slice("FFFFFF", 0, 2) == "FF" && Slice("FFFFFF", 2, 4) == "FF" && Slice("FFFFFF", 4, 6) == "FF"
  {
    assert "#FFFFFF"[1..] == "FFFFFF";
    assert "FFFFFF"[0..2] == "FF";
    assert "FFFFFF"[2..4] == "FF";
    assert "FFFFFF"[4..6] == "FF";
  }

  /** Upper-case hex digits are accepted: `int('FF', 16)` is 255. */
  lemma ParseUpperFF()
    ensures ParseInt("FF", 16) == Some(255)
  {
    assert WellFormedDigits("FF", 16);
    assert DigitsValue("FF", 16) == 255 by {
      assert "FF"[..1] == "F";
      assert "F"[..0] == [];
    }
    ParseBareDigits("FF", 16);
  }

  /** A colour whose text starts with a 0x1C-0x1F separator is refused: `int()` does not strip it. */
  lemma SeparatorInColorIsWhite(custom: string)
    requires var hex := StripHashes(custom); |hex| > 0 && '\U{001C}' <= hex[0] <= '\U{001F}'
    ensures CustomColor(custom) == WhiteRgb
  {
    var hex := StripHashes(custom);
    SeparatorIsNotSpace(Slice(hex, 0, 2), 16);
  }

  /** A string too short for three parts gives white: `int('', 16)` fails. */
  lemma ShortCustomColorIsWhite(custom: string)
    requires |StripHashes(custom)| <= 4
    ensures CustomColor(custom) == WhiteRgb
  {
    assert Slice(StripHashes(custom), 4, 6) == [];
    EmptyDoesNotParse(16);
  }

  /**
   * `get_background_color`: "white" and "black" are fixed, "custom" reads
   * the chosen colour string, and any other option is automatic: the
   * dominant colour of the loaded image through its cache, or white when
   * no image is loaded. Only the automatic option touches the cache.
   */
  function BackgroundColor(option: string, custom: string, o: Oracles, original: Option<Image>, cache: Slot<Color>)
    : (res: (Rgb, Slot<Color>))
    requires ValidOracles(o) && (original.Some? ==> original.value.Valid())
    ensures option == "white" ==> res == (WhiteRgb, cache)
    ensures option == "black" ==> res == (Rgb(0, 0, 0), cache)
    ensures option == "custom" ==> res == (CustomColor(custom), cache)
    ensures option !in {"white", "black", "custom"} && original.None? ==> res == (WhiteRgb, cache)
    ensures option !in {"white", "black", "custom"} && original.Some? ==>
              var d := DominantColor(o, original.value, cache);
              res == (AsRgb(d.0), d.1)
    ensures option != "custom" ==> 0 <= res.0.r < 256 && 0 <= res.0.g < 256 && 0 <= res.0.b < 256
  {
    if option == "white" then (WhiteRgb, cache)
    else if option == "black" then (Rgb(0, 0, 0), cache)
    else if option == "custom" then (CustomColor(custom), cache)
    else
      match original
      case None => (WhiteRgb, cache)
      case Some(img) =>
        var d := DominantColor(o, img, cache);
        (AsRgb(d.0), d.1)
  }

  // ---------------------------------------------------------------------
  // Fine position adjustment
  // ---------------------------------------------------------------------

  /** The two offset variables. */
  datatype Offset = Offset(x: int, y: int)

  /** `nudge`: moves the offset by (dx, dy). */
  function Nudge(off: Offset, dx: int, dy: int): (r: Offset)
    ensures r.x - off.x == dx && r.y - off.y == dy
  {
    Offset(off.x + dx, off.y + dy)
  }

  /** Two nudges add up to one. */
  lemma NudgeComposes(off: Offset, dx1: int, dy1: int, dx2: int, dy2: int)
    ensures Nudge(Nudge(off, dx1, dy1), dx2, dy2) == Nudge(off, dx1 + dx2, dy1 + dy2)
  {
  }

  /** The key bindings: arrows move by 10, Shift with an arrow by 1. */
  const KeySteps: map<string, (int, int)> := map[
    "<Left>" := (-10, 0), "<Right>" := (10, 0),
    "<Up>" := (0, -10), "<Down>" := (0, 10),
    "<Shift-Left>" := (-1, 0), "<Shift-Right>" := (1, 0),
    "<Shift-Up>" := (0, -1), "<Shift-Down>" := (0, 1)
  ]

  /** The key for the opposite direction, with the same modifier. */
  const OppositeKey: map<string, string> := map[
    "<Left>" := "<Right>", "<Right>" := "<Left>",
    "<Up>" := "<Down>", "<Down>" := "<Up>",
    "<Shift-Left>" := "<Shift-Right>", "<Shift-Right>" := "<Shift-Left>",
    "<Shift-Up>" := "<Shift-Down>", "<Shift-Down>" := "<Shift-Up>"
  ]

  predicate Shifted(key: string) {
    |key| >= 7 && key[..7] == "<Shift-"
  }

  /** Each key moves along one axis by 1 with Shift and by 10 without. */
  lemma KeyStepSizes(key: string)
    requires key in KeySteps
    ensures var (dx, dy) := KeySteps[key];
            var size := if Shifted(key) then 1 else 10;
            (dx == 0 && (dy == size || dy == -size)) || (dy == 0 && (dx == size || dx == -size))
  {
    assert !Shifted("<Left>");
    assert "<Right>"[1] != "<Shift-"[1];
    assert !Shifted("<Right>");
    assert !Shifted("<Up>");
    assert !Shifted("<Down>");
    assert Shifted("<Shift-Left>") && Shifted("<Shift-Right>");
    assert Shifted("<Shift-Up>") && Shifted("<Shift-Down>");
  }

  /** Pressing a key and then its opposite puts the subject back where it was. */
  lemma OppositeKeysCancel(off: Offset, key: string)
    requires key in KeySteps
    ensures key in OppositeKey && OppositeKey[key] in KeySteps
    ensures var (dx1, dy1) := KeySteps[key];
            var (dx2, dy2) := KeySteps[OppositeKey[key]];
            Nudge(Nudge(off, dx1, dy1), dx2, dy2) == off
  {
  }

  /** The nine on-screen nudge buttons in reading order: arrows by 10 and a centre dot that does nothing. */
  const NudgeButtons: seq<(string, int, int)> := [
    ("↖", -10, -10), ("↑", 0, -10), ("↗", 10, -10),
    ("←", -10, 0), ("•", 0, 0), ("→", 10, 0),
    ("↙", -10, 10), ("↓", 0, 10), ("↘", 10, 10)
  ]

  /**
   * The buttons sit in a 3 by 3 grid (row i / 3, column i % 3) and each
   * moves the subject towards its place in the grid by 10 per axis.
   */
  lemma NudgeButtonsMatchGrid(i: nat)
    requires i < |NudgeButtons|
    ensures NudgeButtons[i].1 == (i % 3 - 1) * 10 && NudgeButtons[i].2 == (i / 3 - 1) * 10
  {
  }

  // ---------------------------------------------------------------------
  // Options
  // ---------------------------------------------------------------------

  /** `update_options`: the outline check box is usable only when removal is chosen and available. */
  function OutlineCheckEnabled(removeBg: bool, rembgAvailable: bool): (enabled: bool)
    ensures enabled ==> removeBg
    ensures enabled ==> rembgAvailable
    ensures removeBg && rembgAvailable ==> enabled
  {
    removeBg && rembgAvailable
  }

  /** Whenever the check box is disabled, its value cannot change the wallpaper. */
  lemma DisabledOutlineCheckIsInert(o: Oracles, original: Option<Image>, req: Request, cache: Slot<Image>)
    requires ValidOracles(o) && (original.Some? ==> original.value.Valid()) && CacheOk(cache)
    requires !OutlineCheckEnabled(req.removeBg, o.rembgAvailable)
    ensures Generate(o, original, req.(addOutline := true), cache) == Generate(o, original, req.(addOutline := false), cache)
  {
    OutlineFlagInertWithoutRemoval(o, original, req, cache);
  }

  // ---------------------------------------------------------------------
  // Preview
  // ---------------------------------------------------------------------

  /** The image the preview shows: the generated wallpaper if there is one, otherwise the loaded image. */
  function DisplayImage(processed: Option<Image>, original: Option<Image>): (d: Option<Image>)
    ensures processed.Some? ==> d == processed
    ensures processed.None? ==> d == original
  {
    if processed.Some? then processed else original
  }

  /** Where the preview is drawn: canvas size, scaled image size and top-left corner. */
  datatype PreviewLayout = PreviewLayout(canvas: Size, image: Size, x: int, y: int)

  function AtLeastOne(n: int): (m: nat)
    ensures m >= 1 && m >= n && (n >= 1 ==> m == n)
  {
    if n >= 1 then n else 1
  }

  /** The wide branch of the preview fit: the width fills the canvas and the height follows. */
  function PreviewWide(iw: nat, ih: nat, cw: nat, ch: nat): (size: Size)
    requires iw > 0 && ih > 0 && cw > 0 && ch > 0 && WiderThan(iw, ih, cw, ch)
    ensures size.w == cw && size.h <= ch && size.h * iw <= cw * ih < (size.h + 1) * iw
  {
    var nh := cw * ih / iw;
    WideSide(iw, ih, cw, ch, nh);
    Size(cw, nh)
  }

  lemma WideSide(iw: nat, ih: nat, cw: nat, ch: nat, nh: nat)
    requires iw > 0 && iw * ch > cw * ih && nh == cw * ih / iw
    ensures nh <= ch && nh * iw <= cw * ih < (nh + 1) * iw
  {
    assert cw * ih < ch * iw;
    ScaledSide(cw, ih, iw, ch);
  }

  /** The tall branch of the preview fit: the height fills the canvas and the width follows. */
  function PreviewTall(iw: nat, ih: nat, cw: nat, ch: nat): (size: Size)
    requires iw > 0 && ih > 0 && cw > 0 && ch > 0 && !WiderThan(iw, ih, cw, ch)
    ensures size.h == ch && size.w <= cw && size.w * ih <= ch * iw < (size.w + 1) * ih
  {
    var nw := ch * iw / ih;
    TallSide(iw, ih, cw, ch, nw);
    Size(nw, ch)
  }

  lemma TallSide(iw: nat, ih: nat, cw: nat, ch: nat, nw: nat)
    requires ih > 0 && iw * ch <= cw * ih && nw == ch * iw / ih
    ensures nw <= cw && nw * ih <= ch * iw < (nw + 1) * ih
  {
    assert ch * iw < (cw + 1) * ih by {
      assert (cw + 1) * ih == cw * ih + ih;
    }
    ScaledSide(ch, iw, ih, cw + 1);
  }

  /** The preview fit scales in both directions, so the image may grow to fill the canvas. */
  function PreviewSize(iw: nat, ih: nat, cw: nat, ch: nat): (size: Size)
    requires iw > 0 && ih > 0 && cw > 0 && ch > 0
    ensures size.w <= cw && size.h <= ch
    ensures WiderThan(iw, ih, cw, ch) ==> size.w == cw && size.h * iw <= cw * ih < (size.h + 1) * iw
    ensures !WiderThan(iw, ih, cw, ch) ==> size.h == ch && size.w * ih <= ch * iw < (size.w + 1) * ih
  {
    if WiderThan(iw, ih, cw, ch) then PreviewWide(iw, ih, cw, ch) else PreviewTall(iw, ih, cw, ch)
  }

  /**
   * `update_preview`'s arithmetic: the canvas is at least 1 by 1, the image
   * is fitted inside it with one side touching, and it is centred with
   * `(canvas - preview) // 2`, so both corners lie inside the canvas.
   */
  function PreviewFit(winW: int, winH: int, img: Image): (p: PreviewLayout)
    requires img.Valid()
    ensures p.canvas == Size(AtLeastOne(winW), AtLeastOne(winH))
    ensures p.image == PreviewSize(img.width, img.height, p.canvas.w, p.canvas.h)
    ensures 0 <= p.x && p.x + p.image.w <= p.canvas.w && 0 <= p.y && p.y + p.image.h <= p.canvas.h
    ensures 0 <= (p.canvas.w - p.image.w) - 2 * p.x <= 1 && 0 <= (p.canvas.h - p.image.h) - 2 * p.y <= 1
  {
    var canvas := Size(AtLeastOne(winW), AtLeastOne(winH));
    var image := PreviewSize(img.width, img.height, canvas.w, canvas.h);
    PreviewLayout(canvas, image, CentreOffset(canvas.w, image.w), CentreOffset(canvas.h, image.h))
  }

  /** An image with the canvas's proportions fills the canvas exactly. */
  lemma PreviewOfSameShapeFills(winW: nat, winH: nat, img: Image)
    requires img.Valid() && winW > 0 && winH > 0
    requires img.width * winH == img.height * winW
    ensures PreviewFit(winW, winH, img).image == Size(winW, winH)
    ensures PreviewFit(winW, winH, img).x == 0 && PreviewFit(winW, winH, img).y == 0
  {
    var iw, ih := img.width, img.height;
    assert !WiderThan(iw, ih, winW, winH);
    var p := PreviewFit(winW, winH, img);
    assert p.image.w * ih <= winW * ih < (p.image.w + 1) * ih by {
      assert winH * iw == winW * ih;
    }
    ExactQuotient(p.image.w, ih, winW);
  }
}
