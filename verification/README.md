# LazyPaper wallpaper compositor, modelled in Dafny

LazyPaper turns one photo into a wallpaper of a chosen resolution. The
subject can have its background removed, optionally with a white outline.
It is contain-fitted into the target and placed left, centre or right, then
shifted by a user offset. It sits on a solid colour or on a blurred,
cover-fitted copy of the photo. The background colour can be white, black,
a custom hex colour, or the photo's "dominant" colour. The dominant colour
is the most common border colour when that colour is frequent enough, and
the mean colour otherwise. Both the background removal and the dominant
colour are cached in a one-entry cache keyed by a hash of the image.

The model is purely functional. Images are `Imaging.Image` values: a mode
(RGB or RGBA), a size and rows of pixels. The numeric PIL operations are
function-valued fields of `Oracles.Oracles`, constrained only by the
properties the compositor relies on. These operations are resampling,
Gaussian blur, thumbnailing, mask blending and alpha compositing, together
with the `rembg` remover and Python's `hash`. `ValidOracles` says that sizes
and modes come out as PIL promises, and that a fully opaque or fully
transparent source pixel blends as expected. Each cache is a
`SingleSlot.Slot` value that an operation takes and returns, instead of a
mutable field.

Modules, following the program's structure:

- `Imaging`: pixels, images, mode conversion, the image border.
- `Oracles`: the primitives the program borrows from PIL, rembg and Python.
- `Tally`: `Counter.most_common(1)`, including its first-seen tie-break.
- `SingleSlot`: the one-entry caches.
- `ColorAnalysis`: `detect_uniform_background` and `get_dominant_color`.
- `Geometry`: the contain, cover and preview fits, centring and placement.
- `Compose`: the backdrops and the two kinds of paste.
- `Outline`: `add_outline_to_image`.
- `Removal`: `remove_background`, with its cache and its downscaling of large inputs.
- `Compositor`: `generate_wallpaper`.
- `Saving`: the file format chosen by `save_wallpaper`.
- `PyInt`: Python's `int(text, base)` for bases 10 and 16, with its inverse formatting.
- `Gui`: the resolution table and `get_target_resolution`, `get_background_color`, `nudge`, the key and button bindings, `update_options`, and the preview-fit arithmetic of `update_preview`.

Ratios are compared by cross-multiplication, for example `w * th > tw * h`
for `w / h > tw / th`. A truncating `int(a / b)` is integer division.
Percent thresholds become integer inequalities: `5 * count > 4 * total` for
"more than 80%" and `10 * count > 3 * total` for "more than 30%".

The compositor never enlarges the subject: the contain fit takes
`min(target, own size)` for the side chosen by the ratio test. An 800×600
photo centred on a 1920×1080 wallpaper therefore stays 800×600 and lands at
(560, 240), as `Compositor.CentredPhotoScenario` proves.

`generate_wallpaper` returns `None` for every failure. The model returns a
`Compositor.Failure` that names which failure occurred: no image, removal
failed, a non-positive target, or a contain fit with a side of 0 (PIL's
`resize` raises for it).

## Model

| member | source | states |
|---|---|---|
| Imaging.Border | lazypaper/logic.py:70-76 | the border is the top row, then the bottom row, then the left column, then the right column, each pixel by pixel, corners counted twice, so it has 2w + 2h colours |
| Imaging.ToRGB | lazypaper/logic.py:308-310 | dropping alpha keeps every colour, makes every pixel opaque and keeps the size |
| Tally.MostCommon | lazypaper/logic.py:79-80 | the reported colour occurs, its count is exact, no colour occurs more often, and every colour seen before it occurs strictly less often (first-seen tie-break) |
| Tally.ScanMode | lazypaper/logic.py:79-80 | scanning from any position keeps the first colour of highest count among those scanned |
| Tally.FirstModeUnique | lazypaper/logic.py:79-80 | there is only one first-seen most common element |
| Tally.CountConcat | lazypaper/logic.py:72-76 | counting over concatenated border parts adds the parts' counts |
| ColorAnalysis.UniformBorder | lazypaper/logic.py:76-81 | true exactly when some colour makes up more than 80% of the border |
| ColorAnalysis.UniformBackground | lazypaper/logic.py:65-81 | no image gives false; otherwise true exactly when some border colour exceeds 80% |
| ColorAnalysis.SolidBorderIsUniform | lazypaper/logic.py:65-81 | an image whose whole border is one colour has a uniform background |
| ColorAnalysis.SumBounds | lazypaper/logic.py:222 | a channel sum of n colours, each within [lo, hi], lies within [n * lo, n * hi] |
| ColorAnalysis.MeanColor | lazypaper/logic.py:222-223 | each channel of the mean is the truncated quotient of the channel sum by the count |
| ColorAnalysis.MeanWithinBounds | lazypaper/logic.py:222-223 | the mean of colours whose channel lies in [lo, hi] lies in [lo, hi] |
| ColorAnalysis.MeanOfSolidColors | lazypaper/logic.py:222-223 | the mean of copies of one colour is that colour |
| ColorAnalysis.Visible | lazypaper/logic.py:183-187 | every colour occurs exactly as often as there are pixels of that colour with alpha above 10; empty exactly when every alpha is at most 10 |
| Imaging.Pixels | lazypaper/logic.py:179-193 | a valid image flattens to width × height pixels in row-major order: pixel (x, y) is at index `Offset(width, y, x)` = y × width + x |
| Imaging.FlattenAt | lazypaper/logic.py:193 | rows of one width laid end to end put pixel (x, y) at index y × w + x |
| ColorAnalysis.AnalysedColors | lazypaper/logic.py:183-196 | the analysed colours are empty exactly when the thumbnail is fully transparent; for an RGB thumbnail they are every pixel's colour in row-major order; for an RGBA thumbnail each colour occurs exactly as often as pixels of that colour with alpha above 10 |
| ColorAnalysis.VisibleOfTransparent | lazypaper/logic.py:185-190 | no flattened pixel has alpha above 10 exactly when every pixel of the thumbnail has alpha at most 10 |
| ColorAnalysis.DominantOf | lazypaper/logic.py:183-223 | none for a fully transparent thumbnail; the most common border colour when it exceeds 30% of the border; otherwise the mean of the analysed colours |
| ColorAnalysis.DominantColor | lazypaper/logic.py:167-231 | a cache hit returns the stored colour and keeps the cache; a miss on a fully transparent thumbnail returns white and keeps the cache; any other miss returns the dominant colour and stores it under the hash |
| ColorAnalysis.DominantColorRepeatable | lazypaper/logic.py:169-172 | a second call on the same image returns the same colour and cache |
| ColorAnalysis.DominantColorHitIgnoresPixels | lazypaper/logic.py:170-172 | a hit depends only on the hash, not on the pixels or the resampling |
| Removal.RemoverInput | lazypaper/logic.py:96-99 | an image of more than 2000 * 2000 pixels is shrunk into 1500 by 1500 before removal; a smaller one is sent as it is |
| Removal.RemoveUncached | lazypaper/logic.py:94-118 | fails exactly when the remover fails; a small input gets the remover's own answer; a large input gets the remover's answer on the shrunk copy, resized back to the input's size; a success is RGBA and has the input's size |
| Removal.RemoveBackground | lazypaper/logic.py:85-126 | unavailable gives nothing and keeps the cache; a hit returns the cached cut-out; a miss answers what an uncached removal answers; a failed miss keeps the cache; a successful miss stores that cut-out under the hash |
| Removal.RemoveBackgroundRepeatable | lazypaper/logic.py:89-92 | after a success, removing the same image again is a hit with the same answer and cache |
| Removal.HitIgnoresRemover | lazypaper/logic.py:89-92 | on a hit the remover is not consulted |
| Outline.Halo | lazypaper/logic.py:132-139 | the halo is 255 exactly where the alpha band, blurred with radius outline_width / 2, exceeds 10, and 0 elsewhere |
| Outline.HaloMask | lazypaper/logic.py:137-139 | the mask is 255 exactly where the blurred alpha exceeds 10, and 0 elsewhere |
| Outline.AddOutline | lazypaper/logic.py:129-146 | the result is RGBA and the same size; opaque pixels are unchanged; fully transparent pixels become white with the halo mask as alpha |
| Outline.OutlineOfOpaqueImage | lazypaper/logic.py:131-146 | outlining an opaque image only converts it to RGBA |
| Geometry.ContainFit | lazypaper/logic.py:261-269 | the fitted size is within the target and within the image; the side chosen by the ratio test is min(target, own), and the other is the proportional length truncated |
| Geometry.ContainFitKeepsFittingSubject | lazypaper/logic.py:265-272 | an image that already fits keeps its size, so it is not resampled |
| Geometry.CoverFit | lazypaper/logic.py:149-158 | the backdrop size covers the target, one side equals the target's, and the other is the proportional length truncated |
| Geometry.CentreOffset | lazypaper/logic.py:162-163 | the centring offset splits the slack so the two margins differ by at most one |
| Geometry.CentredCoverCovers | lazypaper/logic.py:159-164 | a centred copy at least as large as the target covers all of it |
| Geometry.ParsePosition | lazypaper/logic.py:275-284 | "left" and "right" are recognised and every other value centres |
| Geometry.PlaceX | lazypaper/logic.py:279-284 | left placement starts at the offset; right placement ends at the target's edge plus the offset; centred placement balances the margins |
| Geometry.PlaceY | lazypaper/logic.py:285 | the vertical position is always centred, then shifted by the offset |
| Geometry.PlacementInside | lazypaper/logic.py:274-285 | with zero offsets a fitted subject lies inside the target for every position |
| Compose.SolidCanvas | lazypaper/logic.py:258-259 | an RGB canvas of the target size in the background colour |
| Compose.PasteOpaque | lazypaper/logic.py:294-295 | pixels outside the pasted footprint are kept; covered pixels take the source colour, clipped to the canvas |
| Compose.PasteComposite | lazypaper/logic.py:287-293 | pixels outside the footprint are kept; opaque subject pixels replace the canvas colour; fully transparent ones leave it |
| Compose.BlurredCopy | lazypaper/logic.py:159-160 | the copy behind a blurred backdrop has the cover-fit size |
| Compose.BlurredCanvas | lazypaper/logic.py:149-165 | the blurred cover copy is centred with non-positive offsets, and every target pixel comes from it, so no black shows |
| Compositor.PrepareSubject | lazypaper/logic.py:242-252 | without removal the subject is the original; with removal it is the cut-out, outlined if asked; a failed removal fails with no fallback |
| Compositor.Backdrop | lazypaper/logic.py:254-259 | a blurred backdrop exactly when blur is on and removal is off; otherwise every pixel has the background colour |
| Compositor.FitSubject | lazypaper/logic.py:261-272 | the subject gets the contain-fit size, is left untouched when that size is its own, and is refused when a side is 0 |
| Compositor.Place | lazypaper/logic.py:274-295 | at the position chosen by PlaceX and PlaceY, canvas pixels outside the subject are kept, opaque subject pixels replace the canvas colour and fully transparent ones leave it, for RGB and RGBA subjects alike |
| Compositor.Generate | lazypaper/logic.py:234-301 | no image fails and keeps the cache; a failed removal fails; a non-positive target fails and is the only cause of that failure; the cache changes only when removal is asked; a success is an RGB image of exactly the target size |
| Compositor.GeneratePixels | lazypaper/logic.py:261-297 | in a successful result, pixels outside the subject's footprint are backdrop pixels, opaque subject pixels show through, and transparent ones show the backdrop |
| Compositor.OutlineFlagInertWithoutRemoval | lazypaper/logic.py:243-252 | without available removal, the outline flag changes neither the result nor the cache |
| Compositor.BlurFlagInertWithRemoval | lazypaper/logic.py:255-259 | with removal asked, the blur flag changes nothing |
| Compositor.CentredPhotoScenario | lazypaper/logic.py:234-297 | an 800×600 opaque photo, centred on a 1920×1080 black wallpaper, is copied unscaled to (560, 240), with black everywhere else |
| Saving.FormatFor | lazypaper/logic.py:308-313 | JPEG at quality 95 exactly for names ending, case-insensitively, in .jpg or .jpeg; TIFF exactly for other names ending in .tiff; PNG for all the rest |
| Saving.SaveWallpaper | lazypaper/logic.py:304-313 | nothing is written without a generated image; JPEG writes an RGB copy; other formats write the image as it is |
| Saving.FormatIgnoresCase | lazypaper/logic.py:308-311 | lower-casing the name never changes the format |
| Saving.JpegWriteIsOpaque | lazypaper/logic.py:308-310 | every JPEG write is quality 95 and a valid RGB image whose every pixel is opaque |
| Saving.ShortTiffIsPng | lazypaper/logic.py:308-313 | every name ending in .tif, in any case, is saved as PNG |
| Saving.TiffSuffixGivesTiff | lazypaper/logic.py:308-312 | every name ending in .tiff, in any case, is saved as TIFF |
| Saving.JpgSuffixGivesJpeg | lazypaper/logic.py:308-310 | every name ending in .jpg, in any case, is saved as JPEG at quality 95 |
| Saving.SuffixExamples | lazypaper/logic.py:308-313 | "a.JPG" is JPEG, "a.Tiff" is TIFF and "a.TIF" is PNG |
| PyInt.ParseInt | lazypaper/gui.py:393-394 | after surrounding whitespace, an optional sign and in base 16 an optional 0x prefix, the text parses exactly when the rest is well-formed digits within the 4300-digit decimal limit, to their value, negated after a minus sign |
| PyInt.DecimalDigits | lazypaper/gui.py:393-394 | the decimal spelling of n is a well-formed digit string whose value is n |
| PyInt.ParseDecimal | lazypaper/gui.py:393-394 | parsing the decimal spelling of n gives n when it has at most 4300 digits, and fails otherwise |
| PyInt.ParseHex2 | lazypaper/gui.py:441 | parsing the two-digit hex spelling of a byte gives the byte |
| PyInt.ParseBareDigits | lazypaper/gui.py:393-394 | a bare well-formed digit string parses to the value it spells, unless it exceeds the decimal digit limit |
| PyInt.ParseNegatedDigits | lazypaper/gui.py:393-395 | a minus sign before well-formed digits gives the negated value, within the digit limit |
| PyInt.SurroundingSpaceIgnored | lazypaper/gui.py:393-394 | any amount of whitespace before and after the text does not change the parse |
| PyInt.SeparatorIsNotSpace | lazypaper/gui.py:393-394 | text starting with one of the separators 0x1C-0x1F is refused, in both bases |
| PyInt.EmptyDoesNotParse | lazypaper/gui.py:441-443 | the empty string is not a number |
| Gui.PresetsArePositive | lazypaper/logic.py:36-48 | every preset size is positive, and only the custom entry has no size |
| Gui.CustomResolution | lazypaper/gui.py:391-397 | the typed size is accepted exactly when both fields parse as decimals, as `int()` reads them, and both are positive |
| Gui.TargetResolution | lazypaper/gui.py:384-401 | the answer is always positive; no selection gives 1920×1080; the custom entry gives the typed size or 1920×1080; a preset gives its table size; an unknown name gives 1920×1080 |
| Gui.CustomResolutionRoundTrip | lazypaper/gui.py:391-400 | a positive size typed in decimal is used exactly, unless a side has more than 4300 digits, which falls back to 1920×1080 |
| Gui.InitialCustomFields | lazypaper/gui.py:215-216 | the fields' initial text selects 1920×1080 |
| Gui.NonPositiveCustomFallsBack | lazypaper/gui.py:391-400 | a field that does not parse or parses to a value of at most 0 gives 1920×1080; conversely 1920×1080 comes only from such a field or from typing 1920 and 1080 |
| Gui.SignedFieldsFallBack | lazypaper/gui.py:391-400 | a minus sign before digits, or a bare 0, in the width falls back to 1920×1080 |
| Gui.FrontEndTargetIsAccepted | lazypaper/gui.py:384-401 | a size from the front end never makes generation fail for an invalid target |
| Gui.StripHashes | lazypaper/gui.py:440 | all leading '#' characters, and only those, are removed |
| Gui.Slice | lazypaper/gui.py:441 | Python slicing of s[i:j]: the plain slice within bounds; the tail from i when j passes the end; empty when i is at or past the end or j <= i |
| Gui.CustomColor | lazypaper/gui.py:438-443 | the three two-character slices are read as hex; any failure gives white |
| Gui.CustomColorRoundTrip | lazypaper/gui.py:438-441 | a colour written as `#rrggbb`, with any number of leading '#', reads back as itself |
| Gui.InitialCustomColorIsWhite | lazypaper/gui.py:245 | the initial custom colour "#FFFFFF" is white |
| Gui.SeparatorInColorIsWhite | lazypaper/gui.py:438-443 | a colour text starting with a 0x1C-0x1F separator gives white |
| Gui.ShortCustomColorIsWhite | lazypaper/gui.py:441-443 | a colour string with fewer than five hex characters gives white |
| Gui.BackgroundColor | lazypaper/gui.py:431-447 | white and black are fixed; custom reads the colour string; any other option gives the dominant colour of the loaded image, or white with no image; only the automatic option touches the cache, and only custom can leave 0..255 |
| Gui.Nudge | lazypaper/gui.py:403-407 | the offset moves by exactly (dx, dy) |
| Gui.NudgeComposes | lazypaper/gui.py:403-406 | two nudges add up to one |
| Gui.KeyStepSizes | lazypaper/gui.py:325-330 | each bound key moves along one axis, by 1 with Shift and by 10 without |
| Gui.OppositeKeysCancel | lazypaper/gui.py:325-332 | a key followed by its opposite restores the offset |
| Gui.NudgeButtonsMatchGrid | lazypaper/gui.py:284-293 | each of the nine buttons moves the subject towards its place in the 3 by 3 grid, 10 per axis |
| Gui.OutlineCheckEnabled | lazypaper/gui.py:409-414 | the outline check box is enabled exactly when removal is chosen and available |
| Gui.DisabledOutlineCheckIsInert | lazypaper/gui.py:409-414 | whenever the check box is disabled, its value cannot change the wallpaper |
| Gui.DisplayImage | lazypaper/gui.py:552 | the preview shows the generated wallpaper if there is one, else the loaded image |
| Gui.PreviewSize | lazypaper/gui.py:565-570 | the preview fits the canvas with one side touching and the other the proportional length truncated; it may enlarge |
| Gui.PreviewFit | lazypaper/gui.py:558-585 | the canvas is at least 1 by 1; the fitted preview is centred with margins differing by at most one and lies inside the canvas |
| Gui.PreviewOfSameShapeFills | lazypaper/gui.py:558-585 | every image with exactly the canvas's proportions fills the canvas exactly, at (0, 0) |

## Left out

- Tk widgets, message boxes, threads, the 100 ms debounce, mouse dragging, file dialogs, image loading and file writing are left out. They are I/O or UI state. Their inputs appear as parameters.
- `analyze_image` is left out. It formats an information text from the size, the mode and `detect_uniform_background`. Only the last of these is modelled.
- The numerics of PIL and rembg are not modelled: LANCZOS resampling, Gaussian blur, thumbnailing, the remover's segmentation, and mask and alpha blending. They are parameters constrained only by size, mode and the fully opaque or fully transparent cases.
- Only the RGB and RGBA modes are modelled. Greyscale and palette inputs are not.
- Compose.PasteComposite: states the result only for fully opaque and fully transparent subject pixels. Partial alpha blends through the unconstrained compositing primitive.
- Compositor.GeneratePixels: inherits the same restriction to alpha 0 and 255.
- Outline.AddOutline: says nothing about pixels with partial alpha, for the same reason.
- Geometry.ContainFit: uses exact rational comparisons and truncation. The source uses floats, which can differ by one pixel when a ratio is not exactly representable.
- Geometry.CoverFit: uses exact rationals for the same reason.
- Gui.PreviewSize: uses exact rationals for the same reason.
- ColorAnalysis.UniformBackground: compares against 80% exactly instead of in floating point.
- ColorAnalysis.DominantOf: compares against 30% exactly instead of in floating point.
- ColorAnalysis.DominantColor: a cache hit trusts the hash. Two different images with equal hashes get the stored colour, as in the source.
- Removal.RemoveBackground: trusts the hash in the same way. The remover is assumed to return an image the size of its input.
- The outer `except` of `get_dominant_color`, which answers white on any error, has no counterpart. The model's analysis cannot fail.
- PyInt.ParseInt: accepts ASCII whitespace and ASCII digits only. Python also accepts Unicode whitespace and digits. The decimal digit limit is Python's default of 4300; an interpreter older than 3.11 has no limit, and one configured with another limit refuses at that limit instead.
- Saving.Lower: folds ASCII letters only. Python's `str.lower` folds all of Unicode.
- Gui.BackgroundColor: custom components are not range-checked, as in the source. A string like "#-1-1-1" parses to negative parts. What PIL then does with such a colour is not modelled, because `Compositor.Request` carries a byte colour.
- The preview's cache of rendered images, keyed by object identity, is left out. It affects speed, not what is drawn.
- A preview side that truncates to 0 is left out. PIL's resize would raise in the Tk callback, and the model just reports the size.
- The resolution labels "Mobile HD (1080x2150)", "Mobile QHD (1170x2532)" and "Tablet Android Full HD (2048x2732)" name sizes that differ from the sizes they map to. The model keeps the mapped sizes the program uses.
