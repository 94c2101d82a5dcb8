/**
 * Choosing how the generated wallpaper is written to disk. The choice
 * depends only on the file name's extension, compared case-insensitively:
 * `.jpg`/`.jpeg` give JPEG at quality 95 (after dropping any alpha),
 * `.tiff` gives TIFF, and every other name, `.tif` included, gives PNG.
 * Writing the file itself is I/O and not modelled; the result says what
 * would be written.
 */
module Saving {
  import opened Wrappers
  import opened Imaging

  const JpegQuality := 95

  datatype Format = Jpeg(quality: nat) | Tiff | Png

  /** What one save call writes: the encoder and the pixels handed to it. */
  datatype Write = Write(format: Format, image: Image)

  /** `str.lower()` on the ASCII letters. */
  function Lower(s: string): (t: string)
    ensures |t| == |s|
    ensures forall i :: 0 <= i < |s| ==> t[i] == (if 'A' <= s[i] <= 'Z' then (s[i] as int + 32) as char else s[i])
  {
    if |s| == 0 then [] else Lower(s[..|s| - 1]) + [LowerChar(s[|s| - 1])]
  }

  function LowerChar(c: char): char {
    if 'A' <= c <= 'Z' then (c as int + 32) as char else c
  }

  predicate EndsWith(s: string, suffix: string) {
    |suffix| <= |s| && s[|s| - |suffix|..] == suffix
  }

  function FormatFor(filename: string): (f: Format)
    ensures f.Jpeg? <==> EndsWith(Lower(filename), ".jpg") || EndsWith(Lower(filename), ".jpeg")
    ensures f.Jpeg? ==> f.quality == JpegQuality
    ensures f == Tiff <==> !f.Jpeg? && EndsWith(Lower(filename), ".tiff")
  {
    var name := Lower(filename);
    if EndsWith(name, ".jpg") || EndsWith(name, ".jpeg") then Jpeg(JpegQuality)
    else if EndsWith(name, ".tiff") then Tiff
    else Png
  }

  /** The save action: nothing without a generated image; JPEG gets an RGB copy. */
  function SaveWallpaper(processed: Option<Image>, filename: string): (w: Option<Write>)
    requires processed.Some? ==> processed.value.Valid()
    ensures processed.None? <==> w.None?
    ensures w.Some? ==> w.value.format == FormatFor(filename)
    ensures w.Some? && w.value.format.Jpeg? ==> w.value.image == ToRGB(processed.value) && w.value.image.mode == RGB
    ensures w.Some? && !w.value.format.Jpeg? ==> w.value.image == processed.value
  {
    match processed
    case None => None
    case Some(img) =>
      var f := FormatFor(filename);
      Some(Write(f, if f.Jpeg? then ToRGB(img) else img))
  }

  lemma LowerIdempotent(s: string)
    ensures Lower(Lower(s)) == Lower(s)
  {
  }

  /** The extension test ignores case: upper-casing letters never changes the format. */
  lemma FormatIgnoresCase(filename: string)
    ensures FormatFor(Lower(filename)) == FormatFor(filename)
  {
    LowerIdempotent(filename);
  }

  /** A JPEG write never carries an alpha channel, whatever mode the image had. */
  lemma JpegWriteIsOpaque(processed: Option<Image>, filename: string)
    requires processed.Some? && processed.value.Valid()
    requires FormatFor(filename).Jpeg?
    ensures SaveWallpaper(processed, filename).value.format == Jpeg(95)
    ensures SaveWallpaper(processed, filename).value.image.mode == RGB
    ensures SaveWallpaper(processed, filename).value.image.Valid()
    ensures var img := SaveWallpaper(processed, filename).value.image;
            forall y, x :: 0 <= y < img.height && 0 <= x < img.width ==> img.rows[y][x].a == 255
  {
  }

  /** A name ending in a suffix of two or more characters ends in the suffix's last two characters. */
  lemma SuffixEnd(name: string, suffix: string)
    requires |suffix| >= 2
    ensures EndsWith(name, suffix) ==>
              name[|name| - 1] == suffix[|suffix| - 1] && name[|name| - 2] == suffix[|suffix| - 2]
  {
    if EndsWith(name, suffix) {
      assert name[|name| - |suffix|..][|suffix| - 1] == suffix[|suffix| - 1];
      assert name[|name| - |suffix|..][|suffix| - 2] == suffix[|suffix| - 2];
    }
  }

  /** The four-letter `.tif` spelling, in any case, is not recognised and falls through to PNG. */
  lemma ShortTiffIsPng(filename: string)
    requires EndsWith(Lower(filename), ".tif")
    ensures FormatFor(filename) == Png
  {
    var name := Lower(filename);
    SuffixEnd(name, ".tif");
    SuffixEnd(name, ".jpg");
    SuffixEnd(name, ".jpeg");
    SuffixEnd(name, ".tiff");
  }

  /** A name ending in `.tiff`, in any case, is written as TIFF. */
  lemma TiffSuffixGivesTiff(filename: string)
    requires EndsWith(Lower(filename), ".tiff")
    ensures FormatFor(filename) == Tiff
  {
    var name := Lower(filename);
    SuffixEnd(name, ".tiff");
    SuffixEnd(name, ".jpg");
    SuffixEnd(name, ".jpeg");
  }

  /** A name ending in `.jpg`, in any case, is written as JPEG at quality 95. */
  lemma JpgSuffixGivesJpeg(filename: string)
    requires EndsWith(Lower(filename), ".jpg")
    ensures FormatFor(filename) == Jpeg(95)
  {
  }

  /** `a.JPG`, `a.Tiff` and `a.TIF` as instances of the three rules. */
  lemma SuffixExamples()
    ensures FormatFor("a.JPG") == Jpeg(95)
    ensures FormatFor("a.Tiff") == Tiff
    ensures FormatFor("a.TIF") == Png
  {
    assert Lower("a.JPG") == "a.jpg";
    assert "a.jpg"[1..] == ".jpg";
    JpgSuffixGivesJpeg("a.JPG");
    assert Lower("a.Tiff") == "a.tiff";
    assert "a.tiff"[1..] == ".tiff";
    TiffSuffixGivesTiff("a.Tiff");
    assert Lower("a.TIF") == "a.tif";
    assert "a.tif"[1..] == ".tif";
    ShortTiffIsPng("a.TIF");
  }
}
