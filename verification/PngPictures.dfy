/**
 * What the picture of an image shows, for each colour type, in terms of its samples, palette and transparency
 * bytes alone.
 */
module PngPictures {
  import opened Bytes
  import opened PngFilter
  import opened PngRaster
  import opened PngPixels
  import opened PngColors
  import opened PngInterlace

  lemma PicturePixel(fmt: Format, s: Source, w: nat, h: nat, x: nat, y: nat)
    requires Picture(fmt, s, w, h).Ok? && x < w && y < h
    ensures Ok(PixelAt(Picture(fmt, s, w, h).value, w, x, y)) == SourceColor(fmt, s, x, y)
  {
    hide SourceColor, Render, PixelAt;
    assert SourceColor(fmt, s, x, y).Ok?;
    RenderPixel(SourceRaster(fmt, s), w, h, x, y);
  }

  /** Two bytes, the higher first, are the value. */
  predicate Names(t: seq<Byte>, at: nat, v: nat) {
    at + 1 < |t| && v / 256 == t[at] && v % 256 == t[at + 1]
  }

  /** Grey pixels show their sample three times, and are transparent exactly where it is the one named. */
  lemma GreyPicture(fmt: Format, s: Source, w: nat, h: nat, x: nat, y: nat)
    requires fmt.color == 0 && x < w && y < h
    ensures Picture(fmt, s, w, h).Ok?
    ensures var v := s(x, y, 0);
            var p := PixelAt(Picture(fmt, s, w, h).value, w, x, y);
            && p[0] == p[1] == p[2] == ScaleTo8(v, fmt.depth)
            && p[3] == if fmt.trns.Some? && Names(fmt.trns.value, 0, v) then 0 else 255
  {
    PicturePixel(fmt, s, w, h, x, y);
    hide Picture, PixelAt, ScaleTo8;
  }

  /** RGB pixels show their three samples, and are transparent exactly where they are the colour named. */
  lemma RgbPicture(fmt: Format, s: Source, w: nat, h: nat, x: nat, y: nat)
    requires fmt.color == 2 && x < w && y < h
    ensures Picture(fmt, s, w, h).Ok?
    ensures var r, g, b := s(x, y, 0), s(x, y, 1), s(x, y, 2);
            var p := PixelAt(Picture(fmt, s, w, h).value, w, x, y);
            && p[0] == ScaleTo8(r, fmt.depth) && p[1] == ScaleTo8(g, fmt.depth) && p[2] == ScaleTo8(b, fmt.depth)
            && p[3] == if fmt.trns.Some? && Names(fmt.trns.value, 0, r) && Names(fmt.trns.value, 2, g)
                          && Names(fmt.trns.value, 4, b) then 0 else 255
  {
    PicturePixel(fmt, s, w, h, x, y);
    hide Picture, PixelAt, ScaleTo8;
  }

  /** Grey pixels with alpha show their sample three times and their alpha sample. */
  lemma GreyAlphaPicture(fmt: Format, s: Source, w: nat, h: nat, x: nat, y: nat)
    requires fmt.color == 4 && x < w && y < h
    ensures Picture(fmt, s, w, h).Ok?
    ensures var p := PixelAt(Picture(fmt, s, w, h).value, w, x, y);
            p[0] == p[1] == p[2] == ScaleTo8(s(x, y, 0), fmt.depth) && p[3] == ScaleTo8(s(x, y, 1), fmt.depth)
  {
    PicturePixel(fmt, s, w, h, x, y);
    hide Picture, PixelAt, ScaleTo8;
  }

  /** RGBA pixels show their four samples. */
  lemma RgbaSamplesPicture(fmt: Format, s: Source, w: nat, h: nat, x: nat, y: nat, c: nat)
    requires fmt.color == 6 && x < w && y < h && c < 4
    ensures Picture(fmt, s, w, h).Ok?
    ensures PixelAt(Picture(fmt, s, w, h).value, w, x, y)[c] == ScaleTo8(s(x, y, c), fmt.depth)
  {
    PicturePixel(fmt, s, w, h, x, y);
    hide Picture, PixelAt, ScaleTo8;
  }

  /** The index leads to a whole entry of the palette. */
  predicate Listed(fmt: Format, i: nat) {
    fmt.plte.Some? && 3 * i + 3 <= |fmt.plte.value|
  }

  /** Palette pixels show the entry of their index, with the transparency byte of that index when there is one. */
  lemma PalettePicture(fmt: Format, s: Source, w: nat, h: nat, x: nat, y: nat)
    requires fmt.color == 3 && x < w && y < h && Picture(fmt, s, w, h).Ok?
    ensures var i := s(x, y, 0);
            var p := PixelAt(Picture(fmt, s, w, h).value, w, x, y);
            && Listed(fmt, i) && p[..3] == fmt.plte.value[3 * i..3 * i + 3]
            && p[3] == if fmt.trns.Some? && i < |fmt.trns.value| then fmt.trns.value[i] else 255
  {
    PicturePixel(fmt, s, w, h, x, y);
    hide Picture, PixelAt;
  }

  /** A palette image has a picture exactly when every index is listed. */
  lemma PaletteShown(fmt: Format, s: Source, w: nat, h: nat)
    requires fmt.color == 3
    ensures Picture(fmt, s, w, h).Ok? <==> forall x: nat, y: nat :: x < w && y < h ==> Listed(fmt, s(x, y, 0))
    ensures Picture(fmt, s, w, h).Err? ==>
              Picture(fmt, s, w, h).error == if fmt.plte.None? then PaletteMissing else PaletteRange
  {
    hide Render;
    forall x: nat, y: nat | x < w && y < h
      ensures SourceColor(fmt, s, x, y).Ok? <==> Listed(fmt, s(x, y, 0))
    {
    }
  }
}
