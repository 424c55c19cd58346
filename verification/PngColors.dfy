/**
 * From samples to RGBA pixels for every colour type, and images of samples packed into rows.
 */
module PngColors {
  import opened Bytes
  import opened PngBits
  import opened PngFilter
  import opened PngRaster
  import opened PngPixels

  // ---------- Scaling ----------

  /** A sample scaled to eight bits and truncated to a byte. */
  function ScaleTo8(sample: nat, depth: nat): Byte {
    if depth == 16 then (sample + 128) / 257 % 256
    else if depth == 1 then if sample != 0 then 255 else 0
    else if depth == 2 then sample * 85 % 256
    else if depth == 4 then sample * 17 % 256
    else sample % 256
  }

  /** Scaling maps the range of the samples onto 0 to 255, rounding to the nearest. */
  lemma ScaleIsNearest(sample: nat, depth: nat)
    requires DepthOk(depth) && sample < Pow2(depth)
    ensures 2 * Abs(ScaleTo8(sample, depth) * (Pow2(depth) - 1) - 255 * sample) < Pow2(depth) - 1
  {
    hide Pow2;
    SmallPowers();
    Pow16();
    if depth == 16 {
      ScaleWords(sample);
    } else if depth == 8 {
      assert ScaleTo8(sample, 8) == sample;
    } else if depth == 4 {
      assert ScaleTo8(sample, 4) == 17 * sample;
    } else if depth == 2 {
      assert ScaleTo8(sample, 2) == 85 * sample;
    }
  }

  lemma ScaleWords(sample: nat)
    requires sample < 0x1_0000
    ensures 2 * Abs(ScaleTo8(sample, 16) * 0xFFFF - 255 * sample) < 0xFFFF
  {
    var q := (sample + 128) / 257;
    assert 257 * q <= sample + 128 < 257 * q + 257 && q < 256;
    assert ScaleTo8(sample, 16) == q;
    assert q * 0xFFFF - 255 * sample == 255 * (257 * q - sample);
  }

  // ---------- Colours ----------

  function Word(t: seq<Byte>, i: nat): nat
    requires i + 1 < |t|
  {
    var hi: nat, lo: nat := t[i], t[i + 1];
    256 * hi + lo
  }

  /** Grey and RGB images may name one colour that is transparent. */
  predicate IsTransparent(fmt: Format, s: seq<nat>)
    requires |s| == Channels(fmt.color)
  {
    match fmt.trns
    case None => false
    case Some(t) =>
      || (fmt.color == 0 && |t| >= 2 && Word(t, 0) == s[0])
      || (fmt.color == 2 && |t| >= 6 && Word(t, 0) == s[0] && Word(t, 2) == s[1] && Word(t, 4) == s[2])
  }

  function PaletteColor(fmt: Format, idx: nat): Result<Pixel, PngError> {
    match fmt.plte
    case None => Err(PaletteMissing)
    case Some(pal) =>
      if idx * 3 + 2 >= |pal| then Err(PaletteRange) else
      var a: Byte := if fmt.trns.Some? && idx < |fmt.trns.value| then fmt.trns.value[idx] else 255;
      Ok([pal[idx * 3], pal[idx * 3 + 1], pal[idx * 3 + 2], a])
  }

  /** The pixel of a pixel's samples. */
  function Color(fmt: Format, s: seq<nat>): Result<Pixel, PngError>
    requires |s| == Channels(fmt.color)
  {
    var v := ScaleTo8(s[0], fmt.depth);
    var a: Byte := if IsTransparent(fmt, s) then 0 else 255;
    if fmt.color == 0 then Ok([v, v, v, a])
    else if fmt.color == 4 then Ok([v, v, v, ScaleTo8(s[1], fmt.depth)])
    else if fmt.color == 2 then Ok([v, ScaleTo8(s[1], fmt.depth), ScaleTo8(s[2], fmt.depth), a])
    else if fmt.color == 6 then
      Ok([v, ScaleTo8(s[1], fmt.depth), ScaleTo8(s[2], fmt.depth), ScaleTo8(s[3], fmt.depth)])
    else PaletteColor(fmt, s[0])
  }

  /** The one error that pixels of a format can have. */
  function PixelError(fmt: Format): PngError {
    if fmt.plte.None? then PaletteMissing else PaletteRange
  }

  lemma ColorFails(fmt: Format, s: seq<nat>)
    requires |s| == Channels(fmt.color)
    ensures Color(fmt, s).Err? ==> Color(fmt, s) == Err(PixelError(fmt))
  {
  }

  // ---------- Pixels of packed rows ----------

  lemma SampleInside(fmt: Format, w: nat, x: nat, c: nat)
    requires FormatOk(fmt) && x < w && c < Channels(fmt.color)
    ensures x * Channels(fmt.color) + c < w * Channels(fmt.color)
    ensures PackedBytes(x * Channels(fmt.color) + c + 1, fmt.depth) <= RowBytes(fmt, w)
  {
    RowBytesPacked(fmt, w);
    if Channels(fmt.color) == 1 {
    } else if Channels(fmt.color) == 2 {
    } else if Channels(fmt.color) == 3 {
    }
  }

  function ChannelSample(fmt: Format, row: seq<Byte>, w: nat, x: nat, c: nat): nat
    requires FormatOk(fmt) && x < w && |row| == RowBytes(fmt, w) && c < Channels(fmt.color)
  {
    SampleInside(fmt, w, x, c);
    GetSample(row, x * Channels(fmt.color) + c, fmt.depth)
  }

  function SamplesOf(fmt: Format, row: seq<Byte>, w: nat, x: nat): (r: seq<nat>)
    requires FormatOk(fmt) && x < w && |row| == RowBytes(fmt, w)
    ensures |r| == Channels(fmt.color)
  {
    seq(Channels(fmt.color), c requires 0 <= c < Channels(fmt.color) => ChannelSample(fmt, row, w, x, c))
  }

  /** Row `y` of unfiltered data. */
  function DataRow(fmt: Format, d: seq<Byte>, w: nat, y: nat): (r: seq<Byte>)
    requires Rows(y + 1, RowBytes(fmt, w)) <= |d|
    ensures |r| == RowBytes(fmt, w)
  {
    RowsStep(y, RowBytes(fmt, w));
    d[Rows(y, RowBytes(fmt, w))..Rows(y + 1, RowBytes(fmt, w))]
  }

  /** The pixel of unfiltered data at (x, y). */
  function ColorAt(fmt: Format, d: seq<Byte>, w: nat, x: nat, y: nat): Result<Pixel, PngError>
    requires FormatOk(fmt)
  {
    if x < w && Rows(y + 1, RowBytes(fmt, w)) <= |d| then Color(fmt, SamplesOf(fmt, DataRow(fmt, d, w, y), w, x))
    else Ok([0, 0, 0, 0])
  }

  ghost predicate AllColored(fmt: Format, d: seq<Byte>, w: nat, h: nat)
    requires FormatOk(fmt)
  {
    forall x: nat, y: nat :: x < w && y < h ==> ColorAt(fmt, d, w, x, y).Ok?
  }

  function Shown(c: Result<Pixel, PngError>): Pixel {
    match c
    case Ok(p) => p
    case Err(_) => [0, 0, 0, 0]
  }

  function Colored(fmt: Format, d: seq<Byte>, w: nat): Raster
    requires FormatOk(fmt)
  {
    (x: nat, y: nat) => Shown(ColorAt(fmt, d, w, x, y))
  }

  // ---------- Images of samples ----------

  /** The sample of each channel of each pixel. */
  type Source = (nat, nat, nat) -> nat

  ghost predicate SourceOk(s: Source, depth: nat) {
    forall x: nat, y: nat, c: nat :: s(x, y, c) < Pow2(depth)
  }

  function PixelSamples(fmt: Format, s: Source, x: nat, y: nat): (r: seq<nat>)
    ensures |r| == Channels(fmt.color)
  {
    seq(Channels(fmt.color), c requires 0 <= c < Channels(fmt.color) => s(x, y, c))
  }

  function SourceColor(fmt: Format, s: Source, x: nat, y: nat): Result<Pixel, PngError> {
    Color(fmt, PixelSamples(fmt, s, x, y))
  }

  function SourceRaster(fmt: Format, s: Source): Raster {
    (x: nat, y: nat) => Shown(SourceColor(fmt, s, x, y))
  }

  function RowSamples(fmt: Format, s: Source, w: nat, y: nat): (r: seq<nat>)
    ensures |r| == w * Channels(fmt.color)
  {
    seq(w * Channels(fmt.color), i requires 0 <= i < w * Channels(fmt.color) =>
      s(i / Channels(fmt.color), y, i % Channels(fmt.color)))
  }

  lemma RowSamplesFit(fmt: Format, s: Source, w: nat, y: nat)
    requires SourceOk(s, fmt.depth)
    ensures SamplesFit(RowSamples(fmt, s, w, y), fmt.depth)
  {
    hide Pow2, Channels;
  }

  ghost function PackRow(fmt: Format, s: Source, w: nat, y: nat): (r: seq<Byte>)
    requires FormatOk(fmt) && SourceOk(s, fmt.depth)
    ensures |r| == RowBytes(fmt, w)
  {
    RowBytesPacked(fmt, w);
    RowSamplesFit(fmt, s, w, y);
    hide RowBytes, PackedBytes, RowSamples, SamplesFit, SourceOk;
    Pack(RowSamples(fmt, s, w, y), fmt.depth)
  }

  /** The packed rows of an image. */
  ghost function PackRows(fmt: Format, s: Source, w: nat, h: nat): (r: seq<Byte>)
    requires FormatOk(fmt) && SourceOk(s, fmt.depth)
    ensures |r| == Rows(h, RowBytes(fmt, w))
  {
    if h == 0 then RowsStep(0, RowBytes(fmt, w)); []
    else RowsStep(h - 1, RowBytes(fmt, w)); PackRows(fmt, s, w, h - 1) + PackRow(fmt, s, w, h - 1)
  }

  lemma {:induction false} RowBack(fmt: Format, s: Source, w: nat, h: nat, y: nat)
    requires FormatOk(fmt) && SourceOk(s, fmt.depth) && y < h
    ensures Rows(y + 1, RowBytes(fmt, w)) <= Rows(h, RowBytes(fmt, w))
    ensures DataRow(fmt, PackRows(fmt, s, w, h), w, y) == PackRow(fmt, s, w, y)
    decreases h
  {
    hide Rows, RowBytes, FormatOk, SourceOk, PackRow;
    RowsStep(h - 1, RowBytes(fmt, w));
    RowsStep(y, RowBytes(fmt, w));
    if y < h - 1 {
      RowBack(fmt, s, w, h - 1, y);
    }
  }

  lemma SamplesBack(fmt: Format, s: Source, w: nat, x: nat, y: nat)
    requires FormatOk(fmt) && SourceOk(s, fmt.depth) && x < w
    ensures SamplesOf(fmt, PackRow(fmt, s, w, y), w, x) == PixelSamples(fmt, s, x, y)
  {
    hide Pack, GetSample, Pow2, DepthOk, RowBytes, PackedBytes, Channels, SamplesFit, SourceOk;
    RowSamplesFit(fmt, s, w, y);
    forall c: nat | c < Channels(fmt.color)
      ensures SamplesOf(fmt, PackRow(fmt, s, w, y), w, x)[c] == s(x, y, c)
    {
      SampleInside(fmt, w, x, c);
      DivMod(Channels(fmt.color), x, c);
      SampleBack(RowSamples(fmt, s, w, y), fmt.depth, x * Channels(fmt.color) + c);
    }
  }

  lemma DivMod(n: nat, x: nat, c: nat)
    requires c < n <= 4
    ensures (x * n + c) / n == x && (x * n + c) % n == c
  {
    if n == 1 {
    } else if n == 2 {
    } else if n == 3 {
    }
  }

  /** A packed image shows the colours of its samples. */
  lemma PackedColor(fmt: Format, s: Source, w: nat, h: nat, x: nat, y: nat)
    requires FormatOk(fmt) && SourceOk(s, fmt.depth) && x < w && y < h
    ensures ColorAt(fmt, PackRows(fmt, s, w, h), w, x, y) == SourceColor(fmt, s, x, y)
  {
    hide Rows, RowBytes, FormatOk, SourceOk, PackRow, PackRows, DataRow, SamplesOf, Color, PixelSamples;
    RowBack(fmt, s, w, h, y);
    SamplesBack(fmt, s, w, x, y);
  }
}
