/**
 * Interlaced images on values: taking an image of samples apart into filtered passes, putting passes
 * together, and the theorems that relate the two and count the bytes.
 */
module PngInterlace {
  import opened Bytes
  import opened PngBits
  import opened PngFilter
  import opened PngAdam7
  import opened PngRaster
  import opened PngPixels
  import opened PngColors

  // ---------- Passes ----------

  /** The image that has each pixel from its pass. */
  ghost function Interlaced(fmt: Format, ds: seq<seq<Byte>>, w: nat): Raster
    requires FormatOk(fmt) && |ds| == 7
  {
    (x: nat, y: nat) =>
      var p := PassOf(x, y);
      Shown(ColorAt(fmt, ds[p], PassWidth(w, p), PassX(p, x), PassY(p, y)))
  }

  ghost function Assemble(fmt: Format, ds: seq<seq<Byte>>, w: nat, h: nat): seq<Byte>
    requires FormatOk(fmt) && |ds| == 7
  {
    Render(Interlaced(fmt, ds, w), w, h)
  }

  /** What a pass with no pixels leaves out of the data altogether. */
  predicate Empty(w: nat, h: nat, p: Pass) {
    PassWidth(w, p) == 0 || PassHeight(h, p) == 0
  }

  /** The bytes of a pass: a filter byte and the pixels for each row. */
  function PassLength(fmt: Format, w: nat, h: nat, p: Pass): nat {
    if Empty(w, h, p) then 0 else Rows(PassHeight(h, p), RowBytes(fmt, PassWidth(w, p)) + 1)
  }

  function Estimate(fmt: Format, w: nat, h: nat, p: nat): nat
    requires p <= 7
    decreases 7 - p
  {
    if p == 7 then 0 else PassLength(fmt, w, h, p) + Estimate(fmt, w, h, p + 1)
  }

  /** Unfiltered rows whose pixels all have a colour. */
  ghost function Unfolded(fmt: Format, raw: seq<Byte>, w: nat, h: nat): (r: Result<seq<Byte>, PngError>)
    requires FormatOk(fmt)
    ensures r.Ok? ==> |r.value| == Rows(h, RowBytes(fmt, w)) && AllColored(fmt, r.value, w, h)
  {
    match Unfiltered(raw, h, RowBytes(fmt, w), BytesPerPixel(fmt))
    case Err(e) => Err(e)
    case Ok(d) => if AllColored(fmt, d, w, h) then Ok(d) else Err(PixelError(fmt))
  }

  /** One pass from the front of the data. */
  ghost function UnfilterPass(fmt: Format, raw: seq<Byte>, w: nat, h: nat, p: Pass): (r: Result<seq<Byte>, PngError>)
    requires FormatOk(fmt)
    ensures r.Ok? ==> PassLength(fmt, w, h, p) <= |raw|
  {
    if Empty(w, h, p) then Ok([])
    else if PassLength(fmt, w, h, p) > |raw| then Err(ShortInterlaced)
    else Unfolded(fmt, raw[..PassLength(fmt, w, h, p)], PassWidth(w, p), PassHeight(h, p))
  }

  /** The pixel data of passes `|acc|` to 6. */
  ghost function UnfilterPasses(fmt: Format, acc: seq<seq<Byte>>, raw: seq<Byte>, w: nat, h: nat)
    : (r: Result<seq<seq<Byte>>, PngError>)
    requires FormatOk(fmt) && |acc| <= 7
    ensures r.Ok? ==> |r.value| == 7
    decreases 7 - |acc|
  {
    if |acc| == 7 then Ok(acc) else
    match UnfilterPass(fmt, raw, w, h, |acc|)
    case Err(e) => Err(e)
    case Ok(d) => UnfilterPasses(fmt, acc + [d], raw[PassLength(fmt, w, h, |acc|)..], w, h)
  }

  ghost function Deinterlaced(fmt: Format, raw: seq<Byte>, w: nat, h: nat): Result<seq<Byte>, PngError>
    requires FormatOk(fmt)
  {
    match UnfilterPasses(fmt, [], raw, w, h)
    case Err(e) => Err(e)
    case Ok(ds) => Ok(Assemble(fmt, ds, w, h))
  }

  // ---------- Taking an image apart ----------

  ghost predicate FiltersOk(filters: seq<seq<nat>>, h: nat) {
    && |filters| == 7
    && forall p: Pass :: |filters[p]| == PassHeight(h, p) && forall i :: 0 <= i < |filters[p]| ==> filters[p][i] <= 4
  }

  /** The samples of pass `p`. */
  function PassSource(s: Source, p: Pass): Source {
    (px: nat, py: nat, c: nat) => s(RealX(p, px), RealY(p, py), c)
  }

  lemma PassSourceOk(s: Source, depth: nat, p: Pass)
    requires SourceOk(s, depth)
    ensures SourceOk(PassSource(s, p), depth)
  {
    hide Pow2, RealX, RealY;
    forall px: nat, py: nat, c: nat
      ensures PassSource(s, p)(px, py, c) < Pow2(depth)
    {
      assert s(RealX(p, px), RealY(p, py), c) < Pow2(depth);
    }
  }

  ghost function PassData(fmt: Format, s: Source, w: nat, h: nat, p: Pass): (r: seq<Byte>)
    requires FormatOk(fmt) && SourceOk(s, fmt.depth)
    ensures |r| == Rows(PassHeight(h, p), RowBytes(fmt, PassWidth(w, p)))
  {
    PassSourceOk(s, fmt.depth, p);
    PackRows(fmt, PassSource(s, p), PassWidth(w, p), PassHeight(h, p))
  }

  ghost function FilterPass(filters: seq<seq<nat>>, fmt: Format, s: Source, w: nat, h: nat, p: Pass): (r: seq<Byte>)
    requires FiltersOk(filters, h) && FormatOk(fmt) && SourceOk(s, fmt.depth)
    ensures |r| == PassLength(fmt, w, h, p)
  {
    if Empty(w, h, p) then []
    else FilterRows(filters[p], PassData(fmt, s, w, h, p), [], RowBytes(fmt, PassWidth(w, p)), BytesPerPixel(fmt))
  }

  /** Passes `p` to 6, every row filtered. */
  ghost function FilterPasses(filters: seq<seq<nat>>, fmt: Format, s: Source, w: nat, h: nat, p: nat): (r: seq<Byte>)
    requires FiltersOk(filters, h) && FormatOk(fmt) && SourceOk(s, fmt.depth) && p <= 7
    ensures |r| == Estimate(fmt, w, h, p)
    decreases 7 - p
  {
    if p == 7 then [] else FilterPass(filters, fmt, s, w, h, p) + FilterPasses(filters, fmt, s, w, h, p + 1)
  }

  ghost function PassContent(fmt: Format, s: Source, w: nat, h: nat, p: Pass): seq<Byte>
    requires FormatOk(fmt) && SourceOk(s, fmt.depth)
  {
    if Empty(w, h, p) then [] else PassData(fmt, s, w, h, p)
  }

  /** Every pixel of the pass has a colour. */
  ghost predicate PassShown(fmt: Format, s: Source, w: nat, h: nat, p: Pass)
    requires FormatOk(fmt) && SourceOk(s, fmt.depth)
  {
    AllColored(fmt, PassContent(fmt, s, w, h, p), PassWidth(w, p), PassHeight(h, p))
  }

  lemma PassReads(filters: seq<seq<nat>>, fmt: Format, s: Source, w: nat, h: nat, p: Pass, rest: seq<Byte>)
    requires FiltersOk(filters, h) && FormatOk(fmt) && SourceOk(s, fmt.depth)
    ensures var raw := FilterPass(filters, fmt, s, w, h, p) + rest;
            && UnfilterPass(fmt, raw, w, h, p)
               == (if PassShown(fmt, s, w, h, p) then Ok(PassContent(fmt, s, w, h, p)) else Err(PixelError(fmt)))
            && raw[PassLength(fmt, w, h, p)..] == rest
  {
    hide FilterRows, Unfiltered, Rows, PassWidth, PassHeight, PassData, RowBytes, BytesPerPixel, ColorAt, FormatOk,
      SourceOk;
    if !Empty(w, h, p) {
      var coded := FilterPass(filters, fmt, s, w, h, p);
      ImageRoundTrip(filters[p], PassData(fmt, s, w, h, p), RowBytes(fmt, PassWidth(w, p)), BytesPerPixel(fmt), []);
      assert coded + [] == coded && (coded + rest)[..|coded|] == coded;
    } else {
      assert [] + rest == rest;
    }
  }

  lemma {:induction false} PassesRead(filters: seq<seq<nat>>, fmt: Format, s: Source, w: nat, h: nat,
      acc: seq<seq<Byte>>, tail: seq<Byte>)
    requires FiltersOk(filters, h) && FormatOk(fmt) && SourceOk(s, fmt.depth) && |acc| <= 7
    requires forall p: Pass :: p < |acc| ==> acc[p] == PassContent(fmt, s, w, h, p)
    ensures var r := UnfilterPasses(fmt, acc, FilterPasses(filters, fmt, s, w, h, |acc|) + tail, w, h);
            if forall p: Pass :: |acc| <= p ==> PassShown(fmt, s, w, h, p)
            then r.Ok? && forall p: Pass :: r.value[p] == PassContent(fmt, s, w, h, p)
            else r == Err(PixelError(fmt))
    decreases 7 - |acc|
  {
    hide FiltersOk, FilterPass, UnfilterPass, PassLength, PassContent, PassShown, FormatOk, SourceOk, PixelError;
    if |acc| < 7 {
      var p: Pass := |acc|;
      var rest := FilterPasses(filters, fmt, s, w, h, p + 1) + tail;
      assert FilterPasses(filters, fmt, s, w, h, p) + tail == FilterPass(filters, fmt, s, w, h, p) + rest;
      PassReads(filters, fmt, s, w, h, p, rest);
      PassesRead(filters, fmt, s, w, h, acc + [PassContent(fmt, s, w, h, p)], tail);
    }
  }

  /** A pixel of the image is found again in its pass. */
  lemma PixelBack(fmt: Format, s: Source, w: nat, h: nat, x: nat, y: nat)
    requires FormatOk(fmt) && SourceOk(s, fmt.depth) && x < w && y < h
    ensures var p := PassOf(x, y);
            && PassX(p, x) < PassWidth(w, p) && PassY(p, y) < PassHeight(h, p)
            && ColorAt(fmt, PassContent(fmt, s, w, h, p), PassWidth(w, p), PassX(p, x), PassY(p, y))
               == SourceColor(fmt, s, x, y)
  {
    hide PassWidth, PassHeight, RealX, RealY, PassX, PassY, PassOf, InPass, ColorAt, PackRows, FormatOk, SourceOk;
    var p := PassOf(x, y);
    OnePass(x, y, p);
    PixelInPass(w, h, p, x, y);
    PassPixel(fmt, s, w, h, p, PassX(p, x), PassY(p, y));
  }

  lemma PassPixel(fmt: Format, s: Source, w: nat, h: nat, p: Pass, px: nat, py: nat)
    requires FormatOk(fmt) && SourceOk(s, fmt.depth) && px < PassWidth(w, p) && py < PassHeight(h, p)
    ensures ColorAt(fmt, PassContent(fmt, s, w, h, p), PassWidth(w, p), px, py)
            == SourceColor(fmt, s, RealX(p, px), RealY(p, py))
  {
    hide PassWidth, PassHeight, RealX, RealY, ColorAt, PackRows, FormatOk, SourceOk, Color;
    PassSourceOk(s, fmt.depth, p);
    PackedColor(fmt, PassSource(s, p), PassWidth(w, p), PassHeight(h, p), px, py);
    assert PixelSamples(fmt, PassSource(s, p), px, py) == PixelSamples(fmt, s, RealX(p, px), RealY(p, py));
  }

  /** Every pixel of the image has a colour. */
  ghost predicate AllShown(fmt: Format, s: Source, w: nat, h: nat) {
    forall x: nat, y: nat :: x < w && y < h ==> SourceColor(fmt, s, x, y).Ok?
  }

  lemma PassesShown(fmt: Format, s: Source, w: nat, h: nat)
    requires FormatOk(fmt) && SourceOk(s, fmt.depth)
    ensures AllShown(fmt, s, w, h) <==> forall p: Pass :: PassShown(fmt, s, w, h, p)
  {
    hide PassWidth, PassHeight, RealX, RealY, PassX, PassY, PassOf, InPass, ColorAt, FormatOk, SourceOk, PassContent,
      SourceColor;
    forall p: Pass, px: nat, py: nat | AllShown(fmt, s, w, h) && px < PassWidth(w, p) && py < PassHeight(h, p)
      ensures ColorAt(fmt, PassContent(fmt, s, w, h, p), PassWidth(w, p), px, py).Ok?
    {
      PassInside(w, h, p, px, py);
      PassPixel(fmt, s, w, h, p, px, py);
    }
    forall x: nat, y: nat | (forall p: Pass :: PassShown(fmt, s, w, h, p)) && x < w && y < h
      ensures SourceColor(fmt, s, x, y).Ok?
    {
      PixelBack(fmt, s, w, h, x, y);
      assert PassShown(fmt, s, w, h, PassOf(x, y));
    }
  }

  lemma AssembleBack(fmt: Format, s: Source, w: nat, h: nat, ds: seq<seq<Byte>>)
    requires FormatOk(fmt) && SourceOk(s, fmt.depth) && |ds| == 7
    requires forall p: Pass :: ds[p] == PassContent(fmt, s, w, h, p)
    ensures Assemble(fmt, ds, w, h) == Render(SourceRaster(fmt, s), w, h)
  {
    hide PassWidth, PassHeight, PassX, PassY, PassOf, ColorAt, Render, PassContent, FormatOk, SourceOk, SourceColor;
    forall x: nat, y: nat | x < w && y < h
      ensures Interlaced(fmt, ds, w)(x, y) == SourceRaster(fmt, s)(x, y)
    {
      PixelBack(fmt, s, w, h, x, y);
    }
    SameRender(Interlaced(fmt, ds, w), SourceRaster(fmt, s), w, h);
  }

  /** What an image of samples shows: its colours, or the error of a pixel without one. */
  ghost function Picture(fmt: Format, s: Source, w: nat, h: nat): Result<seq<Byte>, PngError> {
    if AllShown(fmt, s, w, h) then Ok(Render(SourceRaster(fmt, s), w, h)) else Err(PixelError(fmt))
  }

  /** Any image of any format, split into the seven passes with any filter on every row, decodes to its
      colours, and fails exactly when a pixel has none; what follows the passes is not looked at. */
  lemma InterlaceRoundTrip(filters: seq<seq<nat>>, fmt: Format, s: Source, w: nat, h: nat, tail: seq<Byte>)
    requires FiltersOk(filters, h) && FormatOk(fmt) && SourceOk(s, fmt.depth)
    ensures Deinterlaced(fmt, FilterPasses(filters, fmt, s, w, h, 0) + tail, w, h) == Picture(fmt, s, w, h)
  {
    hide FiltersOk, FilterPasses, UnfilterPasses, Assemble, PassContent, FormatOk, SourceOk, AllShown, PassShown;
    PassesRead(filters, fmt, s, w, h, [], tail);
    PassesShown(fmt, s, w, h);
    if AllShown(fmt, s, w, h) {
      AssembleBack(fmt, s, w, h,
                   UnfilterPasses(fmt, [], FilterPasses(filters, fmt, s, w, h, 0) + tail, w, h).value);
    }
  }

  // ---------- How much is read ----------

  /** The data fails for being short only when it is shorter than the estimate; then it does fail, unless
      a bad filter type or a pixel without colour was met before; and only the estimated bytes are looked
      at. */
  lemma {:induction false} EstimateIsExact(fmt: Format, acc: seq<seq<Byte>>, raw: seq<Byte>, w: nat, h: nat)
    requires FormatOk(fmt) && |acc| <= 7
    ensures var need := Estimate(fmt, w, h, |acc|);
            var r := UnfilterPasses(fmt, acc, raw, w, h);
            if |raw| < need
            then r == Err(ShortInterlaced) || r == Err(InvalidFilter) || r == Err(PixelError(fmt))
            else r == UnfilterPasses(fmt, acc, raw[..need], w, h) && r != Err(ShortInterlaced) && r != Err(ShortData)
    decreases 7 - |acc|
  {
    hide PassLength, UnfilterPass, FormatOk;
    if |acc| < 7 {
      var p: Pass := |acc|;
      var len, need := PassLength(fmt, w, h, p), Estimate(fmt, w, h, p);
      PassReadsItsLength(fmt, raw, w, h, p);
      if len <= |raw| && UnfilterPass(fmt, raw, w, h, p).Ok? {
        EstimateIsExact(fmt, acc + [UnfilterPass(fmt, raw, w, h, p).value], raw[len..], w, h);
      }
      if need <= |raw| {
        PassReadsItsLength(fmt, raw[..need], w, h, p);
        assert raw[..need][..len] == raw[..len];
        assert raw[..need][len..] == raw[len..][..Estimate(fmt, w, h, p + 1)];
      }
    }
  }

  lemma PassReadsItsLength(fmt: Format, raw: seq<Byte>, w: nat, h: nat, p: Pass)
    requires FormatOk(fmt)
    ensures var len := PassLength(fmt, w, h, p);
            var r := UnfilterPass(fmt, raw, w, h, p);
            if |raw| < len then r == Err(ShortInterlaced)
            else r == UnfilterPass(fmt, raw[..len], w, h, p)
                 && (r.Ok? || r == Err(InvalidFilter) || r == Err(PixelError(fmt)))
  {
    hide Rows, PassWidth, PassHeight, UnfilterFrom, RowBytes, BytesPerPixel, AllColored, FormatOk, PixelError;
    var len := PassLength(fmt, w, h, p);
    if len <= |raw| {
      assert raw[..len][..len] == raw[..len];
      if !Empty(w, h, p) {
        OnlyFilterFails([], raw[..len], PassHeight(h, p), RowBytes(fmt, PassWidth(w, p)), BytesPerPixel(fmt));
      }
    }
  }

  lemma {:induction false} OnlyFilterFails(out: seq<Byte>, raw: seq<Byte>, h: nat, rowbytes: nat, bpp: nat)
    requires 1 <= bpp && Rows(h, rowbytes + 1) <= |raw|
    ensures var r := UnfilterFrom(out, raw, h, rowbytes, bpp); r.Ok? || r == Err(InvalidFilter)
    decreases h
  {
    if h > 0 {
      RowsStep(h - 1, rowbytes + 1);
      hide Rows, UnfilterRow, Above;
      OnlyFilterFails(out + UnfilterRow(raw[0], raw[1..1 + rowbytes], Above(out, rowbytes), bpp),
                      raw[1 + rowbytes..], h - 1, rowbytes, bpp);
    }
  }
}
