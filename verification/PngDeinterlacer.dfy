/**
 * The Adam7 decoder: each pass is unfiltered and its pixels are scattered into the output buffer.
 */
module PngDeinterlacer {
  import opened Bytes
  import opened PngFilter
  import opened PngUnfilter
  import opened PngAdam7
  import opened PngRaster
  import opened PngPixels
  import opened PngColors
  import opened PngInterlace

  // ---------- Sizes ----------

  lemma WholeSize(n: nat, h: nat)
    ensures (n + 1) * h == Rows(h, n + 1)
  {
  }

  /** The number of raw bytes an image takes before compression. */
  method EstimateRawSize(fmt: Format, w: nat, h: nat, interlace: nat) returns (total: nat)
    ensures total == if interlace == 0 then Rows(h, RowBytes(fmt, w) + 1) else Estimate(fmt, w, h, 0)
  {
    hide PassWidth, PassHeight, Rows, RowBytes, Estimate;
    if interlace == 0 {
      WholeSize(RowBytes(fmt, w), h);
      return (RowBytes(fmt, w) + 1) * h;
    }
    total := 0;
    for p := 0 to 7
      invariant total + Estimate(fmt, w, h, p) == Estimate(fmt, w, h, 0)
    {
      EstimateStep(fmt, w, h, p);
      var pw, ph := PassWidth(w, p), PassHeight(h, p);
      if pw != 0 && ph != 0 {
        total := total + Rows(ph, RowBytes(fmt, pw) + 1);
      }
    }
    EstimateEnd(fmt, w, h);
  }

  lemma EstimateStep(fmt: Format, w: nat, h: nat, p: Pass)
    ensures Estimate(fmt, w, h, p) == PassLength(fmt, w, h, p) + Estimate(fmt, w, h, p + 1)
  {
  }

  lemma EstimateEnd(fmt: Format, w: nat, h: nat)
    ensures Estimate(fmt, w, h, 7) == 0
  {
  }

  // ---------- One pixel ----------

  lemma AtIndex(w: nat, x: nat, y: nat)
    ensures (y * w + x) * 4 == At(w, x, y)
  {
  }

  lemma StoredPixel(before: seq<Byte>, now: seq<Byte>, w: nat, h: nat, x: nat, y: nat, rgba: Pixel)
    requires |before| == |now| == Size(w, h) && x < w && y < h && At(w, x, y) + 4 <= |now|
    requires now == before[..At(w, x, y)] + rgba + before[At(w, x, y) + 4..]
    ensures PixelAt(now, w, x, y) == rgba
    ensures forall x': nat, y': nat :: x' < w && y' < h && (x' != x || y' != y)
              ==> PixelAt(now, w, x', y') == PixelAt(before, w, x', y')
  {
    hide At, Size;
    var at := At(w, x, y);
    forall x': nat, y': nat | x' < w && y' < h && (x' != x || y' != y)
      ensures PixelAt(now, w, x', y') == PixelAt(before, w, x', y')
    {
      AtInside(w, h, x', y');
      AtApart(w, x, y, x', y');
      SliceApart(before, now, at, rgba, At(w, x', y'));
    }
  }

  lemma SliceApart(before: seq<Byte>, now: seq<Byte>, at: nat, rgba: Pixel, k: nat)
    requires at + 4 <= |before| && now == before[..at] + rgba + before[at + 4..]
    requires k + 4 <= |before| && (k + 4 <= at || at + 4 <= k)
    ensures now[k..k + 4] == before[k..k + 4]
  {
  }

  method WritePixel(out: array<Byte>, w: nat, ghost h: nat, x: nat, y: nat, rgba: Pixel)
    requires out.Length == Size(w, h) && x < w && y < h
    modifies out
    ensures PixelAt(out[..], w, x, y) == rgba
    ensures forall x': nat, y': nat :: x' < w && y' < h && (x' != x || y' != y)
              ==> PixelAt(out[..], w, x', y') == old(PixelAt(out[..], w, x', y'))
  {
    var idx := (y * w + x) * 4;
    AtIndex(w, x, y);
    AtInside(w, h, x, y);
    hide At, Size, PixelAt, Rows;
    ghost var before := out[..];
    out[idx], out[idx + 1], out[idx + 2], out[idx + 3] := rgba[0], rgba[1], rgba[2], rgba[3];
    assert out[..] == before[..idx] + rgba + before[idx + 4..];
    StoredPixel(before, out[..], w, h, x, y, rgba);
  }

  // ---------- One pass ----------

  /** The pixels of pass `p` before row `py`, or before `px` in it, show the pass; the others are as before. */
  ghost predicate Done(p: Pass, x: nat, y: nat, px: nat, py: nat) {
    InPass(p, x, y) && (PassY(p, y) < py || (PassY(p, y) == py && PassX(p, x) < px))
  }

  ghost predicate Scattered(now: seq<Byte>, before: seq<Byte>, f: Raster, w: nat, h: nat, p: Pass, px: nat,
      py: nat) {
    && |now| == |before| == Size(w, h)
    && forall x: nat, y: nat :: x < w && y < h ==>
         PixelAt(now, w, x, y) == if Done(p, x, y, px, py) then f(PassX(p, x), PassY(p, y))
                                  else PixelAt(before, w, x, y)
  }

  lemma DoneNext(p: Pass, x: nat, y: nat, px: nat, py: nat)
    ensures Done(p, x, y, px + 1, py) <==> Done(p, x, y, px, py) || (x == RealX(p, px) && y == RealY(p, py))
    ensures !Done(p, RealX(p, px), RealY(p, py), px, py)
    ensures PassX(p, RealX(p, px)) == px && PassY(p, RealY(p, py)) == py
  {
    hide InPass, PassX, PassY, RealX, RealY;
    PassInside(0, 0, p, px, py);
    if InPass(p, x, y) {
      PixelInPass(0, 0, p, x, y);
    }
  }

  lemma ScatterNext(before: seq<Byte>, mid: seq<Byte>, now: seq<Byte>, f: Raster, w: nat, h: nat, p: Pass,
      px: nat, py: nat)
    requires Scattered(mid, before, f, w, h, p, px, py) && |now| == |mid|
    requires RealX(p, px) < w && RealY(p, py) < h
    requires PixelAt(now, w, RealX(p, px), RealY(p, py)) == f(px, py)
    requires forall x: nat, y: nat :: x < w && y < h && (x != RealX(p, px) || y != RealY(p, py))
               ==> PixelAt(now, w, x, y) == PixelAt(mid, w, x, y)
    ensures Scattered(now, before, f, w, h, p, px + 1, py)
  {
    hide Done, PassX, PassY, RealX, RealY, PixelAt, Size, PassWidth;
    forall x: nat, y: nat | x < w && y < h
      ensures PixelAt(now, w, x, y) == if Done(p, x, y, px + 1, py)
                                       then f(PassX(p, x), PassY(p, y))
                                       else PixelAt(before, w, x, y)
    {
      DoneNext(p, x, y, px, py);
    }
  }

  /** Writes pixel (px, py) of a pass at its place, when that is inside the image, as it always is. */
  method EmitPixel(out: array<Byte>, w: nat, h: nat, p: Pass, px: nat, py: nat, rgba: Pixel,
      ghost before: seq<Byte>, ghost f: Raster)
    requires px < PassWidth(w, p) && py < PassHeight(h, p) && rgba == f(px, py)
    requires Scattered(out[..], before, f, w, h, p, px, py)
    modifies out
    ensures Scattered(out[..], before, f, w, h, p, px + 1, py)
  {
    Tables();
    PassInside(w, h, p, px, py);
    var realX := X_START[p] + px * X_STEP[p];
    var realY := Y_START[p] + py * Y_STEP[p];
    assert realX == RealX(p, px) && realY == RealY(p, py);
    hide PassWidth, PassHeight, RealX, RealY, PixelAt, Size, X_START, X_STEP, Y_START, Y_STEP;
    assert realX < w && realY < h;
    ghost var mid := out[..];
    assert Scattered(mid, before, f, w, h, p, px, py);
    assert |mid| == out.Length;
    hide Scattered;
    if realX < w && realY < h {
      WritePixel(out, w, h, realX, realY, rgba);
      ScatterNext(before, mid, out[..], f, w, h, p, px, py);
    }
  }

  lemma RowEnds(now: seq<Byte>, before: seq<Byte>, f: Raster, w: nat, h: nat, p: Pass, py: nat)
    requires Scattered(now, before, f, w, h, p, PassWidth(w, p), py)
    ensures Scattered(now, before, f, w, h, p, 0, py + 1)
  {
    hide PassX, PassY, InPass, PixelAt, Size, PassWidth;
    forall x: nat, y: nat | x < w && y < h
      ensures Done(p, x, y, 0, py + 1) <==> Done(p, x, y, PassWidth(w, p), py)
    {
      if InPass(p, x, y) {
        PixelInPass(w, h, p, x, y);
      }
    }
  }

  lemma RowInside(fmt: Format, d: seq<Byte>, w: nat, h: nat, y: nat)
    requires |d| == Rows(h, RowBytes(fmt, w)) && y < h
    ensures Rows(y + 1, RowBytes(fmt, w)) <= |d|
  {
    RowsMonotone(y + 1, h, RowBytes(fmt, w));
  }

  /** The pixel computed from a row is the one of the data. */
  method PixelOf(fmt: Format, ghost d: seq<Byte>, w: nat, ghost h: nat, row: seq<Byte>, x: nat, ghost y: nat)
    returns (r: Result<Pixel, PngError>)
    requires FormatOk(fmt) && |d| == Rows(h, RowBytes(fmt, w)) && x < w && y < h
    requires Rows(y + 1, RowBytes(fmt, w)) <= |d| && row == DataRow(fmt, d, w, y)
    ensures r == ColorAt(fmt, d, w, x, y)
    ensures r.Ok? ==> r.value == Colored(fmt, d, w)(x, y)
    ensures r.Err? ==> r.error == PixelError(fmt) && !AllColored(fmt, d, w, h)
  {
    hide SamplesOf, Rows, RowBytes, FormatOk;
    r := Color(fmt, SamplesOf(fmt, row, w, x));
    ColorFails(fmt, SamplesOf(fmt, row, w, x));
  }

  /** Row `y` has a colour for every pixel. */
  ghost predicate RowColored(fmt: Format, d: seq<Byte>, w: nat, y: nat, n: nat)
    requires FormatOk(fmt)
  {
    forall x: nat :: x < n ==> ColorAt(fmt, d, w, x, y).Ok?
  }

  ghost predicate RowsColored(fmt: Format, d: seq<Byte>, w: nat, n: nat)
    requires FormatOk(fmt)
  {
    forall y: nat :: y < n ==> RowColored(fmt, d, w, y, w)
  }

  lemma EveryRowColored(fmt: Format, d: seq<Byte>, w: nat, h: nat)
    requires FormatOk(fmt) && RowsColored(fmt, d, w, h)
    ensures AllColored(fmt, d, w, h)
  {
    hide FormatOk, ColorAt;
    forall x: nat, y: nat | x < w && y < h
      ensures ColorAt(fmt, d, w, x, y).Ok?
    {
      assert RowColored(fmt, d, w, y, w);
    }
  }

  method ScatterRow(fmt: Format, out: array<Byte>, w: nat, h: nat, p: Pass, py: nat, row: seq<Byte>,
      ghost before: seq<Byte>, ghost d: seq<Byte>)
    returns (r: Result<(), PngError>)
    requires FormatOk(fmt) && py < PassHeight(h, p) && |d| == Rows(PassHeight(h, p), RowBytes(fmt, PassWidth(w, p)))
    requires Rows(py + 1, RowBytes(fmt, PassWidth(w, p))) <= |d| && row == DataRow(fmt, d, PassWidth(w, p), py)
    requires Scattered(out[..], before, Colored(fmt, d, PassWidth(w, p)), w, h, p, 0, py)
    modifies out
    ensures r.Ok? ==> RowColored(fmt, d, PassWidth(w, p), py, PassWidth(w, p))
                      && Scattered(out[..], before, Colored(fmt, d, PassWidth(w, p)), w, h, p, 0, py + 1)
    ensures r.Err? ==> r.error == PixelError(fmt) && !AllColored(fmt, d, PassWidth(w, p), PassHeight(h, p))
  {
    hide PassWidth, PassHeight, ColorAt, Scattered, Rows, RowBytes, Colored, AllColored, FormatOk;
    var pw := PassWidth(w, p);
    for px := 0 to pw
      invariant Scattered(out[..], before, Colored(fmt, d, pw), w, h, p, px, py)
      invariant RowColored(fmt, d, pw, py, px)
    {
      var rgba := PixelOf(fmt, d, pw, PassHeight(h, p), row, px, py);
      if rgba.Err? {
        return Err(rgba.error);
      }
      EmitPixel(out, w, h, p, px, py, rgba.value, before, Colored(fmt, d, pw));
    }
    RowEnds(out[..], before, Colored(fmt, d, pw), w, h, p, py);
    r := Ok(());
  }

  /** Every pixel of the pass shows it, every other pixel is as before. */
  ghost predicate Passed(now: seq<Byte>, before: seq<Byte>, f: Raster, w: nat, h: nat, p: Pass) {
    && |now| == |before| == Size(w, h)
    && forall x: nat, y: nat :: x < w && y < h ==>
         PixelAt(now, w, x, y) == if InPass(p, x, y) then f(PassX(p, x), PassY(p, y))
                                  else PixelAt(before, w, x, y)
  }

  lemma PassBegins(before: seq<Byte>, f: Raster, w: nat, h: nat, p: Pass)
    requires |before| == Size(w, h)
    ensures Scattered(before, before, f, w, h, p, 0, 0)
  {
    hide PassX, PassY, InPass, PixelAt, Size, PassWidth;
  }

  lemma PassEnds(now: seq<Byte>, before: seq<Byte>, f: Raster, w: nat, h: nat, p: Pass)
    requires Scattered(now, before, f, w, h, p, 0, PassHeight(h, p))
    ensures Passed(now, before, f, w, h, p)
  {
    hide PassX, PassY, InPass, PixelAt, Size, PassWidth, PassHeight;
    forall x: nat, y: nat | x < w && y < h
      ensures Done(p, x, y, 0, PassHeight(h, p)) <==> InPass(p, x, y)
    {
      if InPass(p, x, y) {
        PixelInPass(w, h, p, x, y);
      }
    }
  }

  /** Every pixel of the pass is scattered, or the pass has a pixel without a colour. */
  method ScatterPass(fmt: Format, out: array<Byte>, w: nat, h: nat, p: Pass, d: seq<Byte>)
    returns (r: Result<(), PngError>)
    requires FormatOk(fmt) && out.Length == Size(w, h)
    requires |d| == Rows(PassHeight(h, p), RowBytes(fmt, PassWidth(w, p)))
    modifies out
    ensures r.Ok? ==> AllColored(fmt, d, PassWidth(w, p), PassHeight(h, p))
                      && Passed(out[..], old(out[..]), Colored(fmt, d, PassWidth(w, p)), w, h, p)
    ensures r.Err? ==> r.error == PixelError(fmt) && !AllColored(fmt, d, PassWidth(w, p), PassHeight(h, p))
  {
    hide PassWidth, PassHeight, ColorAt, Scattered, Size, Rows, Passed, RowBytes, FormatOk, Colored;
    ghost var before := out[..];
    var pw := PassWidth(w, p);
    PassBegins(before, Colored(fmt, d, pw), w, h, p);
    for py := 0 to PassHeight(h, p)
      invariant Scattered(out[..], before, Colored(fmt, d, pw), w, h, p, 0, py)
      invariant RowsColored(fmt, d, pw, py)
    {
      RowInside(fmt, d, pw, PassHeight(h, p), py);
      var row := ScatterRow(fmt, out, w, h, p, py, DataRow(fmt, d, pw, py), before, d);
      if row.Err? {
        return row;
      }
    }
    EveryRowColored(fmt, d, pw, PassHeight(h, p));
    PassEnds(out[..], before, Colored(fmt, d, pw), w, h, p);
    r := Ok(());
  }

  // ---------- The whole image ----------

  /** Every pixel whose pass is among the first |ds| shows it. */
  ghost predicate Assembled(fmt: Format, now: seq<Byte>, ds: seq<seq<Byte>>, w: nat, h: nat)
    requires FormatOk(fmt)
  {
    && |now| == Size(w, h)
    && forall x: nat, y: nat :: x < w && y < h && PassOf(x, y) < |ds| ==>
         var p := PassOf(x, y);
         PixelAt(now, w, x, y) == Shown(ColorAt(fmt, ds[p], PassWidth(w, p), PassX(p, x), PassY(p, y)))
  }

  lemma PassAssembled(fmt: Format, before: seq<Byte>, now: seq<Byte>, ds: seq<seq<Byte>>, d: seq<Byte>, w: nat, h: nat)
    requires FormatOk(fmt) && |ds| < 7 && Assembled(fmt, before, ds, w, h)
    requires Passed(now, before, Colored(fmt, d, PassWidth(w, |ds|)), w, h, |ds|)
    ensures Assembled(fmt, now, ds + [d], w, h)
  {
    hide PassX, PassY, InPass, PixelAt, Size, PassWidth, PassOf, ColorAt, FormatOk, Shown;
    forall x: nat, y: nat | x < w && y < h && PassOf(x, y) < |ds| + 1
      ensures var p := PassOf(x, y);
              PixelAt(now, w, x, y) == Shown(ColorAt(fmt, (ds + [d])[p], PassWidth(w, p), PassX(p, x), PassY(p, y)))
    {
      OnePass(x, y, |ds|);
    }
  }

  /** A pass without positions has no pixel of the image. */
  lemma EmptyPassed(now: seq<Byte>, f: Raster, w: nat, h: nat, p: Pass)
    requires |now| == Size(w, h) && Empty(w, h, p)
    ensures Passed(now, now, f, w, h, p)
  {
    hide PassX, PassY, InPass, PixelAt, Size, PassWidth, PassHeight;
    forall x: nat, y: nat | x < w && y < h
      ensures !InPass(p, x, y)
    {
      if InPass(p, x, y) {
        PixelInPass(w, h, p, x, y);
      }
    }
  }

  lemma AllAssembled(fmt: Format, now: seq<Byte>, ds: seq<seq<Byte>>, w: nat, h: nat)
    requires FormatOk(fmt) && |ds| == 7 && Assembled(fmt, now, ds, w, h)
    ensures now == Assemble(fmt, ds, w, h)
  {
    hide PassX, PassY, PixelAt, Size, PassWidth, PassOf, Render, ColorAt, FormatOk, Shown;
    forall x: nat, y: nat | x < w && y < h
      ensures PixelAt(now, w, x, y) == Interlaced(fmt, ds, w)(x, y)
    {
    }
    ShowsIsRender(now, Interlaced(fmt, ds, w), w, h);
  }

  /** One pass that has positions: its data, unfiltered and scattered. */
  method DecodePass(fmt: Format, raw: seq<Byte>, offset: nat, out: array<Byte>, w: nat, h: nat, p: Pass,
      ghost ds: seq<seq<Byte>>)
    returns (r: Result<nat, PngError>, ghost d: seq<Byte>)
    requires FormatOk(fmt) && offset <= |raw| && !Empty(w, h, p) && p == |ds| && Assembled(fmt, out[..], ds, w, h)
    modifies out
    ensures match UnfilterPass(fmt, raw[offset..], w, h, p)
            case Err(e) => r == Err(e)
            case Ok(data) => d == data && r == Ok(offset + PassLength(fmt, w, h, p))
                             && Assembled(fmt, out[..], ds + [d], w, h)
  {
    hide PassWidth, PassHeight, Rows, PixelAt, Assembled, Unfiltered, RowBytes, BytesPerPixel, AllColored, FormatOk;
    assert out.Length == Size(w, h) by { AssembledSize(fmt, out[..], ds, w, h); }
    d := [];
    var pw, ph := PassWidth(w, p), PassHeight(h, p);
    var rowbytes := RowBytes(fmt, pw);
    var passLen := Rows(ph, rowbytes + 1);
    if offset + passLen > |raw| {
      return Err(ShortInterlaced), d;
    }
    assert raw[offset..][..passLen] == raw[offset..offset + passLen];
    var unfiltered := Unfilter(raw[offset..offset + passLen], ph, rowbytes, BytesPerPixel(fmt));
    if unfiltered.Err? {
      return Err(unfiltered.error), d;
    }
    d := unfiltered.value;
    ghost var before := out[..];
    var scattered := ScatterPass(fmt, out, w, h, p, unfiltered.value);
    if scattered.Err? {
      return Err(scattered.error), d;
    }
    PassAssembled(fmt, before, out[..], ds, d, w, h);
    r := Ok(offset + passLen);
  }

  lemma AssembledSize(fmt: Format, now: seq<Byte>, ds: seq<seq<Byte>>, w: nat, h: nat)
    requires FormatOk(fmt) && Assembled(fmt, now, ds, w, h)
    ensures |now| == Size(w, h)
  {
  }

  lemma NothingAssembled(fmt: Format, now: seq<Byte>, w: nat, h: nat)
    requires FormatOk(fmt) && |now| == Size(w, h)
    ensures Assembled(fmt, now, [], w, h)
  {
  }

  /** One turn of the specification. */
  lemma PassTurn(fmt: Format, ds: seq<seq<Byte>>, raw: seq<Byte>, offset: nat, w: nat, h: nat)
    requires FormatOk(fmt) && |ds| < 7 && offset <= |raw|
    ensures match UnfilterPass(fmt, raw[offset..], w, h, |ds|)
            case Err(e) => UnfilterPasses(fmt, ds, raw[offset..], w, h) == Err(e)
            case Ok(d) => offset + PassLength(fmt, w, h, |ds|) <= |raw|
                          && UnfilterPasses(fmt, ds, raw[offset..], w, h)
                             == UnfilterPasses(fmt, ds + [d], raw[offset + PassLength(fmt, w, h, |ds|)..], w, h)
  {
    hide UnfilterPass, PassLength, FormatOk;
    if UnfilterPass(fmt, raw[offset..], w, h, |ds|).Ok? {
      assert raw[offset..][PassLength(fmt, w, h, |ds|)..] == raw[offset + PassLength(fmt, w, h, |ds|)..];
    }
  }

  lemma EmptyPass(fmt: Format, raw: seq<Byte>, w: nat, h: nat, p: Pass)
    requires FormatOk(fmt) && Empty(w, h, p)
    ensures UnfilterPass(fmt, raw, w, h, p) == Ok([]) && PassLength(fmt, w, h, p) == 0
  {
  }

  /** On every input: the image of the passes, or the first error. */
  method DecodeAdam7(fmt: Format, raw: seq<Byte>, w: nat, h: nat) returns (r: Result<seq<Byte>, PngError>)
    requires FormatOk(fmt)
    ensures r == Deinterlaced(fmt, raw, w, h)
  {
    hide Size, Assemble, Assembled, Passed, UnfilterPass, UnfilterPasses, PassLength, PassWidth, PassHeight, FormatOk;
    var out := new Byte[Size(w, h)](_ => 0);
    var offset: nat := 0;
    ghost var ds: seq<seq<Byte>> := [];
    NothingAssembled(fmt, out[..], w, h);
    assert raw[0..] == raw;
    for p := 0 to 7
      invariant |ds| == p && offset <= |raw| && out.Length == Size(w, h) && Assembled(fmt, out[..], ds, w, h)
      invariant UnfilterPasses(fmt, ds, raw[offset..], w, h) == UnfilterPasses(fmt, [], raw, w, h)
    {
      PassTurn(fmt, ds, raw, offset, w, h);
      if PassWidth(w, p) == 0 || PassHeight(h, p) == 0 {
        EmptyPass(fmt, raw[offset..], w, h, p);
        EmptyPassed(out[..], Colored(fmt, [], PassWidth(w, p)), w, h, p);
        PassAssembled(fmt, out[..], out[..], ds, [], w, h);
        ds := ds + [[]];
      } else {
        var next, d := DecodePass(fmt, raw, offset, out, w, h, p, ds);
        if next.Err? {
          return Err(next.error);
        }
        offset := next.value;
        ds := ds + [d];
      }
    }
    AllAssembled(fmt, out[..], ds, w, h);
    PassesDone(fmt, ds, raw[offset..], w, h);
    r := Ok(out[..]);
  }

  lemma PassesDone(fmt: Format, ds: seq<seq<Byte>>, raw: seq<Byte>, w: nat, h: nat)
    requires FormatOk(fmt) && |ds| == 7
    ensures UnfilterPasses(fmt, ds, raw, w, h) == Ok(ds)
  {
  }
}
