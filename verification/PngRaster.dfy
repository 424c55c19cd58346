/**
 * RGBA images as functions from places to pixels and as row-major bytes, each determined by the other.
 */
module PngRaster {
  import opened Bytes
  import opened PngFilter

  // ---------- Pixels ----------

  type Pixel = p: seq<Byte> | |p| == 4 witness [0, 0, 0, 0]

  /** Where a pixel's bytes start in a row-major image of width `w`. */
  function At(w: nat, x: nat, y: nat): nat {
    Rows(y, 4 * w) + 4 * x
  }

  function Size(w: nat, h: nat): nat {
    Rows(h, 4 * w)
  }

  function PixelAt(image: seq<Byte>, w: nat, x: nat, y: nat): Pixel {
    if At(w, x, y) + 4 <= |image| then image[At(w, x, y)..At(w, x, y) + 4] else [0, 0, 0, 0]
  }

  lemma {:induction false} RowsMonotone(y: nat, h: nat, n: nat)
    requires y <= h
    ensures Rows(y, n) <= Rows(h, n)
    decreases h - y
  {
    if y < h {
      RowsMonotone(y + 1, h, n);
      RowsStep(y, n);
    }
  }

  /** A pixel inside the image has its bytes inside. */
  lemma AtInside(w: nat, h: nat, x: nat, y: nat)
    requires x < w && y < h
    ensures Rows(y, 4 * w) <= At(w, x, y) && At(w, x, y) + 4 <= Rows(y + 1, 4 * w) <= Size(w, h)
  {
    RowsStep(y, 4 * w);
    RowsMonotone(y + 1, h, 4 * w);
    hide Rows;
  }

  /** Different pixels have disjoint bytes. */
  lemma AtApart(w: nat, x: nat, y: nat, x': nat, y': nat)
    requires x < w && x' < w && (x != x' || y != y')
    ensures At(w, x, y) + 4 <= At(w, x', y') || At(w, x', y') + 4 <= At(w, x, y)
  {
    if y < y' {
      AtInside(w, y', x, y);
      hide Rows;
    } else if y' < y {
      AtInside(w, y, x', y');
      hide Rows;
    }
  }

  // ---------- Rasters ----------

  type Raster = (nat, nat) -> Pixel

  /** The first `n` pixels of row `y`. */
  function RowOf(f: Raster, y: nat, n: nat): (r: seq<Byte>)
    ensures |r| == 4 * n
  {
    if n == 0 then [] else RowOf(f, y, n - 1) + f(n - 1, y)
  }

  /** The image whose pixel at (x, y) is f(x, y). */
  function Render(f: Raster, w: nat, h: nat): (r: seq<Byte>)
    ensures |r| == Size(w, h)
  {
    if h == 0 then RowsStep(0, 4 * w); [] else RowsStep(h - 1, 4 * w); Render(f, w, h - 1) + RowOf(f, h - 1, w)
  }

  lemma {:induction false} RowPixel(f: Raster, y: nat, n: nat, x: nat)
    requires x < n
    ensures RowOf(f, y, n)[4 * x..4 * x + 4] == f(x, y)
  {
    if x < n - 1 {
      RowPixel(f, y, n - 1, x);
      assert RowOf(f, y, n)[4 * x..4 * x + 4] == RowOf(f, y, n - 1)[4 * x..4 * x + 4];
    }
  }

  lemma {:induction false} RenderPixel(f: Raster, w: nat, h: nat, x: nat, y: nat)
    requires x < w && y < h
    ensures PixelAt(Render(f, w, h), w, x, y) == f(x, y)
    decreases h
  {
    hide Rows, RowOf;
    AtInside(w, h, x, y);
    if y < h - 1 {
      RenderPixel(f, w, h - 1, x, y);
      AtInside(w, h - 1, x, y);
    } else {
      RowPixel(f, y, w, x);
      var above := Render(f, w, y);
      assert Render(f, w, h) == above + RowOf(f, y, w);
      assert (above + RowOf(f, y, w))[|above| + 4 * x..|above| + 4 * x + 4] == RowOf(f, y, w)[4 * x..4 * x + 4];
    }
  }

  ghost predicate Shows(image: seq<Byte>, f: Raster, w: nat, h: nat) {
    |image| == Size(w, h) && forall x: nat, y: nat :: x < w && y < h ==> PixelAt(image, w, x, y) == f(x, y)
  }

  /** The pixels determine the image. */
  lemma {:induction false} ShowsIsRender(image: seq<Byte>, f: Raster, w: nat, h: nat)
    requires Shows(image, f, w, h)
    ensures image == Render(f, w, h)
    decreases h
  {
    if h == 0 {
      RowsStep(0, 4 * w);
    } else {
      ShowsAbove(image, f, w, h);
      RowsStep(h - 1, 4 * w);
      var above := image[..Size(w, h - 1)];
      ShowsIsRender(above, f, w, h - 1);
      RowShown(image, f, w, h, w);
      assert image == above + image[Size(w, h - 1)..];
    }
  }

  lemma ShowsAbove(image: seq<Byte>, f: Raster, w: nat, h: nat)
    requires h > 0 && Shows(image, f, w, h)
    ensures Size(w, h - 1) <= Size(w, h) && Shows(image[..Size(w, h - 1)], f, w, h - 1)
  {
    hide Rows;
    RowsStep(h - 1, 4 * w);
    var above := image[..Size(w, h - 1)];
    forall x: nat, y: nat | x < w && y < h - 1
      ensures PixelAt(above, w, x, y) == f(x, y)
    {
      AtInside(w, h - 1, x, y);
      assert PixelAt(image, w, x, y) == f(x, y);
    }
  }

  lemma {:induction false} RowShown(image: seq<Byte>, f: Raster, w: nat, h: nat, n: nat)
    requires h > 0 && Shows(image, f, w, h) && n <= w
    ensures Size(w, h - 1) + 4 * n <= |image|
    ensures image[Size(w, h - 1)..Size(w, h - 1) + 4 * n] == RowOf(f, h - 1, n)
  {
    hide Rows;
    RowsStep(h - 1, 4 * w);
    if n > 0 {
      RowShown(image, f, w, h, n - 1);
      AtInside(w, h, n - 1, h - 1);
      assert PixelAt(image, w, n - 1, h - 1) == f(n - 1, h - 1);
      var s := Size(w, h - 1);
      assert image[s..s + 4 * n] == image[s..s + 4 * (n - 1)] + image[s + 4 * (n - 1)..s + 4 * n];
    }
  }

  /** Rasters that agree inside the image render the same. */
  lemma SameRender(f: Raster, g: Raster, w: nat, h: nat)
    requires forall x: nat, y: nat :: x < w && y < h ==> f(x, y) == g(x, y)
    ensures Render(f, w, h) == Render(g, w, h)
  {
    hide Render, PixelAt, Size;
    forall x: nat, y: nat | x < w && y < h
      ensures PixelAt(Render(f, w, h), w, x, y) == g(x, y)
    {
      RenderPixel(f, w, h, x, y);
    }
    ShowsIsRender(Render(f, w, h), g, w, h);
  }
}
