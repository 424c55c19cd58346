/**
 * The five row filters of section 6 of RFC 2083: each is a bijection on rows, and the decoder that
 * rebuilds an image in place undoes them whatever filters the rows use.
 */
module PngFilter {
  import opened Bytes

  // ---------- The Paeth predictor ----------

  function Abs(x: int): nat {
    if x < 0 then -x else x
  }

  function Paeth(a: Byte, b: Byte, c: Byte): Byte {
    var p := a + b - c;
    var pa, pb, pc := Abs(p - a), Abs(p - b), Abs(p - c);
    if pa <= pb && pa <= pc then a else if pb <= pc then b else c
  }

  /** The neighbour closest to a + b - c; among the closest, left before above before upper left. */
  lemma PaethIsNearest(a: Byte, b: Byte, c: Byte)
    ensures var p, r := a + b - c, Paeth(a, b, c);
            && r in [a, b, c]
            && (forall n :: n in [a, b, c] ==> Abs(p - r) <= Abs(p - n))
            && (Abs(p - a) == Abs(p - r) ==> r == a)
            && (Abs(p - b) == Abs(p - r) ==> r == a || r == b)
  {
  }

  /** The predictor of a filter type from the bytes to the left, above and upper left. */
  function Predictor(f: nat, a: Byte, b: Byte, c: Byte): Byte {
    if f == 1 then a else if f == 2 then b else if f == 3 then (a + b) / 2 else if f == 4 then Paeth(a, b, c) else 0
  }

  // ---------- One row ----------

  /** The prediction for byte `i` from the bytes before it in its row and from the row above;
      `prev` is empty for the first row. */
  function Predict(f: nat, cur: seq<Byte>, prev: seq<Byte>, i: nat, bpp: nat): Byte
    requires i <= |cur| && 1 <= bpp && (prev == [] || i < |prev|)
  {
    var a := if i >= bpp then cur[i - bpp] else 0;
    var b := if prev == [] then 0 else prev[i];
    var c := if prev == [] || i < bpp then 0 else prev[i - bpp];
    Predictor(f, a, b, c)
  }

  /** The encoder's side: every byte minus its prediction. */
  function FilterRow(f: nat, row: seq<Byte>, prev: seq<Byte>, bpp: nat): (r: seq<Byte>)
    requires 1 <= bpp && (prev == [] || |prev| == |row|)
    ensures |r| == |row|
  {
    seq(|row|, i requires 0 <= i < |row| => (row[i] - Predict(f, row, prev, i, bpp)) % 256)
  }

  /** The first `n` bytes rebuilt, each from the bytes rebuilt before it. */
  function UnfilterUpTo(f: nat, src: seq<Byte>, prev: seq<Byte>, bpp: nat, n: nat): (r: seq<Byte>)
    requires 1 <= bpp && n <= |src| && (prev == [] || |prev| == |src|)
    ensures |r| == n
  {
    if n == 0 then [] else
    var cur := UnfilterUpTo(f, src, prev, bpp, n - 1);
    cur + [(src[n - 1] + Predict(f, cur, prev, n - 1, bpp)) % 256]
  }

  function UnfilterRow(f: nat, src: seq<Byte>, prev: seq<Byte>, bpp: nat): (r: seq<Byte>)
    requires 1 <= bpp && (prev == [] || |prev| == |src|)
    ensures |r| == |src|
  {
    UnfilterUpTo(f, src, prev, bpp, |src|)
  }

  /** Predictions look only at bytes already rebuilt. */
  lemma PredictPrefix(f: nat, cur: seq<Byte>, row: seq<Byte>, prev: seq<Byte>, bpp: nat)
    requires 1 <= bpp && cur <= row && (prev == [] || |cur| < |prev|)
    ensures Predict(f, cur, prev, |cur|, bpp) == Predict(f, row, prev, |cur|, bpp)
  {
  }

  lemma AddBack(x: Byte, p: Byte)
    ensures ((x - p) % 256 + p) % 256 == x
    ensures ((x + p) % 256 - p) % 256 == x
  {
  }

  lemma {:induction false} UnfilterFiltered(f: nat, row: seq<Byte>, prev: seq<Byte>, bpp: nat, n: nat)
    requires 1 <= bpp && n <= |row| && (prev == [] || |prev| == |row|)
    ensures UnfilterUpTo(f, FilterRow(f, row, prev, bpp), prev, bpp, n) == row[..n]
  {
    hide Predict;
    if n > 0 {
      UnfilterFiltered(f, row, prev, bpp, n - 1);
      PredictPrefix(f, row[..n - 1], row, prev, bpp);
      AddBack(row[n - 1], Predict(f, row, prev, n - 1, bpp));
      assert row[..n] == row[..n - 1] + [row[n - 1]];
    }
  }

  /** Unfiltering undoes filtering, for each filter type. */
  lemma RowRoundTrip(f: nat, row: seq<Byte>, prev: seq<Byte>, bpp: nat)
    requires 1 <= bpp && (prev == [] || |prev| == |row|)
    ensures UnfilterRow(f, FilterRow(f, row, prev, bpp), prev, bpp) == row
  {
    UnfilterFiltered(f, row, prev, bpp, |row|);
    assert row[..|row|] == row;
  }

  lemma {:induction false} UnfilterPrefix(f: nat, src: seq<Byte>, prev: seq<Byte>, bpp: nat, m: nat, n: nat)
    requires 1 <= bpp && m <= n <= |src| && (prev == [] || |prev| == |src|)
    ensures UnfilterUpTo(f, src, prev, bpp, n)[..m] == UnfilterUpTo(f, src, prev, bpp, m)
  {
    hide Predict;
    if m < n {
      UnfilterPrefix(f, src, prev, bpp, m, n - 1);
    }
  }

  /** Filtering undoes unfiltering: no two filtered rows rebuild to the same row. */
  lemma FilterUnfiltered(f: nat, src: seq<Byte>, prev: seq<Byte>, bpp: nat)
    requires 1 <= bpp && (prev == [] || |prev| == |src|)
    ensures FilterRow(f, UnfilterRow(f, src, prev, bpp), prev, bpp) == src
  {
    hide Predict, UnfilterUpTo;
    var row := UnfilterRow(f, src, prev, bpp);
    forall i | 0 <= i < |src|
      ensures FilterRow(f, row, prev, bpp)[i] == src[i]
    {
      ByteRebuilt(f, src, prev, bpp, i);
    }
  }

  lemma ByteRebuilt(f: nat, src: seq<Byte>, prev: seq<Byte>, bpp: nat, i: nat)
    requires 1 <= bpp && i < |src| && (prev == [] || |prev| == |src|)
    ensures var row := UnfilterRow(f, src, prev, bpp);
            (row[i] - Predict(f, row, prev, i, bpp)) % 256 == src[i]
  {
    hide Predict;
    var row, cur := UnfilterRow(f, src, prev, bpp), UnfilterUpTo(f, src, prev, bpp, i);
    UnfilterPrefix(f, src, prev, bpp, i, |src|);
    UnfilterPrefix(f, src, prev, bpp, i + 1, |src|);
    assert row[i] == row[..i + 1][i];
    PredictPrefix(f, cur, row, prev, bpp);
    AddBack(src[i], Predict(f, cur, prev, i, bpp));
  }

  // ---------- Images ----------

  datatype PngError = ShortData | InvalidFilter | ShortInterlaced | PaletteMissing | PaletteRange

  /** h rows of n bytes. */
  function Rows(h: nat, n: nat): nat {
    h * n
  }

  lemma RowsStep(h: nat, n: nat)
    ensures Rows(h + 1, n) == Rows(h, n) + n && Rows(0, n) == 0
  {
  }

  /** The row above the next one: none before the first. */
  function Above(out: seq<Byte>, rowbytes: nat): (r: seq<Byte>)
    ensures r == [] || |r| == rowbytes
  {
    if |out| < rowbytes then [] else out[|out| - rowbytes..]
  }

  /** Rebuilds `h` rows from the front of `raw`, after those in `out`. */
  function UnfilterFrom(out: seq<Byte>, raw: seq<Byte>, h: nat, rowbytes: nat, bpp: nat): (r: Result<seq<Byte>,
      PngError>)
    requires 1 <= bpp && Rows(h, rowbytes + 1) <= |raw|
    ensures r.Ok? ==> |r.value| == |out| + Rows(h, rowbytes)
    decreases h
  {
    if h == 0 then RowsStep(0, rowbytes); Ok(out) else
    RowsStep(h - 1, rowbytes + 1);
    RowsStep(h - 1, rowbytes);
    if raw[0] > 4 then Err(InvalidFilter)
    else
      UnfilterFrom(out + UnfilterRow(raw[0], raw[1..1 + rowbytes], Above(out, rowbytes), bpp),
                   raw[1 + rowbytes..], h - 1, rowbytes, bpp)
  }

  function Unfiltered(raw: seq<Byte>, h: nat, rowbytes: nat, bpp: nat): (r: Result<seq<Byte>, PngError>)
    requires 1 <= bpp
    ensures r.Ok? ==> |r.value| == Rows(h, rowbytes)
  {
    if |raw| < Rows(h, rowbytes + 1) then Err(ShortData) else UnfilterFrom([], raw, h, rowbytes, bpp)
  }

  ghost predicate RowsOk(filters: seq<nat>, image: seq<Byte>, rowbytes: nat) {
    |image| == Rows(|filters|, rowbytes) && forall i :: 0 <= i < |filters| ==> filters[i] <= 4
  }

  /** The rows of an image, each with its filter type and filtered. */
  function FilterRows(filters: seq<nat>, image: seq<Byte>, above: seq<Byte>, rowbytes: nat, bpp: nat): (r: seq<Byte>)
    requires 1 <= bpp && RowsOk(filters, image, rowbytes) && (above == [] || |above| == rowbytes)
    ensures |r| == Rows(|filters|, rowbytes + 1)
    decreases |filters|
  {
    if filters == [] then RowsStep(0, rowbytes + 1); [] else
    RowsStep(|filters| - 1, rowbytes);
    RowsStep(|filters| - 1, rowbytes + 1);
    [filters[0]] + FilterRow(filters[0], image[..rowbytes], above, bpp)
      + FilterRows(filters[1..], image[rowbytes..], image[..rowbytes], rowbytes, bpp)
  }

  lemma FrontRow(f: Byte, row: seq<Byte>, rest: seq<Byte>, tail: seq<Byte>)
    ensures var raw := [f] + row + rest + tail;
            raw[0] == f && raw[1..1 + |row|] == row && raw[1 + |row|..] == rest + tail
  {
  }

  lemma AboveAfter(out: seq<Byte>, row: seq<Byte>)
    ensures Above(out + row, |row|) == row
  {
  }

  lemma {:induction false} RowsRoundTrip(filters: seq<nat>, image: seq<Byte>, out: seq<Byte>, rowbytes: nat,
      bpp: nat, tail: seq<Byte>)
    requires 1 <= bpp && RowsOk(filters, image, rowbytes)
    ensures var raw := FilterRows(filters, image, Above(out, rowbytes), rowbytes, bpp) + tail;
            UnfilterFrom(out, raw, |filters|, rowbytes, bpp) == Ok(out + image)
    decreases |filters|
  {
    hide FilterRow, UnfilterRow, Above, Rows;
    if filters == [] {
      RowsStep(0, rowbytes);
      assert out + image == out;
    } else {
      RowsStep(|filters| - 1, rowbytes);
      RowsStep(|filters| - 1, rowbytes + 1);
      var f, row, above := filters[0], image[..rowbytes], Above(out, rowbytes);
      FrontRow(f, FilterRow(f, row, above, bpp), FilterRows(filters[1..], image[rowbytes..], row, rowbytes, bpp), tail);
      RowRoundTrip(f, row, above, bpp);
      AboveAfter(out, row);
      RowsRoundTrip(filters[1..], image[rowbytes..], out + row, rowbytes, bpp, tail);
      assert out + row + image[rowbytes..] == out + image;
    }
  }

  /** Any image, filtered row by row with any choice of filters, comes back; what follows is not read. */
  lemma ImageRoundTrip(filters: seq<nat>, image: seq<Byte>, rowbytes: nat, bpp: nat, tail: seq<Byte>)
    requires 1 <= bpp && RowsOk(filters, image, rowbytes)
    ensures Unfiltered(FilterRows(filters, image, [], rowbytes, bpp) + tail, |filters|, rowbytes, bpp) == Ok(image)
  {
    hide FilterRows, UnfilterFrom, Rows;
    assert Above([], rowbytes) == [];
    RowsRoundTrip(filters, image, [], rowbytes, bpp, tail);
    assert [] + image == image;
  }

  // ---------- The decoded image ----------

  /** Byte `i` of row `y`; 0 to the left of the image and above it. */
  function ByteAt(image: seq<Byte>, rowbytes: nat, y: int, i: int): Byte {
    if y < 0 || i < 0 || Rows(y, rowbytes) + i >= |image| then 0 else image[Rows(y, rowbytes) + i]
  }

  /** The equation of section 6 for one byte: `at` is where its row starts in the filtered data. */
  ghost predicate Reconstructs(image: seq<Byte>, raw: seq<Byte>, at: nat, rowbytes: nat, bpp: nat, y: nat, i: nat) {
    && Rows(y, rowbytes) + i < |image| && at + 1 + i < |raw| && raw[at] <= 4
    && ByteAt(image, rowbytes, y, i)
       == (raw[at + 1 + i] + Predictor(raw[at], ByteAt(image, rowbytes, y, i - bpp), ByteAt(image, rowbytes, y - 1, i),
                                       ByteAt(image, rowbytes, y - 1, i - bpp))) % 256
  }

  /** The prediction inside a row is the predictor on its neighbours in the image. */
  lemma Neighbours(image: seq<Byte>, out: seq<Byte>, row: seq<Byte>, f: nat, bpp: nat, y: nat, i: nat)
    requires 1 <= bpp && i < |row| && |out| == Rows(y, |row|) && out + row <= image
    ensures Above(out, |row|) == [] || |Above(out, |row|)| == |row|
    ensures Rows(y, |row|) + i < |image| && ByteAt(image, |row|, y, i) == row[i]
    ensures Predict(f, row, Above(out, |row|), i, bpp)
            == Predictor(f, ByteAt(image, |row|, y, i - bpp), ByteAt(image, |row|, y - 1, i),
                         ByteAt(image, |row|, y - 1, i - bpp))
  {
    RowsStep(0, |row|);
    if y > 0 {
      RowsStep(y - 1, |row|);
    }
    hide Rows, Predictor;
  }

  lemma {:induction false} ExtendsOut(out: seq<Byte>, raw: seq<Byte>, h: nat, rowbytes: nat, bpp: nat)
    requires 1 <= bpp && Rows(h, rowbytes + 1) <= |raw| && UnfilterFrom(out, raw, h, rowbytes, bpp).Ok?
    ensures out <= UnfilterFrom(out, raw, h, rowbytes, bpp).value
    decreases h
  {
    if h > 0 {
      RowsStep(h - 1, rowbytes + 1);
      hide Rows, UnfilterRow, Above;
      ExtendsOut(out + UnfilterRow(raw[0], raw[1..1 + rowbytes], Above(out, rowbytes), bpp),
                 raw[1 + rowbytes..], h - 1, rowbytes, bpp);
    }
  }

  /** One turn of the specification. */
  lemma RowTurn(out: seq<Byte>, raw: seq<Byte>, h: nat, rowbytes: nat, bpp: nat)
    requires 1 <= bpp && 1 <= h && Rows(h, rowbytes + 1) <= |raw|
    ensures 1 + rowbytes <= |raw| && Rows(h - 1, rowbytes + 1) <= |raw| - (1 + rowbytes)
    ensures Rows(h, rowbytes) == Rows(h - 1, rowbytes) + rowbytes
    ensures UnfilterFrom(out, raw, h, rowbytes, bpp)
            == if raw[0] > 4 then Err(InvalidFilter)
               else UnfilterFrom(out + UnfilterRow(raw[0], raw[1..1 + rowbytes], Above(out, rowbytes), bpp),
                                 raw[1 + rowbytes..], h - 1, rowbytes, bpp)
  {
    hide Rows, UnfilterRow, Above;
    RowsStep(h - 1, rowbytes + 1);
    RowsStep(h - 1, rowbytes);
  }

  lemma Undo(x: Byte, p: Byte, f: Byte)
    requires (x - p) % 256 == f
    ensures x == (f + p) % 256
  {
  }

  lemma FirstRowReconstructs(out: seq<Byte>, y: nat, raw: seq<Byte>, h: nat, rowbytes: nat, bpp: nat, i: nat)
    requires 1 <= bpp && 1 <= h && Rows(h, rowbytes + 1) <= |raw| && |out| == Rows(y, rowbytes) && i < rowbytes
    requires UnfilterFrom(out, raw, h, rowbytes, bpp).Ok?
    ensures Reconstructs(UnfilterFrom(out, raw, h, rowbytes, bpp).value, raw, 0, rowbytes, bpp, y, i)
  {
    hide Rows, Predict, Predictor, Above, ByteAt, UnfilterRow, UnfilterFrom;
    RowTurn(out, raw, h, rowbytes, bpp);
    var src, prev := raw[1..1 + rowbytes], Above(out, rowbytes);
    var row := UnfilterRow(raw[0], src, prev, bpp);
    var image := UnfilterFrom(out, raw, h, rowbytes, bpp).value;
    ExtendsOut(out + row, raw[1 + rowbytes..], h - 1, rowbytes, bpp);
    ByteRebuilt(raw[0], src, prev, bpp, i);
    Undo(row[i], Predict(raw[0], row, prev, i, bpp), src[i]);
    Neighbours(image, out, row, raw[0], bpp, y, i);
    assert src[i] == raw[1 + i];
  }

  lemma ReconstructsLater(image: seq<Byte>, raw: seq<Byte>, skip: nat, at: nat, rowbytes: nat, bpp: nat, y: nat, i: nat)
    requires skip <= |raw| && Reconstructs(image, raw[skip..], at, rowbytes, bpp, y, i)
    ensures Reconstructs(image, raw, skip + at, rowbytes, bpp, y, i)
  {
    hide Rows, Predictor, ByteAt;
  }

  lemma {:induction false} ReconstructionFrom(out: seq<Byte>, y: nat, raw: seq<Byte>, h: nat, rowbytes: nat,
      bpp: nat, k: nat, i: nat)
    requires 1 <= bpp && k < h && Rows(h, rowbytes + 1) <= |raw| && |out| == Rows(y, rowbytes) && i < rowbytes
    requires UnfilterFrom(out, raw, h, rowbytes, bpp).Ok?
    ensures Reconstructs(UnfilterFrom(out, raw, h, rowbytes, bpp).value, raw, Rows(k, rowbytes + 1), rowbytes, bpp,
                         y + k, i)
    decreases h
  {
    hide Rows, UnfilterRow, UnfilterFrom, Above, Reconstructs;
    if k == 0 {
      RowsStep(0, rowbytes + 1);
      FirstRowReconstructs(out, y, raw, h, rowbytes, bpp, i);
    } else {
      RowsStep(k - 1, rowbytes + 1);
      RowsStep(y, rowbytes);
      RowTurn(out, raw, h, rowbytes, bpp);
      var row := UnfilterRow(raw[0], raw[1..1 + rowbytes], Above(out, rowbytes), bpp);
      ReconstructionFrom(out + row, y + 1, raw[1 + rowbytes..], h - 1, rowbytes, bpp, k - 1, i);
      ReconstructsLater(UnfilterFrom(out, raw, h, rowbytes, bpp).value, raw, 1 + rowbytes, Rows(k - 1, rowbytes + 1),
                        rowbytes, bpp, y + k, i);
    }
  }

  /** Every byte of every decoded image is its filtered byte plus the predictor, modulo 256, on the bytes
      of the image to its left, above and upper left. */
  lemma Reconstruction(raw: seq<Byte>, h: nat, rowbytes: nat, bpp: nat, y: nat, i: nat)
    requires 1 <= bpp && y < h && i < rowbytes && Unfiltered(raw, h, rowbytes, bpp).Ok?
    ensures Reconstructs(Unfiltered(raw, h, rowbytes, bpp).value, raw, Rows(y, rowbytes + 1), rowbytes, bpp, y, i)
  {
    RowsStep(0, rowbytes);
    hide Rows, UnfilterFrom, Reconstructs;
    ReconstructionFrom([], 0, raw, h, rowbytes, bpp, y, i);
  }

  /** The five equations written out: nothing, the byte to the left, the one above, half their sum rounded down,
      and the Paeth predictor on left, above and upper left. */
  lemma FilterEquations(raw: seq<Byte>, h: nat, rowbytes: nat, bpp: nat, y: nat, i: nat)
    requires 1 <= bpp && y < h && i < rowbytes && Unfiltered(raw, h, rowbytes, bpp).Ok?
    ensures var image, at, start := Unfiltered(raw, h, rowbytes, bpp).value, Rows(y, rowbytes + 1), Rows(y, rowbytes);
            && start + i < |image| && at + 1 + i < |raw| && (y > 0 ==> rowbytes <= start)
            && var x: nat, f: nat, d: nat := image[start + i], raw[at], raw[at + 1 + i];
               var a: nat := if i >= bpp then image[start + i - bpp] else 0;
               var b: nat := if y > 0 then image[start - rowbytes + i] else 0;
               var c: Byte := if i >= bpp && y > 0 then image[start - rowbytes + i - bpp] else 0;
               && f <= 4 && (f == 0 ==> x == d) && (f == 1 ==> x == (d + a) % 256) && (f == 2 ==> x == (d + b) % 256)
               && (f == 3 ==> x == (d + (a + b) / 2) % 256) && (f == 4 ==> x == (d + Paeth(a, b, c)) % 256)
  {
    hide Unfiltered, Rows, Paeth;
    Reconstruction(raw, h, rowbytes, bpp, y, i);
    RowsStep(0, rowbytes);
    if y > 0 {
      RowsStep(y - 1, rowbytes);
    }
  }
}
