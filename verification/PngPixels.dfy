/**
 * Samples and colours: how rows of every colour type and bit depth are packed, read back and turned into
 * RGBA.
 */
module PngPixels {
  import opened Bytes
  import opened PngBits
  import opened PngFilter

  /** Colour type, bit depth, palette and transparency of an image. */
  datatype Format = Format(color: nat, depth: nat, plte: Option<seq<Byte>>, trns: Option<seq<Byte>>)

  predicate DepthOk(depth: nat) {
    depth == 1 || depth == 2 || depth == 4 || depth == 8 || depth == 16
  }

  /** The combinations the decoder admits. */
  predicate FormatOk(fmt: Format) {
    && DepthOk(fmt.depth)
    && (fmt.color == 0 || fmt.color == 2 || fmt.color == 3 || fmt.color == 4 || fmt.color == 6)
    && (fmt.color == 3 ==> fmt.depth != 16)
    && (fmt.color == 2 || fmt.color == 4 || fmt.color == 6 ==> fmt.depth == 8 || fmt.depth == 16)
  }

  function Channels(color: nat): (r: nat)
    ensures 1 <= r <= 4
  {
    if color == 2 then 3 else if color == 4 then 2 else if color == 6 then 4 else 1
  }

  /** Bytes in a row of `w` pixels. */
  function RowBytes(fmt: Format, w: nat): nat {
    (w * Channels(fmt.color) * fmt.depth + 7) / 8
  }

  function BytesPerPixel(fmt: Format): (r: nat)
    ensures r >= 1
  {
    Max((fmt.depth * Channels(fmt.color) + 7) / 8, 1)
  }

  // ---------- Samples in a row ----------

  /** How many bytes `n` samples take. */
  function PackedBytes(n: nat, depth: nat): nat {
    if depth == 1 then (n + 7) / 8 else if depth == 2 then (n + 3) / 4 else if depth == 4 then (n + 1) / 2
    else if depth == 8 then n else 2 * n
  }

  lemma RowBytesPacked(fmt: Format, w: nat)
    requires FormatOk(fmt)
    ensures RowBytes(fmt, w) == PackedBytes(w * Channels(fmt.color), fmt.depth)
  {
    var n := w * Channels(fmt.color);
    if fmt.depth == 1 {
    } else if fmt.depth == 2 {
    } else if fmt.depth == 4 {
    } else if fmt.depth == 8 {
    }
  }

  /** How many samples share a byte. */
  function PerByte(depth: nat): (r: nat)
    ensures r >= 1
  {
    if depth == 1 then 8 else if depth == 2 then 4 else if depth == 4 then 2 else 1
  }

  /** Sample `i` of a row: whole bytes, or bits taken from the top of a byte down. */
  function GetSample(row: seq<Byte>, i: nat, depth: nat): nat
    requires DepthOk(depth) && PackedBytes(i + 1, depth) <= |row|
  {
    if depth == 8 then row[i]
    else if depth == 16 then 256 * row[2 * i] + row[2 * i + 1]
    else LowBits(ShiftRight(row[i / PerByte(depth)], 8 - depth - i % PerByte(depth) * depth), depth)
  }

  ghost predicate SamplesFit(s: seq<nat>, depth: nat) {
    forall i :: 0 <= i < |s| ==> s[i] < Pow2(depth)
  }

  /** Sample `i`, or a zero that fills up the last byte. */
  function SampleOr0(s: seq<nat>, i: nat): nat {
    if i < |s| then s[i] else 0
  }

  /** `n` samples side by side, the first in the highest bits. */
  function Digits(s: seq<nat>, depth: nat, at: nat, n: nat): nat {
    if n == 0 then 0 else SampleOr0(s, at + n - 1) + ShiftLeft(Digits(s, depth, at, n - 1), depth)
  }

  /** Byte `k` of packed samples. */
  function PackByte(s: seq<nat>, depth: nat, k: nat): nat {
    if depth == 8 then SampleOr0(s, k)
    else if depth == 16 then if k % 2 == 0 then SampleOr0(s, k / 2) / 256 else SampleOr0(s, k / 2) % 256
    else Digits(s, depth, k * PerByte(depth), PerByte(depth))
  }

  lemma SampleFits(s: seq<nat>, depth: nat, i: nat)
    requires SamplesFit(s, depth)
    ensures SampleOr0(s, i) < Pow2(depth)
  {
  }

  lemma {:induction false} DigitsFit(s: seq<nat>, depth: nat, at: nat, n: nat)
    requires SamplesFit(s, depth)
    ensures Digits(s, depth, at, n) < Pow2(Rows(n, depth))
  {
    if n > 0 {
      hide ToBits, ShiftLeft, Rows, SamplesFit;
      DigitsFit(s, depth, at, n - 1);
      SampleFits(s, depth, at + n - 1);
      RowsStep(n - 1, depth);
      LoadAbove(SampleOr0(s, at + n - 1), depth, Digits(s, depth, at, n - 1), Rows(n - 1, depth));
    }
  }

  lemma PackByteFits(s: seq<nat>, depth: nat, k: nat)
    requires DepthOk(depth) && SamplesFit(s, depth)
    ensures PackByte(s, depth, k) < 256
  {
    SmallPowers();
    if depth == 8 {
      SampleFits(s, depth, k);
    } else if depth == 16 {
      SampleFits(s, depth, k / 2);
      Pow16();
    } else {
      DigitsFit(s, depth, k * PerByte(depth), PerByte(depth));
      assert Rows(PerByte(depth), depth) == 8;
    }
  }

  lemma Pow16()
    ensures Pow2(16) == 0x1_0000
  {
    assert Pow2(4) == 16;
    assert Pow2(8) == 256;
    assert Pow2(12) == 4096;
  }

  /** The bytes of a row of samples. */
  ghost function Pack(s: seq<nat>, depth: nat): (r: seq<Byte>)
    requires DepthOk(depth) && SamplesFit(s, depth)
    ensures |r| == PackedBytes(|s|, depth) && forall k :: 0 <= k < |r| ==> r[k] == PackByte(s, depth, k)
  {
    forall k: nat
      ensures PackByte(s, depth, k) < 256
    {
      PackByteFits(s, depth, k);
    }
    hide PackByte, SamplesFit;
    seq(PackedBytes(|s|, depth), k requires 0 <= k < PackedBytes(|s|, depth) => PackByte(s, depth, k))
  }

  // ---------- Reading samples back ----------

  lemma {:induction false} ShiftOff(v: nat, b: nat, n: nat)
    requires v < Pow2(n)
    ensures ShiftRight(v + ShiftLeft(b, n), n) == b && LowBits(v + ShiftLeft(b, n), n) == v
  {
    if n > 0 {
      var w := v + ShiftLeft(b, n);
      assert w % 2 == v % 2 && w / 2 == v / 2 + ShiftLeft(b, n - 1);
      ShiftOff(v / 2, b, n - 1);
    }
  }

  lemma {:induction false} ShiftTwice(v: nat, m: nat, n: nat)
    ensures ShiftRight(v, m + n) == ShiftRight(ShiftRight(v, m), n)
  {
    if m > 0 {
      ShiftTwice(v / 2, m - 1, n);
    }
  }

  lemma LastDigit(s: seq<nat>, depth: nat, at: nat, n: nat)
    requires SamplesFit(s, depth) && n > 0
    ensures var v := Digits(s, depth, at, n);
            ShiftRight(v, depth) == Digits(s, depth, at, n - 1) && LowBits(v, depth) == SampleOr0(s, at + n - 1)
  {
    hide ShiftRight, LowBits, ShiftLeft;
    ShiftOff(SampleOr0(s, at + n - 1), Digits(s, depth, at, n - 1), depth);
  }

  /** Shifting the samples after sample `j` away and masking leaves sample `j`. */
  lemma {:induction false} DigitBack(s: seq<nat>, depth: nat, at: nat, n: nat, j: nat)
    requires SamplesFit(s, depth) && j < n
    ensures LowBits(ShiftRight(Digits(s, depth, at, n), Rows(n - 1 - j, depth)), depth) == SampleOr0(s, at + j)
    decreases n
  {
    hide LowBits, Digits, Rows, SamplesFit, SampleOr0;
    LastDigit(s, depth, at, n);
    if j < n - 1 {
      hide ShiftRight;
      RowsStep(n - 2 - j, depth);
      ShiftTwice(Digits(s, depth, at, n), depth, Rows(n - 2 - j, depth));
      DigitBack(s, depth, at, n - 1, j);
    } else {
      RowsStep(0, depth);
    }
  }

  lemma SubByteSample(s: seq<nat>, depth: nat, i: nat)
    requires (depth == 1 || depth == 2 || depth == 4) && SamplesFit(s, depth) && i < |s|
    ensures PackedBytes(i + 1, depth) <= |Pack(s, depth)| && GetSample(Pack(s, depth), i, depth) == s[i]
  {
    hide Digits, ShiftRight, LowBits, SamplesFit;
    var n := PerByte(depth);
    var k, j := i / n, i % n;
    assert k * n + j == i;
    assert 8 - depth - j * depth == Rows(n - 1 - j, depth);
    DigitBack(s, depth, k * n, n, j);
  }

  /** A packed sample is read back, at every depth. */
  lemma SampleBack(s: seq<nat>, depth: nat, i: nat)
    requires DepthOk(depth) && SamplesFit(s, depth) && i < |s|
    ensures PackedBytes(i + 1, depth) <= |Pack(s, depth)| && GetSample(Pack(s, depth), i, depth) == s[i]
  {
    hide Digits, ShiftRight, LowBits;
    if depth < 8 {
      SubByteSample(s, depth, i);
    }
  }

  // ---------- Sizes ----------

  /** Bytes from a pixel to the next, for each format: at least one where several pixels share a byte. */
  lemma PixelSizes(fmt: Format)
    requires FormatOk(fmt)
    ensures var samples := match fmt.color case 2 => 3 case 4 => 2 case 6 => 4 case _ => 1;
            BytesPerPixel(fmt) == if fmt.depth < 8 then 1 else if fmt.depth == 8 then samples else 2 * samples
  {
  }

  /** A row is the fewest bytes that hold the bits of its pixels. */
  lemma RowSizes(fmt: Format, w: nat)
    requires FormatOk(fmt)
    ensures var bits := w * fmt.depth * match fmt.color case 2 => 3 case 4 => 2 case 6 => 4 case _ => 1;
            bits <= 8 * RowBytes(fmt, w) < bits + 8
  {
    assert w * Channels(fmt.color) * fmt.depth == w * fmt.depth * Channels(fmt.color);
  }
}
