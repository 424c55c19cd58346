/**
 * The in-place row filter decoder: each row is rebuilt inside the output buffer from the rows and
 * bytes already there.
 */
module PngUnfilter {
  import opened Bytes
  import opened PngFilter

  /** The first `n` bytes of the row at `start` are rebuilt; the rows before it are as they were. */
  ghost predicate Rebuilt(out: array<Byte>, start: nat, f: nat, src: seq<Byte>, prev: seq<Byte>, bpp: nat, n: nat)
    requires 1 <= bpp && (prev == [] || |prev| == |src|)
    reads out
  {
    n <= |src| && start + |src| <= out.Length && out[start..start + n] == UnfilterUpTo(f, src, prev, bpp, n)
  }

  /** A row's place, its source and the row above it. */
  ghost predicate RowAt(out: array<Byte>, start: nat, src: seq<Byte>, prev: seq<Byte>, bpp: nat) {
    1 <= bpp && (prev == [] || |prev| == |src|) && start + |src| <= out.Length
  }

  /** One more byte: the left neighbours are those already rebuilt in the buffer. */
  lemma ByteStep(out: array<Byte>, start: nat, f: nat, src: seq<Byte>, prev: seq<Byte>, bpp: nat, i: nat)
    requires RowAt(out, start, src, prev, bpp) && i < |src| && Rebuilt(out, start, f, src, prev, bpp, i)
    ensures var cur := out[start..start + i];
            && UnfilterUpTo(f, src, prev, bpp, i + 1) == cur + [(src[i] + Predict(f, cur, prev, i, bpp)) % 256]
            && (i >= bpp ==> cur[i - bpp] == out[start + i - bpp])
  {
    hide Predict;
  }

  method StoreByte(out: array<Byte>, start: nat, ghost f: nat, src: seq<Byte>, ghost prev: seq<Byte>,
      ghost bpp: nat, i: nat, p: Byte)
    requires RowAt(out, start, src, prev, bpp) && i < |src| && Rebuilt(out, start, f, src, prev, bpp, i)
    requires p == Predict(f, out[start..start + i], prev, i, bpp)
    modifies out
    ensures Rebuilt(out, start, f, src, prev, bpp, i + 1) && out[..start] == old(out[..start])
  {
    hide Predict, UnfilterUpTo;
    ghost var cur := out[start..start + i];
    ByteStep(out, start, f, src, prev, bpp, i);
    out[start + i] := (src[i] + p) % 256;
    assert out[start..start + i] == cur;
    assert out[start..start + i + 1] == out[start..start + i] + [out[start + i]];
  }

  method CopyRow(out: array<Byte>, start: nat, src: seq<Byte>, ghost prev: seq<Byte>, ghost bpp: nat)
    requires RowAt(out, start, src, prev, bpp)
    modifies out
    ensures Rebuilt(out, start, 0, src, prev, bpp, |src|) && out[..start] == old(out[..start])
  {
    hide UnfilterUpTo;
    NothingRebuilt(0, src, prev, bpp);
    assert out[start..start] == [];
    for i := 0 to |src|
      invariant Rebuilt(out, start, 0, src, prev, bpp, i) && out[..start] == old(out[..start])
    {
      StoreByte(out, start, 0, src, prev, bpp, i, 0);
    }
  }

  lemma NothingRebuilt(f: nat, src: seq<Byte>, prev: seq<Byte>, bpp: nat)
    requires 1 <= bpp && (prev == [] || |prev| == |src|)
    ensures UnfilterUpTo(f, src, prev, bpp, 0) == []
  {
  }

  method SubRow(out: array<Byte>, start: nat, src: seq<Byte>, ghost prev: seq<Byte>, bpp: nat)
    requires RowAt(out, start, src, prev, bpp)
    modifies out
    ensures Rebuilt(out, start, 1, src, prev, bpp, |src|) && out[..start] == old(out[..start])
  {
    hide UnfilterUpTo;
    NothingRebuilt(1, src, prev, bpp);
    assert out[start..start] == [];
    for i := 0 to |src|
      invariant Rebuilt(out, start, 1, src, prev, bpp, i) && out[..start] == old(out[..start])
    {
      var a := if i >= bpp then out[start + i - bpp] else 0;
      StoreByte(out, start, 1, src, prev, bpp, i, a);
    }
  }

  method UpRow(out: array<Byte>, start: nat, src: seq<Byte>, prev: seq<Byte>, ghost bpp: nat)
    requires RowAt(out, start, src, prev, bpp)
    modifies out
    ensures Rebuilt(out, start, 2, src, prev, bpp, |src|) && out[..start] == old(out[..start])
  {
    hide UnfilterUpTo;
    NothingRebuilt(2, src, prev, bpp);
    assert out[start..start] == [];
    for i := 0 to |src|
      invariant Rebuilt(out, start, 2, src, prev, bpp, i) && out[..start] == old(out[..start])
    {
      var b := if prev == [] then 0 else prev[i];
      StoreByte(out, start, 2, src, prev, bpp, i, b);
    }
  }

  method AverageRow(out: array<Byte>, start: nat, src: seq<Byte>, prev: seq<Byte>, bpp: nat)
    requires RowAt(out, start, src, prev, bpp)
    modifies out
    ensures Rebuilt(out, start, 3, src, prev, bpp, |src|) && out[..start] == old(out[..start])
  {
    hide UnfilterUpTo;
    NothingRebuilt(3, src, prev, bpp);
    assert out[start..start] == [];
    for i := 0 to |src|
      invariant Rebuilt(out, start, 3, src, prev, bpp, i) && out[..start] == old(out[..start])
    {
      var a: nat := if i >= bpp then out[start + i - bpp] else 0;
      var b: nat := if prev == [] then 0 else prev[i];
      StoreByte(out, start, 3, src, prev, bpp, i, (a + b) / 2);
    }
  }

  method PaethRow(out: array<Byte>, start: nat, src: seq<Byte>, prev: seq<Byte>, bpp: nat)
    requires RowAt(out, start, src, prev, bpp)
    modifies out
    ensures Rebuilt(out, start, 4, src, prev, bpp, |src|) && out[..start] == old(out[..start])
  {
    hide UnfilterUpTo, Paeth;
    NothingRebuilt(4, src, prev, bpp);
    assert out[start..start] == [];
    for i := 0 to |src|
      invariant Rebuilt(out, start, 4, src, prev, bpp, i) && out[..start] == old(out[..start])
    {
      var a := if i >= bpp then out[start + i - bpp] else 0;
      var b := if prev == [] then 0 else prev[i];
      var c := if prev == [] || i < bpp then 0 else prev[i - bpp];
      StoreByte(out, start, 4, src, prev, bpp, i, Paeth(a, b, c));
    }
  }

  /** Rebuilds the row at `start`, whatever its filter type. */
  method UnfilterRowInto(out: array<Byte>, start: nat, f: nat, src: seq<Byte>, prev: seq<Byte>, bpp: nat)
    returns (ok: bool)
    requires RowAt(out, start, src, prev, bpp)
    modifies out
    ensures ok <==> f <= 4
    ensures ok ==> out[..start + |src|] == old(out[..start]) + UnfilterRow(f, src, prev, bpp)
  {
    hide UnfilterUpTo;
    ok := true;
    if f == 0 {
      CopyRow(out, start, src, prev, bpp);
    } else if f == 1 {
      SubRow(out, start, src, prev, bpp);
    } else if f == 2 {
      UpRow(out, start, src, prev, bpp);
    } else if f == 3 {
      AverageRow(out, start, src, prev, bpp);
    } else if f == 4 {
      PaethRow(out, start, src, prev, bpp);
    } else {
      return false;
    }
    assert out[..start + |src|] == out[..start] + out[start..start + |src|];
  }

  /** The row above: none for the first, else the row just before `start`. */
  lemma AbovePlace(y: nat, rowbytes: nat, out: seq<Byte>)
    requires |out| == Rows(y, rowbytes)
    ensures y == 0 ==> Above(out, rowbytes) == []
    ensures y > 0 ==> rowbytes <= |out| && Above(out, rowbytes) == out[|out| - rowbytes..]
  {
    if y > 0 {
      RowsStep(y - 1, rowbytes);
    }
    hide Rows;
  }

  /** Rebuilds one row: its filter type and bytes are at `at`. */
  method RowInto(raw: seq<Byte>, at: nat, out: array<Byte>, start: nat, y: nat, ghost h: nat, rowbytes: nat, bpp: nat)
    returns (ok: bool)
    requires 1 <= bpp && 1 <= h && start == Rows(y, rowbytes) && LeftFits(raw, at, start, out.Length, h, rowbytes)
    modifies out
    ensures ok ==> LeftFits(raw, at + rowbytes + 1, start + rowbytes, out.Length, h - 1, rowbytes)
                   && UnfilterFrom(old(out[..start]), raw[at..], h, rowbytes, bpp)
                      == UnfilterFrom(out[..start + rowbytes], raw[at + rowbytes + 1..], h - 1, rowbytes, bpp)
    ensures !ok ==> UnfilterFrom(old(out[..start]), raw[at..], h, rowbytes, bpp) == Err(InvalidFilter)
  {
    hide Rows, UnfilterRow, UnfilterFrom, Above;
    ghost var before := out[..start];
    RowTurn(before, raw[at..], h, rowbytes, bpp);
    AbovePlace(y, rowbytes, before);
    var src := raw[at + 1..at + 1 + rowbytes];
    assert src == raw[at..][1..1 + rowbytes];
    assert raw[at..][1 + rowbytes..] == raw[at + rowbytes + 1..];
    var prev: seq<Byte> := if y == 0 then [] else out[start - rowbytes..start];
    assert prev == Above(before, rowbytes);
    ok := UnfilterRowInto(out, start, raw[at], src, prev, bpp);
  }

  method Unfilter(raw: seq<Byte>, height: nat, rowbytes: nat, bpp: nat) returns (r: Result<seq<Byte>, PngError>)
    requires 1 <= bpp
    ensures r == Unfiltered(raw, height, rowbytes, bpp)
  {
    hide Rows, UnfilterFrom;
    if |raw| < Rows(height, rowbytes + 1) {
      return Err(ShortData);
    }
    var out := new Byte[Rows(height, rowbytes)](_ => 0);
    RowsStep(0, rowbytes);
    RowsStep(0, rowbytes + 1);
    assert out[..0] == [] && raw[0..] == raw;
    for y := 0 to height
      invariant Rows(y, rowbytes) <= out.Length && Rows(y, rowbytes + 1) <= |raw|
      invariant LeftFits(raw, Rows(y, rowbytes + 1), Rows(y, rowbytes), out.Length, height - y, rowbytes)
      invariant UnfilterFrom(out[..Rows(y, rowbytes)], raw[Rows(y, rowbytes + 1)..], height - y, rowbytes, bpp)
                == Unfiltered(raw, height, rowbytes, bpp)
    {
      RowsStep(y, rowbytes);
      RowsStep(y, rowbytes + 1);
      var ok := RowInto(raw, Rows(y, rowbytes + 1), out, Rows(y, rowbytes), y, height - y, rowbytes, bpp);
      if !ok {
        return Err(InvalidFilter);
      }
    }
    UnfilterDone(out[..Rows(height, rowbytes)], raw[Rows(height, rowbytes + 1)..], rowbytes, bpp);
    assert out[..Rows(height, rowbytes)] == out[..];
    r := Ok(out[..]);
  }

  /** What is left of the data and of the buffer holds `h` more rows. */
  ghost predicate LeftFits(raw: seq<Byte>, at: nat, start: nat, size: nat, h: nat, rowbytes: nat) {
    at <= |raw| && Rows(h, rowbytes + 1) <= |raw| - at && start + Rows(h, rowbytes) == size
  }

  lemma UnfilterDone(out: seq<Byte>, raw: seq<Byte>, rowbytes: nat, bpp: nat)
    requires 1 <= bpp
    ensures Rows(0, rowbytes + 1) == 0 && Rows(0, rowbytes) == 0 && UnfilterFrom(out, raw, 0, rowbytes, bpp) == Ok(out)
  {
  }
}
