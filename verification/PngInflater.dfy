/**
 * The inflate loop over the bit reader: on every input, the outcome of the decoder on bit
 * sequences, and the same first error.
 */
module PngInflater {
  import opened Bytes
  import opened PngBits
  import opened PngHuffman
  import opened PngInflate

  method ReadBits(br: BitReader, n: nat) returns (r: Result<nat, InflateError>)
    requires br.Valid() && n <= 16
    modifies br
    ensures br.Valid() && Outcome(ReadNumber(old(br.Unread()), n), r, br.Unread())
  {
    hide BitReader.Unread, BitReader.Valid, ToBits, Value;
    ghost var bits := br.Unread();
    var v := br.GetBits(n);
    if v.None? {
      return Err(UnexpectedEnd);
    }
    ToBitsValue(v.value, n);
    r := Ok(v.value);
  }

  // ---------- Compressed data ----------

  method MatchAfter(br: BitReader, t: Table, s: nat, ghost dist: seq<nat>) returns (r: Result<Match, InflateError>)
    requires br.Valid() && t == TableOf(dist)
    modifies br
    ensures br.Valid() && Outcome(ReadMatch(dist, s, old(br.Unread())), r, br.Unread())
  {
    hide BitReader.Unread, BitReader.Valid, LEN_BASE, LEN_EXTRA, DIST_BASE, DIST_EXTRA, TableOf, Decode, ReadNumber;
    ghost var bits := br.Unread();
    LengthTable();
    DistanceTable();
    if s >= 29 {
      return Err(InvalidLengthSymbol);
    }
    var le := ReadBits(br, LEN_EXTRA[s]);
    if le.Err? {
      return Err(le.error);
    }
    var d := DecodeSymbol(t, br, dist);
    if d.Err? {
      return Err(d.error);
    }
    if d.value >= 30 {
      return Err(InvalidDistanceSymbol);
    }
    var de := ReadBits(br, DIST_EXTRA[d.value]);
    if de.Err? {
      return Err(de.error);
    }
    r := Ok(Match(LEN_BASE[s] + le.value, DIST_BASE[d.value] + de.value));
  }

  /** The match copied byte by byte, each read after the bytes before it were appended. */
  method CopyBack(out: seq<Byte>, distance: nat, length: nat) returns (r: seq<Byte>)
    requires 1 <= distance <= |out|
    ensures r == CopyMatch(out, distance, length)
  {
    hide CopyMatch;
    var start := |out| - distance;
    r := out;
    for i := 0 to length
      invariant |r| == |out| + i && r[..|out|] == out
      invariant forall k :: |out| <= k < |r| ==> r[k] == r[k - distance]
    {
      r := r + [r[start + i]];
    }
    CopyMatchUnique(out, distance, length, r);
  }

  /** One turn of the loop over symbols. */
  method NextToken(br: BitReader, out: seq<Byte>, tl: Table, td: Table, ghost lit: seq<nat>, ghost dist: seq<nat>)
    returns (done: bool, r: Result<seq<Byte>, InflateError>, next: seq<Byte>)
    requires br.Valid() && tl == TableOf(lit) && td == TableOf(dist)
    modifies br
    ensures br.Valid()
    ensures done ==> Outcome(InflateTokens(lit, dist, out, old(br.Unread())), r, br.Unread())
    ensures !done ==> |br.Unread()| < |old(br.Unread())|
                      && InflateTokens(lit, dist, out, old(br.Unread())) == InflateTokens(lit, dist, next, br.Unread())
  {
    hide BitReader.Unread, BitReader.Valid, TableOf, Decode, ReadMatch, CopyMatch;
    ghost var bits := br.Unread();
    done, next, r := true, out, Err(UnexpectedEnd);
    var sym := DecodeSymbol(tl, br, lit);
    if sym.Err? {
      return true, Err(sym.error), out;
    }
    if sym.value == 256 {
      return true, Ok(out), out;
    }
    if sym.value < 256 {
      return false, r, out + [sym.value];
    }
    var m := MatchAfter(br, td, sym.value - 257, dist);
    if m.Err? {
      return true, Err(m.error), out;
    }
    if m.value.distance > |out| {
      return true, Err(DistanceTooFar), out;
    }
    next := CopyBack(out, m.value.distance, m.value.length);
    done := false;
  }

  method InflateBlockHuffman(br: BitReader, out: seq<Byte>, tl: Table, td: Table, ghost lit: seq<nat>,
      ghost dist: seq<nat>)
    returns (r: Result<seq<Byte>, InflateError>)
    requires br.Valid() && tl == TableOf(lit) && td == TableOf(dist)
    modifies br
    ensures br.Valid() && Outcome(InflateTokens(lit, dist, out, old(br.Unread())), r, br.Unread())
  {
    hide BitReader.Unread, BitReader.Valid, TableOf, InflateTokens;
    var cur := out;
    while true
      invariant br.Valid()
      invariant InflateTokens(lit, dist, cur, br.Unread()) == InflateTokens(lit, dist, out, old(br.Unread()))
      decreases |br.Unread()|
    {
      var done, result, next := NextToken(br, cur, tl, td, lit, dist);
      if done {
        return result;
      }
      cur := next;
    }
  }

  // ---------- Stored blocks ----------

  method ReadByte(br: BitReader) returns (r: Result<nat, InflateError>)
    requires br.Valid()
    modifies br
    ensures br.Valid() && Outcome(ReadNumber(old(br.Unread()), 8), r, br.Unread())
    ensures r.Ok? ==> r.value < 256
  {
    hide BitReader.Unread, BitReader.Valid;
    SmallPowers();
    hide Pow2;
    ghost var bits := br.Unread();
    r := ReadBits(br, 8);
  }

  method ReadU16Le(br: BitReader) returns (r: Result<nat, InflateError>)
    requires br.Valid()
    modifies br
    ensures br.Valid() && Outcome(ReadU16(old(br.Unread())), r, br.Unread())
  {
    hide BitReader.Unread, BitReader.Valid, ReadNumber;
    ghost var bits := br.Unread();
    var lo := ReadByte(br);
    if lo.Err? {
      return Err(lo.error);
    }
    var hi := ReadByte(br);
    if hi.Err? {
      return Err(hi.error);
    }
    r := Ok(lo.value + 256 * hi.value);
  }

  method CopyStored(br: BitReader, out: seq<Byte>, len: nat) returns (r: Result<seq<Byte>, InflateError>)
    requires br.Valid()
    modifies br
    ensures br.Valid() && Outcome(ReadBytes(out, len, old(br.Unread())), r, br.Unread())
  {
    hide BitReader.Unread, BitReader.Valid, ReadNumber;
    var cur: seq<Byte> := out;
    for i := 0 to len
      invariant br.Valid() && ReadBytes(cur, len - i, br.Unread()) == ReadBytes(out, len, old(br.Unread()))
    {
      ghost var bits := br.Unread();
      var b := ReadByte(br);
      if b.Err? {
        return Err(b.error);
      }
      cur := cur + [b.value];
    }
    r := Ok(cur);
  }

  method InflateStoredBlock(br: BitReader, out: seq<Byte>) returns (r: Result<seq<Byte>, InflateError>)
    requires br.Valid()
    modifies br
    ensures br.Valid() && Outcome(InflateStored(out, old(br.Unread())), r, br.Unread())
  {
    hide BitReader.Unread, BitReader.Valid, ReadU16, ReadBytes;
    ghost var bits := br.Unread();
    br.AlignByte();
    var len := ReadU16Le(br);
    if len.Err? {
      return Err(len.error);
    }
    var nlen := ReadU16Le(br);
    if nlen.Err? {
      return Err(nlen.error);
    }
    if len.value != 0xFFFF - nlen.value {
      return Err(LengthMismatch);
    }
    r := CopyStored(br, out, len.value);
  }

  // ---------- The code lengths of a dynamic block ----------

  method ReadCodeLengths(br: BitReader, n: nat) returns (r: Result<seq<nat>, InflateError>)
    requires br.Valid() && n <= 19
    modifies br
    ensures br.Valid() && Outcome(ReadCodeLengthCode(Repeat(0, 19), 0, n, old(br.Unread())), r, br.Unread())
  {
    hide BitReader.Unread, BitReader.Valid, ReadNumber, CLEN_ORDER;
    var cl: seq<nat> := Repeat(0, 19);
    SmallPowers();
    OrderTable();
    hide Pow2;
    for i := 0 to n
      invariant br.Valid() && |cl| == 19 && Lengths(cl)
      invariant ReadCodeLengthCode(cl, i, n, br.Unread()) == ReadCodeLengthCode(Repeat(0, 19), 0, n, old(br.Unread()))
    {
      ghost var bits := br.Unread();
      var l := ReadBits(br, 3);
      if l.Err? {
        return Err(l.error);
      }
      cl := cl[CLEN_ORDER[i] := l.value];
    }
    r := Ok(cl);
  }

  /** Writes `rep` copies of `x` from index `i`; fails when they do not fit. */
  method FillRun(lengths: array<nat>, i: nat, x: nat, rep: nat) returns (ok: bool)
    requires i <= lengths.Length
    modifies lengths
    ensures ok <==> i + rep <= lengths.Length
    ensures ok ==> lengths[..i + rep] == old(lengths[..i]) + Repeat(x, rep)
  {
    for k := 0 to rep
      invariant i + k <= lengths.Length
      invariant lengths[..i] == old(lengths[..i])
      invariant forall m :: i <= m < i + k ==> lengths[m] == x
    {
      if i + k >= lengths.Length {
        return false;
      }
      lengths[i + k] := x;
    }
    ok := true;
  }

  method RunInto(br: BitReader, lengths: array<nat>, i: nat, x: nat, base: nat, extra: nat, overflow: InflateError)
    returns (r: Result<nat, InflateError>)
    requires br.Valid() && i <= lengths.Length && extra <= 16
    modifies br, lengths
    ensures br.Valid()
    ensures match ReadRun(old(lengths[..i]), x, base, extra, lengths.Length, overflow, old(br.Unread()))
            case Got(all, rest) => r == Ok(|all|) && all == lengths[..|all|] && br.Unread() == rest
            case Failed(e) => r == Err(e)
  {
    hide BitReader.Unread, BitReader.Valid, ReadNumber;
    ghost var bits := br.Unread();
    var n := ReadBits(br, extra);
    if n.Err? {
      return Err(n.error);
    }
    var fits := FillRun(lengths, i, x, base + n.value);
    if !fits {
      return Err(overflow);
    }
    r := Ok(i + base + n.value);
  }

  /** What one code-length symbol writes: the index after it. */
  method LengthsInto(br: BitReader, lengths: array<nat>, i: nat, sym: nat) returns (r: Result<nat, InflateError>)
    requires br.Valid() && i < lengths.Length <= 0xFFFF && Lengths(lengths[..i])
    modifies br, lengths
    ensures br.Valid()
    ensures match ReadLengths(old(lengths[..i]), sym, lengths.Length, old(br.Unread()))
            case Got(all, rest) => r == Ok(|all|) && all == lengths[..|all|] && br.Unread() == rest
            case Failed(e) => r == Err(e)
  {
    hide BitReader.Unread, BitReader.Valid, ReadRun, Lengths;
    if sym <= 15 {
      lengths[i] := sym;
      return Ok(i + 1);
    }
    if sym == 16 {
      if i == 0 {
        return Err(RepeatWithoutLength);
      }
      r := RunInto(br, lengths, i, lengths[i - 1], 3, 2, RepeatOverflow);
    } else if sym == 17 {
      r := RunInto(br, lengths, i, 0, 3, 3, ZeroRepeatOverflow);
    } else if sym == 18 {
      r := RunInto(br, lengths, i, 0, 11, 7, ZeroRepeatOverflow);
    } else {
      r := Err(InvalidCodeLengthSymbol);
    }
  }

  method AllLengthsInto(br: BitReader, lengths: array<nat>, t: Table, ghost cl: seq<nat>)
    returns (r: Result<(), InflateError>)
    requires br.Valid() && lengths.Length <= 0xFFFF && t == TableOf(cl)
    modifies br, lengths
    ensures br.Valid()
    ensures match ReadAllLengths(cl, [], lengths.Length, old(br.Unread()))
            case Got(all, rest) => r == Ok(()) && all == lengths[..] && br.Unread() == rest
            case Failed(e) => r == Err(e)
  {
    assert lengths[..0] == [];
    assert Lengths([]);
    hide BitReader.Unread, BitReader.Valid, ReadLengths, Lengths, Decode;
    var i: nat := 0;
    while i < lengths.Length
      invariant br.Valid() && i <= lengths.Length && Lengths(lengths[..i])
      invariant ReadAllLengths(cl, lengths[..i], lengths.Length, br.Unread())
                == ReadAllLengths(cl, [], lengths.Length, old(br.Unread()))
    {
      ghost var bits := br.Unread();
      var sym := DecodeSymbol(t, br, cl);
      if sym.Err? {
        return Err(sym.error);
      }
      var next := LengthsInto(br, lengths, i, sym.value);
      if next.Err? {
        return Err(next.error);
      }
      i := next.value;
    }
    r := Ok(());
  }

  /** The tables of a dynamic block, and the code lengths they are built from. */
  method ReadDynamicHuffman(br: BitReader)
    returns (r: Result<(Table, Table), InflateError>, ghost codes: Codes)
    requires br.Valid()
    modifies br
    ensures br.Valid()
    ensures match ReadCodes(old(br.Unread()))
            case Got(c, rest) => codes == c && r == Ok((TableOf(c.lit), TableOf(c.dist))) && br.Unread() == rest
            case Failed(e) => r == Err(e)
  {
    hide BitReader.Unread, BitReader.Valid, ReadCodesAfter, ReadNumber, TableOf;
    SmallPowers();
    hide Pow2;
    codes := Codes([], []);
    ghost var bits := br.Unread();
    var hlit := ReadBits(br, 5);
    if hlit.Err? {
      return Err(hlit.error), codes;
    }
    var hdist := ReadBits(br, 5);
    if hdist.Err? {
      return Err(hdist.error), codes;
    }
    var hclen := ReadBits(br, 4);
    if hclen.Err? {
      return Err(hclen.error), codes;
    }
    r, codes := ReadTables(br, hlit.value + 257, hdist.value + 1, hclen.value + 4);
  }

  method ReadTables(br: BitReader, nlit: nat, ndist: nat, nclen: nat)
    returns (r: Result<(Table, Table), InflateError>, ghost codes: Codes)
    requires br.Valid() && nlit + ndist <= 0xFFFF && nclen <= 19
    modifies br
    ensures br.Valid()
    ensures match ReadCodesAfter(nlit, ndist, nclen, old(br.Unread()))
            case Got(c, rest) => codes == c && r == Ok((TableOf(c.lit), TableOf(c.dist))) && br.Unread() == rest
            case Failed(e) => r == Err(e)
  {
    hide BitReader.Unread, BitReader.Valid, ReadCodeLengthCode, ReadAllLengths, TableOf;
    codes := Codes([], []);
    ghost var bits := br.Unread();
    var cl := ReadCodeLengths(br, nclen);
    if cl.Err? {
      return Err(cl.error), codes;
    }
    var t := BuildTable(cl.value);
    var lengths := new nat[nlit + ndist](_ => 0);
    var read := AllLengthsInto(br, lengths, t, cl.value);
    if read.Err? {
      return Err(read.error), codes;
    }
    codes := Codes(lengths[..][..nlit], lengths[..][nlit..]);
    var lit := BuildTable(lengths[..nlit]);
    var dist := BuildTable(lengths[nlit..]);
    r := Ok((lit, dist));
  }

  // ---------- Blocks ----------

  method BuildFixedHuffman() returns (lit: Table, dist: Table)
    ensures lit == TableOf(FixedLit()) && dist == TableOf(FixedDist())
  {
    hide TableOf;
    var lengths := new nat[288](_ => 0);
    for i := 0 to 144
      invariant forall k :: 0 <= k < i ==> lengths[k] == 8
    {
      lengths[i] := 8;
    }
    for i := 144 to 256
      invariant forall k :: 0 <= k < i ==> lengths[k] == if k < 144 then 8 else 9
    {
      lengths[i] := 9;
    }
    for i := 256 to 280
      invariant forall k :: 0 <= k < i ==> lengths[k] == if k < 144 then 8 else if k < 256 then 9 else 7
    {
      lengths[i] := 7;
    }
    for i := 280 to 288
      invariant forall k :: 0 <= k < i ==> lengths[k] == FixedLit()[k]
    {
      lengths[i] := 8;
    }
    assert lengths[..] == FixedLit();
    lit := BuildTable(lengths[..]);
    dist := BuildTable(Repeat(5, 30));
  }

  method InflateBodyOf(br: BitReader, btype: nat, out: seq<Byte>) returns (r: Result<seq<Byte>, InflateError>)
    requires br.Valid()
    modifies br
    ensures br.Valid() && Outcome(InflateBody(btype, out, old(br.Unread())), r, br.Unread())
  {
    hide BitReader.Unread, BitReader.Valid, InflateStored, InflateTokens, ReadCodes, TableOf;
    ghost var bits := br.Unread();
    if btype == 0 {
      r := InflateStoredBlock(br, out);
    } else if btype == 1 {
      var lit, dist := BuildFixedHuffman();
      r := InflateBlockHuffman(br, out, lit, dist, FixedLit(), FixedDist());
    } else if btype == 2 {
      var tables, codes := ReadDynamicHuffman(br);
      if tables.Err? {
        return Err(tables.error);
      }
      r := InflateBlockHuffman(br, out, tables.value.0, tables.value.1, codes.lit, codes.dist);
    } else {
      r := Err(InvalidBlockType);
    }
  }

  method NextBlock(br: BitReader, out: seq<Byte>) returns (r: Result<Block, InflateError>)
    requires br.Valid()
    modifies br
    ensures br.Valid() && Outcome(InflateBlock(out, old(br.Unread())), r, br.Unread())
  {
    hide BitReader.Unread, BitReader.Valid, InflateBody, ReadNumber;
    ghost var bits := br.Unread();
    var final := ReadBits(br, 1);
    if final.Err? {
      return Err(final.error);
    }
    var btype := ReadBits(br, 2);
    if btype.Err? {
      return Err(btype.error);
    }
    var body := InflateBodyOf(br, btype.value, out);
    if body.Err? {
      return Err(body.error);
    }
    r := Ok(Block(final.value == 1, body.value));
  }

  /** On every input, well formed or not, the outcome of the decoder on bits. */
  method Inflate(data: seq<Byte>, expected: nat) returns (r: Result<seq<Byte>, InflateError>)
    ensures r == Inflated(data, expected)
  {
    hide BitReader.Unread, BitReader.Valid, InflateBlock, StreamBits;
    var cap := Max(expected + expected / 16, expected + 4096);
    var br := new BitReader(data);
    var out: seq<Byte> := [];
    while true
      invariant br.Valid() && fresh(br)
      invariant InflateFrom(out, br.Unread(), cap) == Inflated(data, expected)
      decreases |br.Unread()|
    {
      if |out| > cap {
        return Err(TooLarge);
      }
      ghost var bits := br.Unread();
      var block := NextBlock(br, out);
      if block.Err? {
        return Err(block.error);
      }
      out := block.value.out;
      if block.value.final {
        return Ok(out);
      }
    }
  }
}
