/**
 * DEFLATE decompression on bit sequences: what every stream means, well formed or not, with the
 * first error a sequential decoder meets.
 */
module PngInflate {
  import opened Bytes
  import opened PngBits
  import opened PngHuffman

  const LEN_BASE: seq<nat> := [
    3, 4, 5, 6, 7, 8, 9, 10, 11, 13, 15, 17, 19, 23, 27, 31, 35, 43, 51, 59, 67, 83, 99, 115, 131,
    163, 195, 227, 258
  ]
  const LEN_EXTRA: seq<nat> := [
    0, 0, 0, 0, 0, 0, 0, 0, 1, 1, 1, 1, 2, 2, 2, 2, 3, 3, 3, 3, 4, 4, 4, 4, 5, 5, 5, 5, 0
  ]
  const DIST_BASE: seq<nat> := [
    1, 2, 3, 4, 5, 7, 9, 13, 17, 25, 33, 49, 65, 97, 129, 193, 257, 385, 513, 769, 1025, 1537,
    2049, 3073, 4097, 6145, 8193, 12289, 16385, 24577
  ]
  const DIST_EXTRA: seq<nat> := [
    0, 0, 0, 0, 1, 1, 2, 2, 3, 3, 4, 4, 5, 5, 6, 6, 7, 7, 8, 8, 9, 9, 10, 10, 11, 11, 12, 12, 13, 13
  ]
  const CLEN_ORDER: seq<nat> := [16, 17, 18, 0, 8, 7, 9, 6, 10, 5, 11, 4, 12, 3, 13, 2, 14, 1, 15]

  lemma LengthTable()
    ensures |LEN_BASE| == 29 && |LEN_EXTRA| == 29
    ensures forall s :: 0 <= s < 29 ==> 3 <= LEN_BASE[s] && LEN_EXTRA[s] <= 5
  {
  }

  lemma DistanceTable()
    ensures |DIST_BASE| == 30 && |DIST_EXTRA| == 30
    ensures forall d :: 0 <= d < 30 ==> 1 <= DIST_BASE[d] && DIST_EXTRA[d] <= 13
  {
  }

  lemma OrderTable()
    ensures |CLEN_ORDER| == 19
    ensures forall i :: 0 <= i < 19 ==> CLEN_ORDER[i] < 19
  {
  }

  /** The next `n` bits as a number. */
  function ReadNumber(bits: seq<Bit>, n: nat): (r: Read<nat>)
    ensures r.Got? ==> |r.rest| == |bits| - n && r.value < Pow2(n)
  {
    if |bits| < n then Failed(UnexpectedEnd) else Got(Value(bits[..n]), bits[n..])
  }

  // ---------- Compressed data ----------

  datatype Match = Match(length: nat, distance: nat)

  /** The rest of a match after its length symbol, 257 + s. */
  function ReadMatch(dist: seq<nat>, s: nat, bits: seq<Bit>): (r: Read<Match>)
    ensures r.Got? ==> |r.rest| < |bits| && r.value.distance >= 1
  {
    LengthTable();
    DistanceTable();
    if s >= 29 then Failed(InvalidLengthSymbol) else
    match ReadNumber(bits, LEN_EXTRA[s])
    case Failed(e) => Failed(e)
    case Got(le, bits1) =>
      match Decode(dist, bits1)
      case Failed(e) => Failed(e)
      case Got(d, bits2) =>
        if d >= 30 then Failed(InvalidDistanceSymbol) else
        match ReadNumber(bits2, DIST_EXTRA[d])
        case Failed(e) => Failed(e)
        case Got(de, bits3) => Got(Match(LEN_BASE[s] + le, DIST_BASE[d] + de), bits3)
  }

  /** Literals and matches up to the end-of-block symbol, appended to `out`. */
  function InflateTokens(lit: seq<nat>, dist: seq<nat>, out: seq<Byte>, bits: seq<Bit>): (r: Read<seq<Byte>>)
    ensures r.Got? ==> |r.rest| < |bits| && out <= r.value
    decreases |bits|
  {
    match Decode(lit, bits)
    case Failed(e) => Failed(e)
    case Got(sym, bits1) =>
      if sym == 256 then Got(out, bits1)
      else if sym < 256 then InflateTokens(lit, dist, out + [sym], bits1)
      else
        match ReadMatch(dist, sym - 257, bits1)
        case Failed(e) => Failed(e)
        case Got(m, bits2) =>
          if m.distance > |out| then Failed(DistanceTooFar)
          else InflateTokens(lit, dist, CopyMatch(out, m.distance, m.length), bits2)
  }

  // ---------- Stored blocks ----------

  function ReadBytes(out: seq<Byte>, n: nat, bits: seq<Bit>): (r: Read<seq<Byte>>)
    ensures r.Got? ==> |r.rest| == |bits| - 8 * n && out <= r.value
    decreases n
  {
    if n == 0 then Got(out, bits) else
    match ReadNumber(bits, 8)
    case Failed(e) => Failed(e)
    case Got(b, rest) => SmallPowers(); ReadBytes(out + [b], n - 1, rest)
  }

  function ReadU16(bits: seq<Bit>): (r: Read<nat>)
    ensures r.Got? ==> |r.rest| == |bits| - 16 && r.value < 0x1_0000
  {
    SmallPowers();
    match ReadNumber(bits, 8)
    case Failed(e) => Failed(e)
    case Got(lo, bits1) =>
      match ReadNumber(bits1, 8)
      case Failed(e) => Failed(e)
      case Got(hi, bits2) => Got(lo + 256 * hi, bits2)
  }

  /** Bits up to the next byte boundary are skipped; the length is checked against its complement. */
  function InflateStored(out: seq<Byte>, bits: seq<Bit>): (r: Read<seq<Byte>>)
    ensures r.Got? ==> |r.rest| <= |bits| && out <= r.value
  {
    match ReadU16(bits[|bits| % 8..])
    case Failed(e) => Failed(e)
    case Got(len, bits1) =>
      match ReadU16(bits1)
      case Failed(e) => Failed(e)
      case Got(nlen, bits2) =>
        if len != 0xFFFF - nlen then Failed(LengthMismatch) else ReadBytes(out, len, bits2)
  }

  // ---------- The code lengths of a dynamic block ----------

  function Repeat(x: nat, n: nat): (r: seq<nat>)
    ensures |r| == n && forall i :: 0 <= i < n ==> r[i] == x
  {
    seq(n, i => x)
  }

  /** Lengths of the code-length code from index `i` of their transmission order. */
  function ReadCodeLengthCode(cl: seq<nat>, i: nat, n: nat, bits: seq<Bit>): (r: Read<seq<nat>>)
    requires |cl| == 19 && Lengths(cl) && i <= n <= 19
    ensures r.Got? ==> |r.rest| <= |bits| && |r.value| == 19 && Lengths(r.value)
    decreases n - i
  {
    if i == n then Got(cl, bits) else
    match ReadNumber(bits, 3)
    case Failed(e) => Failed(e)
    case Got(l, rest) =>
      SmallPowers();
      OrderTable();
      ReadCodeLengthCode(cl[CLEN_ORDER[i] := l], i + 1, n, rest)
  }

  /** A run of one length, `base` and `extra` bits more times. */
  function ReadRun(acc: seq<nat>, x: nat, base: nat, extra: nat, total: nat, overflow: InflateError, bits: seq<Bit>)
      : (r: Read<seq<nat>>)
    ensures r.Got? ==> |r.rest| <= |bits| && |acc| + base <= |r.value| <= total
    ensures r.Got? && Lengths(acc) && x <= MAX_BITS && total <= 0xFFFF ==> Lengths(r.value)
  {
    match ReadNumber(bits, extra)
    case Failed(e) => Failed(e)
    case Got(n, rest) =>
      if |acc| + base + n > total then Failed(overflow) else Got(acc + Repeat(x, base + n), rest)
  }

  /** What one code-length symbol appends. */
  function ReadLengths(acc: seq<nat>, sym: nat, total: nat, bits: seq<Bit>): (r: Read<seq<nat>>)
    requires Lengths(acc) && |acc| < total <= 0xFFFF
    ensures r.Got? ==> |r.rest| <= |bits| && |acc| < |r.value| <= total && Lengths(r.value)
  {
    if sym <= 15 then Got(acc + [sym], bits)
    else if sym == 16 then
      if acc == [] then Failed(RepeatWithoutLength) else ReadRun(acc, acc[|acc| - 1], 3, 2, total, RepeatOverflow, bits)
    else if sym == 17 then ReadRun(acc, 0, 3, 3, total, ZeroRepeatOverflow, bits)
    else if sym == 18 then ReadRun(acc, 0, 11, 7, total, ZeroRepeatOverflow, bits)
    else Failed(InvalidCodeLengthSymbol)
  }

  function ReadAllLengths(cl: seq<nat>, acc: seq<nat>, total: nat, bits: seq<Bit>): (r: Read<seq<nat>>)
    requires Lengths(acc) && |acc| <= total <= 0xFFFF
    ensures r.Got? ==> |r.rest| <= |bits| && |r.value| == total && Lengths(r.value)
    decreases total - |acc|
  {
    if |acc| == total then Got(acc, bits) else
    match Decode(cl, bits)
    case Failed(e) => Failed(e)
    case Got(sym, bits1) =>
      match ReadLengths(acc, sym, total, bits1)
      case Failed(e) => Failed(e)
      case Got(acc', bits2) => ReadAllLengths(cl, acc', total, bits2)
  }

  datatype Codes = Codes(lit: seq<nat>, dist: seq<nat>)

  /** The literal/length and distance codes a dynamic block starts with. */
  function ReadCodes(bits: seq<Bit>): (r: Read<Codes>)
    ensures r.Got? ==> |r.rest| <= |bits| && Lengths(r.value.lit) && Lengths(r.value.dist)
  {
    SmallPowers();
    match ReadNumber(bits, 5)
    case Failed(e) => Failed(e)
    case Got(hlit, bits1) =>
      match ReadNumber(bits1, 5)
      case Failed(e) => Failed(e)
      case Got(hdist, bits2) =>
        match ReadNumber(bits2, 4)
        case Failed(e) => Failed(e)
        case Got(hclen, bits3) => ReadCodesAfter(hlit + 257, hdist + 1, hclen + 4, bits3)
  }

  function ReadCodesAfter(nlit: nat, ndist: nat, nclen: nat, bits: seq<Bit>): (r: Read<Codes>)
    requires nlit + ndist <= 0xFFFF && nclen <= 19
    ensures r.Got? ==> |r.rest| <= |bits| && Lengths(r.value.lit) && Lengths(r.value.dist)
  {
    match ReadCodeLengthCode(Repeat(0, 19), 0, nclen, bits)
    case Failed(e) => Failed(e)
    case Got(cl, bits1) =>
      match ReadAllLengths(cl, [], nlit + ndist, bits1)
      case Failed(e) => Failed(e)
      case Got(all, bits2) => Got(Codes(all[..nlit], all[nlit..]), bits2)
  }

  // ---------- Blocks ----------

  /** The fixed codes: their lengths. */
  function FixedLit(): (r: seq<nat>)
    ensures |r| == 288 && Lengths(r)
  {
    seq(288, i => if i < 144 then 8 else if i < 256 then 9 else if i < 280 then 7 else 8)
  }

  function FixedDist(): (r: seq<nat>)
    ensures |r| == 30 && Lengths(r)
  {
    Repeat(5, 30)
  }

  function InflateBody(btype: nat, out: seq<Byte>, bits: seq<Bit>): (r: Read<seq<Byte>>)
    ensures r.Got? ==> |r.rest| <= |bits| && out <= r.value
  {
    if btype == 0 then InflateStored(out, bits)
    else if btype == 1 then InflateTokens(FixedLit(), FixedDist(), out, bits)
    else if btype == 2 then
      match ReadCodes(bits)
      case Failed(e) => Failed(e)
      case Got(codes, rest) => InflateTokens(codes.lit, codes.dist, out, rest)
    else Failed(InvalidBlockType)
  }

  datatype Block = Block(final: bool, out: seq<Byte>)

  function InflateBlock(out: seq<Byte>, bits: seq<Bit>): (r: Read<Block>)
    ensures r.Got? ==> |r.rest| < |bits| && out <= r.value.out
  {
    match ReadNumber(bits, 1)
    case Failed(e) => Failed(e)
    case Got(final, bits1) =>
      match ReadNumber(bits1, 2)
      case Failed(e) => Failed(e)
      case Got(btype, bits2) =>
        match InflateBody(btype, out, bits2)
        case Failed(e) => Failed(e)
        case Got(out', rest) => Got(Block(final == 1, out'), rest)
  }

  /** The size at which decompression gives up: a sixteenth above the size expected, or 4096 bytes. */
  function Cap(expected: nat): (r: nat)
    ensures r >= expected
  {
    Max(expected + expected / 16, expected + 4096)
  }

  lemma CapIs(n: nat, expected: nat)
    ensures n <= Cap(expected) <==> n <= expected + 4096 || 16 * (n - expected) <= expected
  {
  }

  function InflateFrom(out: seq<Byte>, bits: seq<Bit>, cap: nat): Result<seq<Byte>, InflateError>
    decreases |bits|
  {
    if |out| > cap then Err(TooLarge) else
    match InflateBlock(out, bits)
    case Failed(e) => Err(e)
    case Got(block, rest) => if block.final then Ok(block.out) else InflateFrom(block.out, rest, cap)
  }

  function Inflated(data: seq<Byte>, expected: nat): Result<seq<Byte>, InflateError> {
    InflateFrom([], StreamBits(data), Cap(expected))
  }
}
