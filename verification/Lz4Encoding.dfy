/**
 * The LZ4 block writer. A parse of a buffer is the list of its matches; what lies between them
 * is literal. Any valid parse decodes back to the buffer, whoever chose the matches.
 */
module Lz4Encoding {
  import opened Bytes
  import opened Lz4Decoder

  const LASTLITERALS := 5
  const MFLIMIT := 12
  const LZ4_DISTANCE_MAX := 65535

  datatype MatchAt = MatchAt(pos: nat, len: nat, off: nat)

  /** The match repeats bytes that lie `off` places back in the buffer. */
  ghost predicate Genuine(buf: seq<Byte>, pos: nat, len: nat, off: nat) {
    && 1 <= off <= LZ4_DISTANCE_MAX && off <= pos
    && pos + len <= |buf|
    && forall k :: pos <= k < pos + len ==> buf[k] == buf[k - off]
  }

  function EndOf(ms: seq<MatchAt>): nat {
    if ms == [] then 0 else ms[|ms| - 1].pos + ms[|ms| - 1].len
  }

  /** Matches in order, disjoint, long enough and genuine. */
  ghost predicate ValidParse(buf: seq<Byte>, ms: seq<MatchAt>)
    ensures ValidParse(buf, ms) ==> EndOf(ms) <= |buf|
  {
    ms == [] ||
    var m := ms[|ms| - 1];
    && ValidParse(buf, ms[..|ms| - 1])
    && EndOf(ms[..|ms| - 1]) <= m.pos
    && MINMATCH <= m.len
    && Genuine(buf, m.pos, m.len, m.off)
  }

  /** 'End of block conditions' of the LZ4 Block Format Description, for one match. */
  ghost predicate KeepsEndOfBlock(buf: seq<Byte>, m: MatchAt) {
    m.pos + MFLIMIT <= |buf| && m.pos + m.len + LASTLITERALS <= |buf|
  }

  // ---------- The bytes of a parse ----------

  function RunBytes(n: nat): (r: seq<Byte>)
    ensures |r| == 1 + n / 255
  {
    if n < 255 then [n] else [255] + RunBytes(n - 255)
  }

  function LengthBytes(n: nat): seq<Byte> {
    if n < 15 then [] else RunBytes(n - 15)
  }

  function Token(litLen: nat, matchCode: nat): Byte {
    16 * Min(litLen, 15) + Min(matchCode, 15)
  }

  function OffsetBytes(off: nat): seq<Byte>
    requires off <= LZ4_DISTANCE_MAX
  {
    [off % 256, off / 256]
  }

  function SequenceBytes(lits: seq<Byte>, off: nat, len: nat): seq<Byte>
    requires MINMATCH <= len && off <= LZ4_DISTANCE_MAX
  {
    [Token(|lits|, len - MINMATCH)] + LengthBytes(|lits|) + lits
    + (OffsetBytes(off) + LengthBytes(len - MINMATCH))
  }

  /** The final sequence has a token and literals, and no match. */
  function LastBytes(lits: seq<Byte>): seq<Byte> {
    [Token(|lits|, 0)] + LengthBytes(|lits|) + lits
  }

  ghost function MatchBytes(buf: seq<Byte>, ms: seq<MatchAt>): seq<Byte>
    requires ValidParse(buf, ms)
  {
    if ms == [] then [] else
    var m, front := ms[|ms| - 1], ms[..|ms| - 1];
    MatchBytes(buf, front) + SequenceBytes(buf[EndOf(front)..m.pos], m.off, m.len)
  }

  ghost function Encoded(buf: seq<Byte>, ms: seq<MatchAt>): seq<Byte>
    requires ValidParse(buf, ms)
  {
    MatchBytes(buf, ms) + LastBytes(buf[EndOf(ms)..])
  }

  // ---------- Round trip ----------

  /** `part` stands in `src` at `sp`. */
  ghost predicate At(src: seq<Byte>, sp: nat, part: seq<Byte>) {
    sp + |part| <= |src| && src[sp..sp + |part|] == part
  }

  lemma AtParts(src: seq<Byte>, sp: nat, a: seq<Byte>, b: seq<Byte>)
    requires At(src, sp, a + b)
    ensures At(src, sp, a) && At(src, sp + |a|, b)
  {
    assert src[sp..sp + |a|] == src[sp..sp + |a + b|][..|a|];
    assert src[sp + |a|..sp + |a| + |b|] == src[sp..sp + |a + b|][|a|..];
  }

  lemma {:induction false} ReadRunBytes(src: seq<Byte>, sp: nat, acc: nat, n: nat)
    requires At(src, sp, RunBytes(n))
    ensures ReadExtension(src, sp, acc) == Length(acc + n, sp + |RunBytes(n)|)
    decreases n
  {
    assert src[sp] == src[sp..sp + |RunBytes(n)|][0] == RunBytes(n)[0];
    if n >= 255 {
      AtParts(src, sp, [255], RunBytes(n - 255));
      ReadRunBytes(src, sp + 1, acc + 255, n - 255);
    }
  }

  lemma ReadLengthBytes(src: seq<Byte>, sp: nat, n: nat)
    requires At(src, sp, LengthBytes(n))
    ensures ReadLength(src, sp, Min(n, 15)) == Length(n, sp + |LengthBytes(n)|)
  {
    if n >= 15 {
      ReadRunBytes(src, sp, 15, n - 15);
    }
  }

  /** A token, the length bytes and the literals are read back; the match comes next. */
  lemma DecodeLiteralPart(src: seq<Byte>, sp: nat, out: seq<Byte>, dstSize: nat, token: Byte, lits: seq<Byte>)
    requires token / 16 == Min(|lits|, 15) && |out| + |lits| <= dstSize
    requires At(src, sp, [token] + LengthBytes(|lits|) + lits)
    ensures var p := sp + 1 + |LengthBytes(|lits|)| + |lits|;
            p <= |src| && DecodeSequence(src, sp, out, dstSize) == DecodeMatch(src, p, out + lits, dstSize, token % 16)
  {
    hide LengthBytes, ReadLength, DecodeMatch;
    AtParts(src, sp, [token] + LengthBytes(|lits|), lits);
    AtParts(src, sp, [token], LengthBytes(|lits|));
    assert src[sp] == src[sp..sp + 1][0];
    ReadLengthBytes(src, sp + 1, |lits|);
  }

  lemma DecodeMatchPart(src: seq<Byte>, sp: nat, out: seq<Byte>, dstSize: nat, off: nat, len: nat)
    requires MINMATCH <= len && 1 <= off <= LZ4_DISTANCE_MAX && off <= |out| && |out| + len <= dstSize
    requires At(src, sp, OffsetBytes(off) + LengthBytes(len - MINMATCH))
    ensures DecodeMatch(src, sp, out, dstSize, Min(len - MINMATCH, 15))
            == More(sp + 2 + |LengthBytes(len - MINMATCH)|, CopyMatch(out, off, len))
  {
    hide LengthBytes, ReadLength, CopyMatch;
    AtParts(src, sp, OffsetBytes(off), LengthBytes(len - MINMATCH));
    assert src[sp] == src[sp..sp + 2][0] && src[sp + 1] == src[sp..sp + 2][1];
    ReadLengthBytes(src, sp + 2, len - MINMATCH);
  }

  lemma TokenNibbles(lits: nat, m: nat)
    ensures Token(lits, m) / 16 == Min(lits, 15) && Token(lits, m) % 16 == Min(m, 15)
  {
  }

  /** A sequence is its literal part and its match part. */
  lemma SequenceShape(lits: seq<Byte>, off: nat, len: nat)
    requires MINMATCH <= len && 1 <= off <= LZ4_DISTANCE_MAX
    ensures var head := [Token(|lits|, len - MINMATCH)] + LengthBytes(|lits|) + lits;
            var tail := OffsetBytes(off) + LengthBytes(len - MINMATCH);
            && SequenceBytes(lits, off, len) == head + tail
            && |head| == 1 + |LengthBytes(|lits|)| + |lits| && |tail| == 2 + |LengthBytes(len - MINMATCH)|
  {
    hide LengthBytes;
  }

  /** Decoding the bytes of one sequence copies its literals and then its match. */
  lemma DecodeOneSequence(src: seq<Byte>, sp: nat, out: seq<Byte>, dstSize: nat, lits: seq<Byte>, off: nat, len: nat)
    requires MINMATCH <= len && 1 <= off <= LZ4_DISTANCE_MAX
    requires off <= |out| + |lits| && |out| + |lits| + len <= dstSize
    requires At(src, sp, SequenceBytes(lits, off, len))
    ensures DecodeSequence(src, sp, out, dstSize)
            == More(sp + |SequenceBytes(lits, off, len)|, CopyMatch(out + lits, off, len))
  {
    hide DecodeSequence, DecodeMatch, LengthBytes, CopyMatch, OffsetBytes, SequenceBytes, At, Token;
    var token := Token(|lits|, len - MINMATCH);
    var head, tail := [token] + LengthBytes(|lits|) + lits, OffsetBytes(off) + LengthBytes(len - MINMATCH);
    SequenceShape(lits, off, len);
    TokenNibbles(|lits|, len - MINMATCH);
    AtParts(src, sp, head, tail);
    DecodeLiteralPart(src, sp, out, dstSize, token, lits);
    DecodeMatchPart(src, sp + |head|, out + lits, dstSize, off, len);
  }

  lemma DecodeLastLiterals(src: seq<Byte>, sp: nat, out: seq<Byte>, dstSize: nat, lits: seq<Byte>)
    requires sp + |LastBytes(lits)| == |src| && At(src, sp, LastBytes(lits)) && |out| + |lits| <= dstSize
    ensures DecodeSequence(src, sp, out, dstSize) == Last(out + lits)
  {
    DecodeLiteralPart(src, sp, out, dstSize, Token(|lits|, 0), lits);
  }

  /** A genuine match, copied from the decoded prefix, extends it to a longer prefix. */
  lemma GenuineCopies(buf: seq<Byte>, pos: nat, len: nat, off: nat)
    requires Genuine(buf, pos, len, off)
    ensures CopyMatch(buf[..pos], off, len) == buf[..pos + len]
  {
    CopyMatchUnique(buf[..pos], off, len, buf[..pos + len]);
  }

  /** One match of a valid parse, with the literals before it, is decoded to a longer prefix. */
  lemma DecodeOneMatch(buf: seq<Byte>, anchor: nat, m: MatchAt, src: seq<Byte>, sp: nat)
    requires anchor <= m.pos && MINMATCH <= m.len && Genuine(buf, m.pos, m.len, m.off)
    requires At(src, sp, SequenceBytes(buf[anchor..m.pos], m.off, m.len))
    ensures DecodeFrom(src, sp, buf[..anchor], |buf|)
            == DecodeFrom(src, sp + |SequenceBytes(buf[anchor..m.pos], m.off, m.len)|, buf[..m.pos + m.len], |buf|)
  {
    hide DecodeSequence, SequenceBytes, CopyMatch;
    var lits := buf[anchor..m.pos];
    DecodeOneSequence(src, sp, buf[..anchor], |buf|, lits, m.off, m.len);
    assert buf[..anchor] + lits == buf[..m.pos];
    GenuineCopies(buf, m.pos, m.len, m.off);
  }

  lemma {:induction false} DecodeMatches(buf: seq<Byte>, ms: seq<MatchAt>, src: seq<Byte>)
    requires ValidParse(buf, ms) && At(src, 0, MatchBytes(buf, ms))
    ensures DecodeFrom(src, 0, [], |buf|) == DecodeFrom(src, |MatchBytes(buf, ms)|, buf[..EndOf(ms)], |buf|)
  {
    hide DecodeFrom, SequenceBytes;
    if ms == [] {
      assert buf[..0] == [];
    } else {
      var m, front := ms[|ms| - 1], ms[..|ms| - 1];
      AtParts(src, 0, MatchBytes(buf, front), SequenceBytes(buf[EndOf(front)..m.pos], m.off, m.len));
      DecodeMatches(buf, front, src);
      DecodeOneMatch(buf, EndOf(front), m, src, |MatchBytes(buf, front)|);
    }
  }

  /** Every valid parse is decoded back to the buffer it was made from. */
  lemma RoundTrip(buf: seq<Byte>, ms: seq<MatchAt>)
    requires ValidParse(buf, ms) && |buf| <= MAX_DECOMPRESS_BYTES
    ensures Decoded(Encoded(buf, ms), |buf|) == Ok(buf)
  {
    hide DecodeFrom, LastBytes, MatchBytes, ValidParse;
    var src := Encoded(buf, ms);
    AtParts(src, 0, MatchBytes(buf, ms), LastBytes(buf[EndOf(ms)..]));
    DecodeMatches(buf, ms, src);
    DecodeLastLiterals(src, |MatchBytes(buf, ms)|, buf[..EndOf(ms)], |buf|, buf[EndOf(ms)..]);
    assert buf[..EndOf(ms)] + buf[EndOf(ms)..] == buf;
    DecodeFinishes(src, |MatchBytes(buf, ms)|, buf[..EndOf(ms)], buf);
  }

  lemma DecodeFinishes(src: seq<Byte>, sp: nat, out: seq<Byte>, all: seq<Byte>)
    requires sp <= |src| && |out| <= |all| && DecodeSequence(src, sp, out, |all|) == Last(all)
    ensures DecodeFrom(src, sp, out, |all|) == Ok(all)
  {
  }

  // ---------- Prices and size ----------

  function LiteralsPrice(litLen: nat): nat {
    if litLen >= 15 then litLen + 1 + (litLen - 15) / 255 else litLen
  }

  function SequencePrice(litLen: nat, len: nat): nat {
    1 + 2 + LiteralsPrice(litLen) + if len >= 15 + MINMATCH then 1 + (len - (15 + MINMATCH)) / 255 else 0
  }

  /** The price function is the exact size of the bytes written. */
  lemma PriceIsExact(lits: seq<Byte>, off: nat, len: nat)
    requires MINMATCH <= len && off <= LZ4_DISTANCE_MAX
    ensures |SequenceBytes(lits, off, len)| == SequencePrice(|lits|, len)
    ensures |LastBytes(lits)| == 1 + LiteralsPrice(|lits|)
  {
  }

  lemma {:induction false} MatchBytesSize(buf: seq<Byte>, ms: seq<MatchAt>)
    requires ValidParse(buf, ms)
    ensures 255 * |MatchBytes(buf, ms)| <= 256 * EndOf(ms)
  {
    if ms != [] {
      var m, front := ms[|ms| - 1], ms[..|ms| - 1];
      MatchBytesSize(buf, front);
      PriceIsExact(buf[EndOf(front)..m.pos], m.off, m.len);
    }
  }

  /** Compression never expands a buffer by more than one byte in 255, and two. */
  lemma EncodedSize(buf: seq<Byte>, ms: seq<MatchAt>)
    requires ValidParse(buf, ms)
    ensures |Encoded(buf, ms)| <= |buf| + |buf| / 255 + 2
  {
    MatchBytesSize(buf, ms);
    PriceIsExact(buf[EndOf(ms)..], 0, MINMATCH);
  }

  // ---------- The writer ----------

  /** The loop that writes 255s and a remainder. */
  method PushRun(op0: seq<Byte>, n: nat) returns (op: seq<Byte>)
    ensures op == op0 + RunBytes(n)
  {
    op := op0;
    var len := n;
    while len >= 255
      invariant len >= 0
      invariant op + RunBytes(len) == op0 + RunBytes(n)
    {
      assert op + RunBytes(len) == op + [255] + RunBytes(len - 255);
      op := op + [255];
      len := len - 255;
    }
    op := op + [len];
  }

  /** The same run, two bytes a turn, as match lengths are written. */
  method PushRunByPairs(op0: seq<Byte>, n: nat) returns (op: seq<Byte>)
    ensures op == op0 + RunBytes(n)
  {
    op := op0;
    var length := n;
    while length >= 510
      invariant length >= 0
      invariant op + RunBytes(length) == op0 + RunBytes(n)
    {
      assert op + RunBytes(length) == op + [255] + [255] + RunBytes(length - 510);
      op := op + [255] + [255];
      length := length - 510;
    }
    if length >= 255 {
      assert op + RunBytes(length) == op + [255] + RunBytes(length - 255);
      length := length - 255;
      op := op + [255];
    }
    op := op + [length];
  }

  /** The token, holding the literal length alone, and its extension bytes. */
  method PushLength(op0: seq<Byte>, length: nat) returns (op: seq<Byte>)
    ensures op == op0 + [Token(length, 0)] + LengthBytes(length)
  {
    if length >= 15 {
      op := op0 + [15 * 16];
      op := PushRun(op, length - 15);
    } else {
      op := op0 + [length * 16];
    }
  }

  /** Adds the match code to a token already written, and appends its extension bytes. */
  method PushMatchLength(op0: seq<Byte>, tokenPos: nat, mlen: nat) returns (op: seq<Byte>)
    requires tokenPos < |op0| && op0[tokenPos] <= 240
    ensures op == op0[tokenPos := op0[tokenPos] + Min(mlen, 15)] + LengthBytes(mlen)
  {
    if mlen >= 15 {
      op := op0[tokenPos := op0[tokenPos] + 15];
      op := PushRunByPairs(op, mlen - 15);
    } else {
      op := op0[tokenPos := op0[tokenPos] + mlen];
    }
  }

  /** One sequence is appended to `op`; `ip` and `anchor` move past its match. */
  method EncodeSequence(buf: seq<Byte>, op0: seq<Byte>, ip0: nat, anchor0: nat, matchLength: nat, offset: nat)
    returns (op: seq<Byte>, ip: nat, anchor: nat)
    requires anchor0 <= ip0 <= |buf| && MINMATCH <= matchLength && offset <= LZ4_DISTANCE_MAX
    ensures op == op0 + SequenceBytes(buf[anchor0..ip0], offset, matchLength)
    ensures ip == anchor == ip0 + matchLength
  {
    hide LengthBytes;
    var length := ip0 - anchor0;
    var tokenPos := |op0|;
    op := PushLength(op0, length);
    op := op + buf[anchor0..anchor0 + length];
    op := op + [offset % 256, offset / 256];
    ghost var tail := LengthBytes(length) + buf[anchor0..ip0] + OffsetBytes(offset);
    assert op == op0 + [Token(length, 0)] + tail;
    op := PushMatchLength(op, tokenPos, matchLength - MINMATCH);
    assert op == op0 + [Token(length, matchLength - MINMATCH)] + tail + LengthBytes(matchLength - MINMATCH);
    ip := ip0 + matchLength;
    anchor := ip;
  }

  method EmitLastLiterals(buf: seq<Byte>, op0: seq<Byte>, anchor: nat) returns (op: seq<Byte>)
    requires anchor <= |buf|
    ensures op == op0 + LastBytes(buf[anchor..])
  {
    var lastRunSize := |buf| - anchor;
    op := PushLength(op0, lastRunSize);
    op := op + buf[anchor..anchor + lastRunSize];
    assert buf[anchor..anchor + lastRunSize] == buf[anchor..];
  }
}
