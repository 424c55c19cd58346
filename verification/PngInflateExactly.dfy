/**
 * The converse of the round trip: whatever the decoder accepts is a stream of blocks, and it returns
 * what the blocks denote. Nothing is asked of the codes of a dynamic block; the decoder accepts
 * over-subscribed and incomplete ones, and the symbols it decodes have codewords in them.
 */
module PngInflateExactly {
  import opened Bytes
  import opened PngBits
  import opened PngHuffman
  import opened PngInflate
  import opened PngDeflate
  import opened PngDynamicCodes
  import opened PngDeflateStream

  lemma NumberSound(bits: seq<Bit>, n: nat)
    requires ReadNumber(bits, n).Got?
    ensures bits == ToBits(ReadNumber(bits, n).value, n) + ReadNumber(bits, n).rest
  {
    ValueBits(bits[..n]);
    hide ToBits, Value;
  }

  // ---------- Compressed data ----------

  lemma MatchSound(dist: seq<nat>, s: nat, bits: seq<Bit>) returns (le: nat, d: nat, de: nat)
    requires ReadMatch(dist, s, bits).Got?
    ensures |LEN_BASE| == |LEN_EXTRA| == 29 && |DIST_BASE| == |DIST_EXTRA| == 30 && s < 29 && d < 30
    ensures HasCode(dist, d) && le < Pow2(LEN_EXTRA[s]) && de < Pow2(DIST_EXTRA[d])
    ensures ReadMatch(dist, s, bits).value == Match(LEN_BASE[s] + le, DIST_BASE[d] + de)
    ensures bits == MatchTail(dist, s, le, d, de) + ReadMatch(dist, s, bits).rest
  {
    hide LEN_BASE, LEN_EXTRA, DIST_BASE, DIST_EXTRA, Decode, ReadNumber, Codeword, CodeOf, Pow2, ToBits;
    LengthTable();
    DistanceTable();
    var r1 := ReadNumber(bits, LEN_EXTRA[s]);
    NumberSound(bits, LEN_EXTRA[s]);
    var r2 := Decode(dist, r1.rest);
    DecodeSound(dist, r1.rest);
    var r3 := ReadNumber(r2.rest, DIST_EXTRA[r2.value]);
    NumberSound(r2.rest, DIST_EXTRA[r2.value]);
    le, d, de := r1.value, r2.value, r3.value;
    Regroup(ToBits(le, LEN_EXTRA[s]), Codeword(dist, d), ToBits(de, DIST_EXTRA[d]), r3.rest);
  }

  lemma Regroup(a: seq<Bit>, b: seq<Bit>, c: seq<Bit>, rest: seq<Bit>)
    ensures a + (b + (c + rest)) == (a + (b + c)) + rest
  {
  }

  /** A symbol other than the end of the block is a token. */
  lemma TokenSound(codes: Codes, out: seq<Byte>, bits: seq<Bit>) returns (t: Token, rest: seq<Bit>)
    requires InflateTokens(codes.lit, codes.dist, out, bits).Got? && Decode(codes.lit, bits).value != 256
    ensures TokenCoded(codes, t) && TokenOk(t, out) && bits == TokenBits(codes, t) + rest && |rest| < |bits|
    ensures InflateTokens(codes.lit, codes.dist, out, bits) == InflateTokens(codes.lit, codes.dist, Apply(t, out), rest)
  {
    hide LEN_BASE, LEN_EXTRA, DIST_BASE, DIST_EXTRA, Decode, ReadMatch, Codeword, CodeOf, Pow2, CopyMatch, MatchTail;
    var r := Decode(codes.lit, bits);
    DecodeSound(codes.lit, bits);
    if r.value < 256 {
      t, rest := Literal(r.value), r.rest;
    } else {
      var m := ReadMatch(codes.dist, r.value - 257, r.rest);
      var le, d, de := MatchSound(codes.dist, r.value - 257, r.rest);
      t, rest := Copy(r.value - 257, le, d, de), m.rest;
      var tail := MatchTail(codes.dist, r.value - 257, le, d, de);
      assert Codeword(codes.lit, r.value) + (tail + rest) == (Codeword(codes.lit, r.value) + tail) + rest;
    }
  }

  lemma {:induction false} TokensSound(codes: Codes, out: seq<Byte>, bits: seq<Bit>) returns (tokens: seq<Token>)
    requires Lengths(codes.lit) && Lengths(codes.dist) && InflateTokens(codes.lit, codes.dist, out, bits).Got?
    ensures CodesOk(codes) && TokensCoded(codes, tokens) && TokensOk(tokens, out)
    ensures ApplyAll(tokens, out) == InflateTokens(codes.lit, codes.dist, out, bits).value
    ensures bits == TokensBits(codes, tokens) + InflateTokens(codes.lit, codes.dist, out, bits).rest
    decreases |bits|
  {
    hide Decode, ReadMatch, Codeword, CodeOf, Pow2, TokenOk, Apply, TokenBits, TokenCoded, Lengths, CopyMatch;
    if Decode(codes.lit, bits).value == 256 {
      DecodeSound(codes.lit, bits);
      tokens := [];
    } else {
      var t, rest := TokenSound(codes, out, bits);
      var more := TokensSound(codes, Apply(t, out), rest);
      tokens := [t] + more;
      ConsTokens(codes, t, more, out);
      Associative(TokenBits(codes, t), TokensBits(codes, more), InflateTokens(codes.lit, codes.dist, out, bits).rest);
    }
  }

  lemma ConsTokens(codes: Codes, t: Token, more: seq<Token>, out: seq<Byte>)
    requires CodesOk(codes) && TokenCoded(codes, t) && TokenOk(t, out)
    requires TokensCoded(codes, more) && TokensOk(more, Apply(t, out))
    ensures var tokens := [t] + more;
            && TokensCoded(codes, tokens) && TokensOk(tokens, out)
            && ApplyAll(tokens, out) == ApplyAll(more, Apply(t, out))
            && TokensBits(codes, tokens) == TokenBits(codes, t) + TokensBits(codes, more)
  {
    hide TokenOk, Apply, TokenBits, TokenCoded, CodesOk;
    assert ([t] + more)[1..] == more;
  }

  // ---------- Stored blocks ----------

  lemma U16Sound(bits: seq<Bit>)
    requires ReadU16(bits).Got?
    ensures bits == U16Bits(ReadU16(bits).value) + ReadU16(bits).rest
  {
    SmallPowers();
    hide Pow2, ToBits, ReadNumber;
    NumberSound(bits, 8);
    var lo := ReadNumber(bits, 8);
    NumberSound(lo.rest, 8);
    var hi := ReadNumber(lo.rest, 8);
    Associative(ToBits(lo.value, 8), ToBits(hi.value, 8), hi.rest);
  }

  lemma {:induction false} BytesSound(out: seq<Byte>, n: nat, bits: seq<Bit>) returns (bytes: seq<Byte>)
    requires ReadBytes(out, n, bits).Got?
    ensures |bytes| == n && ReadBytes(out, n, bits).value == out + bytes
    ensures bits == StreamBits(bytes) + ReadBytes(out, n, bits).rest
    decreases n
  {
    SmallPowers();
    hide ToBits, ReadNumber, Pow2;
    bytes := [];
    if n == 0 {
      assert out + bytes == out && StreamBits(bytes) + bits == bits;
    } else {
      NumberSound(bits, 8);
      var b := ReadNumber(bits, 8);
      var more := BytesSound(out + [b.value], n - 1, b.rest);
      bytes := [b.value] + more;
      assert bytes[1..] == more;
      assert out + [b.value] + more == out + bytes;
      Associative(ToBits(b.value, 8), StreamBits(more), ReadBytes(out, n, bits).rest);
    }
  }

  /** An accepted stored block, from its aligned start. */
  lemma StoredParts(out: seq<Byte>, bits: seq<Bit>, n: nat)
    requires InflateStored(out, bits).Got? && n == |bits| % 8
    ensures n <= |bits| && ReadU16(bits[n..]).Got?
    ensures var len := ReadU16(bits[n..]);
            && ReadU16(len.rest).Got? && ReadU16(len.rest).value == 0xFFFF - len.value
            && InflateStored(out, bits) == ReadBytes(out, len.value, ReadU16(len.rest).rest)
  {
    hide ReadU16, ReadBytes;
  }

  /** The bytes of a stored block from its aligned start. */
  lemma AlignedSound(out: seq<Byte>, bits: seq<Bit>) returns (bytes: seq<Byte>)
    requires ReadU16(bits).Got? && ReadU16(ReadU16(bits).rest).Got?
    requires ReadU16(ReadU16(bits).rest).value == 0xFFFF - ReadU16(bits).value
    requires ReadBytes(out, ReadU16(bits).value, ReadU16(ReadU16(bits).rest).rest).Got?
    ensures var r := ReadBytes(out, ReadU16(bits).value, ReadU16(ReadU16(bits).rest).rest);
            && |bytes| <= 0xFFFF && r.value == out + bytes
            && bits == U16Bits(|bytes|) + (U16Bits(0xFFFF - |bytes|) + (StreamBits(bytes) + r.rest))
  {
    hide ReadU16, ReadBytes, U16Bits, StreamBits;
    var len := ReadU16(bits);
    U16Sound(bits);
    var nlen := ReadU16(len.rest);
    U16Sound(len.rest);
    bytes := BytesSound(out, len.value, nlen.rest);
  }

  lemma StoredSound(out: seq<Byte>, bits: seq<Bit>, pos: nat) returns (bytes: seq<Byte>, pad: nat)
    requires InflateStored(out, bits).Got? && (pos + |bits|) % 8 == 0
    ensures |bytes| <= 0xFFFF && InflateStored(out, bits).value == out + bytes
    ensures bits == StoredBits(bytes, pad, pos) + InflateStored(out, bits).rest
  {
    PadIsUnaligned(pos, |bits|);
    hide ReadU16, ReadBytes, U16Bits, ToBits, StreamBits, Pad, Value, InflateStored;
    var n := Pad(pos);
    StoredParts(out, bits, n);
    bytes := AlignedSound(out, bits[n..]);
    ValueBits(bits[..n]);
    pad := Value(bits[..n]);
    GluePad(bits, n, U16Bits(|bytes|), U16Bits(0xFFFF - |bytes|), StreamBits(bytes), InflateStored(out, bits).rest);
  }

  lemma GluePad(bits: seq<Bit>, n: nat, a: seq<Bit>, b: seq<Bit>, c: seq<Bit>, rest: seq<Bit>)
    requires n <= |bits| && bits[n..] == a + (b + (c + rest))
    ensures bits == (bits[..n] + (a + (b + c))) + rest
  {
    assert bits == bits[..n] + bits[n..];
  }

  // ---------- The header of a dynamic block ----------

  lemma RunSound(acc: seq<nat>, x: nat, base: nat, extra: nat, total: nat, overflow: InflateError, bits: seq<Bit>)
      returns (n: nat)
    requires ReadRun(acc, x, base, extra, total, overflow, bits).Got?
    ensures n < Pow2(extra) && |acc| + base + n <= total
    ensures ReadRun(acc, x, base, extra, total, overflow, bits).value == acc + Repeat(x, base + n)
    ensures bits == ToBits(n, extra) + ReadRun(acc, x, base, extra, total, overflow, bits).rest
  {
    hide ReadNumber, ToBits, Pow2, Lengths;
    NumberSound(bits, extra);
    n := ReadNumber(bits, extra).value;
  }

  lemma OpSound(acc: seq<nat>, sym: nat, total: nat, bits: seq<Bit>) returns (op: LengthOp)
    requires Lengths(acc) && |acc| < total <= 0xFFFF && ReadLengths(acc, sym, total, bits).Got?
    ensures OpSymbol(op) == sym && OpOk(op, acc, total) && ReadLengths(acc, sym, total, bits).value == Expand(op, acc)
    ensures bits == ExtraBits(op) + ReadLengths(acc, sym, total, bits).rest
  {
    SmallPowers();
    hide Pow2, ReadRun;
    if sym <= 15 {
      op := Single(sym);
      assert [] + bits == bits;
    } else if sym == 16 {
      var n := RunSound(acc, acc[|acc| - 1], 3, 2, total, RepeatOverflow, bits);
      op := Again(n);
    } else if sym == 17 {
      var n := RunSound(acc, 0, 3, 3, total, ZeroRepeatOverflow, bits);
      op := Zeros(n);
    } else {
      var n := RunSound(acc, 0, 11, 7, total, ZeroRepeatOverflow, bits);
      op := ManyZeros(n);
    }
  }

  lemma {:induction false} OpsSound(cl: seq<nat>, acc: seq<nat>, total: nat, bits: seq<Bit>)
    returns (ops: seq<LengthOp>)
    requires Lengths(acc) && |acc| <= total <= 0xFFFF && ReadAllLengths(cl, acc, total, bits).Got?
    ensures OpsOk(cl, ops, acc, total) && ExpandAll(cl, ops, acc, total) == ReadAllLengths(cl, acc, total, bits).value
    ensures bits == OpsBits(cl, ops, acc, total) + ReadAllLengths(cl, acc, total, bits).rest
    decreases total - |acc|
  {
    hide Decode, ReadLengths, ExtraBits, Expand, Lengths, HasCode, Codeword;
    ops := [];
    if |acc| == total {
      assert [] + bits == bits;
    } else {
      var r := Decode(cl, bits);
      DecodeSound(cl, bits);
      var op := OpSound(acc, r.value, total, r.rest);
      var next := ReadLengths(acc, r.value, total, r.rest);
      var more := OpsSound(cl, next.value, total, next.rest);
      ops := [op] + more;
      assert ops[1..] == more;
      Regroup(Codeword(cl, r.value), ExtraBits(op), OpsBits(cl, more, next.value, total),
              ReadAllLengths(cl, acc, total, bits).rest);
    }
  }

  lemma {:induction false} ClenSound(cl: seq<nat>, sent: seq<nat>, n: nat, bits: seq<Bit>) returns (tail: seq<nat>)
    requires |cl| == 19 && Lengths(cl) && |sent| <= n <= 19 && forall k :: 0 <= k < |sent| ==> sent[k] < 8
    requires ReadCodeLengthCode(cl, |sent|, n, bits).Got?
    ensures |sent| + |tail| == n && forall k :: 0 <= k < n ==> (sent + tail)[k] < 8
    ensures ReadCodeLengthCode(cl, |sent|, n, bits).value == Arrange(cl, |sent|, sent + tail)
    ensures bits == ClenBits(tail) + ReadCodeLengthCode(cl, |sent|, n, bits).rest
    decreases n - |sent|
  {
    SmallPowers();
    OrderTable();
    hide Pow2, ReadNumber, CLEN_ORDER, ToBits;
    tail := [];
    if |sent| == n {
      assert [] + bits == bits && sent + [] == sent;
    } else {
      NumberSound(bits, 3);
      var l := ReadNumber(bits, 3);
      var more := ClenSound(cl[CLEN_ORDER[|sent|] := l.value], sent + [l.value], n, l.rest);
      tail := [l.value] + more;
      assert tail[1..] == more;
      assert sent + [l.value] + more == sent + tail;
      Associative(ToBits(l.value, 3), ClenBits(more), ReadCodeLengthCode(cl, |sent|, n, bits).rest);
    }
  }

  lemma LengthsSound(nlit: nat, ndist: nat, nclen: nat, bits: seq<Bit>) returns (h: Header)
    requires 257 <= nlit <= 288 && 1 <= ndist <= 32 && 4 <= nclen <= 19
    requires ReadCodesAfter(nlit, ndist, nclen, bits).Got?
    ensures HeaderOk(h) && h.nlit == nlit && h.ndist == ndist && |h.clen| == nclen
    ensures ReadCodesAfter(nlit, ndist, nclen, bits).value == HeaderCodes(h)
    ensures bits == LengthsBits(h) + ReadCodesAfter(nlit, ndist, nclen, bits).rest
  {
    hide ReadCodeLengthCode, ReadAllLengths, Arrange, OpsOk, ExpandAll, OpsBits, ClenBits, CodeLengthCode;
    var r := ReadCodeLengthCode(Repeat(0, 19), 0, nclen, bits);
    var clen := ClenSound(Repeat(0, 19), [], nclen, bits);
    assert [] + clen == clen;
    var ops := OpsSound(r.value, [], nlit + ndist, r.rest);
    h := Header(nlit, ndist, clen, ops);
    ArrangedCode(h);
    Associative(ClenBits(clen), OpsBits(r.value, ops, [], nlit + ndist), ReadCodesAfter(nlit, ndist, nclen, bits).rest);
  }

  lemma HeaderSound(bits: seq<Bit>) returns (h: Header)
    requires ReadCodes(bits).Got?
    ensures HeaderOk(h) && ReadCodes(bits).value == HeaderCodes(h) && bits == HeaderBits(h) + ReadCodes(bits).rest
  {
    SmallPowers();
    hide Pow2, HeaderOk, LengthsBits, ReadNumber, ReadCodesAfter, ToBits, HeaderCodes;
    NumberSound(bits, 5);
    var a := ReadNumber(bits, 5);
    NumberSound(a.rest, 5);
    var b := ReadNumber(a.rest, 5);
    NumberSound(b.rest, 4);
    var c := ReadNumber(b.rest, 4);
    h := LengthsSound(a.value + 257, b.value + 1, c.value + 4, c.rest);
    var rest := ReadCodes(bits).rest;
    Regroup(ToBits(a.value, 5), ToBits(b.value, 5), ToBits(c.value, 4) + LengthsBits(h), rest);
    Associative(ToBits(c.value, 4), LengthsBits(h), rest);
  }

  // ---------- Blocks ----------

  lemma BodySound(btype: nat, out: seq<Byte>, bits: seq<Bit>, pos: nat) returns (p: Piece)
    requires InflateBody(btype, out, bits).Got? && (pos + |bits|) % 8 == 0
    ensures PieceOk(p, out) && BlockType(p) == btype && Denote(p, out) == InflateBody(btype, out, bits).value
    ensures bits == BodyBits(p, out, pos) + InflateBody(btype, out, bits).rest
  {
    hide StoredBits, InflateStored, InflateTokens, ReadCodes, TokensBits, HeaderBits, HeaderOk, HeaderCodes, CodesOk;
    hide TokensCoded, TokensOk, ApplyAll, FixedLit, FixedDist;
    if btype == 0 {
      var bytes, pad := StoredSound(out, bits, pos);
      p := Stored(bytes, pad);
    } else if btype == 1 {
      var tokens := TokensSound(Codes(FixedLit(), FixedDist()), out, bits);
      p := Fixed(tokens);
    } else {
      var h := HeaderSound(bits);
      var r := ReadCodes(bits);
      var tokens := TokensSound(r.value, out, r.rest);
      p := Dynamic(h, tokens);
      Associative(HeaderBits(h), TokensBits(r.value, tokens), InflateBody(btype, out, bits).rest);
    }
  }

  lemma BlockSound(out: seq<Byte>, bits: seq<Bit>, pos: nat) returns (p: Piece)
    requires InflateBlock(out, bits).Got? && (pos + |bits|) % 8 == 0
    ensures PieceOk(p, out) && InflateBlock(out, bits).value.out == Denote(p, out)
    ensures bits == BlockBits(InflateBlock(out, bits).value.final, p, out, pos) + InflateBlock(out, bits).rest
  {
    SmallPowers();
    hide Pow2, PieceOk, InflateBody, ReadNumber, BodyBits, Denote, ToBits, BlockType;
    NumberSound(bits, 1);
    var f := ReadNumber(bits, 1);
    NumberSound(f.rest, 2);
    var t := ReadNumber(f.rest, 2);
    p := BodySound(t.value, out, t.rest, pos + 3);
    Regroup(ToBits(f.value, 1), ToBits(t.value, 2), BodyBits(p, out, pos + 3), InflateBlock(out, bits).rest);
  }

  // ---------- Streams ----------

  lemma ConsPieces(p: Piece, more: seq<Piece>, out: seq<Byte>, pos: nat)
    requires PieceOk(p, out) && StreamOk(more, Denote(p, out))
    ensures var pieces, block := [p] + more, BlockBits(false, p, out, pos);
            && StreamOk(pieces, out) && DenoteAll(pieces, out) == DenoteAll(more, Denote(p, out))
            && BeforeLast(pieces, out) == BeforeLast(more, Denote(p, out))
            && PiecesBits(pieces, out, pos) == block + PiecesBits(more, Denote(p, out), pos + |block|)
  {
    hide PieceOk, Denote, BlockBits;
    assert ([p] + more)[1..] == more;
  }

  /** What the decoder accepts from here is a stream of blocks that denotes what it returns. */
  lemma {:induction false} PiecesSound(out: seq<Byte>, bits: seq<Bit>, pos: nat, cap: nat) returns (pieces: seq<Piece>)
    requires InflateFrom(out, bits, cap).Ok? && (pos + |bits|) % 8 == 0
    ensures StreamOk(pieces, out) && DenoteAll(pieces, out) == InflateFrom(out, bits, cap).value
    ensures |BeforeLast(pieces, out)| <= cap && PiecesBits(pieces, out, pos) <= bits
    decreases |bits|
  {
    hide PieceOk, InflateBlock, BlockBits, Denote;
    var r := InflateBlock(out, bits);
    var p := BlockSound(out, bits, pos);
    if r.value.final {
      pieces := [p];
    } else {
      var block := BlockBits(false, p, out, pos);
      var more := PiecesSound(r.value.out, r.rest, pos + |block|, cap);
      pieces := [p] + more;
      ConsPieces(p, more, out, pos);
      PrefixMore(block, PiecesBits(more, r.value.out, pos + |block|), r.rest);
    }
  }

  lemma PrefixMore(a: seq<Bit>, b: seq<Bit>, rest: seq<Bit>)
    requires b <= rest
    ensures a + b <= a + rest
  {
  }

  /** The bytes are those some stream of blocks denotes that starts the data, and the cap is not exceeded
      before its last block. */
  ghost predicate Denotes(data: seq<Byte>, cap: nat, out: seq<Byte>) {
    exists pieces ::
      && StreamOk(pieces, []) && PiecesBits(pieces, [], 0) <= StreamBits(data)
      && DenoteAll(pieces, []) == out && |BeforeLast(pieces, [])| <= cap
  }

  /** Exactly which data the decoder accepts, and what it returns for it. */
  lemma InflatesExactly(data: seq<Byte>, expected: nat, out: seq<Byte>)
    ensures Inflated(data, expected) == Ok(out) <==> Denotes(data, Cap(expected), out)
  {
    hide InflateFrom, PiecesBits, StreamOk, BeforeLast, DenoteAll, Cap, StreamBits;
    if Inflated(data, expected) == Ok(out) {
      WholeBytes(0, |data|);
      var pieces := PiecesSound([], StreamBits(data), 0, Cap(expected));
    }
    if Denotes(data, Cap(expected), out) {
      var pieces :| && StreamOk(pieces, []) && PiecesBits(pieces, [], 0) <= StreamBits(data)
                    && DenoteAll(pieces, []) == out && |BeforeLast(pieces, [])| <= Cap(expected);
      StreamInflates(pieces, data, expected);
    }
  }
}
