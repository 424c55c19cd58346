/**
 * DEFLATE compression as sections 3.2.3 to 3.2.7 of RFC 1951 prescribe it, for any choice of blocks,
 * tokens and codes, and the theorem that inflating gives back what the blocks denote.
 */
module PngDeflate {
  import opened Bytes
  import opened PngBits
  import opened PngHuffman
  import opened PngInflate

  // ---------- Tokens ----------

  /** A literal byte, or a match: length symbol 257 + s, distance symbol d, each with its extra bits. */
  datatype Token = Literal(b: Byte) | Copy(s: nat, le: nat, d: nat, de: nat)

  /** The symbols exist, the extra bits fit, and the distance stays inside what is known. */
  ghost predicate TokenOk(t: Token, out: seq<Byte>) {
    match t
    case Literal(b) => true
    case Copy(s, le, d, de) =>
      LengthTable();
      DistanceTable();
      s < 29 && d < 30 && le < Pow2(LEN_EXTRA[s]) && de < Pow2(DIST_EXTRA[d]) && DIST_BASE[d] + de <= |out|
  }

  /** What a token appends. */
  ghost function Apply(t: Token, out: seq<Byte>): (r: seq<Byte>)
    requires TokenOk(t, out)
    ensures out <= r
  {
    match t
    case Literal(b) => out + [b]
    case Copy(s, le, d, de) =>
      LengthTable();
      DistanceTable();
      CopyMatch(out, DIST_BASE[d] + de, LEN_BASE[s] + le)
  }

  ghost predicate TokensOk(tokens: seq<Token>, out: seq<Byte>) {
    tokens == [] || (TokenOk(tokens[0], out) && TokensOk(tokens[1..], Apply(tokens[0], out)))
  }

  ghost function ApplyAll(tokens: seq<Token>, out: seq<Byte>): (r: seq<Byte>)
    requires TokensOk(tokens, out)
    ensures out <= r
  {
    if tokens == [] then out else ApplyAll(tokens[1..], Apply(tokens[0], out))
  }

  // ---------- Codes ----------

  /** Codes a compressed block may use: the end of the block has a codeword. Standard codes satisfy the
      Kraft inequality as well, which the decoder does not ask for. */
  ghost predicate CodesOk(codes: Codes) {
    Lengths(codes.lit) && Lengths(codes.dist) && HasCode(codes.lit, 256)
  }

  ghost predicate TokenCoded(codes: Codes, t: Token) {
    match t
    case Literal(b) => HasCode(codes.lit, b)
    case Copy(s, _, d, _) => s < 29 && d < 30 && HasCode(codes.lit, 257 + s) && HasCode(codes.dist, d)
  }

  ghost predicate TokensCoded(codes: Codes, tokens: seq<Token>) {
    forall i :: 0 <= i < |tokens| ==> TokenCoded(codes, tokens[i])
  }

  function MatchTail(dist: seq<nat>, s: nat, le: nat, d: nat, de: nat): seq<Bit>
    requires s < 29 && d < 30 && d < |dist| && dist[d] >= 1
  {
    LengthTable();
    DistanceTable();
    ToBits(le, LEN_EXTRA[s]) + (Codeword(dist, d) + ToBits(de, DIST_EXTRA[d]))
  }

  ghost function TokenBits(codes: Codes, t: Token): seq<Bit>
    requires TokenCoded(codes, t)
  {
    match t
    case Literal(b) => Codeword(codes.lit, b)
    case Copy(s, le, d, de) => Codeword(codes.lit, 257 + s) + MatchTail(codes.dist, s, le, d, de)
  }

  /** The tokens' codewords and the end-of-block codeword. */
  ghost function TokensBits(codes: Codes, tokens: seq<Token>): seq<Bit>
    requires CodesOk(codes) && TokensCoded(codes, tokens)
  {
    if tokens == [] then Codeword(codes.lit, 256)
    else TokenBits(codes, tokens[0]) + TokensBits(codes, tokens[1..])
  }

  lemma NumberReads(v: nat, n: nat, rest: seq<Bit>)
    requires v < Pow2(n)
    ensures ReadNumber(ToBits(v, n) + rest, n) == Got(v, rest)
  {
    ToBitsValue(v, n);
    hide ToBits, Value, Pow2;
  }

  lemma SymbolReads(lengths: seq<nat>, s: nat, rest: seq<Bit>)
    requires Lengths(lengths) && HasCode(lengths, s)
    ensures Decode(lengths, Codeword(lengths, s) + rest) == Got(s, rest)
  {
    DecodeCodeword(lengths, s, rest);
  }

  lemma MatchReads(dist: seq<nat>, s: nat, le: nat, d: nat, de: nat, rest: seq<Bit>)
    requires Lengths(dist) && s < 29 && d < 30 && HasCode(dist, d)
    requires |LEN_EXTRA| == 29 && |DIST_EXTRA| == 30 && |LEN_BASE| == 29 && |DIST_BASE| == 30
    requires le < Pow2(LEN_EXTRA[s]) && de < Pow2(DIST_EXTRA[d])
    ensures ReadMatch(dist, s, MatchTail(dist, s, le, d, de) + rest)
            == Got(Match(LEN_BASE[s] + le, DIST_BASE[d] + de), rest)
  {
    hide LEN_BASE, LEN_EXTRA, DIST_BASE, DIST_EXTRA, Decode, ReadNumber, Codeword, Pow2, CodeOf;
    var a, b, c := ToBits(le, LEN_EXTRA[s]), Codeword(dist, d), ToBits(de, DIST_EXTRA[d]);
    assert MatchTail(dist, s, le, d, de) + rest == a + (b + (c + rest));
    NumberReads(le, LEN_EXTRA[s], b + (c + rest));
    SymbolReads(dist, d, c + rest);
    NumberReads(de, DIST_EXTRA[d], rest);
  }

  lemma TokenReads(codes: Codes, t: Token, out: seq<Byte>, rest: seq<Bit>)
    requires CodesOk(codes) && TokenCoded(codes, t) && TokenOk(t, out)
    ensures InflateTokens(codes.lit, codes.dist, out, TokenBits(codes, t) + rest)
            == InflateTokens(codes.lit, codes.dist, Apply(t, out), rest)
  {
    hide Decode, ReadMatch, Codeword, CodeOf, CopyMatch, LEN_BASE, LEN_EXTRA, DIST_BASE, DIST_EXTRA, MatchTail, Pow2;
    match t
    case Literal(b) =>
      SymbolReads(codes.lit, b, rest);
    case Copy(s, le, d, de) =>
      LengthTable();
      DistanceTable();
      var tail := MatchTail(codes.dist, s, le, d, de);
      assert TokenBits(codes, t) + rest == Codeword(codes.lit, 257 + s) + (tail + rest);
      SymbolReads(codes.lit, 257 + s, tail + rest);
      MatchReads(codes.dist, s, le, d, de, rest);
  }

  lemma {:induction false} TokensRead(codes: Codes, tokens: seq<Token>, out: seq<Byte>, rest: seq<Bit>)
    requires CodesOk(codes) && TokensCoded(codes, tokens) && TokensOk(tokens, out)
    ensures InflateTokens(codes.lit, codes.dist, out, TokensBits(codes, tokens) + rest)
            == Got(ApplyAll(tokens, out), rest)
    decreases |tokens|
  {
    hide Decode, ReadMatch, Codeword, TokenOk, Apply, TokenBits, TokenCoded;
    if tokens == [] {
      SymbolReads(codes.lit, 256, rest);
    } else {
      var more := TokensBits(codes, tokens[1..]);
      assert TokensBits(codes, tokens) + rest == TokenBits(codes, tokens[0]) + (more + rest);
      TokenReads(codes, tokens[0], out, more + rest);
      TokensRead(codes, tokens[1..], Apply(tokens[0], out), rest);
    }
  }
}
