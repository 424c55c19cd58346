/**
 * Whole DEFLATE streams: stored, fixed and dynamic blocks in any order, and the round trip through
 * the decoder, with the exact condition under which the size cap lets it finish.
 */
module PngDeflateStream {
  import opened Bytes
  import opened PngBits
  import opened PngHuffman
  import opened PngInflate
  import opened PngDeflate
  import opened PngFixedCodes
  import opened PngDynamicCodes

  /** A block. The bits before the bytes of a stored block are padding, of any value `pad`. */
  datatype Piece =
    | Stored(bytes: seq<Byte>, pad: nat)
    | Fixed(tokens: seq<Token>)
    | Dynamic(header: Header, tokens: seq<Token>)

  function BlockType(p: Piece): (r: nat)
    ensures r < 3
  {
    match p
    case Stored(_, _) => 0
    case Fixed(_) => 1
    case Dynamic(_, _) => 2
  }

  ghost predicate PieceOk(p: Piece, out: seq<Byte>) {
    match p
    case Stored(bytes, _) => |bytes| <= 0xFFFF
    case Fixed(tokens) => TokensOk(tokens, out)
    case Dynamic(h, tokens) =>
      HeaderOk(h) && CodesOk(HeaderCodes(h)) && TokensCoded(HeaderCodes(h), tokens) && TokensOk(tokens, out)
  }

  /** The bytes after a block, which the block denotes. */
  ghost function Denote(p: Piece, out: seq<Byte>): (r: seq<Byte>)
    requires PieceOk(p, out)
    ensures out <= r
  {
    match p
    case Stored(bytes, _) => out + bytes
    case Fixed(tokens) => ApplyAll(tokens, out)
    case Dynamic(_, tokens) => ApplyAll(tokens, out)
  }

  /** How many bits complete a byte after `pos` bits. */
  function Pad(pos: nat): nat {
    (8 - pos % 8) % 8
  }

  function U16Bits(v: nat): seq<Bit> {
    ToBits(v % 256, 8) + ToBits(v / 256, 8)
  }

  ghost function StoredBits(bytes: seq<Byte>, pad: nat, pos: nat): seq<Bit>
    requires |bytes| <= 0xFFFF
  {
    ToBits(pad, Pad(pos)) + (U16Bits(|bytes|) + (U16Bits(0xFFFF - |bytes|) + StreamBits(bytes)))
  }

  ghost function FixedBits(tokens: seq<Token>, out: seq<Byte>): seq<Bit>
    requires TokensOk(tokens, out)
  {
    FixedCodesOk(tokens, out);
    TokensBits(Codes(FixedLit(), FixedDist()), tokens)
  }

  /** The body of a block that starts after `pos` bits. */
  ghost function BodyBits(p: Piece, out: seq<Byte>, pos: nat): seq<Bit>
    requires PieceOk(p, out)
  {
    match p
    case Stored(bytes, pad) => StoredBits(bytes, pad, pos)
    case Fixed(tokens) => FixedBits(tokens, out)
    case Dynamic(h, tokens) => HeaderBits(h) + TokensBits(HeaderCodes(h), tokens)
  }

  // ---------- Stored blocks ----------

  lemma ByteReads(b: nat, rest: seq<Bit>)
    requires b < 256
    ensures ReadNumber(ToBits(b, 8) + rest, 8) == Got(b, rest)
  {
    SmallPowers();
    hide Pow2, ToBits;
    NumberReads(b, 8, rest);
  }

  lemma U16Reads(v: nat, rest: seq<Bit>)
    requires v <= 0xFFFF
    ensures ReadU16(U16Bits(v) + rest) == Got(v, rest)
  {
    hide ReadNumber, ToBits;
    var lo, hi := ToBits(v % 256, 8), ToBits(v / 256, 8);
    assert U16Bits(v) + rest == lo + (hi + rest);
    ByteReads(v % 256, hi + rest);
    ByteReads(v / 256, rest);
  }

  lemma {:induction false} BytesRead(out: seq<Byte>, bytes: seq<Byte>, rest: seq<Bit>)
    ensures ReadBytes(out, |bytes|, StreamBits(bytes) + rest) == Got(out + bytes, rest)
    decreases |bytes|
  {
    hide ReadNumber, ToBits;
    if bytes == [] {
      assert [] + rest == rest && out + bytes == out;
    } else {
      var more := StreamBits(bytes[1..]);
      assert StreamBits(bytes) + rest == ToBits(bytes[0], 8) + (more + rest);
      ByteReads(bytes[0], more + rest);
      BytesRead(out + [bytes[0]], bytes[1..], rest);
      assert out + [bytes[0]] + bytes[1..] == out + bytes;
    }
  }

  lemma PadIsUnaligned(pos: nat, left: nat)
    requires (pos + left) % 8 == 0
    ensures left % 8 == Pad(pos)
  {
  }

  lemma StoredAligned(bytes: seq<Byte>, pad: nat, pos: nat, rest: seq<Bit>)
    requires |bytes| <= 0xFFFF
    ensures var all := StoredBits(bytes, pad, pos) + rest;
            && Pad(pos) <= |all|
            && all[Pad(pos)..] == U16Bits(|bytes|) + (U16Bits(0xFFFF - |bytes|) + (StreamBits(bytes) + rest))
  {
    hide U16Bits, ToBits, StreamBits, Pad;
    DropFront(ToBits(pad, Pad(pos)), U16Bits(|bytes|), U16Bits(0xFFFF - |bytes|), StreamBits(bytes), rest);
  }

  lemma DropFront(a: seq<Bit>, b: seq<Bit>, c: seq<Bit>, d: seq<Bit>, e: seq<Bit>)
    ensures ((a + (b + (c + d))) + e)[|a|..] == b + (c + (d + e))
  {
  }

  lemma StoredReads(out: seq<Byte>, bytes: seq<Byte>, pad: nat, pos: nat, rest: seq<Bit>)
    requires |bytes| <= 0xFFFF && (pos + |StoredBits(bytes, pad, pos)| + |rest|) % 8 == 0
    ensures InflateStored(out, StoredBits(bytes, pad, pos) + rest) == Got(out + bytes, rest)
  {
    var bits := StoredBits(bytes, pad, pos) + rest;
    PadIsUnaligned(pos, |bits|);
    hide ReadU16, ReadBytes, U16Bits, ToBits, StreamBits, Pad, StoredBits;
    var nlen, data := U16Bits(0xFFFF - |bytes|), StreamBits(bytes);
    StoredAligned(bytes, pad, pos, rest);
    U16Reads(|bytes|, nlen + (data + rest));
    U16Reads(0xFFFF - |bytes|, data + rest);
    BytesRead(out, bytes, rest);
  }

  // ---------- Blocks ----------

  lemma BodyReads(p: Piece, out: seq<Byte>, pos: nat, rest: seq<Bit>)
    requires PieceOk(p, out) && (pos + |BodyBits(p, out, pos)| + |rest|) % 8 == 0
    ensures InflateBody(BlockType(p), out, BodyBits(p, out, pos) + rest) == Got(Denote(p, out), rest)
  {
    hide StoredBits, InflateStored, InflateTokens, ReadCodes, TokensBits, HeaderBits, HeaderOk, HeaderCodes, CodesOk;
    hide TokensCoded, TokensOk, ApplyAll, FixedLit, FixedDist;
    match p
    case Stored(bytes, pad) => StoredReads(out, bytes, pad, pos, rest);
    case Fixed(tokens) =>
      FixedCodesOk(tokens, out);
      TokensRead(Codes(FixedLit(), FixedDist()), tokens, out, rest);
    case Dynamic(h, tokens) =>
      var codes := HeaderCodes(h);
      var body := TokensBits(codes, tokens);
      assert BodyBits(p, out, pos) + rest == HeaderBits(h) + (body + rest);
      HeaderReads(h, body + rest);
      TokensRead(codes, tokens, out, rest);
  }

  /** A block: the final flag, the type, the body. */
  ghost function BlockBits(final: bool, p: Piece, out: seq<Byte>, pos: nat): seq<Bit>
    requires PieceOk(p, out)
  {
    ToBits(if final then 1 else 0, 1) + (ToBits(BlockType(p), 2) + BodyBits(p, out, pos + 3))
  }

  lemma BlockReads(final: bool, p: Piece, out: seq<Byte>, pos: nat, rest: seq<Bit>)
    requires PieceOk(p, out) && (pos + |BlockBits(final, p, out, pos)| + |rest|) % 8 == 0
    ensures InflateBlock(out, BlockBits(final, p, out, pos) + rest) == Got(Block(final, Denote(p, out)), rest)
  {
    hide PieceOk, InflateBody, ReadNumber, BodyBits, Denote, ToBits, BlockType;
    SmallPowers();
    hide Pow2;
    var flag := if final then 1 else 0;
    var body := BodyBits(p, out, pos + 3);
    assert BlockBits(final, p, out, pos) + rest == ToBits(flag, 1) + (ToBits(BlockType(p), 2) + (body + rest));
    NumberReads(flag, 1, ToBits(BlockType(p), 2) + (body + rest));
    NumberReads(BlockType(p), 2, body + rest);
    BodyReads(p, out, pos + 3, rest);
  }

  // ---------- Streams ----------

  ghost predicate StreamOk(pieces: seq<Piece>, out: seq<Byte>) {
    && pieces != [] && PieceOk(pieces[0], out)
    && (|pieces| == 1 || StreamOk(pieces[1..], Denote(pieces[0], out)))
  }

  ghost function DenoteAll(pieces: seq<Piece>, out: seq<Byte>): (r: seq<Byte>)
    requires StreamOk(pieces, out)
    ensures out <= r
  {
    var out' := Denote(pieces[0], out);
    if |pieces| == 1 then out' else DenoteAll(pieces[1..], out')
  }

  /** The bytes known when the last block starts. */
  ghost function BeforeLast(pieces: seq<Piece>, out: seq<Byte>): (r: seq<Byte>)
    requires StreamOk(pieces, out)
    ensures out <= r <= DenoteAll(pieces, out)
  {
    if |pieces| == 1 then out else BeforeLast(pieces[1..], Denote(pieces[0], out))
  }

  ghost function PiecesBits(pieces: seq<Piece>, out: seq<Byte>, pos: nat): seq<Bit>
    requires StreamOk(pieces, out)
  {
    var block := BlockBits(|pieces| == 1, pieces[0], out, pos);
    if |pieces| == 1 then block
    else block + PiecesBits(pieces[1..], Denote(pieces[0], out), pos + |block|)
  }

  lemma {:induction false} PiecesRead(pieces: seq<Piece>, out: seq<Byte>, pos: nat, rest: seq<Bit>, cap: nat)
    requires StreamOk(pieces, out) && (pos + |PiecesBits(pieces, out, pos)| + |rest|) % 8 == 0
    ensures InflateFrom(out, PiecesBits(pieces, out, pos) + rest, cap)
            == if |BeforeLast(pieces, out)| <= cap then Ok(DenoteAll(pieces, out)) else Err(TooLarge)
    decreases |pieces|
  {
    hide PieceOk, InflateBlock, BlockBits, Denote;
    if |out| <= cap {
      var block := BlockBits(|pieces| == 1, pieces[0], out, pos);
      if |pieces| == 1 {
        BlockReads(true, pieces[0], out, pos, rest);
      } else {
        var out' := Denote(pieces[0], out);
        var more := PiecesBits(pieces[1..], out', pos + |block|);
        assert PiecesBits(pieces, out, pos) + rest == block + (more + rest);
        BlockReads(false, pieces[0], out, pos, more + rest);
        PiecesRead(pieces[1..], out', pos + |block|, rest, cap);
      }
    }
  }

  /** Any stream of stored, fixed and dynamic blocks, whatever follows it in the data, inflates to what
      its blocks denote, exactly when the bytes before its last block stay within the cap. */
  lemma StreamInflates(pieces: seq<Piece>, data: seq<Byte>, expected: nat)
    requires StreamOk(pieces, []) && PiecesBits(pieces, [], 0) <= StreamBits(data)
    ensures Inflated(data, expected)
            == if |BeforeLast(pieces, [])| <= Cap(expected) then Ok(DenoteAll(pieces, [])) else Err(TooLarge)
  {
    hide PieceOk, InflateFrom, PiecesBits, StreamOk, BeforeLast, DenoteAll, Cap, StreamBits;
    var bits := PiecesBits(pieces, [], 0);
    var rest := AfterPrefix(bits, StreamBits(data));
    WholeBytes(0, |data|);
    PiecesRead(pieces, [], 0, rest, Cap(expected));
  }

  lemma AfterPrefix(a: seq<Bit>, all: seq<Bit>) returns (rest: seq<Bit>)
    requires a <= all
    ensures a + rest == all && |a| + |rest| == |all|
  {
    rest := all[|a|..];
  }

  /** Given the true size, inflating returns exactly the bytes the blocks denote. */
  lemma TrueSizeInflates(pieces: seq<Piece>, data: seq<Byte>)
    requires StreamOk(pieces, []) && PiecesBits(pieces, [], 0) <= StreamBits(data)
    ensures Inflated(data, |DenoteAll(pieces, [])|) == Ok(DenoteAll(pieces, []))
  {
    hide Inflated, PiecesBits, StreamOk, Cap, StreamBits;
    StreamInflates(pieces, data, |DenoteAll(pieces, [])|);
    assert BeforeLast(pieces, []) <= DenoteAll(pieces, []);
  }
}
