/**
 * Exactly which byte strings the decoder accepts: the sequences of the LZ4 block format, and for each what
 * they denote.
 */
module Lz4Exactly {
  import opened Bytes
  import opened Lz4Decoder
  import opened Lz4Encoding

  /** Literals, then a match of `len` bytes, `off` bytes back. */
  datatype Sequence = Sequence(lits: seq<Byte>, off: nat, len: nat)

  ghost predicate SequenceOk(s: Sequence, out: seq<Byte>) {
    MINMATCH <= s.len && 1 <= s.off <= LZ4_DISTANCE_MAX && s.off <= |out| + |s.lits|
  }

  ghost function Apply(s: Sequence, out: seq<Byte>): seq<Byte>
    requires SequenceOk(s, out)
  {
    CopyMatch(out + s.lits, s.off, s.len)
  }

  /** Every match starts inside what the sequences before it denote. */
  ghost predicate AllOk(seqs: seq<Sequence>, out: seq<Byte>) {
    seqs == [] || (SequenceOk(seqs[0], out) && AllOk(seqs[1..], Apply(seqs[0], out)))
  }

  ghost function ApplyAll(seqs: seq<Sequence>, out: seq<Byte>): (r: seq<Byte>)
    requires AllOk(seqs, out)
    ensures |out| <= |r|
  {
    if seqs == [] then out else ApplyAll(seqs[1..], Apply(seqs[0], out))
  }

  ghost function AllBytes(seqs: seq<Sequence>, out: seq<Byte>): seq<Byte>
    requires AllOk(seqs, out)
  {
    if seqs == [] then []
    else SequenceBytes(seqs[0].lits, seqs[0].off, seqs[0].len) + AllBytes(seqs[1..], Apply(seqs[0], out))
  }

  /** The final literals; the low half of their token is free. */
  function FinalBytes(lits: seq<Byte>, nibble: nat): seq<Byte>
    requires nibble < 16
  {
    [16 * Min(|lits|, 15) + nibble] + LengthBytes(|lits|) + lits
  }

  /** The block is these sequences and final literals, and denotes these bytes. */
  ghost predicate Block(src: seq<Byte>, out: seq<Byte>, seqs: seq<Sequence>, lits: seq<Byte>, nibble: nat) {
    && nibble < 16 && AllOk(seqs, [])
    && src == AllBytes(seqs, []) + FinalBytes(lits, nibble) && out == ApplyAll(seqs, []) + lits
  }

  // ---------- Blocks decode ----------

  lemma FinalReads(src: seq<Byte>, sp: nat, out: seq<Byte>, dstSize: nat, lits: seq<Byte>, nibble: nat)
    requires nibble < 16 && At(src, sp, FinalBytes(lits, nibble)) && sp + |FinalBytes(lits, nibble)| == |src|
    requires |out| + |lits| == dstSize
    ensures DecodeFrom(src, sp, out, dstSize) == Ok(out + lits)
  {
    hide LengthBytes, DecodeSequence, At;
    DecodeLiteralPart(src, sp, out, dstSize, 16 * Min(|lits|, 15) + nibble, lits);
  }

  lemma {:induction false} SequencesRead(src: seq<Byte>, sp: nat, out: seq<Byte>, dstSize: nat, seqs: seq<Sequence>,
      lits: seq<Byte>, nibble: nat)
    requires nibble < 16 && AllOk(seqs, out) && |ApplyAll(seqs, out)| + |lits| == dstSize
    requires At(src, sp, AllBytes(seqs, out) + FinalBytes(lits, nibble))
    requires sp + |AllBytes(seqs, out) + FinalBytes(lits, nibble)| == |src|
    ensures |out| <= dstSize && DecodeFrom(src, sp, out, dstSize) == Ok(ApplyAll(seqs, out) + lits)
    decreases |seqs|
  {
    hide At, FinalBytes, SequenceBytes, DecodeSequence, CopyMatch;
    if seqs == [] {
      assert AllBytes(seqs, out) + FinalBytes(lits, nibble) == FinalBytes(lits, nibble);
      FinalReads(src, sp, out, dstSize, lits, nibble);
    } else {
      var s, next := seqs[0], Apply(seqs[0], out);
      var first, rest := SequenceBytes(s.lits, s.off, s.len), AllBytes(seqs[1..], next) + FinalBytes(lits, nibble);
      assert AllBytes(seqs, out) + FinalBytes(lits, nibble) == first + rest;
      AtParts(src, sp, first, rest);
      DecodeOneSequence(src, sp, out, dstSize, s.lits, s.off, s.len);
      SequencesRead(src, sp + |first|, next, dstSize, seqs[1..], lits, nibble);
    }
  }

  // ---------- What decodes is a block ----------

  lemma {:induction false} ExtensionSound(src: seq<Byte>, sp: nat, acc: nat)
    requires sp <= |src| && ReadExtension(src, sp, acc).Length?
    ensures var r := ReadExtension(src, sp, acc); src[sp..r.sp] == RunBytes(r.len - acc)
    decreases |src| - sp
  {
    if src[sp] == 255 {
      ExtensionSound(src, sp + 1, acc + 255);
      var r := ReadExtension(src, sp, acc);
      assert src[sp..r.sp] == [src[sp]] + src[sp + 1..r.sp];
    }
  }

  lemma LengthSound(src: seq<Byte>, sp: nat, nibble: nat)
    requires sp <= |src| && nibble < 16 && ReadLength(src, sp, nibble).Length?
    ensures var r := ReadLength(src, sp, nibble); src[sp..r.sp] == LengthBytes(r.len) && nibble == Min(r.len, 15)
  {
    if nibble == 15 {
      ExtensionSound(src, sp, 15);
    }
  }

  /** A match that was decoded: two offset bytes and the bytes of its length. */
  lemma MatchSound(src: seq<Byte>, sp: nat, out: seq<Byte>, dstSize: nat, nibble: nat) returns (off: nat, len: nat)
    requires sp <= |src| && |out| <= dstSize && nibble < 16 && DecodeMatch(src, sp, out, dstSize, nibble).More?
    ensures MINMATCH <= len && 1 <= off <= LZ4_DISTANCE_MAX && off <= |out| && nibble == Min(len - MINMATCH, 15)
    ensures var r := DecodeMatch(src, sp, out, dstSize, nibble);
            r.out == CopyMatch(out, off, len) && src[sp..r.sp] == OffsetBytes(off) + LengthBytes(len - MINMATCH)
  {
    off := ReadOffset(src, sp);
    var r := ReadLength(src, sp + 2, nibble);
    LengthSound(src, sp + 2, nibble);
    len := r.len + MINMATCH;
    hide LengthBytes, ReadLength, CopyMatch;
    OffsetSound(src, sp);
    assert src[sp..r.sp] == src[sp..sp + 2] + src[sp + 2..r.sp];
  }

  lemma OffsetSound(src: seq<Byte>, sp: nat)
    requires sp + 2 <= |src|
    ensures ReadOffset(src, sp) <= LZ4_DISTANCE_MAX && src[sp..sp + 2] == OffsetBytes(ReadOffset(src, sp))
  {
    var lo: nat, hi: nat := src[sp], src[sp + 1];
    assert (lo + 256 * hi) % 256 == lo && (lo + 256 * hi) / 256 == hi;
  }

  /** The literal part of a sequence that was decoded, and what is decoded after it. */
  lemma LiteralsSound(src: seq<Byte>, sp: nat, out: seq<Byte>, dstSize: nat) returns (lits: seq<Byte>, p: nat)
    requires sp <= |src| && |out| <= dstSize && !DecodeSequence(src, sp, out, dstSize).Fail?
    ensures sp < p <= |src| && |out| + |lits| <= dstSize && src[sp] / 16 == Min(|lits|, 15)
    ensures src[sp..p] == [src[sp]] + LengthBytes(|lits|) + lits
    ensures DecodeSequence(src, sp, out, dstSize) == DecodeMatch(src, p, out + lits, dstSize, src[sp] % 16)
  {
    hide DecodeMatch, LengthBytes;
    var r := ReadLength(src, sp + 1, src[sp] / 16);
    LengthSound(src, sp + 1, src[sp] / 16);
    hide ReadLength;
    lits, p := src[r.sp..r.sp + r.len], r.sp + r.len;
    assert src[sp..p] == [src[sp]] + src[sp + 1..r.sp] + lits;
  }

  lemma {:induction false} SequencesSound(src: seq<Byte>, sp: nat, out: seq<Byte>, dstSize: nat)
    returns (seqs: seq<Sequence>, lits: seq<Byte>, nibble: nat)
    requires sp <= |src| && |out| <= dstSize && DecodeFrom(src, sp, out, dstSize).Ok?
    ensures nibble < 16 && AllOk(seqs, out) && src[sp..] == AllBytes(seqs, out) + FinalBytes(lits, nibble)
    ensures DecodeFrom(src, sp, out, dstSize) == Ok(ApplyAll(seqs, out) + lits)
    ensures |ApplyAll(seqs, out) + lits| == dstSize
    decreases |src| - sp
  {
    hide LengthBytes, DecodeSequence, DecodeMatch, CopyMatch, OffsetBytes, Token, SequenceBytes;
    var p;
    lits, p := LiteralsSound(src, sp, out, dstSize);
    var token := src[sp];
    match DecodeSequence(src, sp, out, dstSize)
    case Last(all) =>
      seqs, nibble := [], token % 16;
      LastSound(src, p, out + lits, dstSize, nibble);
      assert src[sp..] == src[sp..p];
      assert [] + FinalBytes(lits, nibble) == FinalBytes(lits, nibble);
    case More(next, more) =>
      var off, len := MatchSound(src, p, out + lits, dstSize, token % 16);
      var s := Sequence(lits, off, len);
      SequenceWhole(src, sp, p, next, lits, off, len);
      seqs, lits, nibble := SequencesSound(src, next, more, dstSize);
      seqs := [s] + seqs;
      assert seqs[1..] == seqs[1..] && src[sp..] == src[sp..next] + src[next..];
  }

  lemma LastSound(src: seq<Byte>, p: nat, out: seq<Byte>, dstSize: nat, nibble: nat)
    requires p <= |src| && |out| <= dstSize && DecodeMatch(src, p, out, dstSize, nibble).Last?
    ensures p == |src| && DecodeMatch(src, p, out, dstSize, nibble) == Last(out)
  {
  }

  lemma SequenceWhole(src: seq<Byte>, sp: nat, p: nat, next: nat, lits: seq<Byte>, off: nat, len: nat)
    requires sp < p <= next <= |src| && MINMATCH <= len && 1 <= off <= LZ4_DISTANCE_MAX
    requires src[sp] / 16 == Min(|lits|, 15) && src[sp] % 16 == Min(len - MINMATCH, 15)
    requires src[sp..p] == [src[sp]] + LengthBytes(|lits|) + lits
    requires src[p..next] == OffsetBytes(off) + LengthBytes(len - MINMATCH)
    ensures src[sp..next] == SequenceBytes(lits, off, len)
  {
    hide LengthBytes, OffsetBytes;
    assert src[sp..next] == src[sp..p] + src[p..next];
    assert src[sp] == Token(|lits|, len - MINMATCH);
  }

  // ---------- Exactly the blocks ----------

  /** Within the size limit the decoder returns given bytes exactly when the input is a block that denotes them,
      or both are empty. */
  lemma DecodesExactly(src: seq<Byte>, dstSize: nat, out: seq<Byte>)
    ensures Decoded(src, dstSize) == Ok(out) <==>
              && |out| == dstSize <= 256 * 1024 * 1024
              && (src == out == [] || exists seqs, lits, nibble :: Block(src, out, seqs, lits, nibble))
  {
    hide DecodeFrom, ApplyAll, AllBytes, AllOk, FinalBytes;
    if Decoded(src, dstSize) == Ok(out) && src != [] {
      var seqs, lits, nibble := SequencesSound(src, 0, [], dstSize);
      assert src[0..] == src;
      assert Block(src, out, seqs, lits, nibble);
    }
    forall seqs, lits, nibble | Block(src, out, seqs, lits, nibble) && |out| == dstSize <= MAX_DECOMPRESS_BYTES
      ensures Decoded(src, dstSize) == Ok(out)
    {
      BlockDecodes(src, out, seqs, lits, nibble);
    }
  }

  lemma BlockDecodes(src: seq<Byte>, out: seq<Byte>, seqs: seq<Sequence>, lits: seq<Byte>, nibble: nat)
    requires Block(src, out, seqs, lits, nibble) && |out| <= MAX_DECOMPRESS_BYTES
    ensures Decoded(src, |out|) == Ok(out)
  {
    hide DecodeFrom, ApplyAll, AllBytes, AllOk;
    assert src[0..0 + |src|] == src;
    SequencesRead(src, 0, [], |out|, seqs, lits, nibble);
  }
}
