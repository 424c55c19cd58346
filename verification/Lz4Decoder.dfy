/**
 * The LZ4 block decoder: a byte-at-a-time reference on values, and the word-copy
 * implementation over an array that carries eight bytes of slack.
 */
module Lz4Decoder {
  import opened Bytes

  const MINMATCH := 4
  const MAX_DECOMPRESS_BYTES := 256 * 1024 * 1024
  const WILDCOPY_SLACK := 8

  datatype Lz4Error =
    | SizeLimit
    | EmptyInput
    | TruncatedToken
    | TruncatedLiteralLength
    | LiteralsExceedInput
    | LiteralsExceedOutput
    | TruncatedOffset
    | ZeroOffset
    | OffsetBeforeStart
    | TruncatedMatchLength
    | MatchExceedsOutput
    | SizeMismatch

  // ---------- The reference decoder ----------

  datatype Length = Truncated | Length(len: nat, sp: nat)

  /** Sums extension bytes from `sp` until one differs from 255. */
  function ReadExtension(src: seq<Byte>, sp: nat, acc: nat): (r: Length)
    requires sp <= |src|
    ensures r.Length? ==> sp < r.sp <= |src| && acc <= r.len
    decreases |src| - sp
  {
    if sp == |src| then Truncated
    else if src[sp] == 255 then ReadExtension(src, sp + 1, acc + 255)
    else Length(acc + src[sp], sp + 1)
  }

  function ReadLength(src: seq<Byte>, sp: nat, nibble: nat): (r: Length)
    requires sp <= |src|
    ensures r.Length? ==> sp <= r.sp <= |src|
  {
    if nibble == 15 then ReadExtension(src, sp, 15) else Length(nibble, sp)
  }

  datatype Step =
    | Fail(error: Lz4Error)
    | Last(out: seq<Byte>)
    | More(sp: nat, out: seq<Byte>)

  /** One sequence: token, literals and, unless the input ends there, a match. */
  function DecodeSequence(src: seq<Byte>, sp: nat, out: seq<Byte>, dstSize: nat): (r: Step)
    requires sp <= |src| && |out| <= dstSize
    ensures r.More? ==> sp < r.sp <= |src| && |r.out| <= dstSize
  {
    if sp == |src| then Fail(TruncatedToken) else
    var token := src[sp];
    match ReadLength(src, sp + 1, token / 16)
    case Truncated => Fail(TruncatedLiteralLength)
    case Length(litLen, p) =>
      if litLen > 0 && p + litLen > |src| then Fail(LiteralsExceedInput)
      else if litLen > 0 && |out| + litLen > dstSize then Fail(LiteralsExceedOutput)
      else DecodeMatch(src, p + litLen, out + src[p..p + litLen], dstSize, token % 16)
  }

  /** Two bytes, little-endian. */
  function ReadOffset(src: seq<Byte>, sp: nat): nat
    requires sp + 2 <= |src|
  {
    src[sp] as int + 256 * src[sp + 1] as int
  }

  function DecodeMatch(src: seq<Byte>, sp: nat, out: seq<Byte>, dstSize: nat, nibble: nat): (r: Step)
    requires sp <= |src| && |out| <= dstSize
    ensures r.More? ==> sp < r.sp <= |src| && |r.out| <= dstSize
  {
    if sp == |src| then Last(out)
    else if sp + 2 > |src| then Fail(TruncatedOffset)
    else
      var offset := ReadOffset(src, sp);
      if offset == 0 then Fail(ZeroOffset)
      else if offset > |out| then Fail(OffsetBeforeStart)
      else
        match ReadLength(src, sp + 2, nibble)
        case Truncated => Fail(TruncatedMatchLength)
        case Length(len, p) =>
          if |out| + len + MINMATCH > dstSize then Fail(MatchExceedsOutput)
          else More(p, CopyMatch(out, offset, len + MINMATCH))
  }

  function DecodeFrom(src: seq<Byte>, sp: nat, out: seq<Byte>, dstSize: nat): Result<seq<Byte>, Lz4Error>
    requires sp <= |src| && |out| <= dstSize
    decreases |src| - sp
  {
    match DecodeSequence(src, sp, out, dstSize)
    case Fail(e) => Err(e)
    case Last(all) => if |all| != dstSize then Err(SizeMismatch) else Ok(all)
    case More(p, more) => DecodeFrom(src, p, more, dstSize)
  }

  /** What decoding `src` into `dstSize` bytes means, errors included. */
  function Decoded(src: seq<Byte>, dstSize: nat): Result<seq<Byte>, Lz4Error> {
    if dstSize > MAX_DECOMPRESS_BYTES then Err(SizeLimit)
    else if |src| == 0 then (if dstSize == 0 then Ok([]) else Err(EmptyInput))
    else DecodeFrom(src, 0, [], dstSize)
  }

  // ---------- The word-copy decoder ----------

  method WriteWord(dst: array<Byte>, d: nat, word: seq<Byte>)
    requires |word| == 8 && d + 8 <= dst.Length
    modifies dst
    ensures forall k :: 0 <= k < d || d + 8 <= k < dst.Length ==> dst[k] == old(dst[k])
    ensures forall k :: d <= k < d + 8 ==> dst[k] == word[k - d]
  {
    forall j | 0 <= j < 8 {
      dst[d + j] := word[j];
    }
  }

  /** Offsets of at least 8: whole words, the last one overshooting by up to seven bytes. */
  method CopyWords(dst: array<Byte>, dp: nat, offset: nat, len: nat)
    requires 8 <= offset <= dp && dp + len + WILDCOPY_SLACK <= dst.Length
    modifies dst
    ensures dst[..dp + len] == CopyMatch(old(dst[..dp]), offset, len)
  {
    var s, d := dp - offset, dp;
    var end := dp + len;
    while d < end
      invariant d - s == offset && dp <= d < end + 8
      invariant forall k :: 0 <= k < dp ==> dst[k] == old(dst[k])
      invariant forall k :: dp <= k < d ==> dst[k] == dst[k - offset]
    {
      WriteWord(dst, d, dst[s..s + 8]);
      s, d := s + 8, d + 8;
    }
    CopyMatchUnique(old(dst[..dp]), offset, len, dst[..end]);
  }

  /** The eight bytes that repeat the `offset` bytes before `dp`; the offset divides 8. */
  function PatternWord(p: seq<Byte>): (w: seq<Byte>)
    requires |p| == 1 || |p| == 2 || |p| == 4
    ensures |w| == 8
    ensures forall j :: 0 <= j < |p| ==> w[j] == p[j] == w[8 - |p| + j]
    ensures forall j :: |p| <= j < 8 ==> w[j] == w[j - |p|]
  {
    if |p| == 1 then p + p + p + p + p + p + p + p
    else if |p| == 2 then p + p + p + p
    else p + p
  }

  /** Stores the pattern word at `d`, where the `offset` bytes before are the pattern too. */
  method StorePattern(dst: array<Byte>, d: nat, offset: nat, word: seq<Byte>)
    requires (offset == 1 || offset == 2 || offset == 4) && offset <= d && d + 8 <= dst.Length
    requires |word| == 8 && word == PatternWord(word[..offset]) && dst[d - offset..d] == word[..offset]
    modifies dst
    ensures forall k :: 0 <= k < d ==> dst[k] == old(dst[k])
    ensures forall k :: d <= k < d + 8 ==> dst[k] == dst[k - offset]
    ensures dst[d + 8 - offset..d + 8] == word[..offset]
  {
    assert forall j :: 0 <= j < offset ==> dst[d - offset..d][j] == word[j];
    assert forall k :: d - offset <= k < d ==> dst[k] == word[k - (d - offset)];
    WriteWord(dst, d, word);
  }

  /** Offsets 1, 2 and 4: one word, stored again and again. */
  method CopyPattern(dst: array<Byte>, dp: nat, offset: nat, len: nat)
    requires offset == 1 || offset == 2 || offset == 4
    requires offset <= dp && dp + len + WILDCOPY_SLACK <= dst.Length
    modifies dst
    ensures dst[..dp + len] == CopyMatch(old(dst[..dp]), offset, len)
  {
    hide PatternWord, CopyMatch;
    var word := PatternWord(dst[dp - offset..dp]);
    assert word[..offset] == dst[dp - offset..dp];
    var d := dp;
    var end := dp + len;
    while d < end
      invariant dp <= d < end + 8
      invariant forall k :: 0 <= k < dp ==> dst[k] == old(dst[k])
      invariant forall k :: dp <= k < d ==> dst[k] == dst[k - offset]
      invariant dst[d - offset..d] == word[..offset]
    {
      StorePattern(dst, d, offset, word);
      d := d + 8;
    }
    CopyMatchUnique(old(dst[..dp]), offset, len, dst[..end]);
  }

  /** The remaining offsets, 3, 5, 6 and 7. */
  method CopyBytes(dst: array<Byte>, dp: nat, offset: nat, len: nat)
    requires 1 <= offset <= dp && dp + len <= dst.Length
    modifies dst
    ensures dst[..dp + len] == CopyMatch(old(dst[..dp]), offset, len)
  {
    for k := 0 to len
      invariant dst[..dp] == old(dst[..dp])
      invariant forall j :: dp <= j < dp + k ==> dst[j] == dst[j - offset]
    {
      dst[dp + k] := dst[dp - offset + k];
    }
    CopyMatchUnique(old(dst[..dp]), offset, len, dst[..dp + len]);
  }

  method CopyMatchInto(dst: array<Byte>, dp: nat, offset: nat, len: nat)
    requires 1 <= offset <= dp && dp + len + WILDCOPY_SLACK <= dst.Length
    modifies dst
    ensures dst[..dp + len] == CopyMatch(old(dst[..dp]), offset, len)
  {
    if offset >= 8 {
      CopyWords(dst, dp, offset, len);
    } else if offset == 1 || offset == 2 || offset == 4 {
      CopyPattern(dst, dp, offset, len);
    } else {
      CopyBytes(dst, dp, offset, len);
    }
  }

  method CopyLiterals(dst: array<Byte>, dp: nat, src: seq<Byte>, sp: nat, len: nat)
    requires sp + len <= |src| && dp + len <= dst.Length
    modifies dst
    ensures dst[..dp + len] == old(dst[..dp]) + src[sp..sp + len]
  {
    forall k | 0 <= k < len {
      dst[dp + k] := src[sp + k];
    }
  }

  /** The extension-byte loop, which runs only when the nibble is 15. */
  method ReadRun(src: seq<Byte>, start: nat, nibble: nat) returns (ok: bool, len: nat, sp: nat)
    requires start <= |src|
    ensures ok ==> ReadLength(src, start, nibble) == Length(len, sp)
    ensures !ok ==> ReadLength(src, start, nibble) == Truncated
  {
    len, sp := nibble, start;
    if nibble == 15 {
      while true
        invariant start <= sp <= |src|
        invariant ReadExtension(src, sp, len) == ReadExtension(src, start, 15)
        decreases |src| - sp
      {
        if sp >= |src| {
          return false, 0, sp;
        }
        var b := src[sp];
        sp := sp + 1;
        len := len + b;
        if b != 255 {
          break;
        }
      }
    }
    ok := true;
  }

  /** The literals of one sequence; on success `next` is the input position after them. */
  method LiteralsInto(dst: array<Byte>, dp: nat, dstSize: nat, src: seq<Byte>, sp: nat, nibble: nat)
    returns (failed: Option<Lz4Error>, next: nat, dpNext: nat)
    requires sp <= |src| && dp <= dstSize && dst.Length == dstSize + WILDCOPY_SLACK
    modifies dst
    ensures failed.None? ==>
              && dp <= dpNext <= dstSize && next <= |src|
              && ReadLength(src, sp, nibble).Length?
              && ReadLength(src, sp, nibble).sp + ReadLength(src, sp, nibble).len == next
              && dst[..dpNext] == old(dst[..dp]) + src[ReadLength(src, sp, nibble).sp..next]
    ensures failed == match ReadLength(src, sp, nibble)
                      case Truncated => Some(TruncatedLiteralLength)
                      case Length(len, p) =>
                        if len > 0 && p + len > |src| then Some(LiteralsExceedInput)
                        else if len > 0 && dp + len > dstSize then Some(LiteralsExceedOutput)
                        else None
  {
    var ok, litLen, p := ReadRun(src, sp, nibble);
    if !ok {
      return Some(TruncatedLiteralLength), 0, 0;
    }
    next, dpNext := p, dp;
    if litLen > 0 {
      if next + litLen > |src| {
        return Some(LiteralsExceedInput), 0, 0;
      }
      if dp + litLen > dstSize {
        return Some(LiteralsExceedOutput), 0, 0;
      }
      CopyLiterals(dst, dp, src, next, litLen);
      next, dpNext := next + litLen, dpNext + litLen;
    }
    failed := None;
  }

  /** The match of one sequence, from the offset on. */
  method MatchInto(dst: array<Byte>, dp: nat, dstSize: nat, src: seq<Byte>, sp: nat, nibble: nat)
    returns (failed: Option<Lz4Error>, next: nat, dpNext: nat)
    requires sp < |src| && dp <= dstSize && dst.Length == dstSize + WILDCOPY_SLACK
    modifies dst
    ensures failed.None? ==>
              && dpNext <= dstSize && sp <= next <= |src|
              && DecodeMatch(src, sp, old(dst[..dp]), dstSize, nibble) == More(next, dst[..dpNext])
    ensures failed.Some? ==> DecodeMatch(src, sp, old(dst[..dp]), dstSize, nibble) == Fail(failed.value)
  {
    hide CopyMatch, ReadLength;
    if sp + 2 > |src| {
      return Some(TruncatedOffset), 0, 0;
    }
    var offset := ReadOffset(src, sp);
    if offset == 0 {
      return Some(ZeroOffset), 0, 0;
    }
    if offset > dp {
      return Some(OffsetBeforeStart), 0, 0;
    }
    var ok, matchLen, p := ReadRun(src, sp + 2, nibble);
    if !ok {
      return Some(TruncatedMatchLength), 0, 0;
    }
    matchLen := matchLen + MINMATCH;
    if dp + matchLen > dstSize {
      return Some(MatchExceedsOutput), 0, 0;
    }
    CopyMatchInto(dst, dp, offset, matchLen);
    return None, p, dp + matchLen;
  }

  /** A sequence is its literals and then its match. */
  lemma SequenceParts(src: seq<Byte>, sp: nat, out: seq<Byte>, dstSize: nat)
    requires sp <= |src| && |out| <= dstSize
    ensures DecodeSequence(src, sp, out, dstSize)
            == if sp == |src| then Fail(TruncatedToken) else
               match ReadLength(src, sp + 1, src[sp] / 16)
               case Truncated => Fail(TruncatedLiteralLength)
               case Length(len, p) =>
                 if len > 0 && p + len > |src| then Fail(LiteralsExceedInput)
                 else if len > 0 && |out| + len > dstSize then Fail(LiteralsExceedOutput)
                 else DecodeMatch(src, p + len, out + src[p..p + len], dstSize, src[sp] % 16)
  {
  }

  lemma LastPart(src: seq<Byte>, out: seq<Byte>, dstSize: nat, nibble: nat)
    requires |out| <= dstSize
    ensures DecodeMatch(src, |src|, out, dstSize, nibble) == Last(out)
  {
  }

  /** The word-copy decoder agrees with the reference on every input, malformed ones included. */
  method Decompress(src: seq<Byte>, dstSize: nat) returns (r: Result<seq<Byte>, Lz4Error>)
    ensures r == Decoded(src, dstSize)
  {
    hide DecodeSequence, DecodeMatch, ReadLength;
    if dstSize > MAX_DECOMPRESS_BYTES {
      return Err(SizeLimit);
    }
    var dst := new Byte[dstSize + WILDCOPY_SLACK](_ => 0);
    var sp: nat, dp: nat := 0, 0;
    if |src| == 0 {
      if dstSize == 0 {
        return Ok([]);
      }
      return Err(EmptyInput);
    }
    assert dst[..0] == [];

    while true
      invariant sp <= |src| && dp <= dstSize
      invariant DecodeFrom(src, sp, dst[..dp], dstSize) == DecodeFrom(src, 0, [], dstSize)
      decreases |src| - sp
    {
      SequenceParts(src, sp, dst[..dp], dstSize);
      if sp >= |src| {
        return Err(TruncatedToken);
      }
      var token := src[sp];
      var failed;
      failed, sp, dp := LiteralsInto(dst, dp, dstSize, src, sp + 1, token / 16);
      if failed.Some? {
        return Err(failed.value);
      }
      if sp == |src| {
        LastPart(src, dst[..dp], dstSize, token % 16);
        break;
      }
      failed, sp, dp := MatchInto(dst, dp, dstSize, src, sp, token % 16);
      if failed.Some? {
        return Err(failed.value);
      }
    }

    if dp != dstSize {
      return Err(SizeMismatch);
    }
    r := Ok(dst[..dstSize]);
  }
}
