/**
 * The fixed codes and the length and distance alphabets: section 3.2.6 of RFC 1951 gives the codes
 * outright, and they are the canonical codes of the lengths; every length and distance has symbols.
 */
module PngFixedCodes {
  import opened Bytes
  import opened PngBits
  import opened PngHuffman
  import opened PngInflate
  import opened PngDeflate

  // ---------- The literal/length code ----------

  /** How many of the first `n` symbols have length `l`. */
  function FixedCount(l: nat, n: nat): nat
    requires n <= 288
  {
    if l == 8 then if n <= 144 then n else if n <= 280 then 144 else n - 136
    else if l == 9 then if n <= 144 then 0 else if n <= 256 then n - 144 else 112
    else if l == 7 then if n <= 256 then 0 else if n <= 280 then n - 256 else 24
    else 0
  }

  lemma {:induction false} FixedCounts(l: nat, n: nat)
    requires n <= 288
    ensures Count(FixedLit(), l, n) == FixedCount(l, n)
  {
    if n > 0 {
      FixedCounts(l, n - 1);
    }
  }

  lemma FixedFirsts()
    ensures FirstCode(FixedLit(), 7) == 0x00 && FirstCode(FixedLit(), 8) == 0x30 && FirstCode(FixedLit(), 9) == 0x190
  {
    var f := FixedLit();
    forall l: nat
      ensures Total(f, l) == FixedCount(l, 288)
    {
      FixedCounts(l, 288);
    }
    hide FixedLit, Total;
    assert FirstCode(f, 2) == 0;
    assert FirstCode(f, 4) == 0;
    assert FirstCode(f, 6) == 0;
  }

  /** The codes as the standard lists them. */
  function FixedCode(s: nat): nat
    requires s < 288
  {
    if s < 144 then 0x30 + s
    else if s < 256 then 0x190 + (s - 144)
    else if s < 280 then s - 256
    else 0xC0 + (s - 280)
  }

  lemma FixedCodes(s: nat)
    requires s < 288
    ensures HasCode(FixedLit(), s) && CodeOf(FixedLit(), s) == FixedCode(s)
  {
    FixedLitKraft();
    CodeFits(FixedLit(), s);
    FixedFirsts();
    FixedCounts(FixedLit()[s], s);
    hide FirstCode, Count, Pow2, Kraft;
  }

  lemma FixedUsed()
    ensures Used(FixedLit(), 9) == Pow2(9)
  {
    var f := FixedLit();
    forall l: nat
      ensures Total(f, l) == FixedCount(l, 288)
    {
      FixedCounts(l, 288);
    }
    hide FixedLit, Total;
    NothingUsed(f, 6);
    UsedStep(f, 6);
    UsedStep(f, 7);
    UsedStep(f, 8);
    SmallPowers();
    LargePowers();
    hide Used, Pow2;
  }

  lemma {:induction false} NothingUsed(lengths: seq<nat>, l: nat)
    requires forall k: nat :: 1 <= k <= l ==> Total(lengths, k) == 0
    ensures Used(lengths, l) == 0
  {
    if l > 0 {
      NothingUsed(lengths, l - 1);
    }
  }

  lemma UsedStep(lengths: seq<nat>, l: nat)
    ensures Used(lengths, l + 1) == 2 * Used(lengths, l) + Total(lengths, l + 1)
  {
  }

  lemma {:induction false} FullFrom(lengths: seq<nat>, m: nat, l: nat)
    requires m <= l && Used(lengths, m) <= Pow2(m)
    requires forall k: nat :: m < k <= l ==> Total(lengths, k) == 0
    ensures Used(lengths, l) <= Pow2(l)
    decreases l
  {
    if m < l {
      FullFrom(lengths, m, l - 1);
    }
  }

  /** The fixed literal/length code fills the code space: it is a prefix code with nothing left over. */
  lemma FixedLitKraft()
    ensures Kraft(FixedLit())
  {
    hide FixedLit, Used, Pow2, Count;
    FixedUsed();
    forall k: nat | 9 < k <= 15
      ensures Total(FixedLit(), k) == 0
    {
      FixedCounts(k, 288);
    }
    FullFrom(FixedLit(), 9, 15);
  }

  // ---------- The distance code ----------

  lemma {:induction false} FixedDistCounts(l: nat, n: nat)
    requires n <= 30
    ensures Count(FixedDist(), l, n) == if l == 5 then n else 0
  {
    if n > 0 {
      FixedDistCounts(l, n - 1);
    }
  }

  /** Distance codes are their symbols as five-bit numbers. */
  lemma FixedDistCodes(d: nat)
    requires d < 30
    ensures HasCode(FixedDist(), d) && CodeOf(FixedDist(), d) == d
  {
    FixedDistKraft();
    CodeFits(FixedDist(), d);
    FixedDistCounts(5, d);
    assert FixedDist()[d] == 5;
    hide FixedDist, Total, Count, Pow2, Kraft;
  }

  lemma FixedDistKraft()
    ensures Kraft(FixedDist()) && FirstCode(FixedDist(), 5) == 0
  {
    var f := FixedDist();
    forall l: nat
      ensures Total(f, l) == if l == 5 then 30 else 0
    {
      FixedDistCounts(l, 30);
    }
    hide FixedDist, Total, Count;
    assert FirstCode(f, 3) == 0;
    assert FirstCode(f, 5) == 0;
    SmallPowers();
    NothingUsed(f, 4);
    UsedStep(f, 4);
    hide Used;
    FullFrom(f, 5, 15);
  }

  /** The fixed distance code has no codewords for symbols 30 and 31: in a fixed block such a code is never
      decoded, so no invalid distance symbol is ever reported there. */
  lemma FixedDistInRange(bits: seq<Bit>)
    requires Decode(FixedDist(), bits).Got?
    ensures var d := Decode(FixedDist(), bits).value;
            d < 30 && bits == CodeBits(d, 5) + Decode(FixedDist(), bits).rest
  {
    DecodeSound(FixedDist(), bits);
    hide Decode, CodeBits, CodeOf;
    FixedDistCodes(Decode(FixedDist(), bits).value);
  }

  /** Every token can be written with the fixed codes. */
  lemma FixedCodesOk(tokens: seq<Token>, out: seq<Byte>)
    requires TokensOk(tokens, out)
    ensures var codes := Codes(FixedLit(), FixedDist());
            CodesOk(codes) && TokensCoded(codes, tokens)
  {
    hide FixedLit, FixedDist, HasCode, Pow2, CodeOf, TokenOk, Apply, TokensOk;
    FixedCodes(256);
    var codes := Codes(FixedLit(), FixedDist());
    forall i | 0 <= i < |tokens|
      ensures TokenCoded(codes, tokens[i])
    {
      TokenInAlphabet(tokens, out, i);
      match tokens[i]
      case Literal(b) => FixedCodes(b);
      case Copy(s, _, d, _) =>
        FixedCodes(257 + s);
        FixedDistCodes(d);
    }
  }

  lemma {:induction false} TokenInAlphabet(tokens: seq<Token>, out: seq<Byte>, i: nat)
    requires TokensOk(tokens, out) && i < |tokens|
    ensures tokens[i].Copy? ==> tokens[i].s < 29 && tokens[i].d < 30
  {
    if i > 0 {
      TokenInAlphabet(tokens[1..], Apply(tokens[0], out), i - 1);
    }
  }

  // ---------- The alphabets ----------

  /** Extra bits grow by one every four length symbols and every two distance symbols. */
  lemma ExtraBitsPattern()
    ensures |LEN_EXTRA| == 29 && |DIST_EXTRA| == 30
    ensures forall s :: 0 <= s < 29 ==> LEN_EXTRA[s] == if s < 8 || s == 28 then 0 else (s - 4) / 4
    ensures forall d :: 0 <= d < 30 ==> DIST_EXTRA[d] == if d < 4 then 0 else d / 2 - 1
  {
  }

  /** Each length symbol takes over exactly where the one before it ends, except that the last stands for
      258 alone, which the one before it reaches too. */
  lemma LengthsContiguous(s: nat)
    requires s < 28
    ensures LEN_BASE[s + 1] == LEN_BASE[s] + Pow2(LEN_EXTRA[s]) - if s == 27 then 1 else 0
  {
    if s < 14 {
      ShortLengths(s);
    } else {
      LongLengths(s);
    }
  }

  lemma ShortLengths(s: nat)
    requires s < 14
    ensures LEN_BASE[s + 1] == LEN_BASE[s] + Pow2(LEN_EXTRA[s])
  {
    SmallPowers();
    hide Pow2;
  }

  lemma LongLengths(s: nat)
    requires 14 <= s < 28
    ensures LEN_BASE[s + 1] == LEN_BASE[s] + Pow2(LEN_EXTRA[s]) - if s == 27 then 1 else 0
  {
    SmallPowers();
    hide Pow2;
  }

  lemma ShortDistances(d: nat)
    requires d < 16
    ensures DIST_BASE[d + 1] == DIST_BASE[d] + Pow2(DIST_EXTRA[d])
  {
    SmallPowers();
  }

  lemma LongDistances(d: nat)
    requires 16 <= d < 29
    ensures DIST_BASE[d + 1] == DIST_BASE[d] + Pow2(DIST_EXTRA[d])
  {
    SmallPowers();
    LargePowers();
    hide Pow2;
  }

  /** Each distance symbol takes over exactly where the one before it ends. */
  lemma DistancesContiguous(d: nat)
    requires d < 29
    ensures DIST_BASE[d + 1] == DIST_BASE[d] + Pow2(DIST_EXTRA[d])
  {
    if d < 16 {
      ShortDistances(d);
    } else {
      LongDistances(d);
    }
  }

  lemma LargePowers()
    ensures Pow2(9) == 512 && Pow2(10) == 1024 && Pow2(11) == 2048 && Pow2(12) == 4096 && Pow2(13) == 8192
  {
    SmallPowers();
    assert Pow2(9) == 512;
    assert Pow2(11) == 2048;
  }

  /** Ranges of an alphabet that leave no gap from `lo` on. */
  ghost predicate Contiguous(base: seq<nat>, extra: seq<nat>, lo: nat) {
    && |base| == |extra| > 0 && base[0] == lo
    && forall s :: 0 <= s && s + 1 < |base| ==> base[s + 1] <= base[s] + Pow2(extra[s])
  }

  /** The symbol, at most `s`, whose range holds `v`. */
  ghost function SymbolFor(base: seq<nat>, extra: seq<nat>, lo: nat, v: nat, s: nat): (r: nat)
    requires Contiguous(base, extra, lo) && s < |base| && lo <= v < base[s] + Pow2(extra[s])
    ensures r <= s && base[r] <= v < base[r] + Pow2(extra[r])
  {
    if base[s] <= v then s else SymbolFor(base, extra, lo, v, s - 1)
  }

  lemma AlphabetsContiguous()
    ensures Contiguous(LEN_BASE, LEN_EXTRA, 3) && Contiguous(DIST_BASE, DIST_EXTRA, 1)
  {
    LastSymbols();
    hide LEN_BASE, LEN_EXTRA, DIST_BASE, DIST_EXTRA, Pow2;
    forall s | 0 <= s && s + 1 < |LEN_BASE|
      ensures LEN_BASE[s + 1] <= LEN_BASE[s] + Pow2(LEN_EXTRA[s])
    {
      LengthsContiguous(s);
    }
    forall d | 0 <= d && d + 1 < |DIST_BASE|
      ensures DIST_BASE[d + 1] <= DIST_BASE[d] + Pow2(DIST_EXTRA[d])
    {
      DistancesContiguous(d);
    }
  }

  /** The token for a match. */
  ghost function MatchToken(length: nat, distance: nat): Token
    requires 3 <= length <= 258 && 1 <= distance <= 32768
  {
    LastSymbols();
    AlphabetsContiguous();
    var s := SymbolFor(LEN_BASE, LEN_EXTRA, 3, length, 28);
    var d := SymbolFor(DIST_BASE, DIST_EXTRA, 1, distance, 29);
    Copy(s, length - LEN_BASE[s], d, distance - DIST_BASE[d])
  }

  lemma LastSymbols()
    ensures |LEN_BASE| == 29 && |LEN_EXTRA| == 29 && |DIST_BASE| == 30 && |DIST_EXTRA| == 30
    ensures LEN_BASE[0] == 3 && DIST_BASE[0] == 1
    ensures LEN_BASE[28] == 258 && LEN_EXTRA[28] == 0 && DIST_BASE[29] == 24577 && DIST_EXTRA[29] == 13
    ensures Pow2(0) == 1 && Pow2(13) == 8192
  {
    LargePowers();
  }

  /** The token's symbols and extra bits add up to the match. */
  lemma TokenFor(length: nat, distance: nat)
    requires 3 <= length <= 258 && 1 <= distance <= 32768
    ensures |LEN_BASE| == 29 && |LEN_EXTRA| == 29 && |DIST_BASE| == 30 && |DIST_EXTRA| == 30
    ensures var t := MatchToken(length, distance);
            && t.Copy? && t.s < 29 && t.d < 30
            && LEN_BASE[t.s] + t.le == length && t.le < Pow2(LEN_EXTRA[t.s])
            && DIST_BASE[t.d] + t.de == distance && t.de < Pow2(DIST_EXTRA[t.d])
  {
    hide LEN_BASE, LEN_EXTRA, DIST_BASE, DIST_EXTRA, SymbolFor, Pow2, Contiguous;
    LastSymbols();
    AlphabetsContiguous();
  }

  /** Every length from 3 to 258 and every distance from 1 to 32768 has a token, and it means that match. */
  lemma EveryMatchHasToken(out: seq<Byte>, length: nat, distance: nat)
    requires 3 <= length <= 258 && 1 <= distance <= 32768 && distance <= |out|
    ensures TokenOk(MatchToken(length, distance), out)
    ensures Apply(MatchToken(length, distance), out) == CopyMatch(out, distance, length)
  {
    hide LEN_BASE, LEN_EXTRA, DIST_BASE, DIST_EXTRA, CopyMatch, Pow2, MatchToken;
    TokenFor(length, distance);
    assert TokenOk(MatchToken(length, distance), out);
  }
}
