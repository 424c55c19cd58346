/**
 * Canonical Huffman codes, section 3.2.2 of RFC 1951: the tables built from code lengths, and the
 * decoder that reads a codeword bit by bit.
 */
module PngHuffman {
  import opened Bytes
  import opened PngBits

  const MAX_BITS := 15

  /** Code lengths of the symbols; 0 for a symbol without a code. */
  ghost predicate Lengths(lengths: seq<nat>) {
    |lengths| <= 0xFFFF && forall i :: 0 <= i < |lengths| ==> lengths[i] <= MAX_BITS
  }

  // ---------- The code of the standard ----------

  /** How many of the first `n` symbols have length `l`. */
  function Count(lengths: seq<nat>, l: nat, n: nat): (r: nat)
    requires n <= |lengths|
    ensures r <= n
  {
    if n == 0 then 0 else Count(lengths, l, n - 1) + if lengths[n - 1] == l then 1 else 0
  }

  function Total(lengths: seq<nat>, l: nat): nat {
    Count(lengths, l, |lengths|)
  }

  /** The first code of length `l`, for l >= 1. */
  function FirstCode(lengths: seq<nat>, l: nat): nat
    requires 1 <= l
  {
    if l == 1 then 0 else 2 * (FirstCode(lengths, l - 1) + Total(lengths, l - 1))
  }

  /** The code of a symbol: consecutive values among the symbols of its length, in symbol order. */
  function CodeOf(lengths: seq<nat>, s: nat): nat
    requires s < |lengths| && lengths[s] >= 1
  {
    FirstCode(lengths, lengths[s]) + Count(lengths, lengths[s], s)
  }

  /** A code as bits, the most significant first. */
  function CodeBits(code: nat, l: nat): (r: seq<Bit>)
    ensures |r| == l
  {
    if l == 0 then [] else CodeBits(code / 2, l - 1) + [code % 2]
  }

  /** The code space used by lengths up to `l`, in units of 2^-l. */
  function Used(lengths: seq<nat>, l: nat): nat {
    if l == 0 then 0 else 2 * Used(lengths, l - 1) + Total(lengths, l)
  }

  /** The Kraft inequality. */
  predicate Kraft(lengths: seq<nat>) {
    Used(lengths, MAX_BITS) <= Pow2(MAX_BITS)
  }

  lemma {:induction false} UsedIsCodes(lengths: seq<nat>, l: nat)
    requires 1 <= l
    ensures Used(lengths, l) == FirstCode(lengths, l) + Total(lengths, l)
  {
    if l > 1 {
      UsedIsCodes(lengths, l - 1);
    }
  }

  /** Under the Kraft inequality no length overflows its share of the code space. */
  lemma {:induction false} UsedFits(lengths: seq<nat>, l: nat)
    requires l <= MAX_BITS && Kraft(lengths)
    ensures Used(lengths, l) <= Pow2(l)
    decreases MAX_BITS - l
  {
    if l < MAX_BITS {
      UsedFits(lengths, l + 1);
    }
  }

  lemma {:induction false} CountGrows(lengths: seq<nat>, l: nat, m: nat, n: nat)
    requires m <= n <= |lengths|
    ensures Count(lengths, l, m) <= Count(lengths, l, n)
    ensures m < n && lengths[m] == l ==> Count(lengths, l, m) < Count(lengths, l, n)
  {
    if m < n {
      if m + 1 < n {
        CountGrows(lengths, l, m, n - 1);
      }
    }
  }

  /** The symbol has a codeword: its code fits in its length. In an over-subscribed code some do not. */
  ghost predicate HasCode(lengths: seq<nat>, s: nat) {
    s < |lengths| && lengths[s] >= 1 && CodeOf(lengths, s) < Pow2(lengths[s])
  }

  /** The codeword of a symbol: its code, the most significant bit first. */
  function Codeword(lengths: seq<nat>, s: nat): seq<Bit>
    requires s < |lengths| && lengths[s] >= 1
  {
    CodeBits(CodeOf(lengths, s), lengths[s])
  }

  /** Under the Kraft inequality every code fits in its length. */
  lemma CodeFits(lengths: seq<nat>, s: nat)
    requires Lengths(lengths) && Kraft(lengths) && s < |lengths| && lengths[s] >= 1
    ensures HasCode(lengths, s)
  {
    var l := lengths[s];
    UsedFits(lengths, l);
    UsedIsCodes(lengths, l);
    CountGrows(lengths, l, s, |lengths|);
  }

  // ---------- The table ----------

  datatype Table = Table(counts: seq<nat>, symbols: seq<nat>)

  /** The first `n` symbols that have length `l`, in order. */
  function SymbolsOf(lengths: seq<nat>, l: nat, n: nat): (r: seq<nat>)
    requires n <= |lengths|
    ensures |r| == Count(lengths, l, n)
  {
    if n == 0 then []
    else SymbolsOf(lengths, l, n - 1) + if lengths[n - 1] == l then [n - 1] else []
  }

  /** The symbols with lengths 1 to `l`, by length, then in order. */
  function SymbolsUpTo(lengths: seq<nat>, l: nat): (r: seq<nat>)
    ensures |r| == Offset(lengths, l + 1)
  {
    if l == 0 then [] else SymbolsUpTo(lengths, l - 1) + SymbolsOf(lengths, l, |lengths|)
  }

  /** Where the symbols of length `l` start. */
  function Offset(lengths: seq<nat>, l: nat): nat {
    if l <= 1 then 0 else Offset(lengths, l - 1) + Total(lengths, l - 1)
  }

  function CountsOf(lengths: seq<nat>): (r: seq<nat>)
    ensures |r| == 16 && r[0] == 0 && forall l :: 1 <= l < 16 ==> r[l] == Total(lengths, l)
  {
    seq(16, l requires 0 <= l < 16 => if l == 0 then 0 else Total(lengths, l))
  }

  function TableOf(lengths: seq<nat>): Table {
    Table(CountsOf(lengths), SymbolsUpTo(lengths, MAX_BITS))
  }

  lemma {:induction false} SymbolAtRank(lengths: seq<nat>, l: nat, n: nat, s: nat)
    requires s < n <= |lengths| && lengths[s] == l
    ensures Count(lengths, l, s) < Count(lengths, l, n)
    ensures SymbolsOf(lengths, l, n)[Count(lengths, l, s)] == s
  {
    CountGrows(lengths, l, s, n);
    if s < n - 1 {
      SymbolAtRank(lengths, l, n - 1, s);
    }
  }

  lemma {:induction false} OffsetGrows(lengths: seq<nat>, l: nat, m: nat)
    requires l <= m
    ensures Offset(lengths, l) <= Offset(lengths, m)
    decreases m
  {
    if l < m {
      OffsetGrows(lengths, l, m - 1);
    }
  }

  lemma {:induction false} SymbolAtOffset(lengths: seq<nat>, l: nat, m: nat, j: nat)
    requires 1 <= l <= m && j < Total(lengths, l)
    ensures Offset(lengths, l) + j < Offset(lengths, m + 1)
    ensures SymbolsUpTo(lengths, m)[Offset(lengths, l) + j] == SymbolsOf(lengths, l, |lengths|)[j]
    decreases m
  {
    OffsetGrows(lengths, l + 1, m + 1);
    if l < m {
      SymbolAtOffset(lengths, l, m - 1, j);
    }
  }

  /** The table entry that a symbol's code selects is the symbol. */
  lemma TableEntry(lengths: seq<nat>, s: nat)
    requires Lengths(lengths) && s < |lengths| && lengths[s] >= 1
    ensures var j := Offset(lengths, lengths[s]) + Count(lengths, lengths[s], s);
            j < |TableOf(lengths).symbols| && TableOf(lengths).symbols[j] == s
  {
    hide Count, Offset, SymbolsOf, SymbolsUpTo, Lengths;
    LengthBounds(lengths, s);
    SymbolAtRank(lengths, lengths[s], |lengths|, s);
    SymbolAtOffset(lengths, lengths[s], MAX_BITS, Count(lengths, lengths[s], s));
  }

  lemma LengthBounds(lengths: seq<nat>, s: nat)
    requires Lengths(lengths) && s < |lengths|
    ensures lengths[s] <= MAX_BITS
  {
  }

  // ---------- Decoding ----------

  datatype InflateError =
    | UnexpectedEnd
    | InvalidCode
    | InvalidLengthSymbol
    | InvalidDistanceSymbol
    | DistanceTooFar
    | RepeatWithoutLength
    | RepeatOverflow
    | ZeroRepeatOverflow
    | InvalidCodeLengthSymbol
    | LengthMismatch
    | InvalidBlockType
    | TooLarge

  /** A value read from the front of a bit sequence, and the bits after it. */
  datatype Read<T> = Got(value: T, rest: seq<Bit>) | Failed(error: InflateError)

  /** Reads on at code length `l`, where the bits so far, doubled, are `code`. The requirement on
      `code` is kept by every step, so the symbol table is never indexed outside its bounds. */
  function DecodeAt(lengths: seq<nat>, bits: seq<Bit>, l: nat, code: nat): (r: Read<nat>)
    requires 1 <= l <= 16 && FirstCode(lengths, l) <= code
    ensures r.Got? ==> |r.rest| < |bits|
    decreases 16 - l
  {
    if l == 16 then Failed(InvalidCode)
    else if bits == [] then Failed(UnexpectedEnd)
    else
      var c := code + bits[0];
      var j := c - FirstCode(lengths, l);
      if j < Total(lengths, l) then
        SymbolAtOffset(lengths, l, MAX_BITS, j);
        Got(TableOf(lengths).symbols[Offset(lengths, l) + j], bits[1..])
      else DecodeAt(lengths, bits[1..], l + 1, 2 * c)
  }

  function Decode(lengths: seq<nat>, bits: seq<Bit>): (r: Read<nat>)
    ensures r.Got? ==> |r.rest| < |bits|
  {
    DecodeAt(lengths, bits, 1, 0)
  }

  lemma {:induction false} ShiftRightStep(v: nat, n: nat)
    ensures ShiftRight(v, n + 1) == ShiftRight(v, n) / 2
  {
    if n > 0 {
      ShiftRightStep(v / 2, n - 1);
    }
  }

  lemma {:induction false} ShiftRightAll(v: nat, n: nat)
    requires v < Pow2(n)
    ensures ShiftRight(v, n) == 0
  {
    if n > 0 {
      ShiftRightAll(v / 2, n - 1);
    }
  }

  lemma {:induction false} CodeBit(code: nat, l: nat, k: nat)
    requires k < l
    ensures CodeBits(code, l)[k] == ShiftRight(code, l - k - 1) % 2
  {
    if k < l - 1 {
      CodeBit(code / 2, l - 1, k);
    }
  }

  /** Every proper prefix of a codeword lies beyond the codes of its length. */
  lemma {:induction false} PrefixBeyond(lengths: seq<nat>, code: nat, l: nat, k: nat)
    requires 1 <= k <= l && FirstCode(lengths, l) <= code
    ensures FirstCode(lengths, k) <= ShiftRight(code, l - k)
    ensures k < l ==> FirstCode(lengths, k) + Total(lengths, k) <= ShiftRight(code, l - k)
    decreases l - k
  {
    if k < l {
      PrefixBeyond(lengths, code, l, k + 1);
      ShiftRightStep(code, l - k - 1);
    }
  }

  /** The next bit of a codeword extends its prefix; short of the end the prefix matches no code, and
      at the end it matches the symbol's. */
  lemma PrefixTurn(lengths: seq<nat>, s: nat, k: nat)
    requires Lengths(lengths) && s < |lengths| && 1 <= k <= lengths[s]
    ensures var l, code := lengths[s], CodeOf(lengths, s);
            var c := ShiftRight(code, l - k);
            && FirstCode(lengths, k) <= 2 * ShiftRight(code, l - k + 1)
            && c == 2 * ShiftRight(code, l - k + 1) + CodeBits(code, l)[k - 1]
            && FirstCode(lengths, k) <= c
            && (if k < l then Total(lengths, k) <= c - FirstCode(lengths, k)
                else c - FirstCode(lengths, k) == Count(lengths, l, s) < Total(lengths, l))
  {
    var l, code := lengths[s], CodeOf(lengths, s);
    ShiftRightStep(code, l - k);
    CodeBit(code, l, k - 1);
    PrefixBeyond(lengths, code, l, k);
    if k > 1 {
      PrefixBeyond(lengths, code, l, k - 1);
    }
    SymbolAtRank(lengths, l, |lengths|, s);
    assert ShiftRight(code, 0) == code;
    hide CodeBits, Count, SymbolsOf;
  }

  lemma {:induction false} DecodeFromPrefix(lengths: seq<nat>, s: nat, rest: seq<Bit>, k: nat)
    requires Lengths(lengths) && s < |lengths| && 1 <= k <= lengths[s]
    ensures var l, code := lengths[s], CodeOf(lengths, s);
            && FirstCode(lengths, k) <= 2 * ShiftRight(code, l - k + 1)
            && DecodeAt(lengths, CodeBits(code, l)[k - 1..] + rest, k, 2 * ShiftRight(code, l - k + 1)) == Got(s, rest)
    decreases lengths[s] - k
  {
    hide CodeBits, CodeOf, Total, SymbolsUpTo, ShiftRight, FirstCode, Offset, DecodeAt;
    var l, code := lengths[s], CodeOf(lengths, s);
    var bits := CodeBits(code, l)[k - 1..] + rest;
    PrefixTurn(lengths, s, k);
    DecodeTurn(lengths, bits, k, 2 * ShiftRight(code, l - k + 1));
    if k < l {
      assert bits[1..] == CodeBits(code, l)[k..] + rest;
      DecodeFromPrefix(lengths, s, rest, k + 1);
    } else {
      assert bits[1..] == rest;
      TableEntry(lengths, s);
    }
  }

  /** Decoding the codeword of a symbol gives the symbol and consumes exactly the codeword, for every list
      of lengths, over-subscribed ones included, in which the symbol's code fits its length. */
  lemma DecodeCodeword(lengths: seq<nat>, s: nat, rest: seq<Bit>)
    requires Lengths(lengths) && HasCode(lengths, s)
    ensures Decode(lengths, Codeword(lengths, s) + rest) == Got(s, rest)
  {
    hide DecodeAt, CodeBits, CodeOf, ShiftRight, Pow2;
    ShiftRightAll(CodeOf(lengths, s), lengths[s]);
    DecodeFromPrefix(lengths, s, rest, 1);
    assert Codeword(lengths, s)[0..] == Codeword(lengths, s);
  }

  /** The symbol at a rank has that rank among the symbols of its length. */
  lemma {:induction false} RankedSymbol(lengths: seq<nat>, l: nat, n: nat, j: nat)
    requires n <= |lengths| && j < Count(lengths, l, n)
    ensures var s := SymbolsOf(lengths, l, n)[j];
            s < n && lengths[s] == l && Count(lengths, l, s) == j
  {
    if j < Count(lengths, l, n - 1) {
      RankedSymbol(lengths, l, n - 1, j);
    }
  }

  /** A table entry in the region of length `l` belongs to the symbol with that code. */
  lemma EntrySymbol(lengths: seq<nat>, l: nat, j: nat)
    requires 1 <= l <= MAX_BITS && j < Total(lengths, l)
    ensures Offset(lengths, l) + j < |TableOf(lengths).symbols|
    ensures var s := TableOf(lengths).symbols[Offset(lengths, l) + j];
            s < |lengths| && lengths[s] == l && CodeOf(lengths, s) == FirstCode(lengths, l) + j
  {
    hide SymbolsUpTo, Offset, FirstCode, SymbolsOf;
    SymbolAtOffset(lengths, l, MAX_BITS, j);
    RankedSymbol(lengths, l, |lengths|, j);
  }

  lemma NextBits(m: nat, l: nat, b: Bit)
    requires l >= 1
    ensures CodeBits(2 * m + b, l) == CodeBits(m, l - 1) + [b]
    ensures m < Pow2(l - 1) ==> 2 * m + b < Pow2(l)
  {
  }

  /** A code found in the table is that of the symbol found, which so has a codeword. */
  lemma HitSound(lengths: seq<nat>, l: nat, m: nat, b: Bit)
    requires 1 <= l <= MAX_BITS && m < Pow2(l - 1)
    requires 0 <= 2 * m + b - FirstCode(lengths, l) < Total(lengths, l)
    ensures Offset(lengths, l) + (2 * m + b - FirstCode(lengths, l)) < |TableOf(lengths).symbols|
    ensures var s := TableOf(lengths).symbols[Offset(lengths, l) + (2 * m + b - FirstCode(lengths, l))];
            HasCode(lengths, s) && lengths[s] == l && CodeBits(m, l - 1) + [b] == Codeword(lengths, s)
  {
    hide Total, FirstCode, Offset, CodeOf, CodeBits, TableOf, Pow2;
    NextBits(m, l, b);
    EntrySymbol(lengths, l, 2 * m + b - FirstCode(lengths, l));
  }

  lemma MoveBit(a: seq<Bit>, bits: seq<Bit>)
    requires bits != []
    ensures a + bits == (a + [bits[0]]) + bits[1..]
  {
  }

  lemma TurnHit(lengths: seq<nat>, bits: seq<Bit>, l: nat, code: nat)
    requires 1 <= l < 16 && FirstCode(lengths, l) <= code && bits != []
    requires code + bits[0] - FirstCode(lengths, l) < Total(lengths, l)
    ensures var at := Offset(lengths, l) + (code + bits[0] - FirstCode(lengths, l));
            && at < |TableOf(lengths).symbols|
            && DecodeAt(lengths, bits, l, code) == Got(TableOf(lengths).symbols[at], bits[1..])
  {
    hide FirstCode, Total, Offset, TableOf, DecodeAt;
    DecodeTurn(lengths, bits, l, code);
  }

  lemma TurnMiss(lengths: seq<nat>, bits: seq<Bit>, l: nat, code: nat)
    requires 1 <= l < 16 && FirstCode(lengths, l) <= code && bits != []
    requires code + bits[0] - FirstCode(lengths, l) >= Total(lengths, l)
    ensures FirstCode(lengths, l + 1) <= 2 * (code + bits[0])
    ensures DecodeAt(lengths, bits, l, code) == DecodeAt(lengths, bits[1..], l + 1, 2 * (code + bits[0]))
  {
    hide FirstCode, Total, Offset, TableOf, DecodeAt;
    DecodeTurn(lengths, bits, l, code);
  }

  /** What is decoded after the bits of `m` ends the codeword of the symbol returned. */
  ghost predicate SoundAt(lengths: seq<nat>, bits: seq<Bit>, l: nat, m: nat)
    requires 1 <= l <= 16 && FirstCode(lengths, l) <= 2 * m
  {
    match DecodeAt(lengths, bits, l, 2 * m)
    case Failed(_) => true
    case Got(s, rest) => HasCode(lengths, s) && CodeBits(m, l - 1) + bits == Codeword(lengths, s) + rest
  }

  lemma SoundHit(lengths: seq<nat>, bits: seq<Bit>, l: nat, m: nat)
    requires 1 <= l < 16 && FirstCode(lengths, l) <= 2 * m && m < Pow2(l - 1) && bits != []
    requires 2 * m + bits[0] - FirstCode(lengths, l) < Total(lengths, l)
    ensures SoundAt(lengths, bits, l, m)
  {
    hide Total, FirstCode, Offset, HasCode, Codeword, CodeBits, TableOf, DecodeAt, Pow2;
    MoveBit(CodeBits(m, l - 1), bits);
    TurnHit(lengths, bits, l, 2 * m);
    HitSound(lengths, l, m, bits[0]);
  }

  lemma SoundMiss(lengths: seq<nat>, bits: seq<Bit>, l: nat, m: nat)
    requires 1 <= l < 16 && FirstCode(lengths, l) <= 2 * m && bits != []
    requires 2 * m + bits[0] - FirstCode(lengths, l) >= Total(lengths, l)
    requires FirstCode(lengths, l + 1) <= 2 * (2 * m + bits[0]) && SoundAt(lengths, bits[1..], l + 1, 2 * m + bits[0])
    ensures SoundAt(lengths, bits, l, m)
  {
    hide Total, FirstCode, HasCode, Codeword, CodeBits, DecodeAt;
    MoveBit(CodeBits(m, l - 1), bits);
    NextBits(m, l, bits[0]);
    TurnMiss(lengths, bits, l, 2 * m);
  }

  /** Whatever is decoded, over-subscribed codes included, starts with the codeword of the symbol. */
  lemma {:induction false} DecodeAtSound(lengths: seq<nat>, bits: seq<Bit>, l: nat, m: nat)
    requires 1 <= l <= 16 && FirstCode(lengths, l) <= 2 * m && m < Pow2(l - 1)
    ensures SoundAt(lengths, bits, l, m)
    decreases 16 - l
  {
    if l < 16 && bits != [] {
      hide Total, FirstCode, SoundAt, Pow2, CodeBits;
      if 2 * m + bits[0] - FirstCode(lengths, l) < Total(lengths, l) {
        SoundHit(lengths, bits, l, m);
      } else {
        TurnMiss(lengths, bits, l, 2 * m);
        NextBits(m, l, bits[0]);
        DecodeAtSound(lengths, bits[1..], l + 1, 2 * m + bits[0]);
        SoundMiss(lengths, bits, l, m);
      }
    }
  }

  lemma DecodeSound(lengths: seq<nat>, bits: seq<Bit>)
    requires Decode(lengths, bits).Got?
    ensures var s, rest := Decode(lengths, bits).value, Decode(lengths, bits).rest;
            HasCode(lengths, s) && bits == Codeword(lengths, s) + rest
  {
    DecodeAtSound(lengths, bits, 1, 0);
    assert CodeBits(0, 0) + bits == bits;
  }

  /** Decoding returns a symbol exactly when the bits start with its codeword, for any lengths. */
  lemma DecodeExactly(lengths: seq<nat>, bits: seq<Bit>, s: nat, rest: seq<Bit>)
    requires Lengths(lengths)
    ensures Decode(lengths, bits) == Got(s, rest) <==> HasCode(lengths, s) && bits == Codeword(lengths, s) + rest
  {
    hide Decode, CodeOf, Codeword, Lengths;
    if HasCode(lengths, s) && bits == Codeword(lengths, s) + rest {
      DecodeCodeword(lengths, s, rest);
    }
    if Decode(lengths, bits) == Got(s, rest) {
      DecodeSound(lengths, bits);
    }
  }

  /** No codeword starts another, for any lengths. */
  lemma PrefixFree(lengths: seq<nat>, s: nat, t: nat)
    requires Lengths(lengths) && HasCode(lengths, s) && HasCode(lengths, t)
    requires Codeword(lengths, s) <= Codeword(lengths, t)
    ensures s == t
  {
    hide Decode, CodeOf, Codeword, Lengths;
    var a, b := Codeword(lengths, s), Codeword(lengths, t);
    assert b == a + b[|a|..] && b == b + [];
    DecodeCodeword(lengths, s, b[|a|..]);
    DecodeCodeword(lengths, t, []);
  }

  ghost predicate AllHaveCodes(lengths: seq<nat>) {
    forall s :: 0 <= s < |lengths| && lengths[s] >= 1 ==> HasCode(lengths, s)
  }

  /** If every code fits, no length overflows its share of the code space. */
  lemma {:induction false} FitsUsed(lengths: seq<nat>, l: nat)
    requires AllHaveCodes(lengths)
    ensures Used(lengths, l) <= Pow2(l)
  {
    if l > 0 {
      FitsUsed(lengths, l - 1);
      if Total(lengths, l) > 0 {
        UsedIsCodes(lengths, l);
        RankedSymbol(lengths, l, |lengths|, Total(lengths, l) - 1);
        assert HasCode(lengths, SymbolsOf(lengths, l, |lengths|)[Total(lengths, l) - 1]);
      }
    }
  }

  /** The Kraft inequality is exactly the condition under which every symbol has a codeword, and so under
      which every symbol can be decoded. */
  lemma KraftExactly(lengths: seq<nat>)
    requires Lengths(lengths)
    ensures Kraft(lengths) <==> AllHaveCodes(lengths)
  {
    if Kraft(lengths) {
      forall s | 0 <= s < |lengths| && lengths[s] >= 1
        ensures HasCode(lengths, s)
      {
        CodeFits(lengths, s);
      }
    }
    if AllHaveCodes(lengths) {
      FitsUsed(lengths, MAX_BITS);
    }
  }

  // ---------- The table builder and the bit-by-bit decoder ----------

  method CountLengths(lengths: seq<nat>) returns (counts: array<nat>)
    requires Lengths(lengths)
    ensures fresh(counts) && counts.Length == 16 && counts[..] == CountsOf(lengths)
  {
    counts := new nat[16](_ => 0);
    for i := 0 to |lengths|
      invariant forall l :: 0 <= l < 16 ==> counts[l] == Count(lengths, l, i)
    {
      counts[lengths[i]] := counts[lengths[i]] + 1;
    }
    counts[0] := 0;
  }

  method StartOffsets(lengths: seq<nat>, counts: array<nat>) returns (offsets: array<nat>, sum: nat)
    requires counts[..] == CountsOf(lengths)
    ensures fresh(offsets) && offsets.Length == 16 && sum == Offset(lengths, 16)
    ensures forall l :: 1 <= l < 16 ==> offsets[l] == Offset(lengths, l)
  {
    hide Total, Count;
    offsets := new nat[16](_ => 0);
    sum := 0;
    for len := 1 to 16
      invariant sum == Offset(lengths, len)
      invariant forall l :: 1 <= l < len ==> offsets[l] == Offset(lengths, l)
    {
      offsets[len] := sum;
      sum := sum + counts[len];
    }
  }

  /** After the first `n` symbols, the region of length `l` holds its symbols up to a moving offset. */
  ghost predicate Region(lengths: seq<nat>, n: nat, offsets: array<nat>, symbols: array<nat>, l: nat)
    reads offsets, symbols
  {
    && n <= |lengths| && l < offsets.Length
    && offsets[l] == Offset(lengths, l) + Count(lengths, l, n) <= Offset(lengths, l + 1) <= symbols.Length
    && symbols[Offset(lengths, l)..offsets[l]] == SymbolsOf(lengths, l, n)
  }

  ghost predicate Placed(lengths: seq<nat>, n: nat, offsets: array<nat>, symbols: array<nat>)
    reads offsets, symbols
  {
    && offsets.Length == 16 && symbols.Length == Offset(lengths, 16)
    && forall l :: 1 <= l < 16 ==> Region(lengths, n, offsets, symbols, l)
  }

  method BuildTable(lengths: seq<nat>) returns (t: Table)
    requires Lengths(lengths)
    ensures t == TableOf(lengths)
  {
    hide Placed, Count, Offset, CountsOf;
    var counts := CountLengths(lengths);
    var offsets, sum := StartOffsets(lengths, counts);
    var symbols := new nat[sum](_ => 0);
    NothingPlaced(lengths, offsets, symbols);
    for sym := 0 to |lengths|
      invariant Placed(lengths, sym, offsets, symbols) && counts[..] == CountsOf(lengths)
    {
      if lengths[sym] != 0 {
        PlaceSymbol(lengths, sym, offsets, symbols);
      } else {
        SkipSymbol(lengths, sym, offsets, symbols);
      }
    }
    AllPlaced(lengths, offsets, symbols);
    t := Table(counts[..], symbols[..]);
  }

  lemma NothingPlaced(lengths: seq<nat>, offsets: array<nat>, symbols: array<nat>)
    requires offsets.Length == 16 && symbols.Length == Offset(lengths, 16)
    requires forall l :: 1 <= l < 16 ==> offsets[l] == Offset(lengths, l)
    ensures Placed(lengths, 0, offsets, symbols)
  {
    forall l | 1 <= l < 16
      ensures Region(lengths, 0, offsets, symbols, l)
    {
      OffsetGrows(lengths, l, l + 1);
      OffsetGrows(lengths, l + 1, 16);
      hide Offset;
    }
  }

  lemma NextOffset(lengths: seq<nat>, l: nat)
    requires 1 <= l
    ensures Offset(lengths, l + 1) == Offset(lengths, l) + Total(lengths, l)
  {
  }

  lemma MoreOf(lengths: seq<nat>, l: nat, n: nat)
    requires n < |lengths|
    ensures lengths[n] == l ==>
              Count(lengths, l, n + 1) == Count(lengths, l, n) + 1 <= Total(lengths, l)
              && SymbolsOf(lengths, l, n + 1) == SymbolsOf(lengths, l, n) + [n]
    ensures lengths[n] != l ==>
              Count(lengths, l, n + 1) == Count(lengths, l, n)
              && SymbolsOf(lengths, l, n + 1) == SymbolsOf(lengths, l, n)
  {
    CountGrows(lengths, l, n, |lengths|);
  }

  method PlaceSymbol(lengths: seq<nat>, sym: nat, offsets: array<nat>, symbols: array<nat>)
    requires Lengths(lengths) && sym < |lengths| && lengths[sym] != 0 && offsets != symbols
    requires Placed(lengths, sym, offsets, symbols)
    modifies offsets, symbols
    ensures Placed(lengths, sym + 1, offsets, symbols)
  {
    hide Count, Offset, SymbolsOf;
    var len := lengths[sym];
    assert Region(lengths, sym, offsets, symbols, len);
    MoreOf(lengths, len, sym);
    NextOffset(lengths, len);
    var at := offsets[len];
    label Before:
    symbols[at] := sym;
    offsets[len] := at + 1;
    ghost var n := sym + 1;
    forall l | 1 <= l < 16
      ensures Region(lengths, n, offsets, symbols, l)
    {
      assert old@Before(Region(lengths, sym, offsets, symbols, l));
      MoreOf(lengths, l, sym);
      if l < len {
        OffsetGrows(lengths, l + 1, len);
      } else if l > len {
        OffsetGrows(lengths, len + 1, l);
      }
    }
  }

  lemma SkipSymbol(lengths: seq<nat>, sym: nat, offsets: array<nat>, symbols: array<nat>)
    requires sym < |lengths| && lengths[sym] == 0 && Placed(lengths, sym, offsets, symbols)
    ensures Placed(lengths, sym + 1, offsets, symbols)
  {
    hide Count, Offset, SymbolsOf;
    var n := sym + 1;
    forall l | 1 <= l < 16
      ensures Region(lengths, n, offsets, symbols, l)
    {
      assert Region(lengths, sym, offsets, symbols, l);
      MoreOf(lengths, l, sym);
    }
  }

  lemma {:induction false} PlacedUpTo(lengths: seq<nat>, l: nat, offsets: array<nat>, symbols: array<nat>)
    requires Placed(lengths, |lengths|, offsets, symbols) && l <= 15
    ensures Offset(lengths, l + 1) <= symbols.Length && symbols[..Offset(lengths, l + 1)] == SymbolsUpTo(lengths, l)
  {
    hide Count, Offset, SymbolsOf;
    OffsetGrows(lengths, l + 1, 16);
    if l > 0 {
      PlacedUpTo(lengths, l - 1, offsets, symbols);
      assert Region(lengths, |lengths|, offsets, symbols, l);
      NextOffset(lengths, l);
      assert symbols[..Offset(lengths, l + 1)]
             == symbols[..Offset(lengths, l)] + symbols[Offset(lengths, l)..offsets[l]];
    }
  }

  lemma AllPlaced(lengths: seq<nat>, offsets: array<nat>, symbols: array<nat>)
    requires Placed(lengths, |lengths|, offsets, symbols)
    ensures symbols[..] == SymbolsUpTo(lengths, MAX_BITS)
  {
    PlacedUpTo(lengths, MAX_BITS, offsets, symbols);
    assert symbols[..symbols.Length] == symbols[..];
  }

  method GetBit(br: BitReader) returns (r: Option<Bit>)
    requires br.Valid()
    modifies br
    ensures br.Valid()
    ensures r.None? <==> old(br.Unread()) == []
    ensures r.Some? ==> r.value == old(br.Unread())[0] && br.Unread() == old(br.Unread())[1..]
  {
    hide StreamBits;
    ghost var bits := br.Unread();
    var bit := br.GetBits(1);
    if bit.None? {
      return None;
    }
    assert bits[..1][0] == bits[0];
    assert ToBits(bit.value, 1) == [bit.value % 2] + ToBits(bit.value / 2, 0);
    assert Pow2(1) == 2 * Pow2(0);
    r := Some(bit.value);
  }

  /** The arithmetic of one turn of the decoder. */
  lemma NextCode(lengths: seq<nat>, l: nat)
    ensures FirstCode(lengths, 1) == 0 && Offset(lengths, 1) == 0
    ensures l >= 1 ==> FirstCode(lengths, l + 1) == 2 * (FirstCode(lengths, l) + Total(lengths, l))
    ensures l >= 1 ==> Offset(lengths, l + 1) == Offset(lengths, l) + Total(lengths, l)
  {
  }

  /** One turn, as the cases of DecodeAt. */
  lemma DecodeTurn(lengths: seq<nat>, bits: seq<Bit>, l: nat, code: nat)
    requires 1 <= l < 16 && FirstCode(lengths, l) <= code
    ensures bits == [] ==> DecodeAt(lengths, bits, l, code) == Failed(UnexpectedEnd)
    ensures bits != [] ==>
              var c := code + bits[0];
              var j := c - FirstCode(lengths, l);
              && FirstCode(lengths, l + 1) == 2 * (FirstCode(lengths, l) + Total(lengths, l))
              && Offset(lengths, l + 1) == Offset(lengths, l) + Total(lengths, l)
              && if j < Total(lengths, l) then
                   && Offset(lengths, l) + j < |TableOf(lengths).symbols|
                   && DecodeAt(lengths, bits, l, code)
                      == Got(TableOf(lengths).symbols[Offset(lengths, l) + j], bits[1..])
                 else DecodeAt(lengths, bits, l, code) == DecodeAt(lengths, bits[1..], l + 1, 2 * c)
  {
    hide SymbolsUpTo, SymbolsOf, Count;
    if bits != [] && code + bits[0] - FirstCode(lengths, l) < Total(lengths, l) {
      SymbolAtOffset(lengths, l, MAX_BITS, code + bits[0] - FirstCode(lengths, l));
    }
  }

  lemma DecodeBegins(lengths: seq<nat>, bits: seq<Bit>)
    ensures FirstCode(lengths, 1) == 0 && Offset(lengths, 1) == 0
    ensures DecodeAt(lengths, bits, 1, 0) == Decode(lengths, bits)
  {
  }

  lemma CountsRead(lengths: seq<nat>, l: nat)
    requires 1 <= l < 16
    ensures |TableOf(lengths).counts| == 16 && TableOf(lengths).counts[l] == Total(lengths, l)
  {
  }

  /** What an operation on the reader does, against the specification on its unread bits. */
  ghost predicate Outcome<T>(spec: Read<T>, r: Result<T, InflateError>, unread: seq<Bit>) {
    match spec
    case Got(v, rest) => r == Ok(v) && unread == rest
    case Failed(e) => r == Err(e)
  }

  /** One more bit: either the symbol or an error is known, or decoding goes on at the next length. */
  method NextBit(t: Table, br: BitReader, ghost lengths: seq<nat>, len: nat, first: nat, index: nat, code: nat)
    returns (done: bool, r: Result<nat, InflateError>, next: nat)
    requires t == TableOf(lengths) && br.Valid() && 1 <= len < 16
    requires first == FirstCode(lengths, len) <= code && index == Offset(lengths, len)
    modifies br
    ensures br.Valid()
    ensures done ==> Outcome(DecodeAt(lengths, old(br.Unread()), len, code), r, br.Unread())
    ensures !done ==> FirstCode(lengths, len + 1) <= 2 * next
                      && DecodeAt(lengths, old(br.Unread()), len, code)
                         == DecodeAt(lengths, br.Unread(), len + 1, 2 * next)
  {
    hide Total, FirstCode, Offset, DecodeAt, TableOf, BitReader.Unread, BitReader.Valid;
    CountsRead(lengths, len);
    r, next := Err(UnexpectedEnd), code;
    ghost var bits := br.Unread();
    var bit := GetBit(br);
    DecodeTurn(lengths, bits, len, code);
    if bit.None? {
      return true, r, next;
    }
    next := code + bit.value;
    if next - first < t.counts[len] {
      return true, Ok(t.symbols[index + (next - first)]), next;
    }
    done := false;
  }

  /** Reads one symbol: the decoder of the specification, over the bits still unread. */
  method DecodeSymbol(t: Table, br: BitReader, ghost lengths: seq<nat>) returns (r: Result<nat, InflateError>)
    requires t == TableOf(lengths) && br.Valid()
    modifies br
    ensures br.Valid() && Outcome(Decode(lengths, old(br.Unread())), r, br.Unread())
  {
    hide Total, FirstCode, Offset, DecodeAt, Decode, TableOf, Outcome, BitReader.Unread, BitReader.Valid;
    ghost var bits := br.Unread();
    DecodeBegins(lengths, bits);
    var code: nat, first: nat, index: nat := 0, 0, 0;
    for len := 1 to 16
      invariant br.Valid() && first == FirstCode(lengths, len) <= code && index == Offset(lengths, len)
      invariant DecodeAt(lengths, br.Unread(), len, code) == Decode(lengths, bits)
    {
      var done, sym, next := NextBit(t, br, lengths, len, first, index, code);
      if done {
        return sym;
      }
      NextCode(lengths, len);
      CountsRead(lengths, len);
      index := index + t.counts[len];
      first := (first + t.counts[len]) * 2;
      code := next * 2;
    }
    NoCode(lengths, br.Unread(), code);
    r := Err(InvalidCode);
  }

  lemma NoCode(lengths: seq<nat>, bits: seq<Bit>, code: nat)
    requires FirstCode(lengths, 16) <= code
    ensures Outcome(DecodeAt(lengths, bits, 16, code), Err(InvalidCode), bits)
  {
  }
}
