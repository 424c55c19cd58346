/**
 * The header of a dynamic block, section 3.2.7 of RFC 1951: code lengths written as runs under a
 * code of their own, and the lemma that reading it gives the code lengths back.
 */
module PngDynamicCodes {
  import opened PngBits
  import opened PngHuffman
  import opened PngInflate
  import opened PngDeflate

  /** One code-length symbol; `n` is the value of its extra bits. */
  datatype LengthOp = Single(l: nat) | Again(n: nat) | Zeros(n: nat) | ManyZeros(n: nat)

  function OpSymbol(op: LengthOp): nat {
    match op
    case Single(l) => l
    case Again(_) => 16
    case Zeros(_) => 17
    case ManyZeros(_) => 18
  }

  /** The run fits what is still to be described. */
  ghost predicate OpOk(op: LengthOp, acc: seq<nat>, total: nat) {
    match op
    case Single(l) => l <= 15 && |acc| < total
    case Again(n) => n < 4 && acc != [] && |acc| + 3 + n <= total
    case Zeros(n) => n < 8 && |acc| + 3 + n <= total
    case ManyZeros(n) => n < 128 && |acc| + 11 + n <= total
  }

  ghost function Expand(op: LengthOp, acc: seq<nat>): seq<nat>
    requires op.Again? ==> acc != []
  {
    match op
    case Single(l) => acc + [l]
    case Again(n) => acc + Repeat(acc[|acc| - 1], 3 + n)
    case Zeros(n) => acc + Repeat(0, 3 + n)
    case ManyZeros(n) => acc + Repeat(0, 11 + n)
  }

  ghost predicate OpsOk(cl: seq<nat>, ops: seq<LengthOp>, acc: seq<nat>, total: nat)
    decreases |ops|
  {
    if ops == [] then |acc| == total
    else OpOk(ops[0], acc, total) && HasCode(cl, OpSymbol(ops[0])) && OpsOk(cl, ops[1..], Expand(ops[0], acc), total)
  }

  /** The code lengths the runs describe. */
  ghost function ExpandAll(cl: seq<nat>, ops: seq<LengthOp>, acc: seq<nat>, total: nat): (r: seq<nat>)
    requires OpsOk(cl, ops, acc, total)
    ensures |r| == total
    decreases |ops|
  {
    if ops == [] then acc else ExpandAll(cl, ops[1..], Expand(ops[0], acc), total)
  }

  ghost function ExtraBits(op: LengthOp): seq<Bit> {
    match op
    case Single(_) => []
    case Again(n) => ToBits(n, 2)
    case Zeros(n) => ToBits(n, 3)
    case ManyZeros(n) => ToBits(n, 7)
  }

  ghost function OpsBits(cl: seq<nat>, ops: seq<LengthOp>, acc: seq<nat>, total: nat): seq<Bit>
    requires OpsOk(cl, ops, acc, total)
    decreases |ops|
  {
    if ops == [] then []
    else Codeword(cl, OpSymbol(ops[0])) + (ExtraBits(ops[0]) + OpsBits(cl, ops[1..], Expand(ops[0], acc), total))
  }

  lemma RunReads(acc: seq<nat>, x: nat, base: nat, extra: nat, n: nat, total: nat, overflow: InflateError,
      rest: seq<Bit>)
    requires n < Pow2(extra) && |acc| + base + n <= total
    ensures ReadRun(acc, x, base, extra, total, overflow, ToBits(n, extra) + rest)
            == Got(acc + Repeat(x, base + n), rest)
  {
    NumberReads(n, extra, rest);
    hide ReadNumber, ToBits, Pow2, Lengths;
  }

  lemma OpReads(op: LengthOp, acc: seq<nat>, total: nat, rest: seq<Bit>)
    requires Lengths(acc) && OpOk(op, acc, total) && total <= 0xFFFF
    ensures |acc| < total && Lengths(Expand(op, acc))
    ensures ReadLengths(acc, OpSymbol(op), total, ExtraBits(op) + rest) == Got(Expand(op, acc), rest)
  {
    SmallPowers();
    hide Pow2, ReadRun;
    match op
    case Single(l) =>
      assert [] + rest == rest;
    case Again(n) => RunReads(acc, acc[|acc| - 1], 3, 2, n, total, RepeatOverflow, rest);
    case Zeros(n) => RunReads(acc, 0, 3, 3, n, total, ZeroRepeatOverflow, rest);
    case ManyZeros(n) => RunReads(acc, 0, 11, 7, n, total, ZeroRepeatOverflow, rest);
  }

  lemma {:induction false} OpsRead(cl: seq<nat>, ops: seq<LengthOp>, acc: seq<nat>, total: nat, rest: seq<Bit>)
    requires Lengths(cl) && Lengths(acc) && |acc| <= total <= 0xFFFF && OpsOk(cl, ops, acc, total)
    ensures ReadAllLengths(cl, acc, total, OpsBits(cl, ops, acc, total) + rest)
            == Got(ExpandAll(cl, ops, acc, total), rest)
    ensures Lengths(ExpandAll(cl, ops, acc, total))
    decreases |ops|
  {
    hide CodeOf, Pow2, Codeword, Decode, ReadLengths, ExtraBits, Expand, Lengths;
    if ops == [] {
      assert [] + rest == rest;
    } else {
      var op := ops[0];
      var more := OpsBits(cl, ops[1..], Expand(op, acc), total);
      assert OpsBits(cl, ops, acc, total) + rest == Codeword(cl, OpSymbol(op)) + (ExtraBits(op) + (more + rest));
      SymbolReads(cl, OpSymbol(op), ExtraBits(op) + (more + rest));
      OpReads(op, acc, total, more + rest);
      assert |Expand(op, acc)| <= total;
      OpsRead(cl, ops[1..], Expand(op, acc), total, rest);
    }
  }

  // ---------- The code-length code ----------

  /** Three-bit lengths in their transmission order, put at their symbols. */
  ghost function Arrange(cl: seq<nat>, i: nat, clen: seq<nat>): (r: seq<nat>)
    requires |cl| == 19 && Lengths(cl) && i <= |clen| <= 19 && forall k :: 0 <= k < |clen| ==> clen[k] < 8
    ensures |r| == 19 && Lengths(r)
    decreases |clen| - i
  {
    OrderTable();
    if i == |clen| then cl else Arrange(cl[CLEN_ORDER[i] := clen[i]], i + 1, clen)
  }

  ghost function ClenBits(clen: seq<nat>): seq<Bit> {
    if clen == [] then [] else ToBits(clen[0], 3) + ClenBits(clen[1..])
  }

  lemma {:induction false} ClenReads(cl: seq<nat>, i: nat, clen: seq<nat>, rest: seq<Bit>)
    requires |cl| == 19 && Lengths(cl) && i <= |clen| <= 19 && forall k :: 0 <= k < |clen| ==> clen[k] < 8
    ensures ReadCodeLengthCode(cl, i, |clen|, ClenBits(clen[i..]) + rest) == Got(Arrange(cl, i, clen), rest)
    decreases |clen| - i
  {
    hide ReadNumber, CLEN_ORDER, ToBits;
    OrderTable();
    SmallPowers();
    hide Pow2;
    if i == |clen| {
      assert [] + rest == rest;
    } else {
      var more := ClenBits(clen[i + 1..]);
      assert clen[i..][1..] == clen[i + 1..];
      assert ClenBits(clen[i..]) + rest == ToBits(clen[i], 3) + (more + rest);
      NumberReads(clen[i], 3, more + rest);
      ClenReads(cl[CLEN_ORDER[i] := clen[i]], i + 1, clen, rest);
    }
  }

  /** No symbol occurs twice in the transmission order. */
  lemma OrderDistinct(i: nat, k: nat)
    requires i < k < 19 == |CLEN_ORDER|
    ensures CLEN_ORDER[i] != CLEN_ORDER[k]
  {
  }

  /** Each length sent ends up at its symbol; the lengths not sent stay as they were. */
  lemma {:induction false} Arranged(cl: seq<nat>, i: nat, clen: seq<nat>, k: nat)
    requires |cl| == 19 && Lengths(cl) && i <= |clen| <= 19 && forall k :: 0 <= k < |clen| ==> clen[k] < 8
    requires k < 19 == |CLEN_ORDER| && CLEN_ORDER[k] < 19
    ensures Arrange(cl, i, clen)[CLEN_ORDER[k]] == if i <= k < |clen| then clen[k] else cl[CLEN_ORDER[k]]
    decreases |clen| - i
  {
    OrderTable();
    if i < |clen| {
      if k < i {
        OrderDistinct(k, i);
      } else if i < k {
        OrderDistinct(i, k);
      }
      hide CLEN_ORDER;
      Arranged(cl[CLEN_ORDER[i] := clen[i]], i + 1, clen, k);
    }
  }

  // ---------- The header ----------

  datatype Header = Header(nlit: nat, ndist: nat, clen: seq<nat>, ops: seq<LengthOp>)

  ghost predicate ClenOk(h: Header) {
    && 257 <= h.nlit <= 288 && 1 <= h.ndist <= 32 && 4 <= |h.clen| <= 19
    && forall k :: 0 <= k < |h.clen| ==> h.clen[k] < 8
  }

  /** When the length of a symbol is sent, section 3.2.7 of RFC 1951: the three repeat codes first, then 0,
      then the lengths from 8 upwards and from 7 downwards in turn. */
  function WhenSent(s: nat): nat
    requires s < 19
  {
    if s >= 16 then s - 16 else if s == 0 then 3 else if s >= 8 then 2 * (s - 8) + 4 else 2 * (7 - s) + 5
  }

  /** The code lengths of the nineteen symbols: those not sent are 0. */
  ghost function CodeLengthCode(h: Header): (r: seq<nat>)
    requires ClenOk(h)
    ensures |r| == 19 && Lengths(r)
  {
    seq(19, s requires 0 <= s < 19 => if WhenSent(s) < |h.clen| then h.clen[WhenSent(s)] else 0)
  }

  /** The table of the decoder lists the symbols in the order they are sent. */
  lemma OrderIs(s: nat)
    requires s < 19
    ensures WhenSent(s) < |CLEN_ORDER| == 19 && CLEN_ORDER[WhenSent(s)] == s
  {
  }

  lemma ArrangedCode(h: Header)
    requires ClenOk(h)
    ensures Arrange(Repeat(0, 19), 0, h.clen) == CodeLengthCode(h)
  {
    hide Arrange, CLEN_ORDER, WhenSent;
    forall s: nat | s < 19
      ensures Arrange(Repeat(0, 19), 0, h.clen)[s] == CodeLengthCode(h)[s]
    {
      OrderIs(s);
      Arranged(Repeat(0, 19), 0, h.clen, WhenSent(s));
    }
  }

  ghost predicate HeaderOk(h: Header) {
    && ClenOk(h)
    && OpsOk(CodeLengthCode(h), h.ops, [], h.nlit + h.ndist)
  }

  ghost function HeaderCodes(h: Header): Codes
    requires HeaderOk(h)
  {
    var all := ExpandAll(CodeLengthCode(h), h.ops, [], h.nlit + h.ndist);
    Codes(all[..h.nlit], all[h.nlit..])
  }

  ghost function LengthsBits(h: Header): seq<Bit>
    requires HeaderOk(h)
  {
    ClenBits(h.clen) + OpsBits(CodeLengthCode(h), h.ops, [], h.nlit + h.ndist)
  }

  ghost function HeaderBits(h: Header): seq<Bit>
    requires HeaderOk(h)
  {
    ToBits(h.nlit - 257, 5) + (ToBits(h.ndist - 1, 5) + (ToBits(|h.clen| - 4, 4) + LengthsBits(h)))
  }

  lemma LengthsRead(h: Header, rest: seq<Bit>)
    requires HeaderOk(h)
    ensures ReadCodesAfter(h.nlit, h.ndist, |h.clen|, LengthsBits(h) + rest) == Got(HeaderCodes(h), rest)
  {
    hide ReadCodeLengthCode, ReadAllLengths, Arrange, OpsOk, ExpandAll, OpsBits, ClenBits, CodeLengthCode;
    var cl := CodeLengthCode(h);
    var ops := OpsBits(cl, h.ops, [], h.nlit + h.ndist);
    assert LengthsBits(h) + rest == ClenBits(h.clen) + (ops + rest);
    assert h.clen[0..] == h.clen;
    ArrangedCode(h);
    ClenReads(Repeat(0, 19), 0, h.clen, ops + rest);
    OpsRead(cl, h.ops, [], h.nlit + h.ndist, rest);
  }

  /** Reading the header of a dynamic block gives the codes it describes. */
  lemma HeaderReads(h: Header, rest: seq<Bit>)
    requires HeaderOk(h)
    ensures ReadCodes(HeaderBits(h) + rest) == Got(HeaderCodes(h), rest)
  {
    hide HeaderOk, LengthsBits, ReadNumber, ReadCodesAfter, ToBits, HeaderCodes;
    assert ClenOk(h) by { HeaderClen(h); }
    SmallPowers();
    hide Pow2;
    var a, b, c, d := ToBits(h.nlit - 257, 5), ToBits(h.ndist - 1, 5), ToBits(|h.clen| - 4, 4), LengthsBits(h);
    assert HeaderBits(h) + rest == a + (b + (c + (d + rest)));
    NumberReads(h.nlit - 257, 5, b + (c + (d + rest)));
    NumberReads(h.ndist - 1, 5, c + (d + rest));
    NumberReads(|h.clen| - 4, 4, d + rest);
    LengthsRead(h, rest);
  }

  lemma HeaderClen(h: Header)
    requires HeaderOk(h)
    ensures ClenOk(h)
  {
  }
}
