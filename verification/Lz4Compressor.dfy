/**
 * The compressor: the parse table filled and relaxed in place, walked back in place, and written out.
 * Every method is proved against the parse on values, so the output is a function of the buffer.
 */
module Lz4Compressor {
  import opened Bytes
  import opened Lz4Decoder
  import opened Lz4Encoding
  import opened Lz4Tables
  import opened Lz4Search
  import opened Lz4Matcher
  import opened Lz4Parse

  // ---------- Filling the table ----------

  /** How many extension bytes a match of length `ml` needs. */
  function Extension(ml: nat): nat {
    if ml >= 15 + MINMATCH then 1 + (ml - (15 + MINMATCH)) / 255 else 0
  }

  /** The running cost and the length of its next increase. */
  ghost predicate Bumps(nextBump: int, ml: nat) {
    nextBump == 15 + MINMATCH + 255 * Extension(ml)
  }

  lemma FirstBump()
    ensures Extension(MINMATCH) == 0 && Bumps(15 + MINMATCH, MINMATCH)
  {
  }

  /** The running cost is the price. */
  lemma LongerPrice(ll: nat, ml: nat)
    requires MINMATCH <= ml
    ensures SequencePrice(ll, ml) == SequencePrice(ll, MINMATCH) + Extension(ml)
  {
  }

  lemma BumpStep(ml: nat, nextBump: int)
    requires Bumps(nextBump, ml)
    ensures Bumps(if ml + 1 == nextBump then nextBump + 255 else nextBump, ml + 1)
    ensures ml + 1 == nextBump ==> Extension(ml + 1) == Extension(ml) + 1
    ensures ml + 1 != nextBump ==> Extension(ml + 1) == Extension(ml)
  {
  }

  method AddTrailing(opt: array<Opt>, last: nat)
    requires last + TRAILING_LITERALS < opt.Length
    modifies opt
    ensures opt[..last + 4] == WithTrailing(old(opt[..last + 1]))
  {
    for addLit := 1 to TRAILING_LITERALS + 1
      invariant opt[..last + 1] == old(opt[..last + 1])
      invariant forall k :: 1 <= k < addLit ==> opt[last + k] == Literal(opt[last].price + LiteralsPrice(k), k)
    {
      opt[last + addLit] := Literal(opt[last].price + LiteralsPrice(addLit), addLit);
    }
  }

  method FillLiterals(opt: array<Opt>, llen: nat)
    requires MINMATCH < opt.Length
    modifies opt
    ensures opt[..MINMATCH] == FirstLiterals(llen) == FirstEntries(llen, MINMATCH - 1, 0)
  {
    for rPos := 0 to MINMATCH
      invariant forall k :: 0 <= k < rPos ==> opt[k] == Literal(LiteralsPrice(llen + k), llen + k)
    {
      opt[rPos] := Literal(LiteralsPrice(llen + rPos), llen + rPos);
    }
  }

  method FillFirstEntries(opt: array<Opt>, llen: nat, len: nat, off: nat)
    requires MINMATCH <= len && len + TRAILING_LITERALS < opt.Length
    modifies opt
    ensures opt[..len + 1] == FirstEntries(llen, len, off)
  {
    FillLiterals(opt, llen);
    hide SequencePrice, Extension, Bumps, LiteralsPrice;
    FirstBump();
    var cost := SequencePrice(llen, MINMATCH);
    var nextBump := 15 + MINMATCH;
    var mlen := MINMATCH;
    while mlen <= len
      invariant MINMATCH <= mlen <= len + 1
      invariant cost == SequencePrice(llen, MINMATCH) + Extension(mlen) && Bumps(nextBump, mlen)
      invariant opt[..mlen] == FirstEntries(llen, mlen - 1, off)
    {
      LongerPrice(llen, mlen);
      opt[mlen] := Opt(cost, off, mlen, llen);
      assert opt[..mlen + 1] == opt[..mlen] + [opt[mlen]];
      BumpStep(mlen, nextBump);
      mlen := mlen + 1;
      if mlen == nextBump {
        cost := cost + 1;
        nextBump := nextBump + 255;
      }
    }
  }

  method RelaxLiteralsInto(opt: array<Opt>, cur: nat, ghost t: seq<Opt>)
    requires cur + 3 < |t| <= opt.Length && opt[..|t|] == t
    modifies opt
    ensures opt[..|t|] == RelaxLiterals(t, cur, 3)
  {
    var baseLitlen := opt[cur].litlen;
    for litlen := 1 to MINMATCH
      invariant opt[..|t|] == RelaxLiterals(t, cur, litlen - 1)
      invariant opt[cur] == t[cur]
    {
      var price := opt[cur].price - LiteralsPrice(baseLitlen) + LiteralsPrice(baseLitlen + litlen);
      if price < opt[cur + litlen].price {
        opt[cur + litlen] := Literal(price, baseLitlen + litlen);
      }
    }
  }

  lemma RelaxNothing(t: seq<Opt>, cur: nat, off: nat)
    requires cur + MINMATCH <= |t|
    ensures RelaxMatch(t, cur, MINMATCH - 1, off) == t
  {
  }

  /** The table holds the match at `cur` in every length up to `len`. */
  ghost predicate Entered(opt: array<Opt>, t: seq<Opt>, cur: nat, len: nat, off: nat)
    requires MINMATCH - 1 <= len && cur + MINMATCH <= |t|
    reads opt
  {
    var r := RelaxMatch(t, cur, len, off);
    |r| <= opt.Length && opt[..|r|] == r
  }

  /** One length of a match: entered beyond the table, or where it is no dearer. */
  method EnterMatch(opt: array<Opt>, cur: nat, ml: nat, last: nat, entry: Opt, ghost t: seq<Opt>)
    returns (entered: bool)
    requires |t| == last + 4 && MINMATCH <= ml && cur + MINMATCH <= |t| && cur + ml < opt.Length && |t| <= opt.Length
    requires entry == MatchEntry(t, cur, ml, entry.off)
    requires Entered(opt, t, cur, ml - 1, entry.off)
    modifies opt
    ensures entered == MatchWins(t, cur, ml) && Entered(opt, t, cur, ml, entry.off)
  {
    ghost var before := RelaxMatch(t, cur, ml - 1, entry.off);
    var p := cur + ml;
    assert p < |t| ==> opt[p] == before[p] == t[p];
    entered := false;
    if p > last + TRAILING_LITERALS || entry.price <= opt[p].price {
      entered := true;
      opt[p] := entry;
      assert p < |before| ==> opt[..|before|] == before[p := entry];
      assert p == |before| ==> opt[..p + 1] == before + [entry];
    }
  }

  method BaseOf(opt: array<Opt>, cur: nat, ghost t: seq<Opt>) returns (ll: nat, basePrice: int)
    requires cur < |t| <= opt.Length && opt[..|t|] == t
    ensures (ll, basePrice) == MatchBase(t, cur)
  {
    ll, basePrice := 0, opt[cur].price;
    if opt[cur].mlen == 1 {
      ll := opt[cur].litlen;
      basePrice := if cur > ll then opt[cur - ll].price else 0;
    }
  }

  method RelaxMatchInto(opt: array<Opt>, cur: nat, last0: nat, len: nat, off: nat, ghost t: seq<Opt>)
    returns (last: nat)
    requires |t| == last0 + 4 && 1 <= cur < last0 && |t| <= opt.Length && opt[..|t|] == t && MINMATCH <= len
    requires cur + len + TRAILING_LITERALS < opt.Length
    modifies opt
    ensures last == LastAfter(t, cur, len) && last < |RelaxMatch(t, cur, len, off)| <= opt.Length
    ensures Entered(opt, t, cur, len, off)
  {
    assert Entered(opt, t, cur, MINMATCH - 1, off) by { RelaxNothing(t, cur, off); }
    hide MatchWins, RelaxMatch, Entered, MatchBase, SequencePrice, Extension, Bumps;
    FirstBump();
    var ll, basePrice := BaseOf(opt, cur, t);
    var price := basePrice + SequencePrice(ll, MINMATCH);
    var nextBump := 15 + MINMATCH;
    var ml := MINMATCH;
    last := last0;
    while ml <= len
      invariant MINMATCH <= ml <= len + 1
      invariant price == basePrice + SequencePrice(ll, MINMATCH) + Extension(ml) && Bumps(nextBump, ml)
      invariant Entered(opt, t, cur, ml - 1, off)
      invariant last == if ml == len + 1 then LastAfter(t, cur, len) else last0
    {
      LongerPrice(ll, ml);
      var entered := EnterMatch(opt, cur, ml, last, Opt(price, off, ml, ll), t);
      if entered && ml == len && last < cur + ml {
        last := cur + ml;
      }
      BumpStep(ml, nextBump);
      ml := ml + 1;
      if ml == nextBump {
        price := price + 1;
        nextBump := nextBump + 255;
      }
    }
  }

  /** Relaxes the table with a match at `cur`. */
  method Relax(opt: array<Opt>, cur: nat, last0: nat, m: Match, ghost t: seq<Opt>) returns (last: nat)
    requires |t| == last0 + 4 <= opt.Length && 1 <= cur < last0 && opt[..|t|] == t && MINMATCH <= m.len
    requires cur + m.len + TRAILING_LITERALS < opt.Length
    modifies opt
    ensures |Relaxed(t, cur, m)| == last + 4 <= opt.Length && opt[..last + 4] == Relaxed(t, cur, m)
  {
    hide RelaxLiterals, RelaxMatch;
    RelaxLiteralsInto(opt, cur, t);
    ghost var t1 := RelaxLiterals(t, cur, 3);
    last := RelaxMatchInto(opt, cur, last0, m.len, m.off, t1);
    ghost var t2 := RelaxMatch(t1, cur, m.len, m.off);
    assert opt[..last + 1] == t2[..last + 1];
    AddTrailing(opt, last);
  }

  // ---------- Writing a block ----------

  /** Reading entries forwards from `r`, each a jump of its length, spells `hops`. */
  ghost predicate Reads(o: seq<Opt>, r: nat, hops: seq<Hop>)
    decreases |hops|
  {
    hops == [] ||
    (r < |o| && o[r].mlen == hops[0].mlen && o[r].off == hops[0].off && Reads(o, r + hops[0].mlen, hops[1..]))
  }

  lemma {:induction false} ReadsFrame(o: seq<Opt>, o': seq<Opt>, r: nat, hops: seq<Hop>)
    requires Reads(o, r, hops) && |o| == |o'| && forall k :: r <= k < |o| ==> o[k] == o'[k]
    ensures Reads(o', r, hops)
    decreases |hops|
  {
    if hops != [] {
      ReadsFrame(o, o', r + hops[0].mlen, hops[1..]);
    }
  }

  lemma PathBack(t: seq<Opt>, candidate: nat, rest: seq<Hop>)
    requires Linked(t) && candidate < |t|
    ensures var next := Hop(t[candidate].mlen, t[candidate].off);
            PathTo(t, candidate) + rest
            == if next.mlen > candidate then rest else PathTo(t, candidate - next.mlen) + ([next] + rest)
  {
  }

  /** One link turned around. */
  lemma TurnedAround(before: seq<Opt>, now: seq<Opt>, candidate: nat, selected: Hop, rest: seq<Hop>)
    requires candidate < |before| && 1 <= selected.mlen && Reads(before, candidate + selected.mlen, rest)
    requires now == before[candidate := before[candidate].(mlen := selected.mlen, off := selected.off)]
    ensures Reads(now, candidate, [selected] + rest)
  {
    ReadsFrame(before, now, candidate + selected.mlen, rest);
  }

  /** Turns the links around in place: afterwards the table reads the hops forwards from 0. */
  method ReversePath(opt: array<Opt>, cur: nat, final: Hop, ghost t: seq<Opt>)
    requires Linked(t) && cur < |t| <= opt.Length && opt[..|t|] == t && 1 <= final.mlen
    modifies opt
    ensures Reads(opt[..], 0, PathTo(t, cur) + [final])
  {
    var candidate: nat := cur;
    var selected := final;
    ghost var rest: seq<Hop> := [];
    assert Reads(opt[..], cur + final.mlen, rest);
    hide PathTo, Reads;
    while true
      invariant candidate <= cur
      invariant opt[..candidate + 1] == t[..candidate + 1]
      invariant PathTo(t, candidate) + ([selected] + rest) == PathTo(t, cur) + [final]
      invariant Reads(opt[..], candidate + selected.mlen, rest)
      invariant 1 <= selected.mlen
      decreases candidate
    {
      ghost var before := opt[..];
      assert opt[candidate] == t[..candidate + 1][candidate];
      var next := Hop(opt[candidate].mlen, opt[candidate].off);
      PathBack(t, candidate, [selected] + rest);
      opt[candidate] := opt[candidate].(mlen := selected.mlen, off := selected.off);
      TurnedAround(before, opt[..], candidate, selected, rest);
      rest := [selected] + rest;
      if next.mlen > candidate {
        assert candidate == 0;
        break;
      }
      selected := next;
      candidate := candidate - next.mlen;
    }
  }

  /** The matches so far are written; literals from `anchor` to `ip` are not yet. */
  ghost predicate Written(buf: seq<Byte>, op: seq<Byte>, ip: nat, anchor: nat, ms: seq<MatchAt>) {
    ip <= |buf| && ParseOk(buf, ms, ip) && op == MatchBytes(buf, ms) && anchor == EndOf(ms)
  }

  lemma WrittenMatch(buf: seq<Byte>, op: seq<Byte>, ip: nat, anchor: nat, ms: seq<MatchAt>, len: nat, off: nat)
    requires Written(buf, op, ip, anchor, ms) && HopOk(buf, ip, len, off)
    ensures Written(buf, op + SequenceBytes(buf[anchor..ip], off, len), ip + len, ip + len,
                    ms + [MatchAt(ip, len, off)])
  {
    ParseExtends(buf, ms, ip, len, off);
    assert (ms + [MatchAt(ip, len, off)])[..|ms|] == ms;
  }

  method WriteMatch(buf: seq<Byte>, op0: seq<Byte>, ip0: nat, anchor0: nat, len: nat, off: nat, ghost ms: seq<MatchAt>)
    returns (op: seq<Byte>, ip: nat, anchor: nat)
    requires Written(buf, op0, ip0, anchor0, ms) && HopOk(buf, ip0, len, off)
    ensures ip == ip0 + len && Written(buf, op, ip, anchor, ms + [MatchAt(ip0, len, off)])
  {
    op, ip, anchor := EncodeSequence(buf, op0, ip0, anchor0, len, off);
    WrittenMatch(buf, op0, ip0, anchor0, ms, len, off);
  }

  /** One hop: a literal only moves `ip`, a match is written as a sequence. */
  method WriteHop(buf: seq<Byte>, op0: seq<Byte>, ip0: nat, anchor0: nat, mlen: nat, off: nat, ghost ms: seq<MatchAt>)
    returns (op: seq<Byte>, ip: nat, anchor: nat)
    requires Written(buf, op0, ip0, anchor0, ms) && ip0 + mlen <= |buf|
    requires mlen == 1 || HopOk(buf, ip0, mlen, off)
    ensures ip == ip0 + mlen
    ensures Written(buf, op, ip, anchor, ms + if mlen == 1 then [] else [MatchAt(ip0, mlen, off)])
  {
    if mlen == 1 {
      assert ms + [] == ms;
      return op0, ip0 + 1, anchor0;
    }
    op, ip, anchor := WriteMatch(buf, op0, ip0, anchor0, mlen, off, ms);
  }

  /** Walks the table forwards and writes its hops, the last of which starts before `last`. */
  method WriteHops(buf: seq<Byte>, op0: seq<Byte>, ip0: nat, anchor0: nat, opt: array<Opt>, last: nat,
                   ghost hops: seq<Hop>, ghost ms: seq<MatchAt>)
    returns (op: seq<Byte>, ip: nat, anchor: nat)
    requires Written(buf, op0, ip0, anchor0, ms) && HopsOk(buf, ip0, hops) && ip0 + Total(hops) <= |buf|
    requires Reads(opt[..], 0, hops) && hops != []
    requires Total(hops[..|hops| - 1]) < last <= Total(hops)
    ensures ip == ip0 + Total(hops) && Written(buf, op, ip, anchor, ms + Place(ip0, hops))
  {
    hide HopOk, Written, HopsOk, Total, Place, Reads;
    op, ip, anchor := op0, ip0, anchor0;
    var rPos: nat := 0;
    ghost var i := 0;
    HopsBegin(hops, ip0, ms);
    TotalFront(hops, 0);
    while rPos < last
      invariant 0 <= i <= |hops| && (i < |hops| ==> rPos < last)
      invariant rPos == Total(hops[..i]) && ip == ip0 + rPos
      invariant Reads(opt[..], rPos, hops[i..])
      invariant Written(buf, op, ip, anchor, ms + Place(ip0, hops[..i]))
      decreases |hops| - i
    {
      assert i < |hops| by { assert hops[..|hops|] == hops; }
      HopAt(buf, ip0, hops, i);
      ReadsNext(opt[..], rPos, hops[i..]);
      assert hops[i..][1..] == hops[i + 1..];
      var ml, off := opt[rPos].mlen, opt[rPos].off;
      PlaceNext(ms, ip0, hops, i);
      op, ip, anchor := WriteHop(buf, op, ip, anchor, ml, off, ms + Place(ip0, hops[..i]));
      rPos := rPos + ml;
      i := i + 1;
      if i < |hops| {
        TotalFront(hops, i);
      }
    }
    assert hops[..i] == hops;
  }

  lemma HopsBegin(hops: seq<Hop>, ip: nat, ms: seq<MatchAt>)
    ensures ms + Place(ip, hops[..0]) == ms && Total(hops[..0]) == 0 && hops[0..] == hops
  {
  }

  lemma ReadsNext(o: seq<Opt>, r: nat, hops: seq<Hop>)
    requires Reads(o, r, hops) && hops != []
    ensures r < |o| && o[r].mlen == hops[0].mlen && o[r].off == hops[0].off && Reads(o, r + hops[0].mlen, hops[1..])
  {
  }

  /** One hop more adds its match, if it is one. */
  lemma PlaceNext(ms: seq<MatchAt>, ip: nat, hops: seq<Hop>, i: nat)
    requires i < |hops|
    ensures ms + Place(ip, hops[..i + 1])
            == ms + Place(ip, hops[..i])
               + if hops[i].mlen == 1 then [] else [MatchAt(ip + Total(hops[..i]), hops[i].mlen, hops[i].off)]
  {
    assert hops[..i + 1][..i] == hops[..i];
    hide Total;
  }

  /** Turns a finished block into sequences. */
  method EncodePath(buf: seq<Byte>, op0: seq<Byte>, ip0: nat, anchor0: nat, opt: array<Opt>, cur: nat, last: nat,
                    best: Hop, ghost t: seq<Opt>, ghost ms: seq<MatchAt>)
    returns (op: seq<Byte>, ip: nat, anchor: nat)
    requires BlockEndOk(buf, ip0, BlockEnd(t, cur, best)) && |t| <= opt.Length && opt[..|t|] == t
    requires last == cur + best.mlen || last == cur + 1
    requires Written(buf, op0, ip0, anchor0, ms)
    modifies opt
    ensures ip == ip0 + cur + best.mlen
    ensures ParseOk(buf, ms, ip0)
            && Written(buf, op, ip, anchor, AfterBlock(buf, ip0, ms, BlockEnd(t, cur, best)))
  {
    hide Genuine, HopsOk;
    ghost var hops := HopsOf(BlockEnd(t, cur, best));
    BlockTiles(buf, ip0, BlockEnd(t, cur, best));
    PathTiles(buf, ip0, t, cur);
    ReversePath(opt, cur, best, t);
    assert hops[..|hops| - 1] == PathTo(t, cur);
    op, ip, anchor := WriteHops(buf, op0, ip0, anchor0, opt, last, hops, ms);
  }

  // ---------- Parsing a block ----------

  /** The context has indexed part of `buf`, at most up to `ip`. */
  ghost predicate CtxReady(ctx: HcCtx, buf: seq<Byte>, ip: nat)
    reads ctx`base, ctx`nextToUpdate, ctx.hashTable, ctx.comboTable
  {
    && LZ4_MINLENGTH <= |buf| <= MAX_INPUT && ctx.base + |buf| + MAXD <= U32_MAX
    && ctx.base <= ctx.nextToUpdate <= ctx.base + ip
    && ctx.Indexed(buf, ctx.nextToUpdate - ctx.base)
  }

  method Find(ctx: HcCtx, buf: seq<Byte>, ip: nat, memo: PatternMemo) returns (m: Match)
    requires CtxReady(ctx, buf, ip) && Searchable(buf, ip) && memo.Holds(buf)
    modifies ctx`nextToUpdate, ctx.hashTable, ctx.comboTable, memo
    ensures CtxReady(ctx, buf, ip) && memo.Holds(buf) && m == FindMatch(buf, ip)
  {
    m := FindLongerMatch(ctx, buf, ip, memo);
  }

  /** The array holds a well-formed table whose parse from `cur` on is still to be found. */
  ghost predicate Parsing(buf: seq<Byte>, ip: nat, opt: array<Opt>, t: seq<Opt>, cur: nat, last: nat, goal: BlockEnd)
    reads opt
  {
    && opt.Length == LZ4_OPT_NUM + TRAILING_LITERALS && LZ4_MINLENGTH <= |buf|
    && TableOk(buf, ip, t) && |t| == last + 4 <= opt.Length && opt[..|t|] == t
    && 1 <= cur <= last && ParseBlock(buf, ip, t, cur) == goal
  }

  method StartBlock(buf: seq<Byte>, ip: nat, opt: array<Opt>, llen: nat, first: Match)
    returns (ghost t: seq<Opt>, last: nat)
    requires opt.Length == LZ4_OPT_NUM + TRAILING_LITERALS && Searchable(buf, ip)
    requires HopOk(buf, ip, first.len, first.off) && first.len <= SUFFICIENT_LEN
    modifies opt
    ensures Parsing(buf, ip, opt, t, 1, last, BlockAt(buf, ip, llen, first))
  {
    hide Genuine, ParseBlock, FirstEntries;
    FillFirstEntries(opt, llen, first.len, first.off);
    last := first.len;
    AddTrailing(opt, last);
    t := FirstTable(llen, first);
    FirstTableOk(buf, ip, llen, first);
  }

  /** One position of a block; `stop` is set when a long match ends the block there. */
  method Turn(ctx: HcCtx, buf: seq<Byte>, ip: nat, memo: PatternMemo, opt: array<Opt>, cur: nat, last0: nat,
              ghost t0: seq<Opt>, ghost goal: BlockEnd)
    returns (stop: bool, m: Match, last: nat, ghost t: seq<Opt>)
    requires CtxReady(ctx, buf, ip + cur) && memo.Holds(buf)
    requires Parsing(buf, ip, opt, t0, cur, last0, goal) && cur < last0 && ip + cur + MFLIMIT <= |buf|
    modifies ctx`nextToUpdate, ctx.hashTable, ctx.comboTable, memo, opt
    ensures CtxReady(ctx, buf, ip + cur) && memo.Holds(buf)
    ensures stop ==> goal == BlockEnd(t0, cur, Hop(m.len, m.off)) && opt[..|t0|] == t0 && MINMATCH <= m.len
    ensures !stop ==> Parsing(buf, ip, opt, t, cur + 1, last, goal)
  {
    hide TableOk, Relaxed, CtxReady, Genuine, FindMatch;
    stop, m, last, t := false, Match(0, 0), last0, t0;
    assert match TurnOf(buf, ip, t0, cur)
           case Halt(end) => goal == end
           case Next(next) => goal == ParseBlock(buf, ip, next, cur + 1);
    hide ParseBlock;
    if opt[cur + 1].price <= opt[cur].price && opt[cur + MINMATCH].price < opt[cur].price + 3 {
      assert Skips(t, cur);
      return;
    }
    assert !Skips(t, cur);
    m := Find(ctx, buf, ip + cur, memo);
    if m.len == 0 {
      return;
    }
    if m.len > SUFFICIENT_LEN || m.len + cur >= LZ4_OPT_NUM {
      stop := true;
      return;
    }
    last := Relax(opt, cur, last0, m, t0);
    t := Relaxed(t0, cur, m);
  }

  method ParseBlockInto(ctx: HcCtx, buf: seq<Byte>, ip: nat, memo: PatternMemo, opt: array<Opt>, llen: nat,
      first: Match)
    returns (cur: nat, last: nat, best: Hop, ghost t: seq<Opt>)
    requires CtxReady(ctx, buf, ip) && memo.Holds(buf) && opt.Length == LZ4_OPT_NUM + TRAILING_LITERALS
    requires Searchable(buf, ip) && HopOk(buf, ip, first.len, first.off) && first.len <= SUFFICIENT_LEN
    modifies ctx`nextToUpdate, ctx.hashTable, ctx.comboTable, memo, opt
    ensures BlockEnd(t, cur, best) == BlockAt(buf, ip, llen, first)
    ensures |t| <= opt.Length && opt[..|t|] == t && (last == cur + best.mlen || last == cur + 1)
    ensures CtxReady(ctx, buf, ip + cur + best.mlen) && memo.Holds(buf)
  {
    hide TableOk, Genuine, ParseBlock, FirstTable;
    ghost var goal := BlockAt(buf, ip, llen, first);
    t, last := StartBlock(buf, ip, opt, llen, first);
    var pos := 1;
    while pos < last
      invariant CtxReady(ctx, buf, ip + pos) && memo.Holds(buf) && Parsing(buf, ip, opt, t, pos, last, goal)
      decreases LZ4_OPT_NUM - pos
    {
      if ip + pos + MFLIMIT > |buf| {
        break;
      }
      var stop, m;
      ghost var t0 := t;
      stop, m, last, t := Turn(ctx, buf, ip, memo, opt, pos, last, t, goal);
      if stop {
        t := t0;
        return pos, pos + 1, Hop(m.len, m.off), t;
      }
      pos := pos + 1;
    }
    best := Hop(opt[last].mlen, opt[last].off);
    ParseBlockDone(buf, ip, t, pos);
    cur := last - best.mlen;
  }

  // ---------- The compressor ----------

  /** Output so far, and what the parse from here still has to give. */
  ghost predicate Compressing(buf: seq<Byte>, op: seq<Byte>, ip: nat, anchor: nat, ms: seq<MatchAt>) {
    && LZ4_MINLENGTH <= |buf| && Written(buf, op, ip, anchor, ms)
    && ParseFrom(buf, ip, ms) == Parse(buf)
  }

  /** One turn of the main loop, from a position where a match may still start. */
  method CompressTurn(ctx: HcCtx, buf: seq<Byte>, memo: PatternMemo, opt: array<Opt>,
                      op0: seq<Byte>, ip0: nat, anchor0: nat, ghost ms0: seq<MatchAt>)
    returns (op: seq<Byte>, ip: nat, anchor: nat, ghost ms: seq<MatchAt>)
    requires CtxReady(ctx, buf, ip0) && memo.Holds(buf) && opt.Length == LZ4_OPT_NUM + TRAILING_LITERALS
    requires Compressing(buf, op0, ip0, anchor0, ms0) && ip0 + MFLIMIT <= |buf|
    modifies ctx`nextToUpdate, ctx.hashTable, ctx.comboTable, memo, opt
    ensures CtxReady(ctx, buf, ip) && memo.Holds(buf) && ip0 < ip
    ensures Compressing(buf, op, ip, anchor, ms)
  {
    hide CtxReady, Genuine, MatchBytes, ValidParse, AllKeep, SequenceBytes, BlockAt, AfterBlock, FindMatch, TableOk;
    op, ip, anchor, ms := op0, ip0, anchor0, ms0;
    var llen := ip - anchor;
    var first := Find(ctx, buf, ip, memo);
    if first.len == 0 {
      ip := ip + 1;
      CtxLater(ctx, buf, ip0, ip);
      return;
    }
    if first.len > SUFFICIENT_LEN {
      op, ip, anchor := WriteMatch(buf, op, ip, anchor, first.len, first.off, ms);
      ms := ms + [MatchAt(ip0, first.len, first.off)];
      CtxLater(ctx, buf, ip0, ip);
      return;
    }
    var cur, last, best, t := ParseBlockInto(ctx, buf, ip, memo, opt, llen, first);
    op, ip, anchor := EncodePath(buf, op, ip, anchor, opt, cur, last, best, t, ms);
    ms := AfterBlock(buf, ip0, ms, BlockEnd(t, cur, best));
  }

  lemma CtxLater(ctx: HcCtx, buf: seq<Byte>, ip: nat, later: nat)
    requires CtxReady(ctx, buf, ip) && ip <= later
    ensures CtxReady(ctx, buf, later)
  {
  }

  /** The main loop, for buffers long enough to hold a match. */
  method CompressLong(ctx: HcCtx, buf: seq<Byte>, memo: PatternMemo, opt: array<Opt>)
    returns (op: seq<Byte>, ghost n: nat)
    requires CtxReady(ctx, buf, 0) && memo.Holds(buf) && opt.Length == LZ4_OPT_NUM + TRAILING_LITERALS
    modifies ctx`nextToUpdate, ctx.hashTable, ctx.comboTable, memo, opt
    ensures op == Compressed(buf) && ctx.Indexed(buf, n) && n <= |buf|
  {
    CompressingStart(buf);
    hide CtxReady, Compressing, HcCtx.Indexed;
    op := [];
    var ip: nat, anchor: nat := 0, 0;
    ghost var ms: seq<MatchAt> := [];
    while ip + MFLIMIT <= |buf|
      invariant CtxReady(ctx, buf, ip) && memo.Holds(buf) && Compressing(buf, op, ip, anchor, ms)
      decreases |buf| - ip
    {
      op, ip, anchor, ms := CompressTurn(ctx, buf, memo, opt, op, ip, anchor, ms);
    }
    CompressingDone(buf, op, ip, anchor, ms);
    op := EmitLastLiterals(buf, op, anchor);
    n := IndexedSoFar(ctx, buf, ip);
  }

  lemma CompressingStart(buf: seq<Byte>)
    requires LZ4_MINLENGTH <= |buf|
    ensures Compressing(buf, [], 0, 0, [])
  {
  }

  lemma CompressingDone(buf: seq<Byte>, op: seq<Byte>, ip: nat, anchor: nat, ms: seq<MatchAt>)
    requires Compressing(buf, op, ip, anchor, ms) && ip + MFLIMIT > |buf|
    ensures anchor <= |buf| && op + LastBytes(buf[anchor..]) == Compressed(buf)
  {
  }

  lemma IndexedSoFar(ctx: HcCtx, buf: seq<Byte>, ip: nat) returns (n: nat)
    requires CtxReady(ctx, buf, ip)
    ensures ctx.Indexed(buf, n) && n <= |buf|
  {
    n := ctx.nextToUpdate - ctx.base;
  }

  /** The output is a function of the buffer: the tables' history leaves no trace in it. */
  method CompressWithCtx(buf: seq<Byte>, ctx: HcCtx) returns (op: seq<Byte>)
    requires |buf| <= MAX_INPUT && ctx.Rebased() && ctx.base + |buf| + MAXD <= U32_MAX
    requires ctx.nextToUpdate == ctx.base
    modifies ctx`nextToUpdate, ctx`hi, ctx.hashTable, ctx.comboTable
    ensures op == Compressed(buf) && ctx.Quiet()
  {
    hide HcCtx.Indexed, LastBytes;
    var memo := new PatternMemo();
    ctx.hi := Min(ctx.base + |buf|, U32_MAX);
    if |buf| < LZ4_MINLENGTH {
      assert buf[0..] == buf;
      op := EmitLastLiterals(buf, [], 0);
      ShortCompressed(buf);
      return;
    }
    var opt := new Opt[LZ4_OPT_NUM + TRAILING_LITERALS](_ => Opt(0, 0, 0, 0));
    ctx.NothingIndexed(buf);
    ghost var n;
    op, n := CompressLong(ctx, buf, memo, opt);
    ctx.QuietAfter(buf, n);
  }

  lemma ShortCompressed(buf: seq<Byte>)
    requires |buf| < LZ4_MINLENGTH
    ensures Compressed(buf) == [] + LastBytes(buf[0..])
  {
  }

  /** Compresses with the pooled context, rebased for this buffer. */
  method CompressHc(ctx: HcCtx, src: seq<Byte>) returns (op: seq<Byte>)
    requires |src| <= MAX_INPUT && ctx.Quiet()
    modifies ctx, ctx.hashTable, ctx.comboTable
    ensures op == Compressed(src) && ctx.Quiet()
  {
    ctx.Prepare(|src|);
    op := CompressWithCtx(src, ctx);
  }

  /** After any history of buffers, a reused context compresses exactly as a fresh one does, and what
      it gives is decompressed to the buffer. */
  method ReuseMatchesFresh(history: seq<seq<Byte>>, buf: seq<Byte>) returns (reused: seq<Byte>, anew: seq<Byte>)
    requires |buf| <= MAX_INPUT && forall i :: 0 <= i < |history| ==> |history[i]| <= MAX_INPUT
    ensures reused == anew
    ensures |buf| <= MAX_DECOMPRESS_BYTES ==> Decoded(reused, |buf|) == Ok(buf)
  {
    hide Compressed, Decoded;
    var ctx := new HcCtx();
    for i := 0 to |history|
      invariant ctx.Quiet() && fresh(ctx) && fresh(ctx.hashTable) && fresh(ctx.comboTable)
    {
      var ignored := CompressHc(ctx, history[i]);
    }
    reused := CompressHc(ctx, buf);
    var other := new HcCtx();
    anew := CompressWithCtx(buf, other);
    if |buf| <= MAX_DECOMPRESS_BYTES {
      DecompressCompressed(buf);
    }
  }
}
