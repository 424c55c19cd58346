/**
 * How large the prices of the parser get. The code keeps them in 32 bits; every live entry's price is
 * bounded by the literals before the block and twice the entry's position, so none wraps in a buffer
 * of up to MAX_PRICED bytes.
 */
module Lz4Prices {
  import opened Bytes
  import opened Lz4Decoder
  import opened Lz4Encoding
  import opened Lz4Search
  import opened Lz4Parse

  const I32_MAX := 0x7FFF_FFFF
  const MAX_PRICED := 2_139_086_872

  /** An entry at `p` of a block that starts after `llen` literals. */
  ghost predicate PriceOk(llen: nat, p: nat, e: Opt) {
    0 <= e.price <= LiteralsPrice(llen) + 2 * p && e.litlen <= llen + p
  }

  ghost predicate PricesOk(t: seq<Opt>, llen: nat) {
    forall p :: 0 <= p < |t| ==> PriceOk(llen, p, t[p])
  }

  // ---------- The price functions ----------

  /** A literal costs a byte, and at most one more for its length. */
  lemma LiteralsGrow(a: nat, n: nat)
    ensures LiteralsPrice(a) <= LiteralsPrice(a + n) <= LiteralsPrice(a) + 2 * n
  {
    if a >= 15 {
      assert (a - 15) / 255 <= (a + n - 15) / 255 <= (a - 15) / 255 + n by { DivGrows(a - 15, n); }
    } else if a + n >= 15 {
      assert (a + n - 15) / 255 <= (n - 1) / 255 by { DivGrows(a + n - 15, 14 - a); }
    }
  }

  lemma DivGrows(x: nat, n: nat)
    ensures x / 255 <= (x + n) / 255 <= x / 255 + n
  {
  }

  lemma MatchPrice(ll: nat, len: nat)
    requires MINMATCH <= len
    ensures LiteralsPrice(ll) <= SequencePrice(ll, len) <= LiteralsPrice(ll) + 2 * len
  {
    hide LiteralsPrice;
  }

  // ---------- Every way of filling the table ----------

  lemma {:induction false} FirstEntriesPrices(llen: nat, len: nat, off: nat)
    requires MINMATCH - 1 <= len
    ensures PricesOk(FirstEntries(llen, len, off), llen)
  {
    if len < MINMATCH {
      LiteralsGrow(llen, 1);
      LiteralsGrow(llen, 2);
      LiteralsGrow(llen, 3);
      hide LiteralsPrice;
    } else {
      FirstEntriesPrices(llen, len - 1, off);
      MatchPrice(llen, len);
      hide LiteralsPrice, SequencePrice;
    }
  }

  lemma TrailingPrices(t: seq<Opt>, llen: nat)
    requires t != [] && PricesOk(t, llen)
    ensures PricesOk(WithTrailing(t), llen)
  {
    assert PriceOk(llen, |t| - 1, t[|t| - 1]);
    assert LiteralsPrice(1) == 1 && LiteralsPrice(2) == 2 && LiteralsPrice(3) == 3;
    hide LiteralsPrice;
  }

  lemma {:induction false} RelaxLiteralsPrices(t: seq<Opt>, cur: nat, n: nat, llen: nat)
    requires PricesOk(t, llen) && cur + n < |t| && n < MINMATCH
    ensures PricesOk(RelaxLiterals(t, cur, n), llen)
  {
    if n > 0 {
      RelaxLiteralsPrices(t, cur, n - 1, llen);
      assert PriceOk(llen, cur, t[cur]);
      LiteralsGrow(t[cur].litlen, n);
      hide LiteralsPrice;
    }
  }

  lemma MatchEntryPrice(t: seq<Opt>, cur: nat, len: nat, off: nat, llen: nat)
    requires PricesOk(t, llen) && cur < |t| && MINMATCH <= len
    ensures PriceOk(llen, cur + len, MatchEntry(t, cur, len, off))
  {
    var (ll, base) := MatchBase(t, cur);
    assert PriceOk(llen, cur, t[cur]);
    MatchPrice(ll, len);
    if t[cur].mlen == 1 {
      if cur > ll {
        assert PriceOk(llen, cur - ll, t[cur - ll]);
        LiteralsGrow(0, ll);
      } else {
        LiteralsGrow(ll, llen + cur - ll);
        LiteralsGrow(llen, cur);
      }
    } else {
      assert LiteralsPrice(0) == 0;
    }
    hide LiteralsPrice, SequencePrice;
  }

  lemma {:induction false} RelaxMatchPrices(t: seq<Opt>, cur: nat, len: nat, off: nat, llen: nat)
    requires PricesOk(t, llen) && MINMATCH - 1 <= len && cur + MINMATCH <= |t|
    ensures PricesOk(RelaxMatch(t, cur, len, off), llen)
  {
    hide PriceOk, MatchEntry, MatchWins;
    if len >= MINMATCH {
      RelaxMatchPrices(t, cur, len - 1, off, llen);
      MatchEntryPrice(t, cur, len, off, llen);
    }
  }

  lemma RelaxedPrices(t: seq<Opt>, cur: nat, m: Lz4Search.Match, llen: nat)
    requires PricesOk(t, llen) && MINMATCH <= m.len && cur + MINMATCH <= |t|
    ensures PricesOk(Relaxed(t, cur, m), llen)
  {
    hide PriceOk, RelaxLiterals, RelaxMatch, WithTrailing, MatchWins;
    var t1 := RelaxLiterals(t, cur, 3);
    RelaxLiteralsPrices(t, cur, 3, llen);
    var t2 := RelaxMatch(t1, cur, m.len, m.off);
    RelaxMatchPrices(t1, cur, m.len, m.off, llen);
    TrailingPrices(t2[..LastAfter(t1, cur, m.len) + 1], llen);
  }

  // ---------- Every table of a block ----------

  lemma FirstTablePrices(llen: nat, m: Lz4Search.Match)
    requires MINMATCH <= m.len
    ensures PricesOk(FirstTable(llen, m), llen)
  {
    hide PriceOk, FirstEntries, WithTrailing;
    FirstEntriesPrices(llen, m.len, m.off);
    TrailingPrices(FirstEntries(llen, m.len, m.off), llen);
  }

  /** One position of a block keeps the bounds. */
  lemma TurnPrices(buf: seq<Byte>, ip: nat, t: seq<Opt>, cur: nat, llen: nat)
    requires LZ4_MINLENGTH <= |buf| && TableOk(buf, ip, t) && 1 <= cur < |t| - 4 && ip + cur + MFLIMIT <= |buf|
    requires PricesOk(t, llen)
    ensures match TurnOf(buf, ip, t, cur)
            case Halt(end) => PricesOk(end.t, llen)
            case Next(next) => PricesOk(next, llen)
  {
    hide PricesOk, Genuine, Relaxed, Skips, EntryOk, FindMatch;
    var m := FindMatch(buf, ip + cur);
    if m.len > 0 {
      RelaxedPrices(t, cur, m, llen);
    }
  }

  lemma {:induction false} ParsePrices(buf: seq<Byte>, ip: nat, t: seq<Opt>, cur: nat, llen: nat)
    requires LZ4_MINLENGTH <= |buf| && TableOk(buf, ip, t) && 1 <= cur <= |t| - 4 && PricesOk(t, llen)
    ensures PricesOk(ParseBlock(buf, ip, t, cur).t, llen)
    decreases LZ4_OPT_NUM - cur
  {
    assert LZ4_OPT_NUM - cur >= 0;
    hide PricesOk, TurnOf;
    if cur < |t| - 4 && ip + cur + MFLIMIT <= |buf| {
      TurnPrices(buf, ip, t, cur, llen);
      match TurnOf(buf, ip, t, cur)
      case Halt(_) =>
      case Next(next) => ParsePrices(buf, ip, next, cur + 1, llen);
    }
  }

  /** In the table a block ends with every price is at most that of the literals before the block and
      twice the position. */
  lemma BlockPrices(buf: seq<Byte>, ip: nat, llen: nat, m: Lz4Search.Match)
    requires Searchable(buf, ip) && HopOk(buf, ip, m.len, m.off) && m.len <= SUFFICIENT_LEN
    ensures PricesOk(BlockAt(buf, ip, llen, m).t, llen)
  {
    hide PricesOk, ParseBlock, FirstTable, Genuine;
    FirstTableOk(buf, ip, llen, m);
    FirstTablePrices(llen, m);
    ParsePrices(buf, ip, FirstTable(llen, m), 1, llen);
  }

  // ---------- 32 bits ----------

  /** In a buffer of at most MAX_PRICED bytes neither a live price, nor anything the parser computes from
      one, leaves 32 bits. */
  lemma PricesFit(buf: seq<Byte>, ip: nat, t: seq<Opt>, llen: nat, p: nat, n: nat)
    requires TableOk(buf, ip, t) && PricesOk(t, llen) && llen <= ip && |buf| <= MAX_PRICED && p < |t| && n < MINMATCH
    ensures 0 <= t[p].price && t[p].price + 3 <= I32_MAX
    ensures t[p].litlen + n <= I32_MAX && LiteralsPrice(t[p].litlen + n) <= I32_MAX
    ensures -I32_MAX <= t[p].price - LiteralsPrice(t[p].litlen)
  {
    assert PriceOk(llen, p, t[p]);
    LiteralsGrow(llen, MAX_PRICED - llen);
    LiteralsGrow(llen, p + n);
    LiteralsGrow(t[p].litlen, llen + p - t[p].litlen);
    LiteralsGrow(t[p].litlen + n, llen + p - t[p].litlen);
    assert LiteralsPrice(MAX_PRICED) + 2 * (LZ4_OPT_NUM + TRAILING_LITERALS - 1) + 3 <= I32_MAX;
    hide LiteralsPrice, EntryOk;
  }

  /** What a new match entry costs fits as well. */
  lemma MatchPriceFits(buf: seq<Byte>, ip: nat, t: seq<Opt>, llen: nat, cur: nat, len: nat, off: nat)
    requires TableOk(buf, ip, t) && PricesOk(t, llen) && llen <= ip && |buf| <= MAX_PRICED
    requires cur < |t| && MINMATCH <= len && cur + len < LZ4_OPT_NUM
    ensures 0 <= MatchEntry(t, cur, len, off).price <= I32_MAX
  {
    MatchEntryPrice(t, cur, len, off, llen);
    LiteralsGrow(llen, MAX_PRICED - llen);
    assert LiteralsPrice(MAX_PRICED) + 2 * LZ4_OPT_NUM <= I32_MAX;
    hide LiteralsPrice, MatchEntry;
  }

  /** The price of a run of literals fits exactly up to this length, which a buffer of `i32::MAX` bytes exceeds. */
  lemma LiteralsFitExactly(n: nat)
    ensures LiteralsPrice(n) <= I32_MAX <==> n <= 2_139_095_039
  {
  }
}
