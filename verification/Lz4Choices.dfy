/**
 * What the parser chooses: at every position the cheapest of the steps it knows, and how that turns out on
 * buffers whose matches are known.
 */
module Lz4Choices {
  import opened Bytes
  import opened Lz4Decoder
  import opened Lz4Encoding
  import opened Lz4Counters
  import opened Lz4Search
  import opened Lz4Longest
  import opened Lz4Parse

  // ---------- Relaxing takes the cheapest step ----------

  /** The price of `n` more literals after the step at `cur`. */
  function LiteralCost(t: seq<Opt>, cur: nat, n: nat): int
    requires cur < |t|
  {
    t[cur].price + LiteralsPrice(t[cur].litlen + n) - LiteralsPrice(t[cur].litlen)
  }

  /** The price of a match at `cur`: after a match without literals, else with the literals before it. */
  function MatchCost(t: seq<Opt>, cur: nat, len: nat): int
    requires cur < |t|
  {
    var ll := t[cur].litlen;
    if t[cur].mlen != 1 then t[cur].price + SequencePrice(0, len)
    else if ll < cur then t[cur - ll].price + SequencePrice(ll, len)
    else SequencePrice(ll, len)
  }

  /** The literals a match at `cur` follows. */
  function LiteralsBefore(t: seq<Opt>, cur: nat): nat
    requires cur < |t|
  {
    if t[cur].mlen == 1 then t[cur].litlen else 0
  }

  /** An entry is replaced by literals only when they are cheaper. */
  lemma {:induction false} LiteralsChosen(t: seq<Opt>, cur: nat, n: nat, p: nat)
    requires cur + n < |t| && n < MINMATCH && p < |t|
    ensures var k, r := p - cur, RelaxLiterals(t, cur, n)[p];
            r == if 1 <= k <= n && LiteralCost(t, cur, k) < t[p].price
                 then Opt(LiteralCost(t, cur, k), 0, 1, t[cur].litlen + k) else t[p]
  {
    hide LiteralsPrice;
    if n > 0 {
      LiteralsChosen(t, cur, n - 1, p);
    }
  }

  /** An entry is replaced by a match when that is no dearer. */
  lemma {:induction false} MatchChosen(t: seq<Opt>, cur: nat, len: nat, off: nat, p: nat)
    requires MINMATCH - 1 <= len && cur + MINMATCH <= |t| && p < Max(|t|, cur + len + 1)
    ensures var k, r := p - cur, RelaxMatch(t, cur, len, off)[p];
            r == if MINMATCH <= k <= len && (p >= |t| || MatchCost(t, cur, k) <= t[p].price)
                 then Opt(MatchCost(t, cur, k), off, k, LiteralsBefore(t, cur)) else if p < |t| then t[p] else r
  {
    hide SequencePrice;
    if len >= MINMATCH && p < Max(|t|, cur + len) {
      MatchChosen(t, cur, len - 1, off, p);
    }
  }

  /** The price of a full match at `cur` against what is known of the position it ends at. */
  ghost predicate MovesLast(t: seq<Opt>, cur: nat, len: nat)
    requires 4 <= |t| && cur + MINMATCH <= |t| && MINMATCH <= len
  {
    |t| - 4 < cur + len && (cur + len >= |t| || MatchCost(t, cur, len) <= t[cur + len].price)
  }

  lemma LastMoves(t: seq<Opt>, cur: nat, len: nat)
    requires 4 <= |t| && cur + MINMATCH <= |t| && MINMATCH <= len
    ensures |Relaxed(t, cur, Match(len, 0))| == 4 + if MovesLast(t, cur, len) then cur + len else |t| - 4
  {
    hide SequencePrice, LiteralsPrice, RelaxLiterals, RelaxMatch;
    LiteralsChosen(t, cur, 3, cur);
    LiteralsKeepBefore(t, cur);
    if cur + len < |t| {
      LiteralsChosen(t, cur, 3, cur + len);
    }
  }

  lemma LiteralsKeepBefore(t: seq<Opt>, cur: nat)
    requires cur + MINMATCH <= |t|
    ensures RelaxLiterals(t, cur, 3)[..cur + 1] == t[..cur + 1]
  {
    hide LiteralsPrice, RelaxLiterals;
    var r := RelaxLiterals(t, cur, 3);
    forall p | 0 <= p <= cur
      ensures r[p] == t[p]
    {
      LiteralsChosen(t, cur, 3, p);
    }
  }

  /** What the parser knows of position `p` after a match of `len` bytes was found at `cur`: the cheapest of the
      step it had, more literals and the match shortened to end there. Ties keep the old step against literals
      and take the match against the old step. */
  function Cheapest(t: seq<Opt>, cur: nat, len: nat, off: nat, p: nat): Opt
    requires cur + MINMATCH <= |t| && (p < |t| || cur + MINMATCH <= p)
  {
    var k := p - cur;
    if MINMATCH <= k <= len && (p >= |t| || MatchCost(t, cur, k) <= t[p].price)
    then Opt(MatchCost(t, cur, k), off, k, LiteralsBefore(t, cur))
    else if p >= |t| then Literal(0, 0)
    else if 1 <= k < MINMATCH && LiteralCost(t, cur, k) < t[p].price
    then Opt(LiteralCost(t, cur, k), 0, 1, t[cur].litlen + k)
    else t[p]
  }

  /** Every entry up to the last match position is the cheapest; the three after it are literals. */
  lemma RelaxedChooses(t: seq<Opt>, cur: nat, m: Match, p: nat)
    requires MINMATCH <= m.len && 4 <= |t| && cur + MINMATCH <= |t| && p < |Relaxed(t, cur, m)|
    ensures var r := Relaxed(t, cur, m);
            var last := if MovesLast(t, cur, m.len) then cur + m.len else |t| - 4;
            && |r| == last + 4
            && (p <= last ==> p < |t| || cur + MINMATCH <= p <= cur + m.len)
            && (p <= last ==> r[p] == Cheapest(t, cur, m.len, m.off, p))
            && (last < p ==> r[p] == Opt(r[last].price + LiteralsPrice(p - last), 0, 1, p - last))
  {
    hide SequencePrice, LiteralsPrice, RelaxLiterals, RelaxMatch, MatchCost, LiteralCost, LastAfter;
    LastMoves(t, cur, m.len);
    var t1 := RelaxLiterals(t, cur, 3);
    var last := LastAfter(t1, cur, m.len);
    SameLast(t1, cur, m);
    if p <= last {
      LiteralsKeepBefore(t, cur);
      SameCosts(t, t1, cur, p - cur);
      if p < |t| {
        LiteralsChosen(t, cur, 3, p);
      }
      MatchChosen(t1, cur, m.len, m.off, p);
    }
  }

  lemma SameLast(t1: seq<Opt>, cur: nat, m: Match)
    requires MINMATCH <= m.len && 4 <= |t1| && cur + MINMATCH <= |t1|
    ensures LastAfter(t1, cur, m.len) < |RelaxMatch(t1, cur, m.len, m.off)|
  {
    hide MatchWins, RelaxMatch;
  }

  /** The costs at `cur` look only at entries up to `cur`. */
  lemma SameCosts(t: seq<Opt>, u: seq<Opt>, cur: nat, k: int)
    requires cur < |t| && cur < |u| && t[..cur + 1] == u[..cur + 1]
    ensures k >= 0 ==> MatchCost(t, cur, k) == MatchCost(u, cur, k)
    ensures LiteralsBefore(t, cur) == LiteralsBefore(u, cur)
  {
    hide SequencePrice;
    assert t[cur] == t[..cur + 1][cur] == u[..cur + 1][cur] == u[cur];
    var ll := t[cur].litlen;
    if ll < cur {
      assert t[cur - ll] == t[..cur + 1][cur - ll] == u[..cur + 1][cur - ll] == u[cur - ll];
    }
  }

  /** A position is searched unless the next byte costs no more than this one and a match from here could
      not save the price of a sequence; what the search finds is then used, at once when it is long. */
  lemma TurnSearches(buf: seq<Byte>, ip: nat, t: seq<Opt>, cur: nat)
    requires LZ4_MINLENGTH <= |buf| && TableOk(buf, ip, t) && 1 <= cur < |t| - 4 && ip + cur + MFLIMIT <= |buf|
    ensures var m := FindMatch(buf, ip + cur);
            var idle := t[cur + 1].price <= t[cur].price && t[cur + 4].price < t[cur].price + 3;
            TurnOf(buf, ip, t, cur)
            == if idle || m.len == 0 then Next(t)
               else if m.len > 64 || m.len + cur >= 4096 then Halt(BlockEnd(t, cur, Hop(m.len, m.off)))
               else Next(Relaxed(t, cur, m))
  {
    hide FindMatch, Relaxed, Genuine, EntryOk;
  }

  // ---------- A run of one byte ----------

  ghost predicate OneByte(buf: seq<Byte>, b: Byte) {
    forall i :: 0 <= i < |buf| ==> buf[i] == b
  }

  /** The second byte of a run starts a match up to the last five bytes. */
  lemma RunMatch(buf: seq<Byte>, b: Byte)
    requires OneByte(buf, b) && |buf| > 70
    ensures FindMatch(buf, 0).len == 0 && FindMatch(buf, 1) == Match(|buf| - 6, 1)
  {
    hide Exhausts, FindMatch, CommonLength;
    Exhaustive(buf, 0);
    Exhaustive(buf, 1);
    FindsLongest(buf, 0);
    FindsLongest(buf, 1);
    CommonLengthUnique(buf, 1, 1, Limit(buf), Limit(buf));
    assert InWindow(1, 0) && Reach(buf, 1, 0) == |buf| - 6;
  }

  lemma RunBytesOf(buf: seq<Byte>, b: Byte)
    requires OneByte(buf, b) && |buf| > 70 && ValidParse(buf, [MatchAt(1, |buf| - 6, 1)])
    ensures Encoded(buf, [MatchAt(1, |buf| - 6, 1)])
            == [0x1F, b, 1, 0] + RunBytes(|buf| - 25) + [0x50, b, b, b, b, b]
  {
    hide RunBytes, Genuine, SequenceBytes;
    var n, ms := |buf|, [MatchAt(1, |buf| - 6, 1)];
    assert ms[..0] == [] && MatchBytes(buf, []) == [];
    assert buf[0..1] == [b] && buf[n - 5..] == [b, b, b, b, b];
    assert MatchBytes(buf, ms) == [] + SequenceBytes(buf[0..1], 1, n - 6);
    LongSequence(b, n - 6);
    hide MatchBytes;
  }

  lemma LongSequence(b: Byte, len: nat)
    requires len >= 19
    ensures SequenceBytes([b], 1, len) == [0x1F, b, 1, 0] + RunBytes(len - 19)
  {
    hide RunBytes;
    assert Token(1, len - MINMATCH) == 0x1F && OffsetBytes(1) == [1, 0];
  }

  /** A run of more than 70 equal bytes is compressed to one literal, one match and five literals. */
  lemma CompressedRun(buf: seq<Byte>, b: Byte)
    requires OneByte(buf, b) && |buf| > 70
    ensures Parse(buf) == [MatchAt(1, |buf| - 6, 1)]
    ensures Compressed(buf) == [0x1F, b, 1, 0] + RunBytes(|buf| - 25) + [0x50, b, b, b, b, b]
  {
    hide FindMatch, BlockAt, Genuine;
    RunMatch(buf, b);
    var ms := [MatchAt(1, |buf| - 6, 1)];
    ParseExtends(buf, [], 1, |buf| - 6, 1);
    assert [] + ms == ms;
    assert ParseFrom(buf, |buf| - 5, ms) == ms;
    assert ParseFrom(buf, 1, []) == ms;
    RunBytesOf(buf, b);
  }

  // ---------- From block to block ----------

  ghost predicate NoMatchIn(buf: seq<Byte>, ip: nat, q: nat) {
    forall p: nat :: ip <= p < q && Searchable(buf, p) ==> FindMatch(buf, p).len == 0
  }

  /** Places where the search finds nothing become literals; the parse goes on at the first other place. */
  lemma {:induction false} SkipsUnmatched(buf: seq<Byte>, ip: nat, q: nat, ms: seq<MatchAt>)
    requires 13 <= |buf| && ip <= q <= |buf| && ParseOk(buf, ms, ip) && NoMatchIn(buf, ip, q)
    ensures ParseOk(buf, ms, q) && ParseFrom(buf, ip, ms) == ParseFrom(buf, q, ms)
    decreases q - ip
  {
    hide FindMatch, BlockAt, AfterBlock, ValidParse, AllKeep;
    if ip < q && ip + MFLIMIT <= |buf| {
      SkipsUnmatched(buf, ip + 1, q, ms);
    }
  }

  /** A match of more than 64 bytes at the first place with any is taken whole. */
  lemma TakesLongMatch(buf: seq<Byte>, ip: nat, q: nat, ms: seq<MatchAt>)
    requires 13 <= |buf| && ip <= q && ParseOk(buf, ms, ip) && NoMatchIn(buf, ip, q)
    requires q + 12 <= |buf| && FindMatch(buf, q).len > 64
    ensures var m := FindMatch(buf, q);
            var next := ms + [MatchAt(q, m.len, m.off)];
            ParseOk(buf, next, q + m.len) && ParseFrom(buf, ip, ms) == ParseFrom(buf, q + m.len, next)
  {
    SkipsUnmatched(buf, ip, q, ms);
    var m := FindMatch(buf, q);
    ParseExtends(buf, ms, q, m.len, m.off);
    hide FindMatch, BlockAt, AfterBlock, ValidParse, AllKeep, Genuine;
  }

  /** A buffer in which the search finds nothing is stored as literals. */
  lemma OnlyLiterals(buf: seq<Byte>)
    requires NoMatchIn(buf, 0, |buf|)
    ensures Parse(buf) == [] && Compressed(buf) == LastBytes(buf)
  {
    hide FindMatch, LastBytes;
    if LZ4_MINLENGTH <= |buf| {
      SkipsUnmatched(buf, 0, |buf|, []);
    }
    assert buf[0..] == buf && [] + LastBytes(buf) == LastBytes(buf);
  }
}
