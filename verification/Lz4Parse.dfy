/**
 * The price-driven parse, on values: a table whose entry at `p` is the last step of the cheapest
 * known way to cover the first `p` bytes of a block. Whatever the prices, the steps of a table
 * tile the block, and each is a literal or a genuine match.
 */
module Lz4Parse {
  import opened Bytes
  import opened Lz4Decoder
  import opened Lz4Encoding
  import opened Lz4Search

  const LZ4_OPT_NUM := 0x1000
  const TRAILING_LITERALS := 3
  const SUFFICIENT_LEN := 64

  datatype Opt = Opt(price: int, off: nat, mlen: nat, litlen: nat)

  /** One byte of literal (`mlen` 1) or a match. */
  datatype Hop = Hop(mlen: nat, off: nat)

  function Literal(price: int, litlen: nat): Opt {
    Opt(price, 0, 1, litlen)
  }

  // ---------- Tables ----------

  /** A step that ends at `p`, counted from `ip`: one literal, or a genuine match. */
  ghost predicate EntryOk(buf: seq<Byte>, ip: nat, p: nat, mlen: nat, off: nat) {
    1 <= mlen <= p && (mlen == 1 || HopOk(buf, ip + p - mlen, mlen, off))
  }

  ghost predicate HopOk(buf: seq<Byte>, pos: nat, mlen: nat, off: nat) {
    MINMATCH <= mlen && Genuine(buf, pos, mlen, off) && KeepsEndOfBlock(buf, MatchAt(pos, mlen, off))
  }

  /** A live table: entries up to three literals past the last match position, |t| - 4. */
  ghost predicate TableOk(buf: seq<Byte>, ip: nat, t: seq<Opt>) {
    && 4 < |t| <= LZ4_OPT_NUM + TRAILING_LITERALS
    && ip + |t| - 4 + LASTLITERALS <= |buf|
    && t[0].mlen == 1
    && forall p :: 1 <= p < |t| ==> EntryOk(buf, ip, p, t[p].mlen, t[p].off)
  }

  /** Three literals after the last entry. */
  function WithTrailing(t: seq<Opt>): (r: seq<Opt>)
    requires t != []
    ensures |r| == |t| + 3 && r[..|t|] == t
  {
    var price := t[|t| - 1].price;
    t + [Literal(price + LiteralsPrice(1), 1), Literal(price + LiteralsPrice(2), 2),
         Literal(price + LiteralsPrice(3), 3)]
  }

  function FirstLiterals(llen: nat): (r: seq<Opt>)
    ensures |r| == 4
  {
    [Literal(LiteralsPrice(llen), llen), Literal(LiteralsPrice(llen + 1), llen + 1),
     Literal(LiteralsPrice(llen + 2), llen + 2), Literal(LiteralsPrice(llen + 3), llen + 3)]
  }

  /** The first match, in every length from the minimum to `len`. */
  function FirstEntries(llen: nat, len: nat, off: nat): (r: seq<Opt>)
    requires MINMATCH - 1 <= len
    ensures |r| == len + 1
  {
    if len < MINMATCH then FirstLiterals(llen)
    else FirstEntries(llen, len - 1, off) + [Opt(SequencePrice(llen, len), off, len, llen)]
  }

  function FirstTable(llen: nat, m: Match): seq<Opt>
    requires MINMATCH <= m.len
  {
    WithTrailing(FirstEntries(llen, m.len, m.off))
  }

  /** One, two or three literals after position `cur`, where that is cheaper. */
  function RelaxLiterals(t: seq<Opt>, cur: nat, n: nat): (r: seq<Opt>)
    requires cur + n < |t| && n < MINMATCH
    ensures |r| == |t|
  {
    if n == 0 then t else
    var r := RelaxLiterals(t, cur, n - 1);
    var base := t[cur].litlen;
    var price := t[cur].price - LiteralsPrice(base) + LiteralsPrice(base + n);
    if price < r[cur + n].price then r[cur + n := Literal(price, base + n)] else r
  }

  /** The literals a match at `cur` would follow, and the price up to where they start. */
  function MatchBase(t: seq<Opt>, cur: nat): (nat, int)
    requires cur < |t|
  {
    if t[cur].mlen == 1 then
      (t[cur].litlen, if cur > t[cur].litlen then t[cur - t[cur].litlen].price else 0)
    else (0, t[cur].price)
  }

  function MatchEntry(t: seq<Opt>, cur: nat, len: nat, off: nat): Opt
    requires cur < |t|
  {
    var (ll, price) := MatchBase(t, cur);
    Opt(price + SequencePrice(ll, len), off, len, ll)
  }

  /** The match at `cur` in every length up to `len`, where that is no dearer or the table ends. */
  function RelaxMatch(t: seq<Opt>, cur: nat, len: nat, off: nat): (r: seq<Opt>)
    requires MINMATCH - 1 <= len && cur + MINMATCH <= |t|
    ensures |r| == Max(|t|, cur + len + 1)
    ensures forall k :: cur + len < k < |t| ==> r[k] == t[k]
  {
    if len < MINMATCH then t else
    var r := RelaxMatch(t, cur, len - 1, off);
    var p := cur + len;
    var entry := MatchEntry(t, cur, len, off);
    if p == |r| then r + [entry]
    else if MatchWins(t, cur, len) then r[p := entry]
    else r
  }

  /** The entry at `cur + len` is beyond the table or no cheaper. */
  predicate MatchWins(t: seq<Opt>, cur: nat, len: nat)
    requires cur < |t|
  {
    cur + len >= |t| || MatchEntry(t, cur, len, 0).price <= t[cur + len].price
  }

  /** The last match position after relaxing: it moves only when the full match is entered. */
  function LastAfter(t: seq<Opt>, cur: nat, len: nat): nat
    requires 4 <= |t| && cur < |t|
  {
    if MatchWins(t, cur, len) && |t| - 4 < cur + len then cur + len else |t| - 4
  }

  function Relaxed(t: seq<Opt>, cur: nat, m: Match): seq<Opt>
    requires MINMATCH <= m.len && cur + MINMATCH <= |t| && 4 <= |t|
  {
    var t1 := RelaxLiterals(t, cur, 3);
    var t2 := RelaxMatch(t1, cur, m.len, m.off);
    WithTrailing(t2[..LastAfter(t1, cur, m.len) + 1])
  }

  // ---------- Tables stay well formed ----------

  lemma {:induction false} FirstEntriesOk(buf: seq<Byte>, ip: nat, llen: nat, len: nat, full: nat, off: nat, p: nat)
    requires MINMATCH - 1 <= len <= full && HopOk(buf, ip, full, off) && 1 <= p <= len
    ensures var e := FirstEntries(llen, len, off); EntryOk(buf, ip, p, e[p].mlen, e[p].off)
  {
    if len >= MINMATCH && p < len {
      FirstEntriesOk(buf, ip, llen, len - 1, full, off, p);
    }
  }

  lemma {:induction false} FirstEntriesStart(llen: nat, len: nat, off: nat)
    requires MINMATCH - 1 <= len
    ensures FirstEntries(llen, len, off)[0].mlen == 1
  {
    if len >= MINMATCH {
      FirstEntriesStart(llen, len - 1, off);
    }
  }

  lemma FirstTableOk(buf: seq<Byte>, ip: nat, llen: nat, m: Match)
    requires HopOk(buf, ip, m.len, m.off) && m.len <= SUFFICIENT_LEN
    ensures TableOk(buf, ip, FirstTable(llen, m))
  {
    hide Genuine;
    var e := FirstEntries(llen, m.len, m.off);
    var t := FirstTable(llen, m);
    FirstEntriesStart(llen, m.len, m.off);
    assert t[0] == e[0];
    forall p | 1 <= p < |t|
      ensures EntryOk(buf, ip, p, t[p].mlen, t[p].off)
    {
      if p <= m.len {
        FirstEntriesOk(buf, ip, llen, m.len, m.len, m.off, p);
        assert t[p] == e[p];
      }
    }
  }

  lemma {:induction false} RelaxLiteralsOk(buf: seq<Byte>, ip: nat, t: seq<Opt>, cur: nat, n: nat)
    requires TableOk(buf, ip, t) && cur + n < |t| && n < MINMATCH
    ensures TableOk(buf, ip, RelaxLiterals(t, cur, n))
  {
    hide HopOk;
    if n > 0 {
      RelaxLiteralsOk(buf, ip, t, cur, n - 1);
    }
  }

  /** Shortened or not, a match found at `cur` makes good entries; the others are kept. */
  lemma {:induction false} RelaxMatchOk(buf: seq<Byte>, ip: nat, t: seq<Opt>, cur: nat, len: nat, full: nat,
      off: nat, p: nat)
    requires TableOk(buf, ip, t) && 1 <= cur && cur + MINMATCH <= |t|
    requires MINMATCH - 1 <= len <= full && HopOk(buf, ip + cur, full, off)
    requires 1 <= p < Max(|t|, cur + len + 1)
    ensures var r := RelaxMatch(t, cur, len, off); r[0].mlen == 1 && EntryOk(buf, ip, p, r[p].mlen, r[p].off)
  {
    if len >= MINMATCH {
      if p < Max(|t|, cur + len) {
        RelaxMatchOk(buf, ip, t, cur, len - 1, full, off, p);
      } else {
        RelaxMatchOk(buf, ip, t, cur, len - 1, full, off, 1);
      }
      assert HopOk(buf, ip + cur, len, off);
    }
  }

  lemma RelaxedOk(buf: seq<Byte>, ip: nat, t: seq<Opt>, cur: nat, m: Match)
    requires TableOk(buf, ip, t) && 1 <= cur < |t| - 4
    requires HopOk(buf, ip + cur, m.len, m.off) && m.len + cur < LZ4_OPT_NUM
    ensures TableOk(buf, ip, Relaxed(t, cur, m)) && |t| <= |Relaxed(t, cur, m)|
  {
    hide Genuine, MatchWins;
    var t1 := RelaxLiterals(t, cur, 3);
    RelaxLiteralsOk(buf, ip, t, cur, 3);
    var t2 := RelaxMatch(t1, cur, m.len, m.off);
    var r := Relaxed(t, cur, m);
    forall p | 1 <= p < |t2|
      ensures t2[0].mlen == 1 && EntryOk(buf, ip, p, t2[p].mlen, t2[p].off)
    {
      RelaxMatchOk(buf, ip, t1, cur, m.len, m.len, m.off, p);
    }
    assert EntryOk(buf, ip, 1, t2[1].mlen, t2[1].off);
    forall p | 1 <= p < |r|
      ensures EntryOk(buf, ip, p, r[p].mlen, r[p].off)
    {
      if p < |r| - 3 {
        assert r[p] == t2[p];
      }
    }
    assert r[0] == t2[0];
  }

  // ---------- Walking a table back ----------

  ghost predicate Linked(t: seq<Opt>) {
    t != [] && t[0].mlen == 1 && forall p :: 1 <= p < |t| ==> 1 <= t[p].mlen <= p
  }

  /** The hops that lead to position `p`. */
  ghost function PathTo(t: seq<Opt>, p: nat): seq<Hop>
    requires Linked(t) && p < |t|
    decreases p
  {
    if p == 0 then [] else PathTo(t, p - t[p].mlen) + [Hop(t[p].mlen, t[p].off)]
  }

  function Total(hops: seq<Hop>): nat {
    if hops == [] then 0 else Total(hops[..|hops| - 1]) + hops[|hops| - 1].mlen
  }

  /** The hops, laid end to end from `ip`, are literals and genuine matches. */
  ghost predicate HopsOk(buf: seq<Byte>, ip: nat, hops: seq<Hop>) {
    hops == [] ||
    var front, hop := hops[..|hops| - 1], hops[|hops| - 1];
    HopsOk(buf, ip, front) && (hop.mlen == 1 || HopOk(buf, ip + Total(front), hop.mlen, hop.off))
  }

  lemma {:induction false} HopsPrefix(buf: seq<Byte>, ip: nat, hops: seq<Hop>, n: nat)
    requires HopsOk(buf, ip, hops) && n <= |hops|
    ensures HopsOk(buf, ip, hops[..n])
  {
    hide HopOk;
    if n < |hops| {
      HopsPrefix(buf, ip, hops[..|hops| - 1], n);
      assert hops[..|hops| - 1][..n] == hops[..n];
    } else {
      assert hops[..n] == hops;
    }
  }

  /** Every table walks back to the start of its block: the hops tile its first `p` bytes. */
  lemma {:induction false} PathTiles(buf: seq<Byte>, ip: nat, t: seq<Opt>, p: nat)
    requires TableOk(buf, ip, t) && p < |t|
    ensures Linked(t) && Total(PathTo(t, p)) == p && HopsOk(buf, ip, PathTo(t, p))
    decreases p
  {
    hide HopOk;
    assert Linked(t);
    if p > 0 {
      var q := p - t[p].mlen;
      PathTiles(buf, ip, t, q);
      assert PathTo(t, p)[..|PathTo(t, q)|] == PathTo(t, q);
    }
  }

  /** The matches among hops laid end to end from `ip`. */
  ghost function Place(ip: nat, hops: seq<Hop>): seq<MatchAt> {
    if hops == [] then [] else
    var front, hop := hops[..|hops| - 1], hops[|hops| - 1];
    Place(ip, front) + if hop.mlen == 1 then [] else [MatchAt(ip + Total(front), hop.mlen, hop.off)]
  }

  lemma TotalPrefix(hops: seq<Hop>, i: nat)
    requires i <= |hops|
    ensures Total(hops[..i]) <= Total(hops)
  {
    if i < |hops| {
      TotalPrefix(hops[..|hops| - 1], i);
      assert hops[..|hops| - 1][..i] == hops[..i];
    } else {
      assert hops[..i] == hops;
    }
  }

  lemma TotalFront(hops: seq<Hop>, i: nat)
    requires i < |hops|
    ensures Total(hops[..i]) <= Total(hops[..|hops| - 1])
  {
    TotalPrefix(hops[..|hops| - 1], i);
    assert hops[..|hops| - 1][..i] == hops[..i];
  }

  /** Hop `i`, where it starts and what it adds. */
  lemma HopAt(buf: seq<Byte>, ip: nat, hops: seq<Hop>, i: nat)
    requires HopsOk(buf, ip, hops) && i < |hops|
    ensures hops[i].mlen == 1 || HopOk(buf, ip + Total(hops[..i]), hops[i].mlen, hops[i].off)
    ensures Total(hops[..i + 1]) == Total(hops[..i]) + hops[i].mlen <= Total(hops)
    ensures Place(ip, hops[..i + 1])
            == Place(ip, hops[..i])
               + if hops[i].mlen == 1 then [] else [MatchAt(ip + Total(hops[..i]), hops[i].mlen, hops[i].off)]
  {
    hide HopOk;
    HopsPrefix(buf, ip, hops, i + 1);
    TotalPrefix(hops, i + 1);
    assert hops[..i + 1][..i] == hops[..i];
  }

  ghost predicate AllKeep(buf: seq<Byte>, ms: seq<MatchAt>) {
    forall i :: 0 <= i < |ms| ==> KeepsEndOfBlock(buf, ms[i])
  }

  /** A valid parse that obeys the end-of-block conditions and ends by `ip`. */
  ghost predicate ParseOk(buf: seq<Byte>, ms: seq<MatchAt>, ip: nat) {
    ValidParse(buf, ms) && AllKeep(buf, ms) && EndOf(ms) <= ip
  }

  lemma ParseExtends(buf: seq<Byte>, ms: seq<MatchAt>, ip: nat, len: nat, off: nat)
    requires ParseOk(buf, ms, ip) && HopOk(buf, ip, len, off)
    ensures ParseOk(buf, ms + [MatchAt(ip, len, off)], ip + len)
  {
    assert (ms + [MatchAt(ip, len, off)])[..|ms|] == ms;
  }

  lemma {:induction false} PlaceOk(buf: seq<Byte>, ms: seq<MatchAt>, ip: nat, hops: seq<Hop>)
    requires ParseOk(buf, ms, ip) && HopsOk(buf, ip, hops)
    ensures ParseOk(buf, ms + Place(ip, hops), ip + Total(hops))
  {
    hide HopOk, ValidParse, AllKeep;
    if hops == [] {
      assert ms + [] == ms;
    } else {
      var front, hop := hops[..|hops| - 1], hops[|hops| - 1];
      PlaceOk(buf, ms, ip, front);
      if hop.mlen == 1 {
        assert Place(ip, hops) == Place(ip, front);
      } else {
        ParseExtends(buf, ms + Place(ip, front), ip + Total(front), hop.mlen, hop.off);
        assert ms + Place(ip, hops) == ms + Place(ip, front) + [MatchAt(ip + Total(front), hop.mlen, hop.off)];
      }
    }
  }

  // ---------- One block ----------

  /** Where the parse of a block stops: a table, a position in it and the hop to take from there. */
  datatype BlockEnd = BlockEnd(t: seq<Opt>, cur: nat, final: Hop)

  /** Why a position needs no search: the next byte is already reached as cheaply by a match. */
  predicate Skips(t: seq<Opt>, cur: nat)
    requires cur + MINMATCH < |t|
  {
    t[cur + 1].price <= t[cur].price && t[cur + MINMATCH].price < t[cur].price + 3
  }

  ghost predicate BlockEndOk(buf: seq<Byte>, ip: nat, r: BlockEnd) {
    && TableOk(buf, ip, r.t) && r.cur < |r.t|
    && 1 <= r.cur + r.final.mlen && ip + r.cur + r.final.mlen <= |buf|
    && (r.final.mlen == 1 || HopOk(buf, ip + r.cur, r.final.mlen, r.final.off))
  }

  /** The block ends at its last match position: the final hop is the table's last step. */
  ghost function StopAtLast(buf: seq<Byte>, ip: nat, t: seq<Opt>): (r: BlockEnd)
    requires TableOk(buf, ip, t)
    ensures BlockEndOk(buf, ip, r)
  {
    var last := |t| - 4;
    assert EntryOk(buf, ip, last, t[last].mlen, t[last].off);
    BlockEnd(t, last - t[last].mlen, Hop(t[last].mlen, t[last].off))
  }

  datatype TurnResult = Halt(end: BlockEnd) | Next(t: seq<Opt>)

  /** One position of a block: skip it, search there and relax the table, or stop on a long match. */
  ghost function TurnOf(buf: seq<Byte>, ip: nat, t: seq<Opt>, cur: nat): (r: TurnResult)
    requires LZ4_MINLENGTH <= |buf| && TableOk(buf, ip, t) && 1 <= cur < |t| - 4 && ip + cur + MFLIMIT <= |buf|
    ensures r.Halt? ==> BlockEndOk(buf, ip, r.end)
    ensures r.Next? ==> TableOk(buf, ip, r.t) && |t| <= |r.t|
  {
    hide Genuine, Relaxed, Skips, EntryOk, FindMatch;
    if Skips(t, cur) then Next(t)
    else
      var m := FindMatch(buf, ip + cur);
      if m.len == 0 then Next(t)
      else if m.len > SUFFICIENT_LEN || m.len + cur >= LZ4_OPT_NUM then Halt(BlockEnd(t, cur, Hop(m.len, m.off)))
      else
        RelaxedOk(buf, ip, t, cur, m);
        Next(Relaxed(t, cur, m))
  }

  ghost function ParseBlock(buf: seq<Byte>, ip: nat, t: seq<Opt>, cur: nat): (r: BlockEnd)
    requires LZ4_MINLENGTH <= |buf| && TableOk(buf, ip, t) && 1 <= cur <= |t| - 4
    ensures BlockEndOk(buf, ip, r)
    decreases LZ4_OPT_NUM - cur
  {
    if cur >= |t| - 4 || ip + cur + MFLIMIT > |buf| then StopAtLast(buf, ip, t)
    else
      match TurnOf(buf, ip, t, cur)
      case Halt(end) => end
      case Next(next) => ParseBlock(buf, ip, next, cur + 1)
  }

  lemma ParseBlockDone(buf: seq<Byte>, ip: nat, t: seq<Opt>, cur: nat)
    requires LZ4_MINLENGTH <= |buf| && TableOk(buf, ip, t) && 1 <= cur <= |t| - 4
    requires cur == |t| - 4 || ip + cur + MFLIMIT > |buf|
    ensures var last := |t| - 4;
            && t[last].mlen <= last
            && ParseBlock(buf, ip, t, cur) == BlockEnd(t, last - t[last].mlen, Hop(t[last].mlen, t[last].off))
  {
  }

  /** The hops of a block: back from where the parse stopped, then the final hop. */
  ghost function HopsOf(r: BlockEnd): seq<Hop>
    requires Linked(r.t) && r.cur < |r.t|
  {
    PathTo(r.t, r.cur) + [r.final]
  }

  lemma BlockTiles(buf: seq<Byte>, ip: nat, r: BlockEnd)
    requires BlockEndOk(buf, ip, r)
    ensures Linked(r.t) && HopsOk(buf, ip, HopsOf(r)) && Total(HopsOf(r)) == r.cur + r.final.mlen
  {
    hide HopOk;
    PathTiles(buf, ip, r.t, r.cur);
    assert HopsOf(r)[..|PathTo(r.t, r.cur)|] == PathTo(r.t, r.cur);
  }

  /** The parse of the block that starts with match `m` at `ip`, after `llen` literals. */
  ghost function BlockAt(buf: seq<Byte>, ip: nat, llen: nat, m: Match): (r: BlockEnd)
    requires Searchable(buf, ip) && HopOk(buf, ip, m.len, m.off) && m.len <= SUFFICIENT_LEN
    ensures BlockEndOk(buf, ip, r)
  {
    FirstTableOk(buf, ip, llen, m);
    ParseBlock(buf, ip, FirstTable(llen, m), 1)
  }

  ghost function AfterBlock(buf: seq<Byte>, ip: nat, ms: seq<MatchAt>, r: BlockEnd): (after: seq<MatchAt>)
    requires ParseOk(buf, ms, ip) && BlockEndOk(buf, ip, r)
    ensures ParseOk(buf, after, ip + r.cur + r.final.mlen)
  {
    BlockTiles(buf, ip, r);
    PlaceOk(buf, ms, ip, HopsOf(r));
    ms + Place(ip, HopsOf(r))
  }

  // ---------- The whole parse ----------

  ghost function ParseFrom(buf: seq<Byte>, ip: nat, ms: seq<MatchAt>): (r: seq<MatchAt>)
    requires LZ4_MINLENGTH <= |buf| && ip <= |buf| && ParseOk(buf, ms, ip)
    ensures ParseOk(buf, r, |buf|)
    decreases |buf| - ip
  {
    if ip + MFLIMIT > |buf| then ms
    else
      var m := FindMatch(buf, ip);
      if m.len == 0 then ParseFrom(buf, ip + 1, ms)
      else if m.len > SUFFICIENT_LEN then
        ParseExtends(buf, ms, ip, m.len, m.off);
        ParseFrom(buf, ip + m.len, ms + [MatchAt(ip, m.len, m.off)])
      else
        var r := BlockAt(buf, ip, ip - EndOf(ms), m);
        ParseFrom(buf, ip + r.cur + r.final.mlen, AfterBlock(buf, ip, ms, r))
  }

  /** The matches the compressor chooses for a buffer. */
  ghost function Parse(buf: seq<Byte>): (ms: seq<MatchAt>)
    ensures ParseOk(buf, ms, |buf|)
  {
    if |buf| < LZ4_MINLENGTH then [] else ParseFrom(buf, 0, [])
  }

  /** The compressed form of a buffer, as a function of the buffer alone. */
  ghost function Compressed(buf: seq<Byte>): seq<Byte> {
    Encoded(buf, Parse(buf))
  }

  /** Decompressing what was compressed gives the buffer back. */
  lemma DecompressCompressed(buf: seq<Byte>)
    requires |buf| <= MAX_DECOMPRESS_BYTES
    ensures Decoded(Compressed(buf), |buf|) == Ok(buf)
  {
    RoundTrip(buf, Parse(buf));
  }

  /** The compressed form fits the capacity reserved for it. */
  lemma CompressedSize(buf: seq<Byte>)
    ensures |Compressed(buf)| <= |buf| + |buf| / 255 + 16
  {
    EncodedSize(buf, Parse(buf));
  }

  /** No match starts within the last eleven bytes, and the last five bytes are literals. */
  lemma EndOfBlock(buf: seq<Byte>)
    ensures forall m :: m in Parse(buf) ==> m.pos + 12 <= |buf| && m.pos + m.len + 5 <= |buf|
    ensures |buf| < 13 ==> Parse(buf) == []
  {
  }
}
