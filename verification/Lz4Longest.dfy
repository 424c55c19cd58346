/**
 * Which match the search finds. No step passes over a place that matches further than the longest match so
 * far, so a search that exhausts its chain has found the longest match in the window, and the nearest of
 * that length.
 */
module Lz4Longest {
  import opened Bytes
  import opened Lz4Decoder
  import opened Lz4Encoding
  import opened Lz4Counters
  import opened Lz4Tables
  import opened Lz4Search

  // ---------- How far a place matches ----------

  /** How many bytes from `p` on equal those from `ip` on, short of the limit. */
  ghost function Reach(buf: seq<Byte>, ip: nat, p: nat): (r: nat)
    requires Searchable(buf, ip) && p < ip
    ensures ip + r <= Limit(buf)
  {
    CommonLength(buf, ip, ip - p, Limit(buf))
  }

  /** Offsets are at most 65535. */
  ghost predicate InWindow(ip: nat, p: nat) {
    p < ip <= p + 65535
  }

  /** Equality up to the reach, and a difference or the limit at it. */
  lemma ReachBytes(buf: seq<Byte>, ip: nat, p: nat)
    requires Searchable(buf, ip) && p < ip
    ensures var r := Reach(buf, ip, p);
            && SameBehind(buf, ip, ip + r, ip - p)
            && (ip + r < Limit(buf) ==> buf[ip + r] != buf[p + r])
  {
    hide SameBehind;
  }

  ghost predicate SameAt(buf: seq<Byte>, k: nat, off: nat)
    requires off <= k < |buf|
  {
    buf[k] == buf[k - off]
  }

  lemma ReachAtLeast(buf: seq<Byte>, ip: nat, p: nat, n: nat)
    requires Searchable(buf, ip) && p < ip && ip + n <= Limit(buf) && SameBehind(buf, ip, ip + n, ip - p)
    ensures n <= Reach(buf, ip, p)
  {
    hide Reach, Limit;
    ReachBytes(buf, ip, p);
  }

  /** The bytes where a place reaches `n` are those of the search position. */
  lemma ReachWord(buf: seq<Byte>, ip: nat, p: nat, at: nat, n: nat)
    requires Searchable(buf, ip) && p < ip && at + n <= Reach(buf, ip, p)
    ensures Word(buf, p + at, n) == Word(buf, ip + at, n)
  {
    hide Reach;
    ReachBytes(buf, ip, p);
    var off, a, b := ip - p, Word(buf, p + at, n), Word(buf, ip + at, n);
    forall k | 0 <= k < n
      ensures a[k] == b[k]
    {
      assert SameAt(buf, ip + at + k, off);
    }
  }

  // ---------- Probing ----------

  /** The probe counts the reach, unless the place is not longer than the longest so far. */
  lemma ProbeIsReach(buf: seq<Byte>, ip: nat, m: nat, longest: nat)
    requires Searchable(buf, ip) && m < ip && 3 <= longest && ip + longest <= Limit(buf)
    ensures var len, r := Probe(buf, ip, m, longest), Reach(buf, ip, m);
            len == r || (len == 0 && r <= longest)
  {
    hide CommonLength, Reach, Word;
    if Word(buf, m, 4) == Word(buf, ip, 4) {
      ProbeCounts(buf, ip, m);
    }
    if Reach(buf, ip, m) > longest {
      ReachWord(buf, ip, m, 0, 4);
      ReachWord(buf, ip, m, longest - 1, 2);
    }
  }

  lemma WordSame(buf: seq<Byte>, i: nat, off: nat, n: nat)
    requires off <= i && i + n <= |buf| && Word(buf, i - off, n) == Word(buf, i, n)
    ensures SameBehind(buf, i, i + n, off)
  {
    var a, b := Word(buf, i - off, n), Word(buf, i, n);
    forall k | i <= k < i + n
      ensures buf[k] == buf[k - off]
    {
      assert a[k - i] == b[k - i];
    }
  }

  lemma ProbeCounts(buf: seq<Byte>, ip: nat, m: nat)
    requires Searchable(buf, ip) && m < ip && Word(buf, m, 4) == Word(buf, ip, 4)
    ensures MINMATCH + CommonLength(buf, ip + MINMATCH, ip - m, Limit(buf)) == Reach(buf, ip, m)
  {
    var off, n := ip - m, CommonLength(buf, ip + MINMATCH, ip - m, Limit(buf));
    assert SameBehind(buf, ip + 4, ip + 4 + n, off);
    hide CommonLength, Word, SameBehind;
    WordSame(buf, ip, off, 4);
    SameBehindJoin(buf, ip, ip + 4, ip + 4 + n, off);
    CommonLengthUnique(buf, ip, off, Limit(buf), ip + 4 + n);
  }

  // ---------- Links ----------

  lemma SameHash(buf: seq<Byte>, i: nat, j: nat)
    requires i + 4 <= |buf| && j + 4 <= |buf| && Word(buf, i, 4) == Word(buf, j, 4)
    ensures HashPtr(buf, i) == HashPtr(buf, j)
  {
    var a, b := Word(buf, i, 4), Word(buf, j, 4);
    assert a[0] == b[0] && a[1] == b[1] && a[2] == b[2] && a[3] == b[3];
    assert Read32(buf, i) == Read32(buf, j);
  }

  /** The hash looks at the little-endian number of exactly four bytes. */
  lemma ReadsWord(buf: seq<Byte>, i: nat, j: nat)
    requires i + 4 <= |buf| && j + 4 <= |buf|
    ensures Read32(buf, i) == Read32(buf, j) ==> Word(buf, i, 4) == Word(buf, j, 4)
    ensures Word(buf, i, 4) == [1, 1, 1, 2] ==> Read32(buf, i) == 0x0201_0101 && HashPtr(buf, i) == 0x58B1
    ensures Word(buf, i, 4) == [1, 2, 1, 2] ==> Read32(buf, i) == 0x0201_0201 && HashPtr(buf, i) == 0x746D
  {
    if Read32(buf, i) == Read32(buf, j) {
      FourBytes(buf[i], buf[i + 1], buf[i + 2], buf[i + 3], buf[j], buf[j + 1], buf[j + 2], buf[j + 3]);
    }
    var w := Word(buf, i, 4);
    assert buf[i] == w[0] && buf[i + 1] == w[1] && buf[i + 2] == w[2] && buf[i + 3] == w[3];
  }

  lemma FourBytes(a0: Byte, a1: Byte, a2: Byte, a3: Byte, b0: Byte, b1: Byte, b2: Byte, b3: Byte)
    requires a0 as int + 0x100 * a1 as int + 0x1_0000 * a2 as int + 0x100_0000 * a3 as int
             == b0 as int + 0x100 * b1 as int + 0x1_0000 * b2 as int + 0x100_0000 * b3 as int
    ensures a0 == b0 && a1 == b1 && a2 == b2 && a3 == b3
  {
    assert a3 == b3;
    assert a2 == b2;
    assert a1 == b1;
  }

  lemma ReachHash(buf: seq<Byte>, ip: nat, p: nat, c: nat)
    requires Searchable(buf, ip) && p < ip && c + 4 <= Reach(buf, ip, p)
    ensures HashPtr(buf, p + c) == HashPtr(buf, ip + c)
  {
    hide HashPtr, Reach, Word;
    ReachWord(buf, ip, p, c, 4);
    SameHash(buf, p + c, ip + c);
  }

  /** The chain of offset `c` leads from `m` to no place beyond one in the window that matches further than `c + 3`. */
  lemma LinkSkipsNothing(buf: seq<Byte>, ip: nat, m: nat, c: nat, p: nat)
    requires Searchable(buf, ip) && InWindow(ip, p) && p < m && m + c < ip && c + 4 <= Reach(buf, ip, p)
    requires HashPtr(buf, m + c) == HashPtr(buf, ip + c)
    ensures p <= m - Delta(buf, m + c)
  {
    hide HashPtr, Reach, Head;
    ReachHash(buf, ip, p, c);
    var head := Head(buf, m + c, HashPtr(buf, m + c));
    assert HashPtr(buf, p + c) == HashPtr(buf, m + c);
    assert head.Some? && p + c <= head.value;
  }

  /** Whoever is reached by a link inside the window has the hash of the chain. */
  lemma LinkKeepsHash(buf: seq<Byte>, ip: nat, m: nat, c: nat)
    requires Searchable(buf, ip) && m + c < ip && ip + c + 4 <= |buf|
    requires HashPtr(buf, m + c) == HashPtr(buf, ip + c)
    ensures var next := m - Delta(buf, m + c);
            Lowest(ip) <= next ==> HashPtr(buf, next + c) == HashPtr(buf, ip + c)
  {
    hide HashPtr, Head;
  }

  // ---------- What holds of the state between steps ----------

  /** The chain followed is one of hashes of the search position. */
  ghost predicate OnChain(buf: seq<Byte>, ip: nat, st: State)
    requires StateOk(buf, ip, st)
  {
    && st.chainPos + 3 <= st.longest
    && (Lowest(ip) <= st.m ==> HashPtr(buf, st.m + st.chainPos) == HashPtr(buf, ip + st.chainPos))
  }

  /** The longest match cannot be extended, and every nearer place matches less far. */
  ghost predicate Nearest(buf: seq<Byte>, ip: nat, longest: nat, off: nat)
    requires Searchable(buf, ip) && 1 <= off <= ip
  {
    && Reach(buf, ip, ip - off) == longest
    && forall p :: InWindow(ip, p) && ip - off < p ==> Reach(buf, ip, p) < longest
  }

  ghost predicate BestOk(buf: seq<Byte>, ip: nat, st: State)
    requires StateOk(buf, ip, st)
  {
    st.longest > 3 ==> Nearest(buf, ip, st.longest, st.off)
  }

  /** Every place at `m` or nearer matches no further than the longest match. */
  ghost predicate Cleared(buf: seq<Byte>, ip: nat, st: State)
    requires StateOk(buf, ip, st)
  {
    OnChain(buf, ip, st) && BestOk(buf, ip, st)
    && forall p :: InWindow(ip, p) && st.m <= p ==> Reach(buf, ip, p) <= st.longest
  }

  /** Every place nearer than `m` matches no further than the longest match, or less far than `m`, which is
      probed next. */
  ghost predicate Complete(buf: seq<Byte>, ip: nat, st: State)
    requires StateOk(buf, ip, st)
  {
    OnChain(buf, ip, st) && BestOk(buf, ip, st)
    && forall p :: InWindow(ip, p) && st.m < p ==>
         Reach(buf, ip, p) <= st.longest || (Lowest(ip) <= st.m && Reach(buf, ip, p) < Reach(buf, ip, st.m))
  }

  lemma ProbedClears(buf: seq<Byte>, ip: nat, st: State)
    requires StateOk(buf, ip, st) && Lowest(ip) <= st.m && Complete(buf, ip, st)
    ensures StateOk(buf, ip, Probed(buf, ip, st)) && Cleared(buf, ip, Probed(buf, ip, st))
    ensures Reach(buf, ip, st.m) <= Probed(buf, ip, st).longest
  {
    hide Reach, Probe, HashPtr, Genuine, Uniform, RunAhead;
    ProbedOk(buf, ip, st);
    ProbeIsReach(buf, ip, st.m, st.longest);
  }

  /** Following a link passes over nothing. */
  lemma LinkCompletes(buf: seq<Byte>, ip: nat, st: State, dist: nat, c: nat)
    requires StateOk(buf, ip, st) && Lowest(ip) <= st.m && Cleared(buf, ip, st)
    requires c + 3 <= st.longest && st.m + c < ip && HashPtr(buf, st.m + c) == HashPtr(buf, ip + c)
    requires dist == Delta(buf, st.m + c)
    ensures var next := st.(m := st.m - dist, chainPos := c);
            StateOk(buf, ip, next) && Complete(buf, ip, next)
  {
    hide Reach, HashPtr, Genuine, Uniform, RunAhead, Delta;
    LinkKeepsHash(buf, ip, st.m, c);
    forall p: nat | InWindow(ip, p) && st.m - dist < p
      ensures Reach(buf, ip, p) <= st.longest
    {
      if p < st.m && Reach(buf, ip, p) > st.longest {
        LinkSkipsNothing(buf, ip, st.m, c, p);
      }
    }
  }

  // ---------- Pattern jumps ----------

  /** The bytes from `p` up to `end` are all those of the run at the search position. */
  ghost predicate AllOf(buf: seq<Byte>, ip: nat, p: nat, end: nat)
    requires ip < |buf| && end <= |buf|
  {
    forall k :: p <= k < end ==> buf[k] == buf[ip]
  }

  lemma RunAheadIs(buf: seq<Byte>, ip: nat, p: nat, limit: nat)
    requires ip < |buf| && p < limit <= |buf| && buf[p] == buf[ip]
    ensures var end := p + RunAhead(buf, p, limit);
            AllOf(buf, ip, p, end) && (end < limit ==> buf[end] != buf[ip])
  {
    hide CommonLength;
    var end := p + RunAhead(buf, p, limit);
    forall k | p <= k < end
      ensures buf[k] == buf[ip]
    {
      RunAheadEqual(buf, p, limit, k);
    }
    assert end < limit ==> buf[end] != buf[end - 1];
  }

  /** A run that ends before that of the search position matches to its end. */
  lemma ShortRun(buf: seq<Byte>, ip: nat, q: nat, end: nat)
    requires Searchable(buf, ip) && q < ip && q <= end < |buf| && AllOf(buf, ip, q, end) && buf[end] != buf[ip]
    requires end - q < RunAhead(buf, ip, Limit(buf))
    ensures Reach(buf, ip, q) == end - q
  {
    var n, off := end - q, ip - q;
    RunAheadIs(buf, ip, ip, Limit(buf));
    hide RunAhead, CommonLength;
    CommonLengthUnique(buf, ip, off, Limit(buf), ip + n);
  }

  /** A run at least as long as that of the search position matches that one. */
  lemma LongRun(buf: seq<Byte>, ip: nat, q: nat, end: nat)
    requires Searchable(buf, ip) && q < ip && q <= end <= |buf| && AllOf(buf, ip, q, end)
    requires RunAhead(buf, ip, Limit(buf)) <= end - q
    ensures RunAhead(buf, ip, Limit(buf)) <= Reach(buf, ip, q)
    ensures RunAhead(buf, ip, Limit(buf)) < end - q ==> Reach(buf, ip, q) == RunAhead(buf, ip, Limit(buf))
  {
    var len, off := RunAhead(buf, ip, Limit(buf)), ip - q;
    RunAheadIs(buf, ip, ip, Limit(buf));
    hide RunAhead, CommonLength;
    ReachAtLeast(buf, ip, q, len);
    if len < end - q {
      CommonLengthUnique(buf, ip, off, Limit(buf), ip + len);
    }
  }

  lemma RunHash(buf: seq<Byte>, ip: nat, q: nat)
    requires Searchable(buf, ip) && Uniform(buf, ip) && q + 4 <= |buf| && AllOf(buf, ip, q, q + 4)
    ensures HashPtr(buf, q) == HashPtr(buf, ip)
  {
    hide HashPtr;
    assert Word(buf, q, 4) == Word(buf, ip, 4);
    SameHash(buf, q, ip);
  }

  lemma UniformRun(buf: seq<Byte>, ip: nat)
    requires Searchable(buf, ip) && Uniform(buf, ip)
    ensures 4 <= RunAhead(buf, ip, Limit(buf))
  {
    var r := RunAhead(buf, ip, Limit(buf));
    RunAheadIs(buf, ip, ip, Limit(buf));
    hide RunAhead;
    assert r < 4 ==> r == 1 || r == 2 || r == 3;
  }

  /** The run of the search position's byte around a place in it. */
  lemma RunAround(buf: seq<Byte>, ip: nat, cand: nat)
    requires Searchable(buf, ip) && Uniform(buf, ip) && cand < ip && Word(buf, cand, 4) == Word(buf, ip, 4)
    ensures var low, end := cand - RunBehind(buf, cand), cand + RunAhead(buf, cand, Limit(buf));
            && AllOf(buf, ip, low, end) && cand + 4 <= end
            && (end < Limit(buf) ==> buf[end] != buf[ip]) && (low > 0 ==> buf[low - 1] != buf[ip])
  {
    var a, b := Word(buf, cand, 4), Word(buf, ip, 4);
    assert a[0] == b[0] && a[1] == b[1] && a[2] == b[2] && a[3] == b[3];
    RunAheadIs(buf, ip, cand, Limit(buf));
    hide RunAhead, RunBehind;
    var end := cand + RunAhead(buf, cand, Limit(buf));
    assert end < cand + 4 ==> end == cand + 1 || end == cand + 2 || end == cand + 3;
  }

  /** Before a run starts only a link from its start can lead to a place with the same four bytes. */
  lemma BeforeRun(buf: seq<Byte>, ip: nat, start: nat, p: nat)
    requires Searchable(buf, ip) && Uniform(buf, ip) && InWindow(ip, p) && p < start < ip
    requires AllOf(buf, ip, start, start + 4) && 4 <= Reach(buf, ip, p)
    ensures p <= start - Delta(buf, start)
  {
    hide Reach, HashPtr, Delta;
    RunHash(buf, ip, start);
    LinkSkipsNothing(buf, ip, start, 0, p);
  }

  /** The jump inside a run: every place passed over matches less far than the one jumped to. */
  lemma SlideCompletes(buf: seq<Byte>, ip: nat, st: State, end: nat)
    requires StateOk(buf, ip, st) && Lowest(ip) < st.m && Cleared(buf, ip, st) && st.chainPos == 0
    requires st.repeat.Confirmed? && st.m + 3 <= end <= |buf| && end - (st.m - 1) <= st.repeat.len
    requires Lowest(ip) + st.repeat.len <= end && AllOf(buf, ip, end - st.repeat.len, end)
    requires end < Limit(buf) ==> buf[end] != buf[ip]
    ensures var next := st.(m := end - st.repeat.len);
            StateOk(buf, ip, next) && Complete(buf, ip, next)
  {
    hide Reach, HashPtr, Genuine, RunAhead, Uniform;
    UniformRun(buf, ip);
    var m := end - st.repeat.len;
    RunHash(buf, ip, m);
    LongRun(buf, ip, m, end);
    forall p: nat | InWindow(ip, p) && m < p < st.m
      ensures Reach(buf, ip, p) < Reach(buf, ip, m)
    {
      ShortRun(buf, ip, p, end);
    }
  }

  /** The places of a run from its start to the candidate match no further than the match taken at its start. */
  lemma RunPlace(buf: seq<Byte>, ip: nat, start: nat, cand: nat, end: nat, p: nat)
    requires Searchable(buf, ip) && Uniform(buf, ip) && start <= p <= cand < ip && cand < end <= |buf|
    requires AllOf(buf, ip, start, end) && (end < Limit(buf) ==> buf[end] != buf[ip])
    requires var len := RunAhead(buf, ip, Limit(buf)); end - start < len || len < end - cand
    ensures Reach(buf, ip, p) == Min(end - p, RunAhead(buf, ip, Limit(buf)))
  {
    hide Reach, RunAhead, Uniform;
    if RunAhead(buf, ip, Limit(buf)) < end - cand {
      LongRun(buf, ip, p, end);
    } else {
      ShortRun(buf, ip, p, end);
    }
  }

  /** The match taken at the start of a run is longer than every nearer one. */
  lemma RunStartBest(buf: seq<Byte>, ip: nat, st: State, start: nat, end: nat)
    requires StateOk(buf, ip, st) && Lowest(ip) < st.m && Cleared(buf, ip, st)
    requires st.repeat.Confirmed? && Lowest(ip) <= start < st.m && st.m + 3 <= end <= |buf|
    requires AllOf(buf, ip, start, end) && (end < Limit(buf) ==> buf[end] != buf[ip])
    requires end - start < st.repeat.len || st.repeat.len < end - (st.m - 1)
    requires st.longest < Min(end - start, st.repeat.len)
    ensures Nearest(buf, ip, Min(end - start, st.repeat.len), ip - start)
  {
    hide Reach, RunAhead, Uniform, Genuine, HashPtr, AllOf;
    if st.repeat.len < end - (st.m - 1) {
      AllOfPart(buf, ip, start, st.m, end);
      LongRun(buf, ip, st.m, end);
    }
    RunPlace(buf, ip, start, st.m - 1, end, start);
    forall p: nat | InWindow(ip, p) && start < p
      ensures Reach(buf, ip, p) < Min(end - start, st.repeat.len)
    {
      if p < st.m {
        RunPlace(buf, ip, start, st.m - 1, end, p);
      }
    }
  }

  lemma AllOfPart(buf: seq<Byte>, ip: nat, p: nat, q: nat, end: nat)
    requires ip < |buf| && end <= |buf| && p <= q && AllOf(buf, ip, p, end)
    ensures AllOf(buf, ip, q, end)
  {
  }

  /** Taking the match at the start of a run and following its link passes over nothing longer. */
  lemma RunStartCompletes(buf: seq<Byte>, ip: nat, st: State, start: nat, end: nat)
    requires StateOk(buf, ip, st) && Lowest(ip) < st.m && Cleared(buf, ip, st) && st.chainPos == 0
    requires st.repeat.Confirmed? && Lowest(ip) <= start < st.m && st.m + 3 <= end <= |buf|
    requires AllOf(buf, ip, start, end) && (end < Limit(buf) ==> buf[end] != buf[ip])
    requires end - start < st.repeat.len || st.repeat.len < end - (st.m - 1)
    requires StateOk(buf, ip, RunStart(buf, ip, st, start, Min(end - start, st.repeat.len)))
    ensures Complete(buf, ip, RunStart(buf, ip, st, start, Min(end - start, st.repeat.len)))
  {
    hide Reach, RunAhead, Uniform, Genuine, HashPtr, Delta, Nearest;
    var maxLen := Min(end - start, st.repeat.len);
    var next := RunStart(buf, ip, st, start, maxLen);
    AllOfFront(buf, ip, start, end);
    RunHash(buf, ip, start);
    LinkKeepsHash(buf, ip, start, 0);
    if st.longest < maxLen {
      RunStartBest(buf, ip, st, start, end);
    }
    forall p: nat | InWindow(ip, p) && next.m < p
      ensures Reach(buf, ip, p) <= next.longest
    {
      if start <= p < st.m {
        RunPlace(buf, ip, start, st.m - 1, end, p);
      } else if p < start && 4 <= Reach(buf, ip, p) {
        BeforeRun(buf, ip, start, p);
      }
    }
  }

  lemma AllOfFront(buf: seq<Byte>, ip: nat, start: nat, end: nat)
    requires ip < |buf| && start + 4 <= end <= |buf| && AllOf(buf, ip, start, end)
    ensures AllOf(buf, ip, start, start + 4)
  {
  }

  /** So does a pattern jump. */
  lemma PatternJumpCompletes(buf: seq<Byte>, ip: nat, st: State)
    requires StateOk(buf, ip, st) && Lowest(ip) <= st.m && Cleared(buf, ip, st) && st.chainPos == 0
    requires InRun(buf, ip, st.m - 1, st.repeat)
    ensures StateOk(buf, ip, PatternJump(buf, ip, st)) && Complete(buf, ip, PatternJump(buf, ip, st))
  {
    hide Reach, RunAhead, RunBehind, Uniform, Genuine, HashPtr, Delta, Cleared, Complete, RunStart, AllOf;
    PatternJumpOk(buf, ip, st);
    var cand := st.m - 1;
    RunAround(buf, ip, cand);
    var end := cand + RunAhead(buf, cand, Limit(buf));
    var start := Max(cand - RunBehind(buf, cand), Lowest(ip));
    AllOfPart(buf, ip, cand - RunBehind(buf, cand), start, end);
    if end - start >= st.repeat.len && end - cand <= st.repeat.len {
      AllOfPart(buf, ip, start, end - st.repeat.len, end);
      SlideCompletes(buf, ip, st, end);
    } else {
      RunStartCompletes(buf, ip, st, start, end);
    }
  }

  // ---------- One step ----------

  lemma FollowCompletes(buf: seq<Byte>, ip: nat, st: State)
    requires StateOk(buf, ip, st) && Lowest(ip) <= st.m && Cleared(buf, ip, st)
    ensures StateOk(buf, ip, Follow(buf, ip, st)) && Complete(buf, ip, Follow(buf, ip, st))
  {
    hide Reach, RunAhead, Uniform, Genuine, HashPtr, Delta, PatternJump, InRun, Nearest;
    FollowOk(buf, ip, st);
    var link := Delta(buf, st.m + st.chainPos);
    var st1 := st.(repeat := Tested(buf, ip, st.repeat));
    if st.chainPos == 0 && link == 1 {
      assert StateOk(buf, ip, st1) by { TestedOk(buf, ip, st); }
      assert Cleared(buf, ip, st1);
      if InRun(buf, ip, st.m - 1, st1.repeat) {
        PatternJumpCompletes(buf, ip, st1);
      } else {
        LinkCompletes(buf, ip, st1, link, 0);
      }
    } else {
      LinkCompletes(buf, ip, st, link, st.chainPos);
    }
  }

  lemma TestedOk(buf: seq<Byte>, ip: nat, st: State)
    requires StateOk(buf, ip, st)
    ensures StateOk(buf, ip, st.(repeat := Tested(buf, ip, st.repeat)))
  {
    hide Genuine, RunAhead, Uniform;
  }

  /** The scan returns the link of the position it chose. */
  lemma {:induction false} SwapIsLink(buf: seq<Byte>, m: nat, end: nat, pos: nat, accel: nat, dist: nat, best: nat)
    requires m + end + 4 <= |buf| && 16 <= accel && (dist == 1 || best < end)
    requires dist > 1 ==> dist == Delta(buf, m + best)
    ensures var r := SwapScan(buf, m, end, pos, accel, dist, best);
            r.0 > 1 ==> r.1 < end && r.0 == Delta(buf, m + r.1)
    decreases end - pos
  {
    hide Delta;
    if pos < end {
      var candidate := Delta(buf, m + pos);
      if candidate > dist {
        SwapIsLink(buf, m, end, pos + accel / 16, 16, candidate, pos);
      } else {
        SwapIsLink(buf, m, end, pos + accel / 16, accel + 1, dist, best);
      }
    }
  }

  /** Swapping chains passes over nothing either: the new chain is also one of the search position. */
  lemma SwapCompletes(buf: seq<Byte>, ip: nat, st: State)
    requires StateOk(buf, ip, st) && Lowest(ip) <= st.m && Cleared(buf, ip, st)
    requires st.longest <= Reach(buf, ip, st.m) && st.m + st.longest <= ip && Swap(buf, ip, st).0 > 1
    ensures var (dist, pos) := Swap(buf, ip, st);
            var next := st.(m := st.m - dist, chainPos := pos);
            StateOk(buf, ip, next) && Complete(buf, ip, next)
  {
    hide Reach, HashPtr, Genuine, Uniform, RunAhead, Delta, SwapScan;
    SwapIsLink(buf, st.m, st.longest - 3, 0, 16, 1, 0);
    var (dist, pos) := Swap(buf, ip, st);
    ReachHash(buf, ip, st.m, pos);
    LinkCompletes(buf, ip, st, dist, pos);
  }

  lemma AdvanceCompletes(buf: seq<Byte>, ip: nat, st: State)
    requires StateOk(buf, ip, st) && Lowest(ip) <= st.m && Complete(buf, ip, st)
    ensures StateOk(buf, ip, Advance(buf, ip, st)) && Complete(buf, ip, Advance(buf, ip, st))
    ensures Reach(buf, ip, st.m) <= Advance(buf, ip, st).longest && st.longest <= Advance(buf, ip, st).longest
    ensures Advance(buf, ip, st).m < st.m
  {
    hide Reach, HashPtr, Genuine, Uniform, RunAhead, Probe, Follow, Swap, Complete, Cleared;
    ProbedClears(buf, ip, st);
    var st1 := Probed(buf, ip, st);
    ProbeIsReach(buf, ip, st.m, st.longest);
    var len := Probe(buf, ip, st.m, st.longest);
    if len == st1.longest && st.m + st1.longest <= ip && Swap(buf, ip, st1).0 > 1 {
      SwapCompletes(buf, ip, st1);
    } else {
      FollowCompletes(buf, ip, st1);
      FollowBack(buf, ip, st1);
    }
  }

  /** Every step goes back, and the longest match never gets shorter. */
  lemma FollowBack(buf: seq<Byte>, ip: nat, st: State)
    requires StateOk(buf, ip, st) && Lowest(ip) <= st.m
    ensures Follow(buf, ip, st).m < st.m && st.longest <= Follow(buf, ip, st).longest
  {
    hide Genuine, RunAhead, RunBehind, Uniform, Delta, Word;
  }

  // ---------- The whole search ----------

  lemma {:induction false} SearchCompletes(buf: seq<Byte>, ip: nat, st: State)
    requires StateOk(buf, ip, st) && Complete(buf, ip, st) && 0 <= st.attempts
    ensures var end := Search(buf, ip, st);
            && Complete(buf, ip, end) && 0 <= end.attempts && st.longest <= end.longest
            && (Lowest(ip) <= st.m && 0 < st.attempts ==> Reach(buf, ip, st.m) <= end.longest)
            && (0 < end.attempts ==> end.m < Lowest(ip)) && end.m + st.attempts <= st.m + end.attempts
    decreases st.attempts
  {
    hide Reach, Complete, Advance;
    if Lowest(ip) <= st.m && st.attempts > 0 {
      SearchStep(buf, ip, st);
      AdvanceCompletes(buf, ip, st);
      SearchCompletes(buf, ip, Advance(buf, ip, st));
    } else {
      SearchDone(buf, ip, st);
    }
  }

  lemma StartCompletes(buf: seq<Byte>, ip: nat)
    requires Searchable(buf, ip)
    ensures Complete(buf, ip, Start(buf, ip)) && Start(buf, ip).attempts == 96
  {
    hide Reach, HashPtr, Head;
    forall p: nat | InWindow(ip, p) && 4 <= Reach(buf, ip, p)
      ensures p <= Start(buf, ip).m
    {
      ReachHash(buf, ip, p, 0);
      assert HashPtr(buf, p) == HashPtr(buf, ip);
    }
  }

  /** The search has followed its chain to the end of the window, not only used up its attempts. */
  ghost predicate Exhausts(buf: seq<Byte>, ip: nat)
    requires Searchable(buf, ip)
  {
    Search(buf, ip, Start(buf, ip)).m < Lowest(ip)
  }

  /** A search that ends with attempts left is exhaustive, and so is any search early in the buffer. */
  lemma Exhaustive(buf: seq<Byte>, ip: nat)
    requires Searchable(buf, ip)
    ensures Search(buf, ip, Start(buf, ip)).attempts > 0 || ip <= 96 ==> Exhausts(buf, ip)
  {
    hide Complete, Search;
    StartCompletes(buf, ip);
    SearchCompletes(buf, ip, Start(buf, ip));
  }

  /** Exactly which match an exhaustive search finds: the longest in the window, the nearest of that length, or
      none when no place matches four bytes. */
  lemma FindsLongest(buf: seq<Byte>, ip: nat)
    requires Searchable(buf, ip) && Exhausts(buf, ip)
    ensures var md := FindMatch(buf, ip);
            && (forall p: nat :: InWindow(ip, p) ==> Reach(buf, ip, p) <= Max(3, md.len))
            && (md.len == 0 <==> forall p: nat :: InWindow(ip, p) ==> Reach(buf, ip, p) < MINMATCH)
            && (md.len > 0 ==> md.off <= 65535 && InWindow(ip, ip - md.off))
            && (md.len > 0 ==> Reach(buf, ip, ip - md.off) == md.len)
            && (md.len > 0 ==> forall p: nat :: InWindow(ip, p) && ip - md.off < p ==> Reach(buf, ip, p) < md.len)
  {
    hide Reach, Search, Uniform, RunAhead, HashPtr, Head;
    StartCompletes(buf, ip);
    SearchCompletes(buf, ip, Start(buf, ip));
  }

  /** Exhaustive or not, a match found cannot be extended and is longer than every nearer one. */
  lemma FindsNearest(buf: seq<Byte>, ip: nat)
    requires Searchable(buf, ip) && FindMatch(buf, ip).len > 0
    ensures Nearest(buf, ip, FindMatch(buf, ip).len, FindMatch(buf, ip).off)
  {
    hide Reach, Search, Nearest;
    StartCompletes(buf, ip);
    SearchCompletes(buf, ip, Start(buf, ip));
  }

  /** Nor is it ever shorter than the match at the head of the chain. */
  lemma AtLeastHead(buf: seq<Byte>, ip: nat)
    requires Searchable(buf, ip)
    ensures var head := Head(buf, ip, HashPtr(buf, ip));
            head.Some? && Lowest(ip) <= head.value && MINMATCH <= Reach(buf, ip, head.value) ==>
              Reach(buf, ip, head.value) <= FindMatch(buf, ip).len
  {
    hide Reach, Search, Complete, HashPtr, Head;
    StartCompletes(buf, ip);
    SearchCompletes(buf, ip, Start(buf, ip));
  }

  // ---------- How densely links are scanned ----------

  /** Whatever the scan changes its mind to later is a longer link. */
  lemma {:induction false} ScanImproves(buf: seq<Byte>, m: nat, end: nat, pos: nat, accel: nat, dist: nat, best: nat)
    requires m + end + 4 <= |buf| && 16 <= accel && (dist == 1 || best < end)
    ensures var r := SwapScan(buf, m, end, pos, accel, dist, best);
            && (r == (dist, best) || (dist < r.0 && pos <= r.1))
            && (pos < end ==> Delta(buf, m + pos) <= r.0)
            && (pos < end && r != (dist, best) && pos < r.1 ==> Delta(buf, m + pos) < r.0)
    decreases end - pos
  {
    hide Delta;
    if pos < end {
      var candidate, step := Delta(buf, m + pos), accel / 16;
      if candidate > dist {
        ScanImproves(buf, m, end, pos + step, 16, candidate, pos);
      } else {
        ScanImproves(buf, m, end, pos + step, accel + 1, dist, best);
      }
    }
  }

  /** The scan chooses a link at least as long as each of those it cannot have skipped, and longer than those
      before it: it moves one position at a time until sixteen in a row brought nothing. */
  lemma {:induction false} ScanDense(buf: seq<Byte>, m: nat, end: nat, pos: nat, accel: nat, dist: nat, best: nat,
      p: nat)
    requires m + end + 4 <= |buf| && 16 <= accel && (dist == 1 || best < end)
    requires pos <= p < end && p + accel <= pos + 32 && (dist > 1 ==> best < pos)
    ensures var r := SwapScan(buf, m, end, pos, accel, dist, best);
            Delta(buf, m + p) <= r.0 && (r.0 > 1 && p < r.1 ==> Delta(buf, m + p) < r.0)
    decreases end - pos
  {
    hide Delta, SwapScan;
    if pos < p {
      var candidate := Delta(buf, m + pos);
      ScanStep(buf, m, end, pos, accel, dist, best);
      if candidate > dist {
        ScanDense(buf, m, end, pos + 1, 16, candidate, pos, p);
      } else {
        ScanDense(buf, m, end, pos + 1, accel + 1, dist, best, p);
      }
    } else {
      ScanImproves(buf, m, end, pos, accel, dist, best);
    }
  }

  lemma ScanStep(buf: seq<Byte>, m: nat, end: nat, pos: nat, accel: nat, dist: nat, best: nat)
    requires m + end + 4 <= |buf| && 16 <= accel < 32 && (dist == 1 || best < end) && pos < end
    ensures var candidate := Delta(buf, m + pos);
            SwapScan(buf, m, end, pos, accel, dist, best)
            == if candidate > dist then SwapScan(buf, m, end, pos + 1, 16, candidate, pos)
               else SwapScan(buf, m, end, pos + 1, accel + 1, dist, best)
  {
    hide Delta;
  }

  /** Of a match of at most nineteen bytes the scan chooses the longest link, the first of equals. */
  lemma SwapLongest(buf: seq<Byte>, ip: nat, st: State, p: nat)
    requires Searchable(buf, ip) && 0 <= st.m && st.m + st.longest <= ip && 3 <= st.longest
    requires p + 3 < st.longest && p <= 16
    ensures var (dist, pos) := Swap(buf, ip, st);
            Delta(buf, st.m + p) <= dist && (dist > 1 && p < pos ==> Delta(buf, st.m + p) < dist)
  {
    hide Delta, SwapScan;
    ScanDense(buf, st.m, st.longest - 3, 0, 16, 1, 0, p);
  }
}
