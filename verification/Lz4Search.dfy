/**
 * What the match search computes: a walk down one chain of earlier positions, written over the
 * buffer alone. It has a single loop, counts byte by byte, remembers nothing and knows no tables.
 */
module Lz4Search {
  import opened Bytes
  import opened Lz4Decoder
  import opened Lz4Encoding
  import opened Lz4Counters
  import opened Lz4Tables

  const NB_SEARCHES := 96

  datatype Match = Match(len: nat, off: nat)

  /** Whether the pattern at the search position has been examined, and how far it repeats. */
  datatype Repeat = Untested | Not | Confirmed(len: nat)

  datatype State = State(m: int, attempts: int, longest: nat, off: nat, chainPos: nat, repeat: Repeat)

  const LZ4_MINLENGTH := MFLIMIT + 1

  ghost predicate Searchable(buf: seq<Byte>, ip: nat) {
    LZ4_MINLENGTH <= |buf| && ip + MFLIMIT <= |buf|
  }

  ghost function Limit(buf: seq<Byte>): nat
    requires MFLIMIT <= |buf|
  {
    |buf| - LASTLITERALS
  }

  /** The earliest position a match offset can reach. */
  function Lowest(ip: nat): nat {
    if ip <= LZ4_DISTANCE_MAX then 0 else ip - LZ4_DISTANCE_MAX
  }

  // ---------- Runs of one byte ----------

  ghost predicate Uniform(buf: seq<Byte>, p: nat)
    requires p + 4 <= |buf|
  {
    buf[p] == buf[p + 1] == buf[p + 2] == buf[p + 3]
  }

  /** How many bytes from `p` on, short of `limit`, equal the one at `p`. */
  ghost function RunAhead(buf: seq<Byte>, p: nat, limit: nat): (r: nat)
    requires p < limit <= |buf|
    ensures 1 <= r && p + r <= limit
  {
    1 + CommonLength(buf, p + 1, 1, limit)
  }

  /** How many bytes before `p` equal the one at `p`. */
  ghost function RunBehind(buf: seq<Byte>, p: nat): (r: nat)
    requires p < |buf|
    ensures r <= p
    ensures forall k :: p - r <= k <= p ==> buf[k] == buf[p]
    ensures r < p ==> buf[p - r - 1] != buf[p]
  {
    if p > 0 && buf[p - 1] == buf[p] then 1 + RunBehind(buf, p - 1) else 0
  }

  lemma {:induction false} RunAheadEqual(buf: seq<Byte>, p: nat, limit: nat, k: nat)
    requires p < limit <= |buf| && p <= k < p + RunAhead(buf, p, limit)
    ensures buf[k] == buf[p]
  {
    if p < k {
      RunAheadEqual(buf, p, limit, k - 1);
      assert buf[k] == buf[k - 1];
    }
  }

  // ---------- One step of the walk ----------

  /** The length of the match at `m`, or 0 when it cannot be longer than the longest so far. */
  ghost function Probe(buf: seq<Byte>, ip: nat, m: nat, longest: nat): (r: nat)
    requires Searchable(buf, ip) && m < ip && 3 <= longest && ip + longest <= Limit(buf)
  {
    if Word(buf, m + longest - 1, 2) == Word(buf, ip + longest - 1, 2) && Word(buf, m, 4) == Word(buf, ip, 4)
    then MINMATCH + CommonLength(buf, ip + MINMATCH, ip - m, Limit(buf))
    else 0
  }

  /** Scans the links of the positions inside the match for the one that leads furthest back. */
  ghost function SwapScan(buf: seq<Byte>, m: nat, end: nat, pos: nat, accel: nat, dist: nat, best: nat): (r: (nat, nat))
    requires m + end + 4 <= |buf| && 16 <= accel && (dist == 1 || best < end)
    ensures r.0 == 1 || r.1 < end
    ensures dist <= r.0 && (dist <= NO_LINK ==> r.0 <= NO_LINK)
    decreases end - pos
  {
    if pos >= end then (dist, best)
    else
      var candidate := Delta(buf, m + pos);
      var step := accel / 16;
      if candidate > dist then SwapScan(buf, m, end, pos + step, 16, candidate, pos)
      else SwapScan(buf, m, end, pos + step, accel + 1, dist, best)
  }

  ghost function Tested(buf: seq<Byte>, ip: nat, repeat: Repeat): Repeat
    requires Searchable(buf, ip)
  {
    if repeat != Untested then repeat
    else if Uniform(buf, ip) then Confirmed(RunAhead(buf, ip, Limit(buf)))
    else Not
  }

  /** Inside a run of one byte: where the run, cut at the window, starts and how long it is. */
  ghost predicate InRun(buf: seq<Byte>, ip: nat, cand: int, repeat: Repeat)
    requires Searchable(buf, ip) && cand < ip
  {
    repeat.Confirmed? && cand >= Lowest(ip) && Word(buf, cand, 4) == Word(buf, ip, 4)
  }

  /** Takes the match at the start of a run and follows the link from there. */
  ghost function RunStart(buf: seq<Byte>, ip: nat, st: State, start: nat, maxLen: nat): State
    requires start <= ip && start + 4 <= |buf|
  {
    var longer := if st.longest < maxLen then st.(longest := maxLen, off := ip - start) else st;
    longer.(m := start - Delta(buf, start))
  }

  ghost function PatternJump(buf: seq<Byte>, ip: nat, st: State): State
    requires Searchable(buf, ip) && st.m <= ip && InRun(buf, ip, st.m - 1, st.repeat)
  {
    var cand := st.m - 1;
    var srcLen := st.repeat.len;
    var fwd := RunAhead(buf, cand, Limit(buf));
    var start := Max(cand - RunBehind(buf, cand), Lowest(ip));
    var segment := cand - start + fwd;
    if segment >= srcLen && fwd <= srcLen then
      st.(m := cand + fwd - srcLen)
    else
      RunStart(buf, ip, st, start, Min(segment, srcLen))
  }

  /** What holds of the state between steps. */
  ghost predicate StateOk(buf: seq<Byte>, ip: nat, st: State) {
    && Searchable(buf, ip)
    && st.m + st.chainPos < ip
    && 3 <= st.longest && ip + st.longest <= Limit(buf)
    && (st.longest > 3 ==> Genuine(buf, ip, st.longest, st.off))
    && (st.repeat.Confirmed? ==> Uniform(buf, ip) && st.repeat.len == RunAhead(buf, ip, Limit(buf)))
  }

  /** The state after counting the match at `st.m`. */
  ghost function Probed(buf: seq<Byte>, ip: nat, st: State): State
    requires StateOk(buf, ip, st) && 0 <= st.m
  {
    var len := Probe(buf, ip, st.m, st.longest);
    if len > st.longest then st.(attempts := st.attempts - 1, longest := len, off := ip - st.m)
    else st.(attempts := st.attempts - 1)
  }

  /** The distance to jump after a match as long as the longest, and the chain to follow from there. */
  ghost function Swap(buf: seq<Byte>, ip: nat, st: State): (r: (nat, nat))
    requires Searchable(buf, ip) && 0 <= st.m && st.m + st.longest <= ip && 3 <= st.longest
    ensures 1 <= r.0 <= NO_LINK && (r.0 > 1 ==> r.1 + 3 < st.longest)
  {
    SwapScan(buf, st.m, st.longest - 3, 0, 16, 1, 0)
  }

  ghost function Advance(buf: seq<Byte>, ip: nat, st: State): State
    requires StateOk(buf, ip, st) && Lowest(ip) <= st.m
  {
    var len := Probe(buf, ip, st.m, st.longest);
    var st1 := Probed(buf, ip, st);
    if len == st1.longest && st.m + st1.longest <= ip && Swap(buf, ip, st1).0 > 1 then
      var (dist, pos) := Swap(buf, ip, st1);
      st1.(m := st.m - dist, chainPos := pos)
    else
      Follow(buf, ip, st1)
  }

  /** Follows the chain by one link, or jumps when the chain runs through repeated bytes. */
  ghost function Follow(buf: seq<Byte>, ip: nat, st: State): State
    requires Searchable(buf, ip) && 0 <= st.m && st.m + st.chainPos < ip
  {
    var link := Delta(buf, st.m + st.chainPos);
    if st.chainPos == 0 && link == 1 then
      var st1 := st.(repeat := Tested(buf, ip, st.repeat));
      if InRun(buf, ip, st.m - 1, st1.repeat) then PatternJump(buf, ip, st1)
      else st1.(m := st.m - link)
    else st.(m := st.m - link)
  }

  // ---------- Every step keeps the match genuine ----------

  lemma ProbeGenuine(buf: seq<Byte>, ip: nat, m: nat, longest: nat)
    requires Searchable(buf, ip) && Lowest(ip) <= m < ip && 3 <= longest && ip + longest <= Limit(buf)
    ensures var len := Probe(buf, ip, m, longest);
            len > 0 ==> MINMATCH <= len && ip + len <= Limit(buf) && Genuine(buf, ip, len, ip - m)
  {
    var len := Probe(buf, ip, m, longest);
    if len > 0 {
      var off := ip - m;
      assert SameBehind(buf, ip + MINMATCH, ip + len, off);
      forall k | ip <= k < ip + len
        ensures buf[k] == buf[k - off]
      {
        if k < ip + 4 {
          assert Word(buf, m, 4)[k - ip] == Word(buf, ip, 4)[k - ip];
        }
      }
    }
  }

  /** Two places inside runs of the same byte match for as long as both runs last. */
  lemma RunsMatch(buf: seq<Byte>, ip: nat, cand: nat, back: nat, len: nat)
    requires Searchable(buf, ip) && Lowest(ip) + back <= cand < ip && Word(buf, cand, 4) == Word(buf, ip, 4)
    requires back <= RunBehind(buf, cand)
    requires len <= back + RunAhead(buf, cand, Limit(buf)) && len <= RunAhead(buf, ip, Limit(buf))
    ensures Genuine(buf, ip, len, ip - (cand - back))
  {
    var off := ip - (cand - back);
    assert buf[cand] == Word(buf, cand, 4)[0] == Word(buf, ip, 4)[0] == buf[ip];
    forall k | ip <= k < ip + len
      ensures buf[k] == buf[k - off]
    {
      RunAheadEqual(buf, ip, Limit(buf), k);
      if k - off > cand {
        RunAheadEqual(buf, cand, Limit(buf), k - off);
      }
    }
  }

  /** The match taken at the start of a run, cut at the window, is genuine. */
  lemma RunStartOk(buf: seq<Byte>, ip: nat, st: State, start: nat, maxLen: nat)
    requires StateOk(buf, ip, st) && Lowest(ip) < st.m && st.chainPos == 0
    requires Word(buf, st.m - 1, 4) == Word(buf, ip, 4) && st.repeat.Confirmed?
    requires Lowest(ip) <= start < st.m && st.m - 1 - start <= RunBehind(buf, st.m - 1)
    requires maxLen <= st.m - 1 - start + RunAhead(buf, st.m - 1, Limit(buf)) && maxLen <= st.repeat.len
    ensures StateOk(buf, ip, RunStart(buf, ip, st, start, maxLen))
  {
    hide RunAhead, RunBehind, Delta, Uniform, Word;
    RunsMatch(buf, ip, st.m - 1, st.m - 1 - start, maxLen);
    hide Genuine;
  }

  lemma PatternJumpOk(buf: seq<Byte>, ip: nat, st: State)
    requires StateOk(buf, ip, st) && Lowest(ip) <= st.m && st.chainPos == 0
    requires InRun(buf, ip, st.m - 1, st.repeat)
    ensures StateOk(buf, ip, PatternJump(buf, ip, st)) && PatternJump(buf, ip, st).attempts == st.attempts
  {
    hide Genuine, RunAhead, RunBehind, Delta, Uniform, Word;
    var cand := st.m - 1;
    var start := Max(cand - RunBehind(buf, cand), Lowest(ip));
    var segment := cand - start + RunAhead(buf, cand, Limit(buf));
    RunStartOk(buf, ip, st, start, Min(segment, st.repeat.len));
  }

  lemma FollowOk(buf: seq<Byte>, ip: nat, st: State)
    requires StateOk(buf, ip, st) && Lowest(ip) <= st.m
    ensures StateOk(buf, ip, Follow(buf, ip, st)) && Follow(buf, ip, st).attempts == st.attempts
  {
    hide Genuine, RunAhead, Delta, Uniform, PatternJump, InRun;
    var st1 := st.(repeat := Tested(buf, ip, st.repeat));
    assert StateOk(buf, ip, st1);
    if st.chainPos == 0 && InRun(buf, ip, st.m - 1, st1.repeat) {
      PatternJumpOk(buf, ip, st1);
    }
  }

  lemma ProbedOk(buf: seq<Byte>, ip: nat, st: State)
    requires StateOk(buf, ip, st) && Lowest(ip) <= st.m
    ensures StateOk(buf, ip, Probed(buf, ip, st))
  {
    hide Genuine, RunAhead, Uniform, Probe;
    ProbeGenuine(buf, ip, st.m, st.longest);
  }

  lemma AdvanceOk(buf: seq<Byte>, ip: nat, st: State)
    requires StateOk(buf, ip, st) && Lowest(ip) <= st.m
    ensures StateOk(buf, ip, Advance(buf, ip, st)) && Advance(buf, ip, st).attempts == st.attempts - 1
  {
    hide Genuine, RunAhead, Uniform, Probe, Follow, Swap;
    ProbedOk(buf, ip, st);
    FollowOk(buf, ip, Probed(buf, ip, st));
  }

  // ---------- The whole search ----------

  ghost function Search(buf: seq<Byte>, ip: nat, st: State): (r: State)
    requires StateOk(buf, ip, st)
    ensures StateOk(buf, ip, r)
    decreases st.attempts
  {
    if st.m < Lowest(ip) || st.attempts <= 0 then st
    else
      AdvanceOk(buf, ip, st);
      Search(buf, ip, Advance(buf, ip, st))
  }

  lemma SearchStep(buf: seq<Byte>, ip: nat, st: State)
    requires StateOk(buf, ip, st) && Lowest(ip) <= st.m && st.attempts > 0
    ensures StateOk(buf, ip, Advance(buf, ip, st))
    ensures Advance(buf, ip, st).attempts == st.attempts - 1
    ensures Search(buf, ip, st) == Search(buf, ip, Advance(buf, ip, st))
  {
    AdvanceOk(buf, ip, st);
  }

  lemma SearchDone(buf: seq<Byte>, ip: nat, st: State)
    requires StateOk(buf, ip, st) && (st.m < Lowest(ip) || st.attempts <= 0)
    ensures Search(buf, ip, st) == st
  {
  }

  ghost function Start(buf: seq<Byte>, ip: nat): (st: State)
    requires Searchable(buf, ip)
    ensures StateOk(buf, ip, st)
  {
    var head := Head(buf, ip, HashPtr(buf, ip));
    State(if head.Some? then head.value else -1, NB_SEARCHES, 3, 0, 0, Untested)
  }

  /** The match to use at `ip`; length 0 means none. */
  ghost function FindMatch(buf: seq<Byte>, ip: nat): (r: Match)
    requires Searchable(buf, ip)
    ensures r.len > 0 ==> MINMATCH <= r.len && Genuine(buf, ip, r.len, r.off)
    ensures r.len > 0 ==> KeepsEndOfBlock(buf, MatchAt(ip, r.len, r.off))
  {
    var found := Search(buf, ip, Start(buf, ip));
    if found.longest <= 3 then Match(0, 0) else Match(found.longest, found.off)
  }
}
