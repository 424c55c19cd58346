/**
 * The match search over the tables: two-link steps, a second phase for swapped chains, word-wide
 * counters and a memo of repeated-byte runs. Each method is proved against the walk of Lz4Search,
 * which uses none of these.
 */
module Lz4Matcher {
  import opened Bytes
  import opened Lz4Decoder
  import opened Lz4Encoding
  import opened Lz4Counters
  import opened Lz4Tables
  import opened Lz4Search

  // ---------- The memo of runs ----------

  /** A maximal run of one byte, short of the match limit. */
  ghost predicate MaximalRun(buf: seq<Byte>, s: nat, e: nat) {
    && LZ4_MINLENGTH <= |buf| && s + 4 <= e <= Limit(buf)
    && (forall k :: s <= k < e ==> buf[k] == buf[s])
    && (s > 0 ==> buf[s - 1] != buf[s])
    && (e < Limit(buf) ==> buf[e] != buf[s])
  }

  /** Anywhere inside a maximal run, recounting would give the distances to its ends. */
  lemma RecountInRun(buf: seq<Byte>, s: nat, e: nat, p: nat)
    requires MaximalRun(buf, s, e) && s <= p && p + 4 <= e
    ensures RunAhead(buf, p, Limit(buf)) == e - p && RunBehind(buf, p) == p - s
  {
    hide CommonLength, RunBehind;
    assert SameBehind(buf, p + 1, e, 1);
    CommonLengthUnique(buf, p + 1, 1, Limit(buf), e);
    var r := RunBehind(buf, p);
    if r < p - s {
      assert false;
    } else if p - s < r {
      assert false;
    }
  }

  /** A repeated pattern of one byte is a run of that byte. */
  lemma PatternRun(buf: seq<Byte>, p: nat, fwd: nat, back: nat, pattern: seq<Byte>)
    requires Searchable(buf, p) && Uniform(buf, p) && pattern == Word(buf, p, 4)
    requires 4 <= fwd && p + fwd <= Limit(buf) && Repeats(buf, p + 4, p + fwd, pattern)
    requires p + fwd < Limit(buf) ==> buf[p + fwd] != pattern[Phase(fwd - 4)]
    requires back <= p && RepeatsBack(buf, p - back, p, pattern)
    requires 0 < p - back ==> buf[p - back - 1] != pattern[Phase(-1 - back)]
    ensures MaximalRun(buf, p - back, p + fwd)
  {
    hide Phase;
    assert forall k :: 0 <= k < 4 ==> pattern[k] == buf[p];
    assert forall k :: p <= k < p + 4 ==> buf[k] == buf[p];
  }

  /** Counting a four-byte pattern of equal bytes finds the maximal run around it. */
  method MeasureRun(buf: seq<Byte>, p: nat) returns (fwd: nat, back: nat)
    requires Searchable(buf, p) && Uniform(buf, p)
    ensures 4 <= fwd && p + fwd <= Limit(buf) && back <= p && MaximalRun(buf, p - back, p + fwd)
    ensures fwd == RunAhead(buf, p, Limit(buf)) && back == RunBehind(buf, p)
  {
    var pattern := Word(buf, p, 4);
    fwd := CountPattern(buf, p + 4, |buf| - LASTLITERALS, pattern);
    fwd := fwd + 4;
    back := ReverseCountPattern(buf, p, 0, pattern);
    PatternRun(buf, p, fwd, back, pattern);
    hide MaximalRun, Repeats, RepeatsBack;
    RecountInRun(buf, p - back, p + fwd, p);
  }

  class PatternMemo {
    var s: seq<nat>
    var e: seq<nat>

    ghost predicate Holds(buf: seq<Byte>)
      reads this
    {
      |s| == |e| == 2 && forall k :: 0 <= k < 2 ==> e[k] == 0 || MaximalRun(buf, s[k], e[k])
    }

    constructor ()
      ensures forall buf :: Holds(buf)
    {
      s, e := [0, 0], [0, 0];
    }

    method Query(buf: seq<Byte>, p: nat) returns (r: Option<(nat, nat)>)
      requires Searchable(buf, p) && Holds(buf)
      ensures r.Some? ==> r.value == (RunAhead(buf, p, Limit(buf)), RunBehind(buf, p))
    {
      for k := 0 to 2 {
        if s[k] <= p && p + 4 <= e[k] {
          RecountInRun(buf, s[k], e[k], p);
          return Some((e[k] - p, p - s[k]));
        }
      }
      r := None;
    }

    /** The run lengths at `p`: remembered, or counted and then remembered in slot `k`. */
    method Runs(buf: seq<Byte>, p: nat, k: nat) returns (fwd: nat, back: nat)
      requires Searchable(buf, p) && Holds(buf) && Uniform(buf, p) && k < 2
      modifies this
      ensures Holds(buf)
      ensures fwd == RunAhead(buf, p, Limit(buf)) && back == RunBehind(buf, p)
    {
      var hit := Query(buf, p);
      if hit.Some? {
        return hit.value.0, hit.value.1;
      }
      fwd, back := MeasureRun(buf, p);
      s := s[k := p - back];
      e := e[k := p + fwd];
    }
  }

  // ---------- The search state over 32-bit indices ----------

  datatype Walker = Walker(matchIndex: U32, attempts: int, longest: nat, off: nat, chainPos: nat, repeat: Repeat)

  ghost function View(w: Walker, base: U32): State {
    State(w.matchIndex - base, w.attempts, w.longest, w.off, w.chainPos, w.repeat)
  }

  /** The walker stands on a position inside the window of `ip`. */
  ghost predicate OnChain(ctx: HcCtx, buf: seq<Byte>, ip: nat, w: Walker)
    reads ctx`base, ctx.hashTable, ctx.comboTable
  {
    && ctx.Indexed(buf, ip) && |buf| <= MAX_INPUT && MAXD <= ctx.base && ctx.base + |buf| <= U32_MAX
    && StateOk(buf, ip, View(w, ctx.base))
    && ctx.base + Lowest(ip) <= w.matchIndex
  }

  /** The wrapping subtraction of the dictionary guard; see ProtectAlways. */
  function ProtectDictEnd(dictLimit: U32, index: U32): bool {
    (dictLimit - 1 - index) % 0x1_0000_0000 >= 3
  }

  /** Inside one buffer the guard holds, so its failure branches are unreachable. */
  lemma ProtectAlways(base: U32, index: U32)
    requires base <= index <= base + MAX_INPUT
    ensures ProtectDictEnd(base, index)
  {
    assert (base - 1 - index) % 0x1_0000_0000 == base - 1 - index + 0x1_0000_0000;
  }

  method DeltaNext(ctx: HcCtx, index: U32, ghost buf: seq<Byte>, ghost ip: nat) returns (d: nat)
    requires ctx.Indexed(buf, ip) && ctx.base + Lowest(ip) <= index < ctx.base + ip
    ensures d == Delta(buf, index - ctx.base)
  {
    hide HashPtr, Head, Delta, DeltaSum, Slot;
    assert ctx.comboTable[Slot(ctx.base + (index - ctx.base))] == Packed(buf, index - ctx.base);
    d := ctx.comboTable[Slot(index)] % MAXD;
  }

  /** Rejects on the two bytes a longer match would end with, then on the first four; then counts. */
  method MatchLength(buf: seq<Byte>, ip: nat, matchPtr: nat, longest: nat) returns (len: nat)
    requires Searchable(buf, ip) && matchPtr < ip && 3 <= longest && ip + longest <= Limit(buf)
    ensures len == Probe(buf, ip, matchPtr, longest)
  {
    hide CommonLength;
    len := 0;
    var mo := matchPtr + longest - 1;
    if Word(buf, mo, 2) == Word(buf, ip + longest - 1, 2) && Word(buf, matchPtr, 4) == Word(buf, ip, 4) {
      len := Count(buf, ip + MINMATCH, ip - matchPtr, |buf| - LASTLITERALS);
      len := MINMATCH + len;
    }
  }

  /** Spends one attempt on counting the match at the walker's position. */
  method ProbeMatch(ctx: HcCtx, buf: seq<Byte>, ip: nat, w0: Walker) returns (len: nat, w: Walker)
    requires OnChain(ctx, buf, ip, w0)
    ensures len == Probe(buf, ip, w0.matchIndex - ctx.base, w0.longest)
    ensures View(w, ctx.base) == Probed(buf, ip, View(w0, ctx.base)) && OnChain(ctx, buf, ip, w)
  {
    hide Probe, HcCtx.Indexed, RunAhead, Uniform, Genuine;
    w := w0.(attempts := w0.attempts - 1);
    len := MatchLength(buf, ip, w.matchIndex - ctx.base, w.longest);
    if len > w.longest {
      w := w.(longest := len, off := ip + ctx.base - w.matchIndex);
    }
    StillOnChain(ctx, buf, ip, w0, w);
  }

  lemma StillOnChain(ctx: HcCtx, buf: seq<Byte>, ip: nat, w0: Walker, w: Walker)
    requires OnChain(ctx, buf, ip, w0) && View(w, ctx.base) == Probed(buf, ip, View(w0, ctx.base))
    ensures OnChain(ctx, buf, ip, w)
  {
    hide StateOk, Probe;
    ProbedOk(buf, ip, View(w0, ctx.base));
  }

  method ChainSwapScan(ctx: HcCtx, matchIndex: U32, longest: nat, ghost buf: seq<Byte>, ghost ip: nat)
    returns (distance: nat, chainPos: nat)
    requires ctx.Indexed(buf, ip) && ip + 4 <= |buf| && ctx.base + |buf| <= U32_MAX && 3 <= longest
    requires ctx.base + Lowest(ip) <= matchIndex && matchIndex + longest <= ctx.base + ip
    ensures (distance, chainPos) == SwapScan(buf, matchIndex - ctx.base, longest - 3, 0, 16, 1, 0)
  {
    hide Delta, HcCtx.Indexed, HashPtr;
    ghost var m := matchIndex - ctx.base;
    distance, chainPos := 1, 0;
    var end := longest - MINMATCH + 1;
    var accel, pos := 16, 0;
    while pos < end
      invariant 0 <= pos && 16 <= accel && (distance == 1 || chainPos < end)
      invariant SwapScan(buf, m, end, pos, accel, distance, chainPos) == SwapScan(buf, m, end, 0, 16, 1, 0)
      decreases end - pos
    {
      var candidate := DeltaNext(ctx, matchIndex + pos, buf, ip);
      var step := accel / 16;
      accel := accel + 1;
      if candidate > distance {
        distance, chainPos := candidate, pos;
        accel := 16;
      }
      pos := pos + step;
    }
  }

  /** After a match as long as the longest: jump to where some position of the match links furthest. */
  method ChainSwap(ctx: HcCtx, buf: seq<Byte>, ip: nat, w0: Walker, len: nat) returns (swapped: bool, w: Walker)
    requires OnChain(ctx, buf, ip, w0)
    ensures var st := View(w0, ctx.base);
            && swapped == (len == st.longest && st.m + st.longest <= ip && Swap(buf, ip, st).0 > 1)
            && View(w, ctx.base) == if swapped
                                    then st.(m := st.m - Swap(buf, ip, st).0, chainPos := Swap(buf, ip, st).1)
                                    else st
  {
    hide SwapScan, Genuine, HcCtx.Indexed, RunAhead, Uniform;
    w := w0;
    swapped := false;
    if len == w.longest && w.matchIndex + w.longest <= ip + ctx.base {
      var distance, pos := ChainSwapScan(ctx, w.matchIndex, w.longest, buf, ip);
      if distance > 1 {
        w := w.(matchIndex := w.matchIndex - distance, chainPos := pos);
        swapped := true;
      }
    }
  }

  method TestPattern(ctx: HcCtx, buf: seq<Byte>, ip: nat, memo: PatternMemo, repeat0: Repeat) returns (repeat: Repeat)
    requires Searchable(buf, ip) && memo.Holds(buf)
    modifies memo
    ensures memo.Holds(buf) && repeat == Tested(buf, ip, repeat0)
  {
    repeat := repeat0;
    if repeat == Untested {
      var pattern := Word(buf, ip, 4);
      if pattern[0] == pattern[2] && pattern[1] == pattern[3] && pattern[0] == pattern[3] {
        var srcLen, back := memo.Runs(buf, ip, 0);
        repeat := Confirmed(srcLen);
      } else {
        repeat := Not;
      }
    }
  }

  /** Inside a run that holds the whole run at `ip`: align their ends. */
  method AlignEnds(ctx: HcCtx, w0: Walker, fwd: nat) returns (w: Walker)
    requires w0.repeat.Confirmed? && fwd <= w0.repeat.len && w0.repeat.len <= MAX_INPUT
    requires ctx.base + w0.repeat.len <= w0.matchIndex - 1 + fwd <= ctx.base + MAX_INPUT
    ensures View(w, ctx.base) == View(w0, ctx.base).(m := w0.matchIndex - 1 + fwd - w0.repeat.len - ctx.base)
  {
    var index: U32 := w0.matchIndex - 1 + fwd - w0.repeat.len;
    ProtectAlways(ctx.base, index);
    w := w0.(matchIndex := index);
  }

  /** Otherwise: take the match at the start of the run, then follow the link from there. */
  method TakeRunStart(ctx: HcCtx, buf: seq<Byte>, ip: nat, w0: Walker, start: U32, maxLen: nat) returns (w: Walker)
    requires OnChain(ctx, buf, ip, w0) && ctx.base + Lowest(ip) <= start < w0.matchIndex
    ensures View(w, ctx.base) == RunStart(buf, ip, View(w0, ctx.base), start - ctx.base, maxLen)
  {
    hide Genuine, HcCtx.Indexed, RunAhead, Delta, Uniform, ProtectDictEnd;
    ProtectAlways(ctx.base, start);
    w := w0.(matchIndex := start);
    if w.longest < maxLen {
      w := w.(longest := maxLen, off := ip + ctx.base - w.matchIndex);
    }
    var link := DeltaNext(ctx, w.matchIndex, buf, ip);
    w := w.(matchIndex := w.matchIndex - link);
  }

  /** A jump stays inside the window and before the walker. */
  lemma JumpBounds(buf: seq<Byte>, ip: nat, st: State, fwd: nat, start: nat)
    requires StateOk(buf, ip, st) && Lowest(ip) <= st.m && InRun(buf, ip, st.m - 1, st.repeat)
    requires fwd == RunAhead(buf, st.m - 1, Limit(buf))
    requires start == Max(st.m - 1 - RunBehind(buf, st.m - 1), Lowest(ip))
    ensures st.repeat.Confirmed? && Lowest(ip) <= start < st.m && st.m + fwd <= |buf| + 1 && st.repeat.len <= |buf|
  {
    hide Genuine, RunAhead, RunBehind, Uniform;
  }

  /** The two cases of a jump. */
  lemma JumpCases(buf: seq<Byte>, ip: nat, st: State, fwd: nat, start: nat)
    requires Searchable(buf, ip) && st.m <= ip && InRun(buf, ip, st.m - 1, st.repeat) && start <= ip
    requires fwd == RunAhead(buf, st.m - 1, Limit(buf))
    requires start == Max(st.m - 1 - RunBehind(buf, st.m - 1), Lowest(ip))
    ensures var segment := st.m - 1 - start + fwd;
            PatternJump(buf, ip, st)
            == if segment >= st.repeat.len && fwd <= st.repeat.len then st.(m := st.m - 1 + fwd - st.repeat.len)
               else RunStart(buf, ip, st, start, Min(segment, st.repeat.len))
  {
    hide RunAhead, RunBehind, RunStart;
  }

  lemma StateFits(buf: seq<Byte>, ip: nat, st: State)
    requires StateOk(buf, ip, st)
    ensures Searchable(buf, ip) && st.m + st.chainPos < ip
  {
  }

  method JumpInRun(ctx: HcCtx, buf: seq<Byte>, ip: nat, lowest: U32, w0: Walker, fwd: nat, back0: nat)
    returns (w: Walker)
    requires OnChain(ctx, buf, ip, w0) && InRun(buf, ip, w0.matchIndex - 1 - ctx.base, w0.repeat)
    requires fwd == RunAhead(buf, w0.matchIndex - 1 - ctx.base, Limit(buf))
    requires back0 == RunBehind(buf, w0.matchIndex - 1 - ctx.base) && lowest == ctx.base + Lowest(ip)
    ensures View(w, ctx.base) == PatternJump(buf, ip, View(w0, ctx.base))
  {
    hide StateOk, HcCtx.Indexed, RunAhead, RunBehind, InRun, Delta, PatternJump, RunStart;
    ghost var st := View(w0, ctx.base);
    StateFits(buf, ip, st);
    var cand := w0.matchIndex - 1;
    var lower := Max(cand - back0, lowest);
    JumpBounds(buf, ip, st, fwd, lower - ctx.base);
    JumpCases(buf, ip, st, fwd, lower - ctx.base);
    var back := cand - lower;
    var segment := back + fwd;
    if segment >= w0.repeat.len && fwd <= w0.repeat.len {
      w := AlignEnds(ctx, w0, fwd);
    } else {
      w := TakeRunStart(ctx, buf, ip, w0, lower, Min(segment, w0.repeat.len));
    }
  }

  /** A chain that steps back by one byte runs through repeated bytes: jump to where the run can match. */
  method PatternPath(ctx: HcCtx, buf: seq<Byte>, ip: nat, lowest: U32, memo: PatternMemo, w0: Walker)
    returns (jumped: bool, w: Walker)
    requires OnChain(ctx, buf, ip, w0) && memo.Holds(buf) && w0.chainPos == 0 && lowest == ctx.base + Lowest(ip)
    modifies memo
    ensures memo.Holds(buf)
    ensures var st := View(w0, ctx.base).(repeat := Tested(buf, ip, w0.repeat));
            && jumped == InRun(buf, ip, st.m - 1, st.repeat)
            && View(w, ctx.base) == if jumped then PatternJump(buf, ip, st) else st
  {
    hide Genuine, HcCtx.Indexed, RunAhead, RunBehind, Delta, CommonLength, Word;
    var repeat := TestPattern(ctx, buf, ip, memo, w0.repeat);
    w := w0.(repeat := repeat);
    jumped := false;
    var cand := w.matchIndex - 1;
    if repeat.Confirmed? && cand >= lowest {
      ProtectAlways(ctx.base, cand);
      var matchPtr := cand - ctx.base;
      if Word(buf, matchPtr, 4) == Word(buf, ip, 4) {
        UniformCopies(buf, ip, matchPtr);
        var fwd, back := memo.Runs(buf, matchPtr, 1);
        w := JumpInRun(ctx, buf, ip, lowest, w, fwd, back);
        jumped := true;
      }
    }
  }

  lemma UniformCopies(buf: seq<Byte>, ip: nat, p: nat)
    requires p + 4 <= |buf| && ip + 4 <= |buf| && Uniform(buf, ip) && Word(buf, p, 4) == Word(buf, ip, 4)
    ensures Uniform(buf, p)
  {
    assert forall k :: 0 <= k < 4 ==> Word(buf, p, 4)[k] == Word(buf, ip, 4)[k];
  }

  /** What the loops keep: like OnChain, but the walker may have left the window. */
  ghost predicate InBuffer(ctx: HcCtx, buf: seq<Byte>, ip: nat, w: Walker)
    reads ctx`base, ctx.hashTable, ctx.comboTable
  {
    && ctx.Indexed(buf, ip) && |buf| <= MAX_INPUT && MAXD <= ctx.base && ctx.base + |buf| <= U32_MAX
    && StateOk(buf, ip, View(w, ctx.base))
  }

  method ReadPacked(ctx: HcCtx, index: U32, ghost buf: seq<Byte>, ghost ip: nat) returns (d1: nat, sum: nat)
    requires ctx.Indexed(buf, ip) && ctx.base + Lowest(ip) <= index < ctx.base + ip
    ensures d1 == Delta(buf, index - ctx.base) && sum == DeltaSum(buf, index - ctx.base)
  {
    hide HashPtr, Head, Delta, DeltaSum, Slot;
    assert ctx.comboTable[Slot(ctx.base + (index - ctx.base))] == Packed(buf, index - ctx.base);
    var packed := ctx.comboTable[Slot(index)];
    d1 := packed % MAXD;
    sum := packed / MAXD;
  }

  /** One attempt while following the chain of the position itself. When it does not jump, what is
      left of the step is to follow `link`. */
  method HalfTurn(ctx: HcCtx, buf: seq<Byte>, ip: nat, lowest: U32, memo: PatternMemo, w0: Walker, link: nat)
    returns (jumped: bool, w: Walker)
    requires OnChain(ctx, buf, ip, w0) && memo.Holds(buf) && w0.chainPos == 0
    requires link == Delta(buf, w0.matchIndex - ctx.base) && lowest == ctx.base + Lowest(ip)
    modifies memo
    ensures memo.Holds(buf)
    ensures jumped ==> View(w, ctx.base) == Advance(buf, ip, View(w0, ctx.base))
    ensures !jumped ==> w.matchIndex == w0.matchIndex && w.chainPos == 0
                        && Advance(buf, ip, View(w0, ctx.base)) == View(w.(matchIndex := w.matchIndex - link), ctx.base)
  {
    hide Genuine, HcCtx.Indexed, Probe, Swap, Delta, PatternJump, InRun, Tested, StateOk;
    var len;
    len, w := ProbeMatch(ctx, buf, ip, w0);
    jumped, w := ChainSwap(ctx, buf, ip, w, len);
    if !jumped && link == 1 {
      jumped, w := PatternPath(ctx, buf, ip, lowest, memo, w);
    }
  }

  /** The second link of a packed pair; read from the table when the pair was clamped. */
  method SecondLink(ctx: HcCtx, ghost buf: seq<Byte>, ghost ip: nat, index: U32, d1: nat, sum: nat) returns (d2: nat)
    requires ctx.Indexed(buf, ip) && ctx.base + Lowest(ip) <= index < ctx.base + ip && index + d1 < ctx.base + ip
    requires d1 == Delta(buf, index + d1 - ctx.base) && sum == DeltaSum(buf, index + d1 - ctx.base)
    ensures d2 == Delta(buf, index - ctx.base)
  {
    hide Delta;
    if sum == NO_LINK {
      d2 := DeltaNext(ctx, index, buf, ip);
    } else {
      d2 := sum - d1;
    }
  }

  /** The first phase, two links per turn: the second link of a pair comes packed with the first. */
  method WalkPairs(ctx: HcCtx, buf: seq<Byte>, ip: nat, lowest: U32, memo: PatternMemo, w0: Walker) returns (w: Walker)
    requires InBuffer(ctx, buf, ip, w0) && w0.chainPos == 0 && memo.Holds(buf) && lowest == ctx.base + Lowest(ip)
    modifies memo
    ensures memo.Holds(buf) && InBuffer(ctx, buf, ip, w)
    ensures Search(buf, ip, View(w, ctx.base)) == Search(buf, ip, View(w0, ctx.base))
  {
    hide HcCtx.Indexed, Advance, Search, Delta, DeltaSum, StateOk;
    w := w0;
    while w.matchIndex >= lowest && w.attempts > 0
      invariant memo.Holds(buf) && w.chainPos == 0 && InBuffer(ctx, buf, ip, w)
      invariant Search(buf, ip, View(w, ctx.base)) == Search(buf, ip, View(w0, ctx.base))
      decreases w.attempts
    {
      ghost var st := View(w, ctx.base);
      StateFits(buf, ip, st);
      var d1, sum := ReadPacked(ctx, w.matchIndex, buf, ip);
      var jumped;
      jumped, w := HalfTurn(ctx, buf, ip, lowest, memo, w, d1);
      SearchStep(buf, ip, st);
      if jumped {
        if w.chainPos == 0 {
          continue;
        }
        return;
      }
      w := w.(matchIndex := w.matchIndex - d1);
      if w.matchIndex < lowest || w.attempts <= 0 {
        return;
      }
      st := View(w, ctx.base);
      StateFits(buf, ip, st);
      var d2 := SecondLink(ctx, buf, ip, w.matchIndex, d1, sum);
      jumped, w := HalfTurn(ctx, buf, ip, lowest, memo, w, d2);
      SearchStep(buf, ip, st);
      if jumped {
        if w.chainPos == 0 {
          continue;
        }
        return;
      }
      w := w.(matchIndex := w.matchIndex - d2);
    }
  }

  /** One turn of the second phase, where the chain followed is that of a position inside the match. */
  method SwappedTurn(ctx: HcCtx, buf: seq<Byte>, ip: nat, lowest: U32, memo: PatternMemo, w0: Walker)
    returns (w: Walker)
    requires OnChain(ctx, buf, ip, w0) && memo.Holds(buf) && lowest == ctx.base + Lowest(ip)
    modifies memo
    ensures memo.Holds(buf) && View(w, ctx.base) == Advance(buf, ip, View(w0, ctx.base))
  {
    hide HcCtx.Indexed, Delta, Genuine, Uniform, RunAhead, Probe, Swap, PatternJump, InRun, Tested;
    var len;
    len, w := ProbeMatch(ctx, buf, ip, w0);
    var jumped;
    jumped, w := ChainSwap(ctx, buf, ip, w, len);
    if jumped {
      return;
    }
    var link := DeltaNext(ctx, w.matchIndex + w.chainPos, buf, ip);
    if w.chainPos == 0 && link == 1 {
      jumped, w := PatternPath(ctx, buf, ip, lowest, memo, w);
      if jumped {
        return;
      }
    }
    w := w.(matchIndex := w.matchIndex - link);
  }

  method WalkSwapped(ctx: HcCtx, buf: seq<Byte>, ip: nat, lowest: U32, memo: PatternMemo, w0: Walker)
    returns (w: Walker)
    requires InBuffer(ctx, buf, ip, w0) && memo.Holds(buf) && lowest == ctx.base + Lowest(ip)
    modifies memo
    ensures memo.Holds(buf) && View(w, ctx.base) == Search(buf, ip, View(w0, ctx.base))
  {
    hide HcCtx.Indexed, Search, Advance, Genuine, Uniform, RunAhead;
    w := w0;
    while w.matchIndex >= lowest && w.attempts > 0
      invariant memo.Holds(buf) && InBuffer(ctx, buf, ip, w)
      invariant Search(buf, ip, View(w, ctx.base)) == Search(buf, ip, View(w0, ctx.base))
      decreases w.attempts
    {
      SearchStep(buf, ip, View(w, ctx.base));
      w := SwappedTurn(ctx, buf, ip, lowest, memo, w);
    }
    SearchDone(buf, ip, View(w, ctx.base));
  }

  /** The window test in 32-bit indices: 64 KiB above the base, or a full window behind the position. */
  method LowestIndex(base: U32, ip: nat) returns (lowest: U32)
    requires base + ip + MAXD <= U32_MAX
    ensures lowest == base + Lowest(ip)
  {
    var ipIndex: U32 := ip + base;
    var start: U32 := base + (LZ4_DISTANCE_MAX + 1);
    lowest := if start > ipIndex then base else ipIndex - LZ4_DISTANCE_MAX;
  }

  /** Indexes up to `ip`, then searches: exactly the match the table-free walk finds. */
  method FindLongerMatch(ctx: HcCtx, buf: seq<Byte>, ip: nat, memo: PatternMemo) returns (md: Match)
    requires ctx.base <= ctx.nextToUpdate <= ctx.base + ip && ctx.Indexed(buf, ctx.nextToUpdate - ctx.base)
    requires Searchable(buf, ip) && |buf| <= MAX_INPUT && ctx.base + |buf| + MAXD <= U32_MAX && memo.Holds(buf)
    modifies ctx`nextToUpdate, ctx.hashTable, ctx.comboTable, memo
    ensures ctx.nextToUpdate == ctx.base + ip && ctx.Indexed(buf, ip) && memo.Holds(buf)
    ensures md == FindMatch(buf, ip)
  {
    hide Search, HashPtr, Head, Genuine, Packed;
    var lowest := LowestIndex(ctx.base, ip);
    ctx.Insert(buf, ip);
    var h := HashPtr(buf, ip);
    var matchIndex := ctx.hashTable[h];
    assert HeadEntry(matchIndex, ctx.base, Head(buf, ip, h));
    var w := Walker(matchIndex, NB_SEARCHES, 3, 0, 0, Untested);
    StaleHead(buf, ip, View(w, ctx.base));
    w := WalkPairs(ctx, buf, ip, lowest, memo, w);
    w := WalkSwapped(ctx, buf, ip, lowest, memo, w);
    md := if w.longest <= 3 then Match(0, 0) else Match(w.longest, w.off);
  }

  /** An index from before the base ends the search at once, as an empty chain does. */
  lemma StaleHead(buf: seq<Byte>, ip: nat, st: State)
    requires Searchable(buf, ip) && st == Start(buf, ip).(m := st.m)
    requires st.m == Start(buf, ip).m || (st.m < 0 && Start(buf, ip).m < 0)
    ensures StateOk(buf, ip, st)
    ensures Search(buf, ip, st).longest == Search(buf, ip, Start(buf, ip)).longest
    ensures Search(buf, ip, st).off == Search(buf, ip, Start(buf, ip)).off
  {
  }
}
