/**
 * The match counters. Each reads eight bytes at a time and finishes with a word that overlaps what
 * it has already read; each is proved to return the byte-by-byte count. A word is modelled as its
 * bytes in memory order, so that comparing two words by exclusive-or and counting trailing
 * (leading) zero bits is to look for their first (last) differing byte.
 */
module Lz4Counters {
  import opened Bytes

  function Word(buf: seq<Byte>, i: nat, n: nat): (w: seq<Byte>)
    requires i + n <= |buf|
    ensures |w| == n && forall k :: i <= k < i + n ==> w[k - i] == buf[k]
  {
    buf[i..i + n]
  }

  /** trailing_zeros((a ^ b) >> (8 * skip)) / 8 */
  function FirstDiff(a: seq<Byte>, b: seq<Byte>, skip: nat): (r: nat)
    requires skip <= |a| == |b|
    ensures skip + r <= |a|
    ensures forall k :: skip <= k < skip + r ==> a[k] == b[k]
    ensures skip + r < |a| ==> a[skip + r] != b[skip + r]
    decreases |a| - skip
  {
    if skip == |a| || a[skip] != b[skip] then 0 else 1 + FirstDiff(a, b, skip + 1)
  }

  /** leading_zeros((a ^ b) << (8 * (|a| - keep))) / 8, at most keep */
  function LastDiff(a: seq<Byte>, b: seq<Byte>, keep: nat): (r: nat)
    requires keep <= |a| == |b|
    ensures r <= keep
    ensures forall k :: keep - r <= k < keep ==> a[k] == b[k]
    ensures r < keep ==> a[keep - 1 - r] != b[keep - 1 - r]
  {
    if keep == 0 || a[keep - 1] != b[keep - 1] then 0 else 1 + LastDiff(a, b, keep - 1)
  }

  // ---------- Common length of two places in a buffer ----------

  /** The bytes from `p` up to `end` equal those `off` places back. */
  ghost predicate SameBehind(buf: seq<Byte>, p: nat, end: nat, off: nat)
    requires end <= |buf| && off <= p
  {
    forall k :: p <= k < end ==> buf[k] == buf[k - off]
  }

  /** How many bytes from `p` on, short of `limit`, equal those `off` places back. */
  ghost function CommonLength(buf: seq<Byte>, p: nat, off: nat, limit: nat): (r: nat)
    requires off <= p <= limit <= |buf|
    ensures p + r <= limit && SameBehind(buf, p, p + r, off)
    ensures p + r < limit ==> buf[p + r] != buf[p + r - off]
    decreases limit - p
  {
    if p < limit && buf[p] == buf[p - off] then 1 + CommonLength(buf, p + 1, off, limit) else 0
  }

  /** The count is determined by its properties. */
  lemma CommonLengthUnique(buf: seq<Byte>, p: nat, off: nat, limit: nat, end: nat)
    requires off <= p <= end <= limit <= |buf|
    requires SameBehind(buf, p, end, off)
    requires end < limit ==> buf[end] != buf[end - off]
    ensures end == p + CommonLength(buf, p, off, limit)
  {
  }

  /** The last, partial word: re-read the eight bytes before the limit and drop the known ones. */
  method CountTail(buf: seq<Byte>, pin: nat, off: nat, limit: nat) returns (end: nat)
    requires off <= pin < limit <= |buf| && 8 <= limit < pin + 8
    ensures end == pin + CommonLength(buf, pin, off, limit)
  {
    hide CommonLength, FirstDiff, Word;
    var q := limit - 8;
    var back := pin - q;
    var pmatch := pin - off;
    end := pin;
    if pmatch >= back {
      var a, b := Word(buf, q, 8), Word(buf, pmatch - back, 8);
      var diff := FirstDiff(a, b, back);
      end := pin + diff;
      CommonLengthUnique(buf, pin, off, limit, end);
    } else {
      end := CountBytes(buf, pin, off, limit);
    }
  }

  method CountBytes(buf: seq<Byte>, pin: nat, off: nat, limit: nat) returns (end: nat)
    requires off <= pin < limit <= |buf|
    ensures end == pin + CommonLength(buf, pin, off, limit)
  {
    hide CommonLength;
    end := pin;
    while end < limit && buf[end] == buf[end - off]
      invariant pin <= end <= limit && SameBehind(buf, pin, end, off)
    {
      end := end + 1;
    }
    CommonLengthUnique(buf, pin, off, limit, end);
  }

  /** Compares the words at `p` and `off` places back. */
  method CompareWords(buf: seq<Byte>, p: nat, off: nat) returns (diff: nat)
    requires off <= p && p + 8 <= |buf|
    ensures diff <= 8 && SameBehind(buf, p, p + diff, off)
    ensures diff < 8 ==> buf[p + diff] != buf[p + diff - off]
  {
    var a, b := Word(buf, p, 8), Word(buf, p - off, 8);
    diff := FirstDiff(a, b, 0);
  }

  lemma SameBehindEmpty(buf: seq<Byte>, p: nat, off: nat)
    requires off <= p <= |buf|
    ensures SameBehind(buf, p, p, off)
  {
  }

  lemma SameBehindJoin(buf: seq<Byte>, p: nat, m: nat, end: nat, off: nat)
    requires off <= p <= m <= end <= |buf| && SameBehind(buf, p, m, off) && SameBehind(buf, m, end, off)
    ensures SameBehind(buf, p, end, off)
  {
  }

  /** Two words per turn, then one; the word that differs resolves the exact byte. */
  method Count(buf: seq<Byte>, start: nat, off: nat, limit: nat) returns (r: nat)
    requires off <= start <= limit <= |buf| && 8 <= limit
    ensures r == CommonLength(buf, start, off, limit)
  {
    hide CommonLength, FirstDiff, SameBehind;
    SameBehindEmpty(buf, start, off);
    var pin := start;
    while pin + 16 <= limit
      invariant start <= pin <= limit && SameBehind(buf, start, pin, off)
    {
      var diff0 := CompareWords(buf, pin, off);
      SameBehindJoin(buf, start, pin, pin + diff0, off);
      if diff0 != 8 {
        CommonLengthUnique(buf, start, off, limit, pin + diff0);
        return pin + diff0 - start;
      }
      var diff1 := CompareWords(buf, pin + 8, off);
      SameBehindJoin(buf, start, pin + 8, pin + 8 + diff1, off);
      if diff1 != 8 {
        CommonLengthUnique(buf, start, off, limit, pin + 8 + diff1);
        return pin + 8 + diff1 - start;
      }
      pin := pin + 16;
    }
    r := CountRest(buf, start, pin, off, limit);
  }

  /** The last whole word, if any, and the bytes after it. */
  method CountRest(buf: seq<Byte>, start: nat, from: nat, off: nat, limit: nat) returns (r: nat)
    requires off <= start <= from <= limit <= |buf| && 8 <= limit && SameBehind(buf, start, from, off)
    ensures r == CommonLength(buf, start, off, limit)
  {
    hide CommonLength, FirstDiff, SameBehind;
    var pin := from;
    while pin + 8 <= limit
      invariant start <= pin <= limit && SameBehind(buf, start, pin, off)
    {
      var diff := CompareWords(buf, pin, off);
      SameBehindJoin(buf, start, pin, pin + diff, off);
      if diff != 8 {
        CommonLengthUnique(buf, start, off, limit, pin + diff);
        return pin + diff - start;
      }
      pin := pin + 8;
    }
    if pin < limit {
      var end := CountTail(buf, pin, off, limit);
      SameBehindJoin(buf, start, pin, end, off);
      pin := end;
    }
    CommonLengthUnique(buf, start, off, limit, pin);
    r := pin - start;
  }

  // ---------- Runs of a four-byte pattern ----------

  /** The pattern, repeated, fills the buffer from `start` up to `end`. */
  ghost predicate Repeats(buf: seq<Byte>, start: nat, end: nat, pattern: seq<Byte>)
    requires end <= |buf| && |pattern| == 4
  {
    forall k :: start <= k < end ==> buf[k] == pattern[Phase(k - start)]
  }

  /** The pattern, repeated backwards from `start`, fills the buffer from `low` up to there. */
  ghost predicate RepeatsBack(buf: seq<Byte>, low: nat, start: nat, pattern: seq<Byte>)
    requires start <= |buf| && |pattern| == 4
  {
    forall k :: low <= k < start ==> buf[k] == pattern[Phase(k - start)]
  }

  /** The place in a four-byte pattern `k` bytes after its start, or before it. */
  function Phase(k: int): (r: nat)
    ensures r < 4
  {
    k % 4
  }

  /** pattern.rotate_right(8 * phase) */
  function RotateRight(pattern: seq<Byte>, phase: nat): (r: seq<Byte>)
    requires |pattern| == 4 && phase < 4
    ensures |r| == 4 && forall k :: 0 <= k < 4 ==> r[k] == pattern[Phase(k + phase)]
  {
    pattern[phase..] + pattern[..phase]
  }

  /** `word` continues at `q` the pattern that starts at `start`. */
  ghost predicate InPhase(word: seq<Byte>, q: int, start: int, pattern: seq<Byte>)
    requires |pattern| == 4
  {
    forall k :: 0 <= k < |word| ==> word[k] == pattern[Phase(q + k - start)]
  }

  lemma PatternInPhase(pattern: seq<Byte>, q: int, start: int, turns: int)
    requires |pattern| == 4 && q - start == 4 * turns
    ensures InPhase(pattern, q, start, pattern) && InPhase(pattern + pattern, q, start, pattern)
  {
    forall k | 0 <= k < 8
      ensures (pattern + pattern)[k] == pattern[Phase(q + k - start)]
    {
      assert Phase(q + k - start) == Phase(k);
    }
  }

  lemma RotatedInPhase(pattern: seq<Byte>, q: int, start: int)
    requires |pattern| == 4
    ensures var exp := RotateRight(pattern, Phase(q - start));
            InPhase(exp, q, start, pattern) && InPhase(exp + exp, q, start, pattern)
  {
    hide Phase, RotateRight;
    var phase := Phase(q - start);
    var exp := RotateRight(pattern, phase);
    forall k | 0 <= k < 8
      ensures (exp + exp)[k] == pattern[Phase(q + k - start)]
    {
      PhaseShift(q - start, k);
      PhaseTurn(k + phase);
      assert (exp + exp)[k] == if k < 4 then exp[k] else exp[k - 4];
    }
    assert forall k :: 0 <= k < 4 ==> exp[k] == (exp + exp)[k];
  }

  lemma PhaseShift(a: int, k: int)
    ensures Phase(a + k) == Phase(k + Phase(a))
  {
  }

  lemma PhaseTurn(a: int)
    ensures Phase(a - 4) == Phase(a)
  {
  }

  /** Compares the eight bytes at `q` with an expected word, ignoring the first `skip` of them. */
  method CompareForward(buf: seq<Byte>, q: nat, skip: nat, expected: seq<Byte>, ghost start: nat,
      ghost pattern: seq<Byte>)
    returns (end: nat)
    requires q + 8 <= |buf| && skip <= 8 == |expected| && |pattern| == 4 && InPhase(expected, q, start, pattern)
    ensures q + skip <= end <= q + 8
    ensures forall k :: q + skip <= k < end ==> buf[k] == pattern[Phase(k - start)]
    ensures end < q + 8 ==> buf[end] != pattern[Phase(end - start)]
  {
    var word := Word(buf, q, 8);
    var diff := FirstDiff(word, expected, skip);
    end := q + skip + diff;
    forall k | q + skip <= k < end
      ensures buf[k] == pattern[Phase(k - start)]
    {
      assert word[k - q] == expected[k - q];
    }
  }

  method CountPattern(buf: seq<Byte>, start: nat, iend: nat, pattern: seq<Byte>) returns (r: nat)
    requires start <= iend <= |buf| && 8 <= iend && |pattern| == 4
    ensures start + r <= iend && Repeats(buf, start, start + r, pattern)
    ensures start + r < iend ==> buf[start + r] != pattern[Phase(r)]
  {
    var pattern64 := pattern + pattern;
    var ip := start;
    ghost var turns := 0;
    hide Phase;
    while ip + 8 <= iend
      invariant start <= ip <= iend && ip == start + 8 * turns && Repeats(buf, start, ip, pattern)
    {
      PatternInPhase(pattern, ip, start, 2 * turns);
      var end := CompareForward(buf, ip, 0, pattern64, start, pattern);
      if end != ip + 8 {
        return end - start;
      }
      ip, turns := ip + 8, turns + 1;
    }
    if ip < iend {
      var q := iend - 8;
      var exp32 := RotateRight(pattern, Phase(q - start));
      RotatedInPhase(pattern, q, start);
      ip := CompareForward(buf, q, ip - q, exp32 + exp32, start, pattern);
    }
    r := ip - start;
  }

  /** Compares the first `keep` bytes of the word at `q` with an expected word, from the last one down. */
  method CompareBackward(buf: seq<Byte>, q: nat, keep: nat, expected: seq<Byte>, ghost start: nat,
      ghost pattern: seq<Byte>)
    returns (low: nat)
    requires q + |expected| <= |buf| && keep <= |expected| && |pattern| == 4 && InPhase(expected, q, start, pattern)
    requires start <= |buf| && RepeatsBack(buf, q + keep, start, pattern)
    ensures q <= low <= q + keep && RepeatsBack(buf, low, start, pattern)
    ensures q < low ==> buf[low - 1] != pattern[Phase(low - 1 - start)]
  {
    var word := Word(buf, q, |expected|);
    var m := LastDiff(word, expected, keep);
    low := q + keep - m;
    forall k | low <= k < q + keep
      ensures buf[k] == pattern[Phase(k - start)]
    {
      assert word[k - q] == expected[k - q];
    }
  }

  /** Fewer than four bytes remain: shifting the word left leaves only the bytes below `ip`. */
  method ReverseCountTail(buf: seq<Byte>, start: nat, ip: nat, ilow: nat, ghost turns: int, pattern: seq<Byte>)
    returns (low: nat)
    requires ilow < ip < ilow + 4 && start == ip + 4 * turns && ip <= start && start + 4 <= |buf| && |pattern| == 4
    requires RepeatsBack(buf, ip, start, pattern)
    ensures ilow <= low <= ip && RepeatsBack(buf, low, start, pattern)
    ensures ilow < low ==> buf[low - 1] != pattern[Phase(low - 1 - start)]
  {
    hide RepeatsBack, InPhase;
    var exp := RotateRight(pattern, Phase(ilow - ip));
    assert Phase(ilow - ip) == Phase(ilow - start);
    RotatedInPhase(pattern, ilow, start);
    low := CompareBackward(buf, ilow, ip - ilow, exp, start, pattern);
  }

  /** One loop over whole words of four or eight bytes, downwards while they fit above `ilow`. */
  method ReverseCountWords(buf: seq<Byte>, start: nat, ip0: nat, ilow: nat, ghost turns0: int, pattern: seq<Byte>,
      word: seq<Byte>)
    returns (ip: nat, stopped: bool, ghost turns: int)
    requires |pattern| == 4 && (word == pattern || word == pattern + pattern)
    requires ilow <= ip0 <= start <= |buf| && start == ip0 + 4 * turns0 && RepeatsBack(buf, ip0, start, pattern)
    ensures ilow <= ip <= ip0 && RepeatsBack(buf, ip, start, pattern)
    ensures stopped ==> ilow < ip && buf[ip - 1] != pattern[Phase(ip - 1 - start)]
    ensures !stopped ==> ip < ilow + |word| && start == ip + 4 * turns
  {
    hide RepeatsBack, InPhase, Phase;
    ip, turns := ip0, turns0;
    while ip >= ilow + |word|
      invariant ilow <= ip <= ip0 && start == ip + 4 * turns && RepeatsBack(buf, ip, start, pattern)
    {
      turns := turns + |word| / 4;
      PatternInPhase(pattern, ip - |word|, start, -turns);
      var low := CompareBackward(buf, ip - |word|, |word|, word, start, pattern);
      if low != ip - |word| {
        return low, true, turns;
      }
      ip := ip - |word|;
    }
    stopped := false;
  }

  method ReverseCountPattern(buf: seq<Byte>, start: nat, ilow: nat, pattern: seq<Byte>) returns (r: nat)
    requires ilow <= start && start + 4 <= |buf| && |pattern| == 4
    ensures ilow + r <= start && RepeatsBack(buf, start - r, start, pattern)
    ensures ilow < start - r ==> buf[start - r - 1] != pattern[Phase(-1 - r)]
  {
    var pattern64 := pattern + pattern;
    var ip, stopped, turns := ReverseCountWords(buf, start, start, ilow, 0, pattern, pattern64);
    if !stopped {
      ip, stopped, turns := ReverseCountWords(buf, start, ip, ilow, turns, pattern, pattern);
    }
    if !stopped && ip > ilow {
      ip := ReverseCountTail(buf, start, ip, ilow, turns, pattern);
    }
    r := start - ip;
  }
}
