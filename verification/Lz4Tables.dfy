/**
 * The hash and chain tables. Indices are 32-bit numbers offset by a base; what the tables mean is a
 * function of the buffer alone, so nothing a previous buffer left behind can be observed.
 */
module Lz4Tables {
  import opened Bytes

  const HASH_SIZE := 0x8000
  const MAXD := 0x1_0000
  const NO_LINK := 0xFFFF
  const MAX_INPUT := 0x7FFF_FFFF

  // ---------- What the tables mean ----------

  function Read32(buf: seq<Byte>, i: nat): (r: nat)
    requires i + 4 <= |buf|
    ensures r <= U32_MAX
  {
    buf[i] as int + 0x100 * buf[i + 1] as int + 0x1_0000 * buf[i + 2] as int + 0x100_0000 * buf[i + 3] as int
  }

  /** The multiplicative hash of four bytes, modulo 2^32, its top fifteen bits. */
  function HashPtr(buf: seq<Byte>, i: nat): (r: nat)
    requires i + 4 <= |buf|
    ensures r < HASH_SIZE
  {
    (Read32(buf, i) * 2654435761) % 0x1_0000_0000 / 0x2_0000
  }

  function HashBatch(buf: seq<Byte>, pos0: nat): (r: seq<nat>)
    requires pos0 + 12 <= |buf|
    ensures |r| == 8 && forall k :: 0 <= k < 8 ==> r[k] == HashPtr(buf, pos0 + k)
  {
    [HashPtr(buf, pos0), HashPtr(buf, pos0 + 1), HashPtr(buf, pos0 + 2), HashPtr(buf, pos0 + 3),
     HashPtr(buf, pos0 + 4), HashPtr(buf, pos0 + 5), HashPtr(buf, pos0 + 6), HashPtr(buf, pos0 + 7)]
  }

  /** The last position before `n` with hash `h`. */
  ghost function Head(buf: seq<Byte>, n: nat, h: nat): (r: Option<nat>)
    requires n + 3 <= |buf|
    ensures r.Some? ==> r.value < n && HashPtr(buf, r.value) == h
    ensures forall p :: (if r.Some? then r.value + 1 else 0) <= p < n ==> HashPtr(buf, p) != h
  {
    if n == 0 then None
    else if HashPtr(buf, n - 1) == h then Some(n - 1)
    else Head(buf, n - 1, h)
  }

  /** The distance from `p` back to the previous position with its hash, clamped to 65535. */
  ghost function Delta(buf: seq<Byte>, p: nat): (r: nat)
    requires p + 4 <= |buf|
    ensures 1 <= r <= NO_LINK
    ensures r < NO_LINK ==> r <= p && HashPtr(buf, p - r) == HashPtr(buf, p)
  {
    match Head(buf, p, HashPtr(buf, p))
    case None => NO_LINK
    case Some(q) => Min(p - q, NO_LINK)
  }

  /** Two links at once, when they add up to less than the clamp. */
  ghost function DeltaSum(buf: seq<Byte>, p: nat): (r: nat)
    requires p + 4 <= |buf|
    ensures Delta(buf, p) <= r <= NO_LINK
    ensures r < NO_LINK ==> Delta(buf, p) <= p && r == Delta(buf, p) + Delta(buf, p - Delta(buf, p))
  {
    var d := Delta(buf, p);
    if d == NO_LINK then NO_LINK else Min(d + Delta(buf, p - d), NO_LINK)
  }

  lemma SumOfLinks(buf: seq<Byte>, p: nat, next: nat)
    requires p + 4 <= |buf| && (Delta(buf, p) < NO_LINK ==> next == Delta(buf, p - Delta(buf, p)))
    ensures DeltaSum(buf, p) == Min(Delta(buf, p) + next, NO_LINK)
  {
    hide Delta;
  }

  /** The first link comes back out of a packed pair. */
  lemma PackedFirst(buf: seq<Byte>, p: nat)
    requires p + 4 <= |buf|
    ensures Packed(buf, p) % MAXD == Delta(buf, p)
  {
    hide Delta, DeltaSum;
  }

  function Slot(i: nat): (r: nat)
    ensures r < MAXD
  {
    i % MAXD
  }

  lemma SlotsDiffer(i: nat, j: nat)
    requires i < j < i + MAXD
    ensures Slot(i) != Slot(j)
  {
  }

  /** A table entry for a hash: the indexed position, or something at least 64 KiB behind the base. */
  ghost predicate HeadEntry(entry: U32, base: nat, head: Option<nat>) {
    match head
    case None => entry + MAXD <= base
    case Some(p) => entry == base + p
  }

  ghost function Packed(buf: seq<Byte>, p: nat): nat
    requires p + 4 <= |buf|
  {
    Delta(buf, p) + MAXD * DeltaSum(buf, p)
  }

  class HcCtx {
    const hashTable: array<U32>
    const comboTable: array<U32>
    var base: U32
    var nextToUpdate: U32
    var hi: U32

    ghost predicate Shape()
      reads this`base
    {
      && hashTable.Length == HASH_SIZE && comboTable.Length == MAXD && hashTable != comboTable
      && MAXD <= base
    }

    /** Between buffers: no entry is beyond `hi`. Nothing else is promised about the tables. */
    ghost predicate Quiet()
      reads this`base, this`hi, hashTable
    {
      Shape() && MAXD <= hi && forall h :: 0 <= h < HASH_SIZE ==> hashTable[h] <= hi
    }

    /** Every entry is at least 64 KiB behind the base. */
    ghost predicate Rebased()
      reads this`base, hashTable
    {
      Shape() && forall h :: 0 <= h < HASH_SIZE ==> hashTable[h] + MAXD <= base
    }

    /** The first `n` positions of `buf` are indexed; the ring holds the last 64 Ki of them. */
    ghost predicate Indexed(buf: seq<Byte>, n: nat)
      reads this`base, hashTable, comboTable
    {
      && Shape() && base + |buf| <= U32_MAX && n + 3 <= |buf|
      && (forall h :: 0 <= h < HASH_SIZE ==> HeadEntry(hashTable[h], base, Head(buf, n, h)))
      && (forall p :: 0 <= p < n < p + MAXD ==> comboTable[Slot(base + p)] == Packed(buf, p))
    }

    constructor ()
      ensures Quiet() && Rebased() && fresh(hashTable) && fresh(comboTable)
      ensures base == hi == nextToUpdate == MAXD
    {
      hashTable := new U32[HASH_SIZE](_ => 0);
      comboTable := new U32[MAXD](_ => 0xFFFF);
      base, nextToUpdate, hi := MAXD, MAXD, MAXD;
    }

    /** Rebases past everything the tables hold, or clears them when the index space runs out. Beyond the
        buffer there is room for the 64 KiB that the window test of the search adds to the base. */
    method Prepare(srcLen: nat)
      requires Quiet() && srcLen <= MAX_INPUT
      modifies this, hashTable, comboTable
      ensures Rebased() && base + srcLen + MAXD <= U32_MAX && nextToUpdate == base && hi == old(hi)
    {
      var rebased := hi + MAXD;
      if rebased + srcLen > U32_MAX - MAXD {
        forall h | 0 <= h < HASH_SIZE {
          hashTable[h] := 0;
        }
        forall i | 0 <= i < MAXD {
          comboTable[i] := 0xFFFF;
        }
        base := MAXD;
      } else {
        base := rebased;
      }
      nextToUpdate := base;
    }

    /** The distance from `idx` to the head of its chain, clamped. */
    method LinkTo(ghost buf: seq<Byte>, ghost n: nat, idx: U32, h: nat) returns (delta: U32)
      requires Indexed(buf, n) && idx == base + n && n + 4 <= |buf| && h == HashPtr(buf, n)
      ensures delta == Delta(buf, n)
    {
      hide HashPtr, Head, Slot;
      assert HeadEntry(hashTable[h], base, Head(buf, n, h));
      delta := idx - hashTable[h];
      if delta > NO_LINK {
        delta := NO_LINK;
      }
    }

    /** The link from `idx` to the head of its chain, and the packed pair of links. */
    method LinkValues(ghost buf: seq<Byte>, ghost n: nat, idx: U32, h: nat) returns (packed: U32)
      requires Indexed(buf, n) && idx == base + n && n + 4 <= |buf| && h == HashPtr(buf, n)
      ensures packed == Packed(buf, n)
    {
      hide HashPtr, Head, Slot;
      var delta := LinkTo(buf, n, idx, h);
      hide Delta, DeltaSum;
      if delta < NO_LINK {
        assert comboTable[Slot(base + (n - delta))] == Packed(buf, n - delta);
        PackedFirst(buf, n - delta);
      }
      var d2 := comboTable[Slot(idx - delta)] % MAXD;
      var sum := Min(delta + d2, NO_LINK);
      SumOfLinks(buf, n, d2);
      packed := delta + MAXD * sum;
    }

    /** Links position `idx`, whose hash is `h`, and makes it the head of its chain. */
    method Link(ghost buf: seq<Byte>, ghost n: nat, idx: U32, h: nat)
      requires Indexed(buf, n) && idx == base + n && n + 4 <= |buf| && h == HashPtr(buf, n)
      modifies hashTable, comboTable
      ensures Indexed(buf, n + 1)
    {
      hide HashPtr, Slot, Packed;
      var packed := LinkValues(buf, n, idx, h);
      comboTable[Slot(idx)] := packed;
      hashTable[h] := idx;
      forall p | 0 <= p < n + 1 < p + 1 + MAXD
        ensures comboTable[Slot(base + p)] == Packed(buf, p)
      {
        if p < n {
          SlotsDiffer(base + p, idx);
        }
      }
    }

    /** Hashes eight positions, then links them one after the other. */
    method LinkBatch(buf: seq<Byte>, pos0: nat, idx: U32)
      requires Indexed(buf, pos0) && idx == base + pos0 && pos0 + 12 <= |buf| && base + |buf| <= U32_MAX
      modifies hashTable, comboTable
      ensures Indexed(buf, pos0 + 8)
    {
      hide HashPtr, Head, Packed, HashBatch, Indexed;
      var hashes := HashBatch(buf, pos0);
      for k := 0 to 8
        invariant Indexed(buf, pos0 + k)
      {
        Link(buf, pos0 + k, idx + k, hashes[k]);
      }
    }

    method InsertBatches(buf: seq<Byte>, start: U32, target: U32) returns (idx: U32)
      requires base <= start <= target && Indexed(buf, start - base) && base + |buf| <= U32_MAX
      modifies hashTable, comboTable
      ensures start <= idx <= target && Indexed(buf, idx - base)
    {
      idx := start;
      hide Indexed;
      while idx + 8 <= target
        invariant start <= idx <= target && Indexed(buf, idx - base)
      {
        var pos0 := idx - base;
        if pos0 + 4 + 8 > |buf| {
          break;
        }
        LinkBatch(buf, pos0, idx);
        idx := idx + 8;
      }
    }

    method InsertRest(buf: seq<Byte>, start: U32, target: U32)
      requires base <= start <= target && Indexed(buf, start - base) && target - base + 3 <= |buf|
      modifies hashTable, comboTable
      ensures Indexed(buf, target - base)
    {
      var idx := start;
      hide Indexed, HashPtr;
      while idx < target
        invariant start <= idx <= target && Indexed(buf, idx - base)
      {
        var pos := idx - base;
        var h := HashPtr(buf, pos);
        Link(buf, pos, idx, h);
        idx := idx + 1;
      }
    }

    /** Indexes every position before `ip`, eight hashes at a time while that pays. */
    method Insert(buf: seq<Byte>, ip: nat)
      requires base <= nextToUpdate <= base + ip && Indexed(buf, nextToUpdate - base)
      requires ip + 4 <= |buf| && base + |buf| <= U32_MAX
      modifies this`nextToUpdate, hashTable, comboTable
      ensures nextToUpdate == base + ip && Indexed(buf, ip)
    {
      hide Indexed;
      var target: U32 := ip + base;
      var idx: U32 := nextToUpdate;
      if target - idx >= 8 && |buf| >= 4 + 8 {
        idx := InsertBatches(buf, idx, target);
      }
      InsertRest(buf, idx, target);
      nextToUpdate := target;
    }

    /** Rebased tables say of any buffer what cleared ones would: nothing is indexed yet. */
    lemma NothingIndexed(buf: seq<Byte>)
      requires Rebased() && 3 <= |buf| && base + |buf| <= U32_MAX
      ensures Indexed(buf, 0)
    {
    }

    /** Having indexed part of a buffer, the tables are quiet again once `hi` covers it. */
    lemma QuietAfter(buf: seq<Byte>, n: nat)
      requires Indexed(buf, n) && base + n <= hi
      ensures Quiet()
    {
      forall h | 0 <= h < HASH_SIZE
        ensures hashTable[h] <= hi
      {
        assert HeadEntry(hashTable[h], base, Head(buf, n, h));
      }
    }
  }
}
