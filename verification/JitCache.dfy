/**
 * The pinned disk cache: a key map and a tick-ordered map of the same entries, a running total,
 * live pin guards and budgeted eviction of the least recently used. Renaming and deleting the
 * victims' files is not modelled; eviction returns the victims' keys, oldest first.
 */
module JitCache {
  import opened Bytes

  type Key = string

  datatype Entry = Entry(bytes: nat, refs: nat, tick: nat, path: string) {
    /** Only such an entry can be evicted. */
    predicate Evictable() {
      refs == 0 && bytes > 0
    }
  }

  datatype Item = Item(key: Key, path: string, bytes: nat)

  // ---------- The sum of entry sizes ----------

  ghost function TotalBytes(m: map<Key, Entry>): nat
    decreases |m|
  {
    if m == map[] then 0 else
    var k :| k in m;
    m[k].bytes + TotalBytes(m - {k})
  }

  lemma {:induction false} TotalRemove(m: map<Key, Entry>, k: Key)
    requires k in m
    ensures TotalBytes(m) == m[k].bytes + TotalBytes(m - {k})
    decreases |m|
  {
    var j :| j in m && TotalBytes(m) == m[j].bytes + TotalBytes(m - {j});
    if j != k {
      TotalRemove(m - {j}, k);
      TotalRemove(m - {k}, j);
      assert m - {j} - {k} == m - {k} - {j};
    }
  }

  lemma TotalInsert(m: map<Key, Entry>, k: Key, e: Entry)
    ensures TotalBytes(m[k := e]) == TotalBytes(m) - (if k in m then m[k].bytes else 0) + e.bytes
  {
    TotalRemove(m[k := e], k);
    assert m[k := e] - {k} == m - {k};
    if k in m {
      TotalRemove(m, k);
    } else {
      assert m - {k} == m;
    }
  }

  ghost predicate Least(t: nat, s: set<nat>) {
    t in s && forall u :: u in s ==> t <= u
  }

  lemma LeastExists(s: set<nat>)
    requires s != {}
    ensures exists t :: Least(t, s)
  {
    var t :| t in s;
    if s == {t} {
      assert Least(t, s);
    } else {
      LeastExists(s - {t});
      var r :| Least(r, s - {t});
      assert s == {t} + (s - {t});
      assert Least(if t <= r then t else r, s);
    }
  }

  function SaturatingSub(a: nat, b: nat): nat {
    if a >= b then a - b else 0
  }

  // ---------- The two maps and the guards ----------

  /** The tick map is the inverse of the key map's ticks. */
  ghost predicate Bijection(entries: map<Key, Entry>, order: map<nat, Key>, clock: nat) {
    && (forall k :: k in entries ==> entries[k].tick in order && order[entries[k].tick] == k)
    && (forall t :: t in order ==> t <= clock && order[t] in entries && entries[order[t]].tick == t)
  }

  lemma BijectionRenew(entries: map<Key, Entry>, order: map<nat, Key>, clock: nat, key: Key, e: Entry)
    requires Bijection(entries, order, clock) && e.tick == clock + 1
    ensures Bijection(entries[key := e],
                      (if key in entries then order - {entries[key].tick} else order)[clock + 1 := key], clock + 1)
  {
  }

  lemma BijectionKeep(entries: map<Key, Entry>, order: map<nat, Key>, clock: nat, key: Key, e: Entry)
    requires Bijection(entries, order, clock) && key in entries && e.tick == entries[key].tick
    ensures Bijection(entries[key := e], order, clock)
  {
  }

  lemma BijectionRemove(entries: map<Key, Entry>, order: map<nat, Key>, clock: nat, key: Key)
    requires Bijection(entries, order, clock) && key in entries
    ensures Bijection(entries - {key}, order - {entries[key].tick}, clock)
  {
  }

  lemma NoSuchTick(entries: map<Key, Entry>, order: map<nat, Key>, clock: nat)
    requires Bijection(entries, order, clock)
    ensures clock + 1 !in order
  {
  }

  /** Every entry counts its live guards; a key without an entry has none. */
  ghost predicate Counted(entries: map<Key, Entry>, guards: multiset<Key>) {
    forall k :: guards[k] == if k in entries then entries[k].refs else 0
  }

  lemma CountedChange(entries: map<Key, Entry>, guards: multiset<Key>, key: Key, e: Entry)
    requires Counted(entries, guards)
    ensures Counted(entries[key := e], guards[key := e.refs])
  {
  }

  lemma CountedRemove(entries: map<Key, Entry>, guards: multiset<Key>, key: Key)
    requires Counted(entries, guards) && key in entries && entries[key].refs == 0
    ensures Counted(entries - {key}, guards)
  {
  }

  lemma CountedPin(entries: map<Key, Entry>, guards: multiset<Key>, key: Key, e: Entry)
    requires Counted(entries, guards)
    requires e.refs == (if key in entries then entries[key].refs else 0) + 1
    ensures Counted(entries[key := e], guards + multiset{key})
  {
  }

  class JitDiskCache {
    const budget: nat
    var entries: map<Key, Entry>
    var order: map<nat, Key>
    var total: nat
    var clock: nat
    /** The guards handed out by Pin and not dropped yet. */
    ghost var guards: multiset<Key>

    ghost predicate Valid()
      reads this
    {
      Bijection(entries, order, clock) && total == TotalBytes(entries) && Counted(entries, guards)
    }

    /** Within budget, or everything that takes space is pinned. */
    ghost predicate Settled()
      reads this
    {
      total <= budget || forall k :: k in entries ==> entries[k].refs > 0 || entries[k].bytes == 0
    }

    constructor (budget: nat)
      ensures Valid() && entries == map[] && guards == multiset{} && this.budget == budget
    {
      this.budget := budget;
      entries, order, total, clock := map[], map[], 0, 0;
      guards := multiset{};
    }

    /** Gives `key` the entry `e` at the current tick, in place of its entry at tick `was`, if any. */
    method Place(key: Key, was: nat, e: Entry)
      requires clock > 0 && Bijection(entries, order, clock - 1) && e.tick == clock
      requires was == if key in entries then entries[key].tick else clock
      modifies this`entries, this`order
      ensures Bijection(entries, order, clock) && entries == old(entries)[key := e]
      ensures TotalBytes(entries)
              == TotalBytes(old(entries)) + e.bytes - (if key in old(entries) then old(entries)[key].bytes else 0)
    {
      hide Bijection, TotalBytes;
      TotalInsert(entries, key, e);
      BijectionRenew(entries, order, clock - 1, key, e);
      NoSuchTick(entries, order, clock - 1);
      assert key !in entries ==> order - {was} == order;
      entries := entries[key := e];
      order := (order - {was})[e.tick := key];
    }

    /** Moves `key` to a new tick, if it is present. */
    method Bump(key: Key)
      requires Valid()
      modifies this`entries, this`order, this`clock
      ensures Valid() && clock == old(clock) + 1
      ensures entries == if key in old(entries) then old(entries)[key := old(entries)[key].(tick := clock)]
                         else old(entries)
    {
      hide TotalBytes;
      clock := clock + 1;
      var tick := clock;
      if key in entries {
        hide Bijection;
        var e := entries[key];
        Place(key, e.tick, e.(tick := tick));
      }
    }

    /** Hands out a guard, creating an empty entry if there is none. */
    method Pin(key: Key) returns (pinned: bool)
      requires Valid()
      modifies this
      ensures Valid() && pinned == (budget > 0) && total == old(total)
      ensures !pinned ==> entries == old(entries) && guards == old(guards)
      ensures pinned ==> guards == old(guards) + multiset{key} && clock == old(clock) + 1
      ensures pinned ==>
                var was := old(entries);
                entries == was[key := if key in was then was[key].(refs := was[key].refs + 1, tick := clock)
                                      else Entry(0, 1, clock, "")]
    {
      if budget == 0 {
        return false;
      }
      hide Bijection, Counted, TotalBytes;
      clock := clock + 1;
      var tick := clock;
      var e := if key in entries then entries[key] else Entry(0, 0, tick, "");
      var was := e.tick;
      e := e.(refs := e.refs + 1, tick := tick);
      CountedPin(entries, guards, key, e);
      guards := guards + multiset{key};
      Place(key, was, e);
      pinned := true;
    }

    /** One guard less on an entry that has some. */
    method Unref(key: Key)
      requires Valid() && guards[key] > 0
      modifies this`entries, this`guards
      ensures Valid() && guards == old(guards) - multiset{key}
      ensures key in old(entries) && old(entries)[key].refs > 0
      ensures entries == old(entries)[key := old(entries)[key].(refs := old(entries)[key].refs - 1)]
    {
      assert key in entries && entries[key].refs == guards[key];
      hide Bijection, Counted, TotalBytes;
      var e := entries[key];
      e := e.(refs := SaturatingSub(e.refs, 1));
      CountedChange(entries, guards, key, e);
      TotalInsert(entries, key, e);
      BijectionKeep(entries, order, clock, key, e);
      entries := entries[key := e];
      guards := guards[key := e.refs];
    }

    /** Removes an entry that is neither filled nor pinned. */
    method RemoveEmpty(key: Key)
      requires Valid() && key in entries && entries[key].refs == 0 && entries[key].bytes == 0
      modifies this`entries, this`order
      ensures Valid() && entries == old(entries) - {key}
    {
      TotalRemove(entries, key);
      BijectionRemove(entries, order, clock, key);
      CountedRemove(entries, guards, key);
      hide Bijection, Counted, TotalBytes;
      var tick := entries[key].tick;
      entries := entries - {key};
      order := order - {tick};
    }

    /** Dropping the last guard of an entry that was never filled removes it. */
    method DropGuard(key: Key)
      requires Valid() && guards[key] > 0
      modifies this`entries, this`order, this`guards
      ensures Valid() && guards == old(guards) - multiset{key}
      ensures key in old(entries) && old(entries)[key].refs > 0
      ensures var e := old(entries)[key];
              entries == if e.refs == 1 && e.bytes == 0 then old(entries) - {key}
                         else old(entries)[key := e.(refs := e.refs - 1)]
    {
      hide Bijection, Counted, TotalBytes;
      Unref(key);
      if entries[key].refs == 0 && entries[key].bytes == 0 {
        RemoveEmpty(key);
        assert entries == old(entries) - {key};
      }
    }

    method Touch(key: Key)
      requires Valid()
      modifies this`entries, this`order, this`clock
      ensures Valid()
      ensures entries == if budget > 0 && key in old(entries)
                         then old(entries)[key := old(entries)[key].(tick := clock)]
                         else old(entries)
      ensures budget > 0 && key in old(entries) ==> clock == old(clock) + 1
    {
      if budget == 0 {
        return;
      }
      if key in entries {
        Bump(key);
      }
    }

    /** Adds an unpinned entry for a new key, at a new tick. */
    method InsertNew(key: Key, path: string, bytes: nat)
      requires Valid() && key !in entries
      modifies this`entries, this`order, this`total, this`clock
      ensures Valid() && clock == old(clock) + 1
      ensures entries == old(entries)[key := Entry(bytes, 0, clock, path)]
    {
      hide TotalBytes, Bijection;
      clock := clock + 1;
      var tick := clock;
      total := total + bytes;
      Place(key, tick, Entry(bytes, 0, tick, path));
    }

    /** The evictable entry with the smallest tick, found by scanning the ticks in order. */
    method Oldest() returns (chosen: Option<(nat, Key)>)
      requires Valid()
      ensures chosen.None? ==> forall k :: k in entries ==> !entries[k].Evictable()
      ensures chosen.Some? ==>
                var (tick, key) := chosen.value;
                && tick in order && order[tick] == key
                && key in entries && entries[key].tick == tick && entries[key].Evictable()
                && forall k :: k in entries && entries[k].Evictable() && k != key ==> tick < entries[k].tick
    {
      var rest := order.Keys;
      while rest != {}
        invariant rest <= order.Keys
        invariant forall k :: k in entries && entries[k].Evictable() ==> entries[k].tick in rest
        decreases |rest|
      {
        LeastExists(rest);
        var tick :| tick in rest && forall u :: u in rest ==> tick <= u;
        var key := order[tick];
        if entries[key].Evictable() {
          return Some((tick, key));
        }
        rest := rest - {tick};
      }
      chosen := None;
    }

    method EvictOne(tick: nat, key: Key)
      requires Valid() && tick in order && order[tick] == key && entries[key].Evictable()
      modifies this`entries, this`order, this`total
      ensures Valid() && entries == old(entries) - {key} && total == old(total) - old(entries)[key].bytes
    {
      hide TotalBytes;
      TotalRemove(entries, key);
      BijectionRemove(entries, order, clock, key);
      CountedRemove(entries, guards, key);
      hide Bijection, Counted;
      total := SaturatingSub(total, entries[key].bytes);
      entries := entries - {key};
      order := order - {tick};
    }

    /** Chooses and removes the next victim, if there is one. */
    method EvictNext(ghost before: map<Key, Entry>, ghost victims: seq<Key>) returns (chosen: Option<Key>)
      requires Valid() && Evicted(before, entries, victims)
      modifies this`entries, this`order, this`total
      ensures Valid()
      ensures chosen.None? ==>
                && Evicted(before, entries, victims) && total == old(total)
                && forall k :: k in entries ==> !entries[k].Evictable()
      ensures chosen.Some? ==>
                && Evicted(before, entries, victims + [chosen.value]) && |entries| < |old(entries)|
                && chosen.value in before && total + before[chosen.value].bytes == old(total)
    {
      hide Bijection, Counted, TotalBytes, Evicted;
      var oldest := Oldest();
      if oldest.None? {
        return None;
      }
      var (tick, key) := oldest.value;
      EvictedMore(before, entries, victims, key, tick);
      ghost var more := entries;
      EvictOne(tick, key);
      assert more.Keys == entries.Keys + {key};
      chosen := Some(key);
    }

    /** Evicts the oldest evictable entries until the total fits, and no more than that takes. */
    method EvictLocked() returns (victims: seq<Key>)
      requires Valid()
      modifies this`entries, this`order, this`total
      ensures Valid() && Settled()
      ensures Evicted(old(entries), entries, victims) && NoMoreThanNeeded(old(entries), victims)
    {
      victims := [];
      NothingEvicted(entries);
      hide Bijection, Counted, TotalBytes, Evicted;
      while total > budget
        invariant Valid() && Evicted(old(entries), entries, victims) && NoMoreThanNeeded(old(entries), victims)
        decreases |entries|
      {
        var chosen := EvictNext(old(entries), victims);
        if chosen.None? {
          break;
        }
        victims := victims + [chosen.value];
      }
    }

    /** Without the last victim the total would still be over budget. */
    ghost predicate NoMoreThanNeeded(before: map<Key, Entry>, victims: seq<Key>)
      reads this`total
    {
      victims != [] ==>
        victims[|victims| - 1] in before && total + before[victims[|victims| - 1]].bytes > budget
    }

    /** The entry that recording `bytes` under a key leaves, before eviction: while guards hold it, its size
        never shrinks; otherwise it is the size recorded. */
    ghost function RecordedEntry(key: Key, path: string, bytes: nat): (r: Entry)
      reads this
      ensures r.path == path && r.refs == if key in entries then entries[key].refs else 0
      ensures r.refs == 0 ==> r.bytes == bytes
      ensures r.refs > 0 ==> bytes <= r.bytes && entries[key].bytes <= r.bytes
                             && (r.bytes == bytes || r.bytes == entries[key].bytes)
    {
      if key !in entries then Entry(bytes, 0, 0, path)
      else
        var e := entries[key];
        e.(bytes := if e.refs > 0 then Max(bytes, e.bytes) else bytes, path := path)
    }

    method Fill(key: Key, path: string, bytes: nat)
      requires Valid() && key in entries
      modifies this`entries, this`total
      ensures Valid() && entries == old(entries)[key := old(RecordedEntry(key, path, bytes))]
    {
      hide Bijection, TotalBytes;
      var e := entries[key];
      var newBytes := if e.refs > 0 then Max(bytes, e.bytes) else bytes;
      var filled := e.(bytes := newBytes, path := path);
      TotalRemove(entries, key);
      TotalInsert(entries, key, filled);
      BijectionKeep(entries, order, clock, key, filled);
      entries := entries[key := filled];
      total := SaturatingSub(total, e.bytes) + newBytes;
    }

    method PutNewest(key: Key, path: string, bytes: nat)
      requires Valid()
      modifies this`entries, this`order, this`total, this`clock
      ensures Valid()
      ensures entries == old(entries)[key := old(RecordedEntry(key, path, bytes)).(tick := clock)]
    {
      hide Bijection, Counted, TotalBytes;
      if key in entries {
        Fill(key, path, bytes);
      } else {
        InsertNew(key, path, bytes);
      }
      Bump(key);
    }

    /** Records the size of a file, as the newest entry, then evicts down to the budget. */
    method Record(key: Key, path: string, bytes: nat) returns (victims: seq<Key>)
      requires Valid()
      modifies this`entries, this`order, this`total, this`clock
      ensures Valid()
      ensures budget == 0 ==> entries == old(entries) && victims == []
      ensures budget > 0 ==>
                var recorded := old(entries)[key := old(RecordedEntry(key, path, bytes)).(tick := clock)];
                Settled() && Evicted(recorded, entries, victims) && NoMoreThanNeeded(recorded, victims)
    {
      if budget == 0 {
        return [];
      }
      hide Bijection, Counted, TotalBytes, Evicted, RecordedEntry;
      PutNewest(key, path, bytes);
      victims := EvictLocked();
    }

    /** Adds the items that are new and not empty, in order, then evicts down to the budget. */
    method SeedMany(items: seq<Item>) returns (victims: seq<Key>)
      requires Valid()
      modifies this`entries, this`order, this`total, this`clock
      ensures Valid()
      ensures budget == 0 ==> entries == old(entries) && victims == []
      ensures budget > 0 ==>
                var seeded := Seeded(old(entries), items, old(clock));
                Settled() && Evicted(seeded, entries, victims) && NoMoreThanNeeded(seeded, victims)
    {
      if budget == 0 {
        return [];
      }
      hide Bijection, Counted, TotalBytes, Evicted;
      for i := 0 to |items|
        invariant Valid() && Seeded(entries, items[i..], clock) == Seeded(old(entries), items, old(clock))
      {
        var item := items[i];
        assert items[i..][0] == item && items[i..][1..] == items[i + 1..];
        if item.bytes == 0 || item.key in entries {
          continue;
        }
        InsertNew(item.key, item.path, item.bytes);
      }
      victims := EvictLocked();
    }
  }

  /** The entries after seeding, before eviction: each new key gets the next tick. */
  ghost function Seeded(m: map<Key, Entry>, items: seq<Item>, clock: nat): map<Key, Entry>
    decreases |items|
  {
    if items == [] then m
    else
      var item := items[0];
      if item.bytes == 0 || item.key in m then Seeded(m, items[1..], clock)
      else Seeded(m[item.key := Entry(item.bytes, 0, clock + 1, item.path)], items[1..], clock + 1)
  }

  /** The first item that is not empty and has this key; the number of items when there is none. */
  function FirstItem(items: seq<Item>, k: Key): (r: nat)
    ensures r <= |items| && (r < |items| ==> items[r].key == k && items[r].bytes > 0)
    ensures forall i :: 0 <= i < r ==> items[i].key != k || items[i].bytes == 0
  {
    if items == [] || (items[0].key == k && items[0].bytes > 0) then 0 else 1 + FirstItem(items[1..], k)
  }

  /** Seeding keeps every entry and adds exactly the keys of the items that are not empty, each with its first
      item, unpinned, newer than before and in the order of the items. */
  lemma {:induction false} SeededIs(m: map<Key, Entry>, items: seq<Item>, clock: nat, k: Key, l: Key)
    ensures var r, i := Seeded(m, items, clock), FirstItem(items, k);
            && (k in m ==> k in r && r[k] == m[k])
            && (k !in m ==> (k in r <==> i < |items|))
            && (k !in m && i < |items| ==>
                  r[k].bytes == items[i].bytes && r[k].refs == 0 && r[k].path == items[i].path && clock < r[k].tick)
            && (k !in m && l !in m && i < FirstItem(items, l) < |items| ==> l in r && r[k].tick < r[l].tick)
    decreases |items|
  {
    if items != [] {
      var item := items[0];
      if item.bytes == 0 || item.key in m {
        SeededIs(m, items[1..], clock, k, l);
        SeededIs(m, items[1..], clock, l, k);
      } else {
        var next := m[item.key := Entry(item.bytes, 0, clock + 1, item.path)];
        SeededIs(next, items[1..], clock + 1, k, l);
        SeededIs(next, items[1..], clock + 1, l, k);
      }
    }
  }

  /** The victims are what is gone; none was pinned or empty, and every evictable survivor is newer. */
  ghost predicate Evicted(before: map<Key, Entry>, after: map<Key, Entry>, victims: seq<Key>) {
    && (forall i, j :: 0 <= i < j < |victims| ==> victims[i] != victims[j])
    && (forall k :: k in victims ==> k in before && before[k].refs == 0 && before[k].bytes > 0)
    && after == before - (set k | k in victims)
    && (forall v, k :: v in victims && k in after && after[k].refs == 0 && after[k].bytes > 0 ==>
          before[v].tick < after[k].tick)
  }

  lemma NothingEvicted(m: map<Key, Entry>)
    ensures Evicted(m, m, [])
  {
  }

  lemma EvictedMore(before: map<Key, Entry>, after: map<Key, Entry>, victims: seq<Key>, key: Key, tick: nat)
    requires Evicted(before, after, victims) && key in after && after[key].Evictable() && after[key].tick == tick
    requires forall k :: k in after && after[k].Evictable() && k != key ==> tick < after[k].tick
    ensures key in before && before[key] == after[key]
    ensures Evicted(before, after - {key}, victims + [key])
  {
    assert (set k | k in victims + [key]) == (set k | k in victims) + {key};
  }

  // ---------- Runs ----------

  datatype Op =
    | OpPin(key: Key)
    | OpDrop(key: Key)
    | OpRecord(key: Key, path: string, bytes: nat)
    | OpTouch(key: Key)
    | OpSeed(items: seq<Item>)

  /** Any run of operations from an empty cache, where guards are dropped only while they live. */
  method Run(budget: nat, ops: seq<Op>) returns (cache: JitDiskCache)
    ensures fresh(cache) && cache.Valid()
    ensures forall k :: k in cache.guards ==> k in cache.entries
    ensures ops != [] && (ops[|ops| - 1].OpRecord? || ops[|ops| - 1].OpSeed?) && budget > 0 ==> cache.Settled()
  {
    cache := new JitDiskCache(budget);
    for i := 0 to |ops|
      invariant fresh(cache) && cache.Valid() && cache.budget == budget
      invariant i > 0 && (ops[i - 1].OpRecord? || ops[i - 1].OpSeed?) && budget > 0 ==> cache.Settled()
    {
      match ops[i] {
        case OpPin(key) => var pinned := cache.Pin(key);
        case OpDrop(key) =>
          if key in cache.entries && cache.entries[key].refs > 0 {
            cache.DropGuard(key);
          }
        case OpRecord(key, path, bytes) => var victims := cache.Record(key, path, bytes);
        case OpTouch(key) => cache.Touch(key);
        case OpSeed(items) => var victims := cache.SeedMany(items);
      }
    }
  }
}
