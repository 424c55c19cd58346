/**
 * The keyed-lock path that fetches content, as a step system with any number of threads and a cache that
 * may evict what is stored. The lock map holds at most `cap` locks; an arbitrary one makes room for a new
 * key.
 */
module FetchLocks {
  import opened Bytes

  type Key = string

  /** Where a thread stands in ensure_content. A thread holds its lock from Inside on. */
  datatype Thread =
    | Idle
    | Entered(key: Key)
    | Missed(key: Key)
    | Waiting(key: Key, lock: nat)
    | Inside(key: Key, lock: nat)
    | Fetching(key: Key, lock: nat)
    | Remote(key: Key, lock: nat)
    | Writing(key: Key, lock: nat)
  {
    predicate HasLock() {
      Inside? || PastCheck()
    }

    /** Past the second existence check. */
    predicate PastCheck() {
      Fetching? || Remote? || Writing?
    }
  }

  /** Shared state; threads not listed are idle. `fetched`, `written`, `lost` and `gone` count events. */
  datatype State = State(
    threads: map<nat, Thread>,
    locks: map<Key, nat>,
    nextLock: nat,
    holder: map<nat, nat>,
    store: set<Key>,
    fetched: multiset<Key>,
    written: multiset<Key>,
    lost: multiset<Key>,
    gone: multiset<Key>)

  /** What a thread does next, where it has a choice or the environment decides. Any thread may evict any
      stored key at any time, as the disk cache does when something is recorded in it. */
  datatype Action =
    | Call(key: Key)
    | CheckFirst
    | GetLock(victim: Key)
    | Acquire
    | CheckSecond
    | LocalHit
    | LocalMiss
    | RemoteOk
    | RemoteFails
    | WriteOk
    | WriteFails
    | Evict(key: Key)

  function At(s: State, t: nat): Thread {
    if t in s.threads then s.threads[t] else Idle
  }

  /** Both threads are past the second check, for the same key. */
  predicate Together(s: State, t: nat, u: nat) {
    At(s, t).PastCheck() && At(s, u).PastCheck() && At(s, t).key == At(s, u).key
  }

  function Goto(s: State, t: nat, pc: Thread): State {
    s.(threads := s.threads[t := pc])
  }

  /** Leaves ensure_content and releases the lock. */
  function Leave(s: State, t: nat, lock: nat): State {
    Goto(s, t, Idle).(holder := s.holder - {lock})
  }

  /** Makes room for a new key when the map is full: some key goes. */
  function BoundedReserve(locks: map<Key, nat>, cap: nat, key: Key, victim: Key): Option<map<Key, nat>> {
    if |locks| >= cap && key !in locks && locks != map[] then
      if victim in locks then Some(locks - {victim}) else None
    else Some(locks)
  }

  /** What a thread does to itself and the shared state; eviction apart. */
  function ThreadStep(s: State, cap: nat, t: nat, a: Action): Option<State> {
    match (At(s, t), a)
    case (Idle, Call(key)) => Some(Goto(s, t, Entered(key)))
    case (Entered(key), CheckFirst) =>
      Some(Goto(s, t, if key in s.store then Idle else Missed(key)))
    case (Missed(key), GetLock(victim)) =>
      if key in s.locks then Some(Goto(s, t, Waiting(key, s.locks[key])))
      else
        (match BoundedReserve(s.locks, cap, key, victim)
         case None => None
         case Some(locks) =>
           Some(Goto(s, t, Waiting(key, s.nextLock)).(locks := locks[key := s.nextLock], nextLock := s.nextLock + 1)))
    case (Waiting(key, lock), Acquire) =>
      if lock in s.holder then None
      else Some(Goto(s, t, Inside(key, lock)).(holder := s.holder[lock := t]))
    case (Inside(key, lock), CheckSecond) =>
      Some(if key in s.store then Leave(s, t, lock) else Goto(s, t, Fetching(key, lock)))
    case (Fetching(key, lock), LocalHit) =>
      Some(Goto(s, t, Writing(key, lock)).(fetched := s.fetched + multiset{key}))
    case (Fetching(key, lock), LocalMiss) => Some(Goto(s, t, Remote(key, lock)))
    case (Remote(key, lock), RemoteOk) =>
      Some(Goto(s, t, Writing(key, lock)).(fetched := s.fetched + multiset{key}))
    case (Remote(key, lock), RemoteFails) => Some(Leave(s, t, lock))
    case (Writing(key, lock), WriteOk) =>
      Some(Leave(s, t, lock).(store := s.store + {key}, written := s.written + multiset{key}))
    case (Writing(key, lock), WriteFails) =>
      Some(Leave(s, t, lock).(lost := s.lost + multiset{key}))
    case _ => None
  }

  function Step(s: State, cap: nat, t: nat, a: Action): Option<State> {
    match a
    case Evict(key) =>
      if key in s.store then Some(s.(store := s.store - {key}, gone := s.gone + multiset{key})) else None
    case _ => ThreadStep(s, cap, t, a)
  }

  function Init(store: set<Key>): State {
    State(map[], map[], 0, map[], store, multiset{}, multiset{}, multiset{}, multiset{})
  }

  datatype Move = Move(t: nat, a: Action)

  /** A run whose calls ask only for keys in `keys`. */
  ghost predicate Reaches(s0: State, cap: nat, keys: set<Key>, run: seq<Move>, s: State)
    decreases |run|
  {
    if run == [] then s == s0
    else
      var m := run[0];
      && (m.a.Call? ==> m.a.key in keys)
      && Step(s0, cap, m.t, m.a).Some?
      && Reaches(Step(s0, cap, m.t, m.a).value, cap, keys, run[1..], s)
  }

  // ---------- The invariant ----------

  ghost predicate KeyOk(keys: set<Key>, pc: Thread) {
    pc.Idle? || pc.key in keys
  }

  /** No lock is ever replaced: whoever has a lock for a key has the one in the map. */
  ghost predicate LocksOk(s: State, keys: set<Key>) {
    && s.locks.Keys <= keys
    && (forall k :: k in s.locks ==> s.locks[k] < s.nextLock)
    && (forall j, k :: j in s.locks && k in s.locks && s.locks[j] == s.locks[k] ==> j == k)
    && (forall t :: t in s.threads ==>
          var pc := s.threads[t];
          KeyOk(keys, pc) && (pc.Waiting? || pc.HasLock() ==> pc.key in s.locks && s.locks[pc.key] == pc.lock))
  }

  /** Exactly the threads inside hold their locks. */
  ghost predicate HoldersOk(s: State) {
    && (forall t :: t in s.threads && s.threads[t].HasLock() ==>
          s.threads[t].lock in s.holder && s.holder[s.threads[t].lock] == t)
    && (forall l :: l in s.holder ==>
          var t := s.holder[l]; t in s.threads && s.threads[t].HasLock() && s.threads[t].lock == l)
  }

  /** Past the second check the key is not stored yet. */
  ghost predicate UnstoredInside(s: State) {
    forall t :: t in s.threads && s.threads[t].PastCheck() ==> s.threads[t].key !in s.store
  }

  ghost predicate WritingNow(s: State, k: Key) {
    exists t :: t in s.threads && s.threads[t].Writing? && s.threads[t].key == k
  }

  /** Writes and evictions of a key alternate, and every fetch is written, lost or being written. */
  ghost predicate CountsOk(s: State, store0: set<Key>) {
    && (forall k :: s.written[k] + (if k in store0 then 1 else 0) == s.gone[k] + if k in s.store then 1 else 0)
    && (forall k :: s.fetched[k] == s.written[k] + s.lost[k] + if WritingNow(s, k) then 1 else 0)
  }

  ghost predicate Inv(s: State, keys: set<Key>, store0: set<Key>) {
    LocksOk(s, keys) && HoldersOk(s) && UnstoredInside(s) && CountsOk(s, store0)
  }

  /** Room for every key that is asked for; a map of capacity 0 still holds one lock. */
  predicate Roomy(cap: nat, keys: set<Key>) {
    |keys| <= Max(cap, 1)
  }

  /** Mutual exclusion: two threads inside for the same key are one thread. */
  lemma OneInside(s: State, keys: set<Key>, t: nat, u: nat)
    requires LocksOk(s, keys) && HoldersOk(s)
    requires At(s, t).HasLock() && At(s, u).HasLock() && At(s, t).key == At(s, u).key
    ensures t == u
  {
  }

  lemma FewerLocks(locks: set<Key>, keys: set<Key>, key: Key)
    requires locks <= keys && key in keys && key !in locks
    ensures |locks| < |keys|
  {
    assert |keys| == |locks| + |keys - locks|;
    assert key in keys - locks;
  }

  /** Whether a thread has a handle on a lock, held or not. */
  predicate HasHandle(pc: Thread) {
    pc.Waiting? || pc.HasLock()
  }

  /** A step other than taking a handle leaves the locks alone and moves one thread. */
  lemma StepFrame(s: State, cap: nat, t: nat, a: Action)
    requires ThreadStep(s, cap, t, a).Some? && !a.GetLock?
    ensures var n := ThreadStep(s, cap, t, a).value;
            n.threads == s.threads[t := At(n, t)] && n.locks == s.locks && n.nextLock == s.nextLock
  {
  }

  lemma StepHandle(s: State, cap: nat, t: nat, a: Action)
    requires ThreadStep(s, cap, t, a).Some? && !a.GetLock?
    ensures var pc, pc' := At(s, t), At(ThreadStep(s, cap, t, a).value, t);
            && (pc'.Idle? || (if a.Call? then pc'.key == a.key else !pc.Idle? && pc'.key == pc.key))
            && (HasHandle(pc') ==> HasHandle(pc) && pc'.lock == pc.lock)
  {
  }

  lemma StepHolder(s: State, cap: nat, t: nat, a: Action)
    requires ThreadStep(s, cap, t, a).Some? && !a.GetLock?
    ensures var n := ThreadStep(s, cap, t, a).value;
            var pc, pc' := At(s, t), At(n, t);
            && (pc.HasLock() == pc'.HasLock() ==> n.holder == s.holder)
            && (pc.HasLock() && !pc'.HasLock() ==> n.holder == s.holder - {pc.lock})
  {
  }

  lemma StepTakes(s: State, cap: nat, t: nat, a: Action)
    requires ThreadStep(s, cap, t, a).Some?
    ensures var n := ThreadStep(s, cap, t, a).value;
            var pc, pc' := At(s, t), At(n, t);
            !pc.HasLock() && pc'.HasLock() ==> pc'.lock !in s.holder && n.holder == s.holder[pc'.lock := t]
  {
  }

  /** Taking a handle when nothing has to make way: the key's lock, or a new one. */
  lemma StepHandles(s: State, cap: nat, t: nat, a: Action)
    requires a.GetLock? && ThreadStep(s, cap, t, a).Some? && At(s, t).Missed?
    requires At(s, t).key !in s.locks ==> BoundedReserve(s.locks, cap, At(s, t).key, a.victim) == Some(s.locks)
    ensures var n, key := ThreadStep(s, cap, t, a).value, At(s, t).key;
            && n.locks == (if key in s.locks then s.locks else s.locks[key := s.nextLock])
            && n.nextLock == (if key in s.locks then s.nextLock else s.nextLock + 1)
            && n.threads == s.threads[t := Waiting(key, n.locks[key])]
  {
    hide BoundedReserve;
  }

  lemma GetLockMissed(s: State, cap: nat, t: nat, a: Action)
    requires a.GetLock? && ThreadStep(s, cap, t, a).Some?
    ensures At(s, t).Missed?
  {
  }

  lemma GetLockKeepsLocks(s: State, cap: nat, keys: set<Key>, t: nat, a: Action)
    requires LocksOk(s, keys) && Roomy(cap, keys) && a.GetLock? && ThreadStep(s, cap, t, a).Some?
    ensures LocksOk(ThreadStep(s, cap, t, a).value, keys)
    ensures At(ThreadStep(s, cap, t, a).value, t).Waiting?
  {
    GetLockMissed(s, cap, t, a);
    hide ThreadStep, BoundedReserve;
    var key := At(s, t).key;
    if key !in s.locks {
      RoomForKey(s.locks, cap, keys, key, a.victim);
    }
    StepHandles(s, cap, t, a);
  }

  /** A map of fewer locks than keys is not full: nothing makes way. */
  lemma RoomForKey(locks: map<Key, nat>, cap: nat, keys: set<Key>, key: Key, victim: Key)
    requires locks.Keys <= keys && key in keys && key !in locks && Roomy(cap, keys)
    ensures BoundedReserve(locks, cap, key, victim) == Some(locks)
  {
    FewerLocks(locks.Keys, keys, key);
    assert |locks| == |locks.Keys|;
    if locks != map[] {
      var k :| k in locks;
      assert locks.Keys != {};
    }
  }

  lemma StepKeepsLocks(s: State, cap: nat, keys: set<Key>, t: nat, a: Action)
    requires LocksOk(s, keys) && Roomy(cap, keys) && (a.Call? ==> a.key in keys) && ThreadStep(s, cap, t, a).Some?
    ensures LocksOk(ThreadStep(s, cap, t, a).value, keys)
  {
    if a.GetLock? {
      GetLockKeepsLocks(s, cap, keys, t, a);
    } else {
      StepFrame(s, cap, t, a);
      StepHandle(s, cap, t, a);
      hide ThreadStep;
    }
  }

  /** One thread taking or releasing its lock, or neither, keeps holders and threads in step. */
  lemma HoldersFollow(s: State, n: State, t: nat)
    requires HoldersOk(s) && n.threads == s.threads[t := At(n, t)]
    requires HasHandle(At(n, t)) ==> HasHandle(At(s, t)) && At(n, t).lock == At(s, t).lock
    requires var pc, pc' := At(s, t), At(n, t);
             && (pc.HasLock() == pc'.HasLock() ==> n.holder == s.holder)
             && (pc.HasLock() && !pc'.HasLock() ==> n.holder == s.holder - {pc.lock})
             && (!pc.HasLock() && pc'.HasLock() ==> pc'.lock !in s.holder && n.holder == s.holder[pc'.lock := t])
    ensures HoldersOk(n)
  {
  }

  lemma StepKeepsHolders(s: State, cap: nat, keys: set<Key>, t: nat, a: Action)
    requires LocksOk(s, keys) && HoldersOk(s) && ThreadStep(s, cap, t, a).Some?
    ensures HoldersOk(ThreadStep(s, cap, t, a).value)
  {
    if a.GetLock? {
      assert ThreadStep(s, cap, t, a).value.holder == s.holder;
    } else {
      hide ThreadStep, LocksOk;
      StepFrame(s, cap, t, a);
      StepHandle(s, cap, t, a);
      StepHolder(s, cap, t, a);
      StepTakes(s, cap, t, a);
      HoldersFollow(s, ThreadStep(s, cap, t, a).value, t);
    }
  }

  /** A thread past the check was there before the step, or has just seen its key missing. */
  lemma StepUnstores(s: State, cap: nat, t: nat, a: Action)
    requires ThreadStep(s, cap, t, a).Some? && At(ThreadStep(s, cap, t, a).value, t).PastCheck()
    ensures var n := ThreadStep(s, cap, t, a).value;
            && !a.WriteOk? && At(s, t).HasLock() && At(s, t).key == At(n, t).key
            && (At(s, t).PastCheck() || At(s, t).key !in s.store)
  {
  }

  lemma StepKeepsUnstored(s: State, cap: nat, keys: set<Key>, t: nat, a: Action)
    requires LocksOk(s, keys) && HoldersOk(s) && UnstoredInside(s) && ThreadStep(s, cap, t, a).Some?
    ensures UnstoredInside(ThreadStep(s, cap, t, a).value)
  {
    var n := ThreadStep(s, cap, t, a).value;
    StepWrites(s, cap, t, a);
    StepFetches(s, cap, t, a);
    if At(n, t).PastCheck() {
      StepUnstores(s, cap, t, a);
    }
    hide ThreadStep;
    forall u | u in n.threads && n.threads[u].PastCheck()
      ensures n.threads[u].key !in n.store
    {
      if u != t && At(s, t).Writing? && At(s, u).key == At(s, t).key {
        OneInside(s, keys, t, u);
      }
    }
  }

  /** What a step does to the store and the counters. */
  lemma StepWrites(s: State, cap: nat, t: nat, a: Action)
    requires ThreadStep(s, cap, t, a).Some?
    ensures a.WriteOk? ==> At(s, t).Writing?
    ensures var n, pc := ThreadStep(s, cap, t, a).value, At(s, t);
            && n.store == (if a.WriteOk? then s.store + {pc.key} else s.store)
            && n.written == (if a.WriteOk? then s.written + multiset{pc.key} else s.written)
            && n.gone == s.gone
            && (if a.WriteFails? then pc.Writing? && n.lost == s.lost + multiset{pc.key} else n.lost == s.lost)
            && (pc.Writing? <==> a.WriteOk? || a.WriteFails?)
  {
  }

  lemma StepFetches(s: State, cap: nat, t: nat, a: Action)
    requires ThreadStep(s, cap, t, a).Some?
    ensures var n := ThreadStep(s, cap, t, a).value;
            var pc, pc' := At(s, t), At(n, t);
            && n.threads == s.threads[t := pc']
            && (pc'.Writing? ==> pc.PastCheck() && pc'.key == pc.key && !pc.Writing?)
            && n.fetched == (if pc'.Writing? then s.fetched + multiset{pc'.key} else s.fetched)
  {
  }

  lemma StepKeepsCounts(s: State, cap: nat, keys: set<Key>, store0: set<Key>, t: nat, a: Action)
    requires Inv(s, keys, store0) && ThreadStep(s, cap, t, a).Some?
    ensures CountsOk(ThreadStep(s, cap, t, a).value, store0)
  {
    var n := ThreadStep(s, cap, t, a).value;
    StepWrites(s, cap, t, a);
    StepFetches(s, cap, t, a);
    forall k
      ensures n.fetched[k] == n.written[k] + n.lost[k] + if WritingNow(n, k) then 1 else 0
    {
      WritingChanges(s, keys, t, n, k);
    }
    hide ThreadStep, WritingNow, LocksOk, HoldersOk;
  }

  /** Only the moving thread changes whether its key is being written. */
  lemma WritingChanges(s: State, keys: set<Key>, t: nat, n: State, k: Key)
    requires LocksOk(s, keys) && HoldersOk(s) && n.threads == s.threads[t := At(n, t)]
    requires At(n, t).Writing? ==> At(s, t).PastCheck() && At(n, t).key == At(s, t).key && !At(s, t).Writing?
    ensures if At(n, t).Writing? && At(n, t).key == k then WritingNow(n, k) && !WritingNow(s, k)
            else if At(s, t).Writing? && At(s, t).key == k then WritingNow(s, k) && !WritingNow(n, k)
            else WritingNow(n, k) == WritingNow(s, k)
  {
    forall u | u in s.threads && s.threads[u].Writing? && s.threads[u].key == k
      ensures At(s, t).HasLock() && At(s, t).key == k ==> u == t
    {
      if At(s, t).HasLock() && At(s, t).key == k {
        OneInside(s, keys, t, u);
      }
    }
    hide LocksOk, HoldersOk;
    assert forall u :: u != t ==> (u in n.threads <==> u in s.threads);
    assert forall u :: u != t && u in s.threads ==> n.threads[u] == s.threads[u];
  }

  /** Evicting a stored key touches no thread and no lock. */
  lemma EvictKeepsInv(s: State, n: State, keys: set<Key>, store0: set<Key>, key: Key)
    requires Inv(s, keys, store0) && key in s.store && n == s.(store := s.store - {key}, gone := s.gone + multiset{key})
    ensures Inv(n, keys, store0)
  {
    assert forall k :: WritingNow(n, k) == WritingNow(s, k);
    hide WritingNow;
  }

  lemma StepKeepsInv(s: State, cap: nat, keys: set<Key>, store0: set<Key>, t: nat, a: Action)
    requires Inv(s, keys, store0) && Roomy(cap, keys) && (a.Call? ==> a.key in keys) && Step(s, cap, t, a).Some?
    ensures Inv(Step(s, cap, t, a).value, keys, store0)
  {
    if a.Evict? {
      EvictKeepsInv(s, Step(s, cap, t, a).value, keys, store0, a.key);
      hide ThreadStep, Inv;
    } else {
      ThreadKeepsInv(s, cap, keys, store0, t, a);
      hide ThreadStep, Inv;
    }
  }

  lemma ThreadKeepsInv(s: State, cap: nat, keys: set<Key>, store0: set<Key>, t: nat, a: Action)
    requires Inv(s, keys, store0) && Roomy(cap, keys) && (a.Call? ==> a.key in keys) && ThreadStep(s, cap, t, a).Some?
    ensures Inv(ThreadStep(s, cap, t, a).value, keys, store0)
  {
    StepKeepsLocks(s, cap, keys, t, a);
    StepKeepsHolders(s, cap, keys, t, a);
    StepKeepsUnstored(s, cap, keys, t, a);
    StepKeepsCounts(s, cap, keys, store0, t, a);
    hide *;
  }

  // ---------- Safety over every run ----------

  lemma {:induction false} RunKeepsInv(s0: State, cap: nat, keys: set<Key>, store0: set<Key>, run: seq<Move>, s: State)
    requires Inv(s0, keys, store0) && Roomy(cap, keys) && Reaches(s0, cap, keys, run, s)
    ensures Inv(s, keys, store0)
    decreases |run|
  {
    hide Inv, Step;
    if run != [] {
      StepKeepsInv(s0, cap, keys, store0, run[0].t, run[0].a);
      RunKeepsInv(Step(s0, cap, run[0].t, run[0].a).value, cap, keys, store0, run[1..], s);
    }
  }

  // ---------- The size of the lock map ----------

  /** Making room removes at most one lock, and only when a new key would not fit. */
  lemma ReserveMakesRoom(locks: map<Key, nat>, cap: nat, key: Key, victim: Key)
    requires |locks| <= Max(cap, 1) && key !in locks && BoundedReserve(locks, cap, key, victim).Some?
    ensures var r := BoundedReserve(locks, cap, key, victim).value;
            |r| < Max(cap, 1) && (|locks| < cap ==> r == locks)
  {
    if victim in locks {
      assert locks.Keys == (locks - {victim}).Keys + {victim};
      assert |(locks - {victim}).Keys| == |locks - {victim}| && |locks.Keys| == |locks|;
    }
  }

  lemma StepKeepsBound(s: State, cap: nat, t: nat, a: Action)
    requires |s.locks| <= Max(cap, 1) && Step(s, cap, t, a).Some?
    ensures |Step(s, cap, t, a).value.locks| <= Max(cap, 1)
  {
    hide BoundedReserve;
    if a.GetLock? && At(s, t).Missed? && At(s, t).key !in s.locks {
      ReserveMakesRoom(s.locks, cap, At(s, t).key, a.victim);
    }
  }

  /** Whatever keys are asked for, the map never holds more locks than its capacity, or one when that is 0. */
  lemma {:induction false} LocksBounded(s0: State, cap: nat, keys: set<Key>, run: seq<Move>, s: State)
    requires |s0.locks| <= Max(cap, 1) && Reaches(s0, cap, keys, run, s)
    ensures |s.locks| <= Max(cap, 1)
    decreases |run|
  {
    hide Step;
    if run != [] {
      StepKeepsBound(s0, cap, run[0].t, run[0].a);
      LocksBounded(Step(s0, cap, run[0].t, run[0].a).value, cap, keys, run[1..], s);
    }
  }

  /** While the keys asked for fit the lock map, no two threads are past the second check for one key; a
      key is written again only after it was evicted, and fetched again only after a write of it failed or
      it was evicted. */
  lemma SingleFetch(store0: set<Key>, cap: nat, keys: set<Key>, run: seq<Move>, s: State)
    requires Roomy(cap, keys) && Reaches(Init(store0), cap, keys, run, s)
    ensures forall t, u :: Together(s, t, u) ==> t == u
    ensures forall k :: s.written[k] + (if k in store0 then 1 else 0) == s.gone[k] + if k in s.store then 1 else 0
    ensures forall k :: s.written[k] <= 1 + s.gone[k]
    ensures forall k :: s.fetched[k] <= 1 + s.lost[k] + s.gone[k]
  {
    hide Step, Reaches;
    RunKeepsInv(Init(store0), cap, keys, store0, run, s);
    forall t, u | Together(s, t, u)
      ensures t == u
    {
      OneInside(s, keys, t, u);
    }
    forall k
      ensures s.fetched[k] <= 1 + s.lost[k] + s.gone[k]
    {
      WritingIsUnstored(s, k);
    }
  }

  lemma WritingIsUnstored(s: State, k: Key)
    requires UnstoredInside(s)
    ensures WritingNow(s, k) ==> k !in s.store
  {
  }

  ghost predicate NoEviction(run: seq<Move>) {
    forall i :: 0 <= i < |run| ==> !run[i].a.Evict?
  }

  lemma {:induction false} NothingGone(s0: State, cap: nat, keys: set<Key>, run: seq<Move>, s: State)
    requires Reaches(s0, cap, keys, run, s) && NoEviction(run)
    ensures s.gone == s0.gone
    decreases |run|
  {
    if run != [] {
      var m := run[0];
      assert !m.a.Evict?;
      StepWrites(s0, cap, m.t, m.a);
      hide ThreadStep;
      NothingGone(Step(s0, cap, m.t, m.a).value, cap, keys, run[1..], s);
    }
  }

  /** As long as nothing is evicted each key is written at most once, and not at all if it was there at the
      start; it is fetched again only after a write of it failed. */
  lemma OnceWithoutEviction(store0: set<Key>, cap: nat, keys: set<Key>, run: seq<Move>, s: State)
    requires Roomy(cap, keys) && Reaches(Init(store0), cap, keys, run, s) && NoEviction(run)
    ensures forall k :: s.written[k] <= if k in store0 then 0 else 1
    ensures forall k :: s.fetched[k] <= 1 + s.lost[k]
  {
    SingleFetch(store0, cap, keys, run, s);
    RunKeepsInv(Init(store0), cap, keys, store0, run, s);
    NothingGone(Init(store0), cap, keys, run, s);
    hide Step, Reaches, LocksOk, HoldersOk, UnstoredInside, WritingNow;
  }

  // ---------- Eviction brings a second write ----------

  lemma {:induction false} ExtendRun(s0: State, cap: nat, keys: set<Key>, run: seq<Move>, s: State, m: Move)
    requires Reaches(s0, cap, keys, run, s) && Step(s, cap, m.t, m.a).Some? && (m.a.Call? ==> m.a.key in keys)
    ensures Reaches(s0, cap, keys, run + [m], Step(s, cap, m.t, m.a).value)
    decreases |run|
  {
    hide Step;
    if run == [] {
      assert (run + [m])[1..] == [];
    } else {
      ExtendRun(Step(s0, cap, run[0].t, run[0].a).value, cap, keys, run[1..], s, m);
      assert (run + [m])[1..] == run[1..] + [m];
    }
  }

  /** An idle thread takes a handle for `key`, at the cost of `victim` if the map is full. */
  lemma TakeHandle(cap: nat, keys: set<Key>, run: seq<Move>, s: State, t: nat, key: Key, victim: Key)
    returns (run': seq<Move>, s': State)
    requires Reaches(Init({}), cap, keys, run, s) && key !in s.store && At(s, t).Idle? && key in keys && key !in s.locks
    requires |s.locks| >= cap && s.locks != map[] ==> victim in s.locks
    ensures Reaches(Init({}), cap, keys, run', s')
    ensures s' == s.(threads := s.threads[t := Waiting(key, s.nextLock)], nextLock := s.nextLock + 1,
                     locks := (if |s.locks| >= cap then s.locks - {victim} else s.locks)[key := s.nextLock])
  {
    hide Reaches, Step;
    var s1 := CallStep(s, cap, t, key);
    ExtendRun(Init({}), cap, keys, run, s, Move(t, Call(key)));
    var s2 := MissStep(s1, cap, t);
    run' := run + [Move(t, Call(key))];
    ExtendRun(Init({}), cap, keys, run', s1, Move(t, CheckFirst));
    run' := run' + [Move(t, CheckFirst)];
    s' := HandleStep(s2, cap, t, victim);
    ExtendRun(Init({}), cap, keys, run', s2, Move(t, GetLock(victim)));
    run' := run' + [Move(t, GetLock(victim))];
  }

  lemma CallStep(s: State, cap: nat, t: nat, key: Key) returns (n: State)
    requires At(s, t).Idle?
    ensures Step(s, cap, t, Call(key)) == Some(n) && n == Goto(s, t, Entered(key))
  {
    n := Goto(s, t, Entered(key));
  }

  lemma MissStep(s: State, cap: nat, t: nat) returns (n: State)
    requires At(s, t).Entered? && At(s, t).key !in s.store
    ensures Step(s, cap, t, CheckFirst) == Some(n) && n == Goto(s, t, Missed(At(s, t).key))
  {
    n := Goto(s, t, Missed(At(s, t).key));
  }

  lemma HandleStep(s: State, cap: nat, t: nat, victim: Key) returns (n: State)
    requires At(s, t).Missed? && At(s, t).key !in s.locks
    requires |s.locks| >= cap && s.locks != map[] ==> victim in s.locks
    ensures var key := At(s, t).key;
            && Step(s, cap, t, GetLock(victim)) == Some(n)
            && n == Goto(s, t, Waiting(key, s.nextLock)).(nextLock := s.nextLock + 1,
                    locks := (if |s.locks| >= cap then s.locks - {victim} else s.locks)[key := s.nextLock])
  {
    assert s.locks == map[] ==> s.locks - {victim} == s.locks;
    n := Step(s, cap, t, GetLock(victim)).value;
  }

  /** From a handle on a free lock a thread gets past the second check. */
  lemma GoInside(cap: nat, keys: set<Key>, run: seq<Move>, s: State, t: nat) returns (run': seq<Move>, s': State)
    requires Reaches(Init({}), cap, keys, run, s)
    requires At(s, t).Waiting? && At(s, t).key !in s.store && At(s, t).lock !in s.holder
    ensures Reaches(Init({}), cap, keys, run', s')
    ensures s' == Goto(s, t, Fetching(At(s, t).key, At(s, t).lock)).(holder := s.holder[At(s, t).lock := t])
  {
    hide Reaches;
    var s1 := Step(s, cap, t, Acquire).value;
    ExtendRun(Init({}), cap, keys, run, s, Move(t, Acquire));
    s' := Step(s1, cap, t, CheckSecond).value;
    run' := run + [Move(t, Acquire)] + [Move(t, CheckSecond)];
    ExtendRun(Init({}), cap, keys, run + [Move(t, Acquire)], s1, Move(t, CheckSecond));
  }

  /** From past the second check a thread finds the content locally and writes it. */
  lemma GoWrite(cap: nat, keys: set<Key>, run: seq<Move>, s: State, t: nat) returns (run': seq<Move>, s': State)
    requires Reaches(Init({}), cap, keys, run, s) && At(s, t).Fetching?
    ensures Reaches(Init({}), cap, keys, run', s')
    ensures var key := At(s, t).key;
            s' == Leave(s, t, At(s, t).lock).(store := s.store + {key}, written := s.written + multiset{key},
                                              fetched := s.fetched + multiset{key})
  {
    hide Reaches;
    var s1 := Step(s, cap, t, LocalHit).value;
    ExtendRun(Init({}), cap, keys, run, s, Move(t, LocalHit));
    s' := Step(s1, cap, t, WriteOk).value;
    run' := run + [Move(t, LocalHit)] + [Move(t, WriteOk)];
    ExtendRun(Init({}), cap, keys, run + [Move(t, LocalHit)], s1, Move(t, WriteOk));
  }

  lemma GoEvict(cap: nat, keys: set<Key>, run: seq<Move>, s: State, t: nat, key: Key)
    returns (run': seq<Move>, s': State)
    requires Reaches(Init({}), cap, keys, run, s) && key in s.store
    ensures Reaches(Init({}), cap, keys, run', s')
    ensures s' == s.(store := s.store - {key}, gone := s.gone + multiset{key})
  {
    hide Reaches, ThreadStep;
    s' := Step(s, cap, t, Evict(key)).value;
    run' := run + [Move(t, Evict(key))];
    ExtendRun(Init({}), cap, keys, run, s, Move(t, Evict(key)));
  }

  /** A thread takes the handle of a key whose lock is in the map. */
  lemma TakeAgain(cap: nat, keys: set<Key>, run: seq<Move>, s: State, t: nat, key: Key)
    returns (run': seq<Move>, s': State)
    requires Reaches(Init({}), cap, keys, run, s) && At(s, t).Idle?
    requires key !in s.store && key in keys && key in s.locks
    ensures Reaches(Init({}), cap, keys, run', s')
    ensures s' == Goto(s, t, Waiting(key, s.locks[key]))
  {
    hide Reaches, Step;
    var s1 := CallStep(s, cap, t, key);
    ExtendRun(Init({}), cap, keys, run, s, Move(t, Call(key)));
    var s2 := MissStep(s1, cap, t);
    run' := run + [Move(t, Call(key))];
    ExtendRun(Init({}), cap, keys, run', s1, Move(t, CheckFirst));
    run' := run' + [Move(t, CheckFirst)];
    s' := AgainStep(s2, cap, t);
    ExtendRun(Init({}), cap, keys, run', s2, Move(t, GetLock(key)));
    run' := run' + [Move(t, GetLock(key))];
  }

  lemma AgainStep(s: State, cap: nat, t: nat) returns (n: State)
    requires At(s, t).Missed? && At(s, t).key in s.locks
    ensures var key := At(s, t).key;
            Step(s, cap, t, GetLock(key)) == Some(n) && n == Goto(s, t, Waiting(key, s.locks[key]))
  {
    n := Step(s, cap, t, GetLock(At(s, t).key)).value;
  }

  /** One thread alone writes a key twice when it is evicted in between, whatever the capacity. */
  lemma WrittenTwice(cap: nat, keys: set<Key>, key: Key) returns (run: seq<Move>, s: State)
    requires key in keys
    ensures Reaches(Init({}), cap, keys, run, s) && s.written[key] == 2 && s.gone[key] == 1 && s.lost == multiset{}
  {
    hide Step;
    run, s := TakeHandle(cap, keys, [], Init({}), 0, key, key);
    hide Reaches;
    run, s := GoInside(cap, keys, run, s, 0);
    run, s := GoWrite(cap, keys, run, s, 0);
    run, s := GoEvict(cap, keys, run, s, 0, key);
    run, s := TakeAgain(cap, keys, run, s, 0, key);
    run, s := GoInside(cap, keys, run, s, 0);
    run, s := GoWrite(cap, keys, run, s, 0);
  }

  // ---------- One key too many ----------

  /** Thread 0 is past the check for `a`, whose lock is in the map; threads from `n` on are unseen. */
  ghost predicate Staged(s: State, keys: set<Key>, a: Key, n: nat) {
    && s.store == {} && s.holder == map[0 := 0] && At(s, 0) == Fetching(a, 0)
    && 0 < n && 0 < s.nextLock && (forall t :: t in s.threads ==> t < n)
    && s.locks.Keys <= keys && a in s.locks
  }

  lemma StageFirst(cap: nat, keys: set<Key>, a: Key) returns (run: seq<Move>, s: State)
    requires a in keys
    ensures Reaches(Init({}), cap, keys, run, s) && Staged(s, keys, a, 1) && |s.locks| == 1
  {
    run, s := TakeHandle(cap, keys, [], Init({}), 0, a, a);
    assert s.locks == map[a := 0];
    run, s := GoInside(cap, keys, run, s, 0);
  }

  /** Other keys fill the map to its capacity. */
  lemma StageFull(cap: nat, keys: set<Key>, a: Key) returns (run: seq<Move>, s: State, n: nat)
    requires a in keys && !Roomy(cap, keys)
    ensures Reaches(Init({}), cap, keys, run, s) && Staged(s, keys, a, n) && |s.locks| == Max(cap, 1)
  {
    hide Reaches, Step;
    run, s := StageFirst(cap, keys, a);
    n := 1;
    while |s.locks| < cap
      invariant Reaches(Init({}), cap, keys, run, s) && Staged(s, keys, a, n) && |s.locks| <= Max(cap, 1)
    {
      var b := MissingKey(s.locks.Keys, keys);
      ghost var locks := s.locks;
      run, s := TakeHandle(cap, keys, run, s, n, b, a);
      assert s.locks.Keys == locks.Keys + {b};
      assert |s.locks| == |s.locks.Keys| == |locks| + 1;
      n := n + 1;
    }
  }

  lemma MissingKey(some: set<Key>, keys: set<Key>) returns (b: Key)
    requires some <= keys && |some| < |keys|
    ensures b in keys && b !in some
  {
    assert some != keys;
    b :| b in keys && b !in some;
  }

  /** With one key more than fits, two threads can be past the second check for the same key. */
  lemma TwoInside(cap: nat, keys: set<Key>) returns (run: seq<Move>, s: State, u: nat)
    requires !Roomy(cap, keys)
    ensures Reaches(Init({}), cap, keys, run, s)
    ensures u != 0 && Together(s, 0, u)
  {
    hide Reaches, Step;
    var a :| a in keys;
    var n;
    run, s, n := StageFull(cap, keys, a);
    var b := MissingKey(s.locks.Keys, keys);
    var full := s.locks;
    run, s := TakeHandle(cap, keys, run, s, n, b, a);
    assert s.locks.Keys == full.Keys - {a} + {b};
    u := n + 1;
    run, s := TakeHandle(cap, keys, run, s, u, a, b);
    run, s := GoInside(cap, keys, run, s, u);
  }

  /** No run lets two threads past the second check for one key. */
  ghost predicate Exclusive(cap: nat, keys: set<Key>) {
    forall store0, run, s, t, u ::
      Reaches(Init(store0), cap, keys, run, s) && Together(s, t, u)
      ==> t == u
  }

  /** Mutual exclusion holds exactly when the keys asked for fit the lock map. */
  lemma ExclusiveExactly(cap: nat, keys: set<Key>)
    ensures Exclusive(cap, keys) <==> Roomy(cap, keys)
  {
    if Roomy(cap, keys) {
      forall store0, run, s, t, u |
        Reaches(Init(store0), cap, keys, run, s) && Together(s, t, u)
        ensures t == u
      {
        SingleFetch(store0, cap, keys, run, s);
      }
    } else {
      var run, s, u := TwoInside(cap, keys);
    }
  }
}
