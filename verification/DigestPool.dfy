/**
 * The digest worker pool as a step system: any number of workers take indices from one atomic
 * counter and fill result slots. Whatever the interleaving, the result is that of a serial scan.
 */
module DigestPool {
  import opened Bytes

  datatype Item = Item(hash: string, file: string)

  /** The digest of a GLB file, or its error: whether a dependency is not deployed, and the message. */
  datatype Outcome<D> = Digest(digest: D) | Failed(undeployed: bool, message: string)

  datatype Warning = Warning(file: string, hash: string, message: string)

  datatype Report<D> = Report(digests: map<string, D>, undeployed: set<string>, warnings: seq<Warning>)

  /** What the pool depends on: which files are GLBs, and the outcome for each. */
  datatype Source<!D> = Source(convertible: string -> bool, outcome: Item -> Outcome<D>)

  // ---------- The serial scan ----------

  function AddOutcome<D>(r: Report<D>, item: Item, o: Outcome<D>): Report<D> {
    match o
    case Digest(d) => r.(digests := r.digests[item.hash := d])
    case Failed(true, e) =>
      r.(undeployed := r.undeployed + {item.hash}, warnings := r.warnings + [Warning(item.file, item.hash, e)])
    case Failed(false, e) => r.(warnings := r.warnings + [Warning(item.file, item.hash, e)])
  }

  /** One pass over the items: the first GLB occurrence of each hash is digested where it stands. */
  function Serial<D>(src: Source<D>, items: seq<Item>, seen: set<string>, r: Report<D>): Report<D> {
    if items == [] then r
    else
      var item := items[0];
      if src.convertible(item.file) && item.hash !in seen then
        Serial(src, items[1..], seen + {item.hash}, AddOutcome(r, item, src.outcome(item)))
      else Serial(src, items[1..], seen, r)
  }

  // ---------- What the code does around the pool ----------

  /** The filter that makes the work list. */
  function Work<D>(src: Source<D>, items: seq<Item>, seen: set<string>): seq<Item> {
    if items == [] then []
    else
      var item := items[0];
      if src.convertible(item.file) && item.hash !in seen then
        [item] + Work(src, items[1..], seen + {item.hash})
      else Work(src, items[1..], seen)
  }

  /** The pass over work and slots after the pool; an empty slot adds nothing. */
  function Assemble<D>(work: seq<Item>, slots: seq<Option<Outcome<D>>>, r: Report<D>): Report<D>
    requires |work| == |slots|
  {
    if work == [] then r
    else
      Assemble(work[1..], slots[1..], if slots[0].Some? then AddOutcome(r, work[0], slots[0].value) else r)
  }

  // ---------- The pool ----------

  datatype Worker = Ready | Claimed(index: nat) | Stopped

  /** The counter, the workers, the slots, and the log of who claimed which index. */
  datatype State<D> = State(next: nat, workers: seq<Worker>, slots: seq<Option<Outcome<D>>>, claims: seq<(nat, nat)>)

  function Workers(jobs: nat, workLen: nat): (n: nat)
    ensures 1 <= n <= Max(1, workLen) && n <= Max(1, jobs) && (1 <= jobs <= workLen ==> n == jobs)
  {
    Min(Max(jobs, 1), Max(workLen, 1))
  }

  function Init<D>(work: seq<Item>, jobs: nat): State<D> {
    State(0, seq(Workers(jobs, |work|), _ => Ready), seq(|work|, _ => None), [])
  }

  /** One atomic step of worker `w`: take the next index, or fill the slot of the one it has. */
  function Step<D>(src: Source<D>, work: seq<Item>, s: State<D>, w: nat): Option<State<D>>
    requires |s.slots| == |work|
  {
    if w >= |s.workers| then None
    else match s.workers[w]
      case Ready =>
        if s.next < |work| then
          Some(State(s.next + 1, s.workers[w := Claimed(s.next)], s.slots, s.claims + [(w, s.next)]))
        else Some(s.(next := s.next + 1, workers := s.workers[w := Stopped]))
      case Claimed(i) =>
        if i < |work| then
          Some(s.(slots := s.slots[i := Some(src.outcome(work[i]))], workers := s.workers[w := Ready]))
        else None
      case Stopped => None
  }

  /** `s` is reached from `s0` by the steps of the workers in `schedule`. */
  ghost predicate Reaches<D>(src: Source<D>, work: seq<Item>, s0: State<D>, schedule: seq<nat>, s: State<D>)
    requires |s0.slots| == |work|
    decreases |schedule|
  {
    if schedule == [] then s == s0
    else
      var n := Step(src, work, s0, schedule[0]);
      n.Some? && Reaches(src, work, n.value, schedule[1..], s)
  }

  ghost predicate Finished<D>(s: State<D>) {
    forall w :: 0 <= w < |s.workers| ==> s.workers[w] == Stopped
  }

  // ---------- What every step keeps ----------

  /** An index that is held is below the counter and its slot still empty. */
  ghost predicate HeldAreEmpty<D>(s: State<D>) {
    forall w :: 0 <= w < |s.workers| && s.workers[w].Claimed? ==>
      var i := s.workers[w].index; i < s.next && i < |s.slots| && s.slots[i] == None
  }

  ghost predicate HeldOnce<D>(s: State<D>) {
    forall v, w :: 0 <= v < w < |s.workers| && s.workers[v].Claimed? ==> s.workers[v] != s.workers[w]
  }

  /** A filled slot holds the outcome of its own work item. */
  ghost predicate FilledRight<D>(src: Source<D>, work: seq<Item>, s: State<D>) {
    |s.slots| == |work| &&
    forall i :: 0 <= i < |work| && s.slots[i].Some? ==> i < s.next && s.slots[i].value == src.outcome(work[i])
  }

  ghost predicate Holds<D>(s: State<D>, w: nat, i: nat) {
    w < |s.workers| && s.workers[w] == Claimed(i)
  }

  /** An index the counter has passed is filled or held by someone. */
  ghost predicate NoneLost<D>(s: State<D>) {
    forall i :: 0 <= i < s.next && i < |s.slots| && s.slots[i].None? ==> exists w :: Holds(s, w, i)
  }

  ghost predicate StoppedLate<D>(s: State<D>) {
    forall w :: 0 <= w < |s.workers| && s.workers[w].Stopped? ==> |s.slots| < s.next
  }

  /** The log shows the indices in order, each claimed once, up to the counter. */
  ghost predicate ClaimedInOrder<D>(s: State<D>) {
    |s.claims| == Min(s.next, |s.slots|) && forall i :: 0 <= i < |s.claims| ==> s.claims[i].1 == i
  }

  ghost predicate Inv<D>(src: Source<D>, work: seq<Item>, s: State<D>) {
    && FilledRight(src, work, s) && s.workers != []
    && HeldAreEmpty(s) && HeldOnce(s) && NoneLost(s) && StoppedLate(s) && ClaimedInOrder(s)
  }

  lemma StepKeepsNoneLost<D>(src: Source<D>, work: seq<Item>, s: State<D>, w: nat)
    requires Inv(src, work, s) && Step(src, work, s, w).Some?
    ensures NoneLost(Step(src, work, s, w).value)
  {
    var n := Step(src, work, s, w).value;
    forall i | 0 <= i < n.next && i < |n.slots| && n.slots[i].None?
      ensures exists v :: Holds(n, v, i)
    {
      if i < s.next {
        var v :| Holds(s, v, i);
        assert Holds(n, v, i);
      } else {
        assert Holds(n, w, i);
      }
    }
  }

  lemma StepKeepsInv<D>(src: Source<D>, work: seq<Item>, s: State<D>, w: nat)
    requires Inv(src, work, s) && Step(src, work, s, w).Some?
    ensures Inv(src, work, Step(src, work, s, w).value)
  {
    StepKeepsNoneLost(src, work, s, w);
    hide NoneLost;
  }

  lemma {:induction false} RunKeepsInv<D>(src: Source<D>, work: seq<Item>, s0: State<D>, schedule: seq<nat>,
      s: State<D>)
    requires Inv(src, work, s0) && Reaches(src, work, s0, schedule, s)
    ensures Inv(src, work, s)
    decreases |schedule|
  {
    hide HeldAreEmpty, HeldOnce, NoneLost, StoppedLate, ClaimedInOrder, Step;
    if schedule != [] {
      StepKeepsInv(src, work, s0, schedule[0]);
      RunKeepsInv(src, work, Step(src, work, s0, schedule[0]).value, schedule[1..], s);
    }
  }

  /** When every worker has stopped, every slot is filled with its own outcome. */
  lemma FinishedIsFull<D>(src: Source<D>, work: seq<Item>, s: State<D>)
    requires Inv(src, work, s) && Finished(s)
    ensures forall i :: 0 <= i < |work| ==> s.slots[i] == Some(src.outcome(work[i]))
  {
    assert s.workers[0].Stopped?;
    forall i | 0 <= i < |work|
      ensures s.slots[i].Some?
    {
      if s.slots[i].None? {
        assert false;
      }
    }
  }

  // ---------- Termination ----------

  function StepsOf(w: Worker): nat {
    match w
    case Ready => 1
    case Claimed(_) => 2
    case Stopped => 0
  }

  function StepsLeft(ws: seq<Worker>): nat {
    if ws == [] then 0 else StepsLeft(ws[..|ws| - 1]) + StepsOf(ws[|ws| - 1])
  }

  lemma {:induction false} StepsChange(ws: seq<Worker>, w: nat, x: Worker)
    requires w < |ws|
    ensures StepsLeft(ws[w := x]) == StepsLeft(ws) - StepsOf(ws[w]) + StepsOf(x)
  {
    var last := |ws| - 1;
    if w < last {
      StepsChange(ws[..last], w, x);
      assert ws[w := x][..last] == ws[..last][w := x];
    } else {
      assert ws[w := x][..last] == ws[..last];
    }
  }

  /** Every step uses up one of finitely many: no schedule runs forever. */
  function Measure<D>(s: State<D>): nat {
    2 * (Max(|s.slots|, s.next) - s.next) + StepsLeft(s.workers)
  }

  lemma StepDecreases<D>(src: Source<D>, work: seq<Item>, s: State<D>, w: nat)
    requires Inv(src, work, s) && Step(src, work, s, w).Some?
    ensures Measure(Step(src, work, s, w).value) < Measure(s)
  {
    hide HeldAreEmpty, HeldOnce, NoneLost, StoppedLate, ClaimedInOrder;
    StepsChange(s.workers, w, Step(src, work, s, w).value.workers[w]);
  }

  /** Until all have stopped, some worker can move: the pool never waits on itself. */
  lemma CanStep<D>(src: Source<D>, work: seq<Item>, s: State<D>)
    requires Inv(src, work, s) && !Finished(s)
    ensures exists w :: 0 <= w < |s.workers| && Step(src, work, s, w).Some?
  {
    var w :| 0 <= w < |s.workers| && s.workers[w] != Stopped;
    assert Step(src, work, s, w).Some?;
  }

  // ---------- The result ----------

  lemma {:induction false} AssembleIsSerial<D>(src: Source<D>, items: seq<Item>, seen: set<string>,
      slots: seq<Option<Outcome<D>>>, r: Report<D>)
    requires var work := Work(src, items, seen);
             |slots| == |work| && forall i :: 0 <= i < |work| ==> slots[i] == Some(src.outcome(work[i]))
    ensures Assemble(Work(src, items, seen), slots, r) == Serial(src, items, seen, r)
    decreases |items|
  {
    if items != [] {
      var item := items[0];
      if src.convertible(item.file) && item.hash !in seen {
        assert Work(src, items, seen)[1..] == Work(src, items[1..], seen + {item.hash});
        AssembleIsSerial(src, items[1..], seen + {item.hash}, slots[1..], AddOutcome(r, item, src.outcome(item)));
      } else {
        AssembleIsSerial(src, items[1..], seen, slots, r);
      }
    }
  }

  /** For any number of jobs and any schedule, a finished pool reports what the serial scan does,
      having claimed every index exactly once. */
  lemma PoolIsSerial<D>(src: Source<D>, items: seq<Item>, jobs: nat, schedule: seq<nat>, s: State<D>)
    requires var work := Work(src, items, {}); Reaches(src, work, Init(work, jobs), schedule, s) && Finished(s)
    ensures |s.slots| == |Work(src, items, {})|
    ensures var none := Report(map[], {}, []);
            Assemble(Work(src, items, {}), s.slots, none) == Serial(src, items, {}, none)
    ensures |s.claims| == |s.slots| && forall i :: 0 <= i < |s.claims| ==> s.claims[i].1 == i
  {
    var work := Work(src, items, {});
    assert Inv(src, work, Init(work, jobs));
    RunKeepsInv(src, work, Init(work, jobs), schedule, s);
    FinishedIsFull(src, work, s);
    assert s.workers[0].Stopped?;
    AssembleIsSerial(src, items, {}, s.slots, Report(map[], {}, []));
  }

  // ---------- What the report says ----------

  /** The first GLB among the items with this hash. */
  function FirstOf<D>(src: Source<D>, items: seq<Item>, h: string): (r: Option<Item>)
    ensures r.Some? ==> r.value in items && src.convertible(r.value.file) && r.value.hash == h
    ensures r.None? ==> forall item :: item in items && src.convertible(item.file) ==> item.hash != h
  {
    if items == [] then None else
    var front, last := items[..|items| - 1], items[|items| - 1];
    var before := FirstOf(src, front, h);
    if before.Some? then before
    else if src.convertible(last.file) && last.hash == h then Some(last)
    else None
  }

  /** The failures of first occurrences, in the order of the items. */
  function Failures<D>(src: Source<D>, items: seq<Item>): seq<Warning> {
    if items == [] then [] else
    var front, last := items[..|items| - 1], items[|items| - 1];
    var o := src.outcome(last);
    Failures(src, front)
    + if src.convertible(last.file) && FirstOf(src, front, last.hash).None? && o.Failed?
      then [Warning(last.file, last.hash, o.message)] else []
  }

  ghost predicate HasDigest<D>(src: Source<D>, items: seq<Item>, h: string) {
    var first := FirstOf(src, items, h); first.Some? && src.outcome(first.value).Digest?
  }

  ghost predicate Undeployed<D>(src: Source<D>, items: seq<Item>, h: string) {
    var first := FirstOf(src, items, h);
    first.Some? && var o := src.outcome(first.value); o.Failed? && o.undeployed
  }

  /** Exactly the hashes whose first occurrence has a digest are mapped, each to it; exactly those whose first
      occurrence fails for a dependency that is not deployed are undeployed; every failure of a first
      occurrence is a warning. */
  ghost predicate ReportOk<D>(src: Source<D>, items: seq<Item>, r: Report<D>) {
    && (forall h :: h in r.digests <==> HasDigest(src, items, h))
    && (forall h :: h in r.digests ==> r.digests[h] == src.outcome(FirstOf(src, items, h).value).digest)
    && (forall h :: h in r.undeployed <==> Undeployed(src, items, h))
    && r.warnings == Failures(src, items)
  }

  ghost predicate SeenIn<D>(src: Source<D>, items: seq<Item>, seen: set<string>) {
    forall h :: h in seen <==> FirstOf(src, items, h).Some?
  }

  lemma FirstOfMore<D>(src: Source<D>, items: seq<Item>, item: Item, h: string)
    ensures var before := FirstOf(src, items, h);
            FirstOf(src, items + [item], h)
            == if before.Some? then before
               else if src.convertible(item.file) && item.hash == h then Some(item) else None
  {
    assert (items + [item])[..|items|] == items;
  }

  lemma FailuresMore<D>(src: Source<D>, items: seq<Item>, item: Item)
    ensures var o := src.outcome(item);
            Failures(src, items + [item])
            == Failures(src, items)
               + if src.convertible(item.file) && FirstOf(src, items, item.hash).None? && o.Failed?
                 then [Warning(item.file, item.hash, o.message)] else []
  {
    assert (items + [item])[..|items|] == items;
  }

  lemma OneMoreItem<D>(src: Source<D>, items: seq<Item>, seen: set<string>, r: Report<D>, item: Item)
    requires SeenIn(src, items, seen) && ReportOk(src, items, r)
    ensures if src.convertible(item.file) && item.hash !in seen
            then SeenIn(src, items + [item], seen + {item.hash})
                 && ReportOk(src, items + [item], AddOutcome(r, item, src.outcome(item)))
            else SeenIn(src, items + [item], seen) && ReportOk(src, items + [item], r)
  {
    hide FirstOf, Failures;
    forall h
      ensures var before := FirstOf(src, items, h);
              FirstOf(src, items + [item], h)
              == if before.Some? then before
                 else if src.convertible(item.file) && item.hash == h then Some(item) else None
    {
      FirstOfMore(src, items, item, h);
    }
    FailuresMore(src, items, item);
  }

  lemma {:induction false} SerialReports<D>(src: Source<D>, done: seq<Item>, items: seq<Item>, seen: set<string>,
      r: Report<D>)
    requires SeenIn(src, done, seen) && ReportOk(src, done, r)
    ensures ReportOk(src, done + items, Serial(src, items, seen, r))
    decreases |items|
  {
    hide ReportOk, SeenIn, AddOutcome;
    if items == [] {
      assert done + [] == done;
    } else {
      var item := items[0];
      OneMoreItem(src, done, seen, r, item);
      assert done + [item] + items[1..] == done + items;
      if src.convertible(item.file) && item.hash !in seen {
        SerialReports(src, done + [item], items[1..], seen + {item.hash}, AddOutcome(r, item, src.outcome(item)));
      } else {
        SerialReports(src, done + [item], items[1..], seen, r);
      }
    }
  }

  /** For any number of jobs and any schedule, what a finished pool reports of the items. */
  lemma PoolReports<D>(src: Source<D>, items: seq<Item>, jobs: nat, schedule: seq<nat>, s: State<D>)
    requires var work := Work(src, items, {}); Reaches(src, work, Init(work, jobs), schedule, s) && Finished(s)
    ensures |s.slots| == |Work(src, items, {})|
    ensures ReportOk(src, items, Assemble(Work(src, items, {}), s.slots, Report(map[], {}, [])))
  {
    hide Reaches, Finished, Assemble, Work;
    PoolIsSerial(src, items, jobs, schedule, s);
    SerialReports(src, [], items, {}, Report(map[], {}, []));
    assert [] + items == items;
  }
}
