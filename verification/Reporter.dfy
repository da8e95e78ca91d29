/** The activator's concurrency reporter: a map of reference-counted stats shared by
    request threads and one reporting thread under a read-write lock.  A request looks
    its stat up under the read lock and creates it under the write lock after a second
    look; the reporter collects counts under the read lock and deletes idle stats later
    under the write lock. */
module Reporter {
  import opened Counting

  type Key = string

  /** A revisionStats object.  Of the external request stats only the contract is kept
      that a report counts the arrivals since the previous one: arrivals so far, and
      arrivals at the last report.  issued sums the counts of all messages about it. */
  datatype Entry = Entry(key: Key, refs: int, firstRequest: int, arrivals: nat, reported: nat, issued: int)

  /** Where a request thread stands; entry is the object it works with. */
  datatype Pc =
    | Idle
    | WantRead(key: Key)                     // about to RLock
    | InRead(key: Key)                       // holds the read lock, about to look up
    | Found(key: Key, entry: nat)            // holds the read lock, about to add a reference
    | FoundDone(key: Key, entry: nat)        // holds the read lock and a reference
    | Missed(key: Key)                       // holds the read lock, found nothing
    | WantWrite(key: Key)                    // about to Lock
    | InWrite(key: Key)                      // holds the write lock, about to look again
    | WriteDone(key: Key, entry: nat)        // holds the write lock and a reference
    | Arriving(key: Key, entry: nat)         // about to record its arrival
    | Serving(key: Key, entry: nat)          // recorded; the request is being served
    | Leaving(key: Key, entry: nat)          // recorded as done, about to drop its reference

  /** Where the reporting thread stands. */
  datatype ReportPc =
    | Waiting
    | Reading(todo: set<Key>, toDelete: seq<Key>)    // computeReport, under the read lock
    | WantDelete(toDelete: seq<Key>)                 // about to Lock
    | Deleting(toDelete: seq<Key>)                   // under the write lock
    | Crashed                                        // dereferenced a key that is not there

  datatype State = State(heap: seq<Entry>, stats: map<Key, nat>, threads: seq<Pc>, reporter: ReportPc)

  predicate HoldsRead(pc: Pc) { pc.InRead? || pc.Found? || pc.FoundDone? || pc.Missed? }

  predicate HoldsWrite(pc: Pc) { pc.InWrite? || pc.WriteDone? }

  predicate HoldsRef(pc: Pc) {
    pc.FoundDone? || pc.WriteDone? || pc.Arriving? || pc.Serving? || pc.Leaving?
  }

  /** Nobody holds the write lock. */
  predicate NoWriter(s: State) {
    !s.reporter.Deleting? && forall i :: 0 <= i < |s.threads| ==> !HoldsWrite(s.threads[i])
  }

  /** Nobody holds either lock. */
  predicate LockFree(s: State) {
    NoWriter(s) && !s.reporter.Reading? && forall i :: 0 <= i < |s.threads| ==> !HoldsRead(s.threads[i])
  }

  function SetEntry(s: State, e: nat, x: Entry): State
    requires e < |s.heap|
  {
    s.(heap := s.heap[e := x])
  }

  function AddRef(s: State, e: nat, d: int): State
    requires e < |s.heap|
  {
    SetEntry(s, e, s.heap[e].(refs := s.heap[e].refs + d))
  }

  /** A new stat with one reference: the message that triggers scale-from-zero counts 1. */
  function NewEntry(key: Key): Entry { Entry(key, 1, 1, 0, 0, 1) }

  /** The shared state after thread i's step from pc, apart from its own position. */
  predicate ThreadStep(s: State, pc: Pc, s': State, pc': Pc) {
    s'.reporter == s.reporter &&
    match pc
    case Idle => Shared(s, s') && pc'.WantRead?
    case WantRead(key) => NoWriter(s) && Shared(s, s') && pc' == InRead(key)
    case InRead(key) =>
      Shared(s, s') && pc' == if key in s.stats then Found(key, s.stats[key]) else Missed(key)
    case Found(key, e) => e < |s.heap| && SameAs(s', AddRef(s, e, 1)) && pc' == FoundDone(key, e)
    case FoundDone(key, e) => Shared(s, s') && pc' == Arriving(key, e)
    case Missed(key) => Shared(s, s') && pc' == WantWrite(key)
    case WantWrite(key) => LockFree(s) && Shared(s, s') && pc' == InWrite(key)
    case InWrite(key) =>
      if key in s.stats then
        s.stats[key] < |s.heap| && SameAs(s', AddRef(s, s.stats[key], 1)) && pc' == WriteDone(key, s.stats[key])
      else
        && s'.heap == s.heap + [NewEntry(key)] && s'.stats == s.stats[key := |s.heap|]
        && pc' == WriteDone(key, |s.heap|)
    case WriteDone(key, e) => Shared(s, s') && pc' == Arriving(key, e)
    case Arriving(key, e) =>
      && e < |s.heap| && SameAs(s', SetEntry(s, e, s.heap[e].(arrivals := s.heap[e].arrivals + 1)))
      && pc' == Serving(key, e)
    case Serving(key, e) => Shared(s, s') && pc' == Leaving(key, e)
    case Leaving(key, e) => e < |s.heap| && SameAs(s', AddRef(s, e, -1)) && pc' == Idle
  }

  predicate Shared(s: State, s': State) { s'.heap == s.heap && s'.stats == s.stats }

  predicate SameAs(s': State, t: State) { s'.heap == t.heap && s'.stats == t.stats }

  /** The entry after a report: the counts since the last one, less the request that
      was already announced when the entry was made. */
  function Reported(x: Entry): Entry {
    x.(issued := x.issued + (x.arrivals - x.reported) - x.firstRequest, reported := x.arrivals, firstRequest := 0)
  }

  /** A step of the reporting thread. */
  ghost predicate ReportStep(s: State, s': State) {
    s'.threads == s.threads &&
    match s.reporter
    case Waiting => NoWriter(s) && Shared(s, s') && s'.reporter == Reading(s.stats.Keys, [])
    case Reading(todo, toDelete) =>
      if todo == {} then
        Shared(s, s') && s'.reporter == if toDelete == [] then Waiting else WantDelete(toDelete)
      else exists key :: key in todo && ReportKey(s, s', todo, toDelete, key)
    case WantDelete(toDelete) => LockFree(s) && Shared(s, s') && s'.reporter == Deleting(toDelete)
    case Deleting(toDelete) =>
      if toDelete == [] then Shared(s, s') && s'.reporter == Waiting
      else if toDelete[0] !in s.stats || s.stats[toDelete[0]] >= |s.heap| then Shared(s, s') && s'.reporter == Crashed
      else
        && s'.heap == s.heap && s'.reporter == Deleting(toDelete[1..])
        && s'.stats == if s.heap[s.stats[toDelete[0]]].refs == 0 then s.stats - {toDelete[0]} else s.stats
    case Crashed => false
  }

  /** One turn of the loop over the map; whether the average concurrency was zero is open. */
  predicate ReportKey(s: State, s': State, todo: set<Key>, toDelete: seq<Key>, key: Key) {
    && key in s.stats && s.stats[key] < |s.heap|
    && SameAs(s', SetEntry(s, s.stats[key], Reported(s.heap[s.stats[key]])))
    && (s'.reporter == Reading(todo - {key}, toDelete) || s'.reporter == Reading(todo - {key}, toDelete + [key]))
  }

  ghost predicate Step(s: State, s': State) {
    || ReportStep(s, s')
    || exists i: nat :: i < |s.threads| && |s'.threads| == |s.threads|
                        && s'.threads == s.threads[i := s'.threads[i]] && ThreadStep(s, s.threads[i], s', s'.threads[i])
  }

  predicate Init(s: State) {
    && s.heap == [] && s.stats == map[] && s.reporter == Waiting
    && forall i :: 0 <= i < |s.threads| ==> s.threads[i] == Idle
  }

  ghost predicate Run(tr: seq<State>) {
    |tr| > 0 && Init(tr[0]) && forall j :: 0 < j < |tr| ==> Step(tr[j - 1], tr[j])
  }

  // ----- invariant

  /** Requests holding a reference to entry e. */
  function Holding(e: nat): Pc -> bool { (pc: Pc) => HoldsRef(pc) && pc.entry == e }

  /** The lock excludes: a writer is alone. */
  predicate LockInv(s: State) {
    && (s.reporter.Deleting? ==>
          forall i :: 0 <= i < |s.threads| ==> !HoldsWrite(s.threads[i]) && !HoldsRead(s.threads[i]))
    && (forall i, j :: 0 <= i < |s.threads| && 0 <= j < |s.threads| && i != j && HoldsWrite(s.threads[i]) ==>
          !HoldsWrite(s.threads[j]) && !HoldsRead(s.threads[j]))
    && (s.reporter.Reading? ==> forall i :: 0 <= i < |s.threads| ==> !HoldsWrite(s.threads[i]))
  }

  predicate MapInv(s: State) {
    forall k :: k in s.stats ==> s.stats[k] < |s.heap| && s.heap[s.stats[k]].key == k
  }

  /** A request that holds, or is about to take, a reference works with the very entry
      the map has for its key. */
  predicate EntryInv(s: State) {
    forall i :: 0 <= i < |s.threads| && (HoldsRef(s.threads[i]) || s.threads[i].Found?) ==>
      s.threads[i].key in s.stats && s.stats[s.threads[i].key] == s.threads[i].entry
  }

  predicate RefInv(s: State) {
    forall e :: 0 <= e < |s.heap| ==> s.heap[e].refs == Count(Holding(e), s.threads)
  }

  /** What has been sent about an entry: 1 until the first report, then all arrivals up
      to the last report. */
  predicate CountInv(s: State) {
    forall e :: 0 <= e < |s.heap| ==>
      && s.heap[e].reported <= s.heap[e].arrivals
      && ((s.heap[e].firstRequest == 1 && s.heap[e].issued == 1 && s.heap[e].reported == 0)
          || (s.heap[e].firstRequest == 0 && s.heap[e].issued == s.heap[e].reported))
  }

  predicate NoRepeats(keys: seq<Key>) { forall a, b :: 0 <= a < b < |keys| ==> keys[a] != keys[b] }

  /** The keys the reporter still works on are in the map, each once. */
  predicate ReporterInv(s: State) {
    match s.reporter
    case Waiting => true
    case Reading(todo, toDelete) =>
      && todo <= s.stats.Keys && NoRepeats(toDelete)
      && forall a :: 0 <= a < |toDelete| ==> toDelete[a] in s.stats && toDelete[a] !in todo
    case WantDelete(toDelete) => NoRepeats(toDelete) && forall a :: 0 <= a < |toDelete| ==> toDelete[a] in s.stats
    case Deleting(toDelete) => NoRepeats(toDelete) && forall a :: 0 <= a < |toDelete| ==> toDelete[a] in s.stats
    case Crashed => false
  }

  predicate Inv(s: State) {
    LockInv(s) && MapInv(s) && EntryInv(s) && RefInv(s) && CountInv(s) && ReporterInv(s)
  }

  lemma RefsMove(s: State, i: nat, pc': Pc)
    requires i < |s.threads|
    ensures forall e: nat ::
              Count(Holding(e), s.threads[i := pc']) ==
              Count(Holding(e), s.threads) - (if HoldsRef(s.threads[i]) && s.threads[i].entry == e then 1 else 0)
              + (if HoldsRef(pc') && pc'.entry == e then 1 else 0)
  {
    forall e: nat
      ensures Count(Holding(e), s.threads[i := pc']) ==
              Count(Holding(e), s.threads) - (if HoldsRef(s.threads[i]) && s.threads[i].entry == e then 1 else 0)
              + (if HoldsRef(pc') && pc'.entry == e then 1 else 0)
    {
      CountUpdate(Holding(e), s.threads, i, pc');
    }
  }

  lemma ThreadKeepsLock(s: State, i: nat, s': State)
    requires LockInv(s) && i < |s.threads| && |s'.threads| == |s.threads|
    requires s'.threads == s.threads[i := s'.threads[i]] && ThreadStep(s, s.threads[i], s', s'.threads[i])
    ensures LockInv(s')
  {
  }

  lemma ThreadKeepsMap(s: State, i: nat, s': State)
    requires MapInv(s) && i < |s.threads| && |s'.threads| == |s.threads|
    requires ThreadStep(s, s.threads[i], s', s'.threads[i])
    ensures MapInv(s')
  {
  }

  lemma ThreadKeepsEntry(s: State, i: nat, s': State)
    requires EntryInv(s) && i < |s.threads| && |s'.threads| == |s.threads|
    requires s'.threads == s.threads[i := s'.threads[i]] && ThreadStep(s, s.threads[i], s', s'.threads[i])
    ensures EntryInv(s')
  {
  }

  lemma ThreadKeepsCounts(s: State, i: nat, s': State)
    requires Inv(s) && i < |s.threads| && |s'.threads| == |s.threads|
    requires s'.threads == s.threads[i := s'.threads[i]] && ThreadStep(s, s.threads[i], s', s'.threads[i])
    ensures ReporterInv(s') && CountInv(s')
  {
    hide Count;
  }

  lemma ThreadKeepsRefs(s: State, i: nat, s': State)
    requires Inv(s) && i < |s.threads| && |s'.threads| == |s.threads|
    requires s'.threads == s.threads[i := s'.threads[i]] && ThreadStep(s, s.threads[i], s', s'.threads[i])
    ensures RefInv(s')
  {
    hide Count;
    RefsMove(s, i, s'.threads[i]);
    if |s'.heap| > |s.heap| {
      NoHolderYet(s);
    }
  }

  /** Nobody holds an entry that has not been made. */
  lemma NoHolderYet(s: State)
    requires MapInv(s) && EntryInv(s)
    ensures Count(Holding(|s.heap|), s.threads) == 0
  {
    CountBound(Holding(|s.heap|), s.threads);
  }

  lemma ReportKeepsInv(s: State, s': State)
    requires Inv(s) && ReportStep(s, s')
    ensures Inv(s')
  {
    hide Count;
    match s.reporter
    case Deleting(toDelete) =>
      if toDelete != [] && s.heap[s.stats[toDelete[0]]].refs == 0 {
        NobodyHolds(s, toDelete[0]);
      }
    case _ =>
  }

  /** With no references and the write lock held by the reporter, no request is at the entry. */
  lemma NobodyHolds(s: State, key: Key)
    requires Inv(s) && s.reporter.Deleting? && key in s.stats && s.heap[s.stats[key]].refs == 0
    ensures forall i :: 0 <= i < |s.threads| && (HoldsRef(s.threads[i]) || s.threads[i].Found?) ==>
              s.threads[i].key != key
  {
    var e := s.stats[key];
    CountBound(Holding(e), s.threads);
    forall i | 0 <= i < |s.threads| && (HoldsRef(s.threads[i]) || s.threads[i].Found?)
      ensures s.threads[i].key != key
    {
      assert !Holding(e)(s.threads[i]);
    }
  }

  lemma StepKeepsInv(s: State, s': State)
    requires Inv(s) && Step(s, s')
    ensures Inv(s')
  {
    if ReportStep(s, s') {
      ReportKeepsInv(s, s');
    } else {
      var i: nat :| i < |s.threads| && |s'.threads| == |s.threads|
                    && s'.threads == s.threads[i := s'.threads[i]] && ThreadStep(s, s.threads[i], s', s'.threads[i]);
      ThreadKeepsLock(s, i, s');
      ThreadKeepsMap(s, i, s');
      ThreadKeepsEntry(s, i, s');
      ThreadKeepsCounts(s, i, s');
      ThreadKeepsRefs(s, i, s');
    }
  }

  /** Reference safety and counting over every interleaving. */
  lemma {:induction false} RunKeepsInv(tr: seq<State>)
    requires Run(tr)
    ensures forall j :: 0 <= j < |tr| ==> Inv(tr[j])
  {
    var n := |tr| - 1;
    if n > 0 {
      RunKeepsInv(tr[..n]);
      assert Inv(tr[..n][n - 1]);
      assert Step(tr[n - 1], tr[n]);
      StepKeepsInv(tr[n - 1], tr[n]);
      forall j | 0 <= j < |tr|
        ensures Inv(tr[j])
      {
        if j < n {
          assert tr[j] == tr[..n][j];
        }
      }
    }
  }

  /** In every reachable state: whoever holds a reference, from taking it to dropping it,
      holds the very entry the map has for its key; the entry's references are the requests
      holding it; the deleter has not met a missing key; and after an entry's first report
      all counts sent about it add up to the arrivals seen up to its last report. */
  lemma ReferenceSafety(tr: seq<State>, j: nat)
    requires Run(tr) && j < |tr|
    ensures !tr[j].reporter.Crashed?
    ensures forall i :: 0 <= i < |tr[j].threads| && HoldsRef(tr[j].threads[i]) ==>
              && tr[j].threads[i].key in tr[j].stats
              && tr[j].stats[tr[j].threads[i].key] == tr[j].threads[i].entry
    ensures forall e :: 0 <= e < |tr[j].heap| ==>
              && tr[j].heap[e].refs == Count(Holding(e), tr[j].threads)
              && (tr[j].heap[e].firstRequest == 0 ==> tr[j].heap[e].issued == tr[j].heap[e].reported)
  {
    RunKeepsInv(tr);
    assert Inv(tr[j]);
  }

  /** In every reachable state the lock excludes: with a thread between its second look and
      unlocking, or the reporter deleting, nobody else is under the lock. */
  lemma LockExcludes(tr: seq<State>, j: nat, i: nat)
    requires Run(tr) && j < |tr| && i < |tr[j].threads|
    ensures var pc := tr[j].threads[i];
      && (tr[j].reporter.Deleting? ==>
            !pc.InRead? && !pc.Found? && !pc.FoundDone? && !pc.Missed? && !pc.InWrite? && !pc.WriteDone?)
      && (pc.InWrite? || pc.WriteDone? ==>
            && !tr[j].reporter.Reading? && !tr[j].reporter.Deleting?
            && forall k :: 0 <= k < |tr[j].threads| && k != i ==>
                 var other := tr[j].threads[k];
                 !other.InRead? && !other.Found? && !other.FoundDone? && !other.Missed?
                 && !other.InWrite? && !other.WriteDone?)
  {
    hide Count;
    RunKeepsInv(tr);
    assert Inv(tr[j]);
  }

  // ----- arrivals that are never reported

  /** The step records an arrival at entry e. */
  predicate Arrives(s: State, s': State, e: nat) {
    e < |s.heap| && e < |s'.heap| && s'.heap[e].arrivals == s.heap[e].arrivals + 1
  }

  /** The step is the report loop's turn at entry e. */
  predicate Reports(s: State, s': State, e: nat) {
    && s.reporter.Reading? && s'.reporter.Reading?
    && exists key :: key in s.reporter.todo && key !in s'.reporter.todo && key in s.stats && s.stats[key] == e
  }

  /** The arrivals at entry e since the report loop was last there. */
  function SinceReport(tr: seq<State>, j: nat, e: nat): nat
    requires j < |tr|
  {
    if j == 0 || Reports(tr[j - 1], tr[j], e) then 0
    else SinceReport(tr, j - 1, e) + (if Arrives(tr[j - 1], tr[j], e) then 1 else 0)
  }

  /** What one step does to an entry's two counters. */
  lemma StepCounts(s: State, s': State, e: nat)
    requires Inv(s) && Step(s, s')
    ensures |s.heap| <= |s'.heap|
    ensures e >= |s.heap| ==> !Reports(s, s', e) && !Arrives(s, s', e)
    ensures |s.heap| <= e < |s'.heap| ==> s'.heap[e].arrivals == s'.heap[e].reported == 0
    ensures e < |s.heap| && Reports(s, s', e) ==> s'.heap[e].reported == s'.heap[e].arrivals
    ensures e < |s.heap| && !Reports(s, s', e) ==>
              && s'.heap[e].reported == s.heap[e].reported
              && s'.heap[e].arrivals == s.heap[e].arrivals + (if Arrives(s, s', e) then 1 else 0)
  {
    hide Count, LockInv, EntryInv, RefInv, CountInv;
    if ReportStep(s, s') {
      ReportCounts(s, s', e);
    }
  }

  lemma ReportCounts(s: State, s': State, e: nat)
    requires MapInv(s) && ReporterInv(s) && ReportStep(s, s')
    ensures |s.heap| == |s'.heap|
    ensures e >= |s.heap| ==> !Reports(s, s', e)
    ensures e < |s.heap| ==> s'.heap[e].arrivals == s.heap[e].arrivals
    ensures e < |s.heap| ==>
              s'.heap[e].reported == if Reports(s, s', e) then s'.heap[e].arrivals else s.heap[e].reported
  {
    if s.reporter.Reading? && s.reporter.todo != {} {
      var key :| key in s.reporter.todo && ReportKey(s, s', s.reporter.todo, s.reporter.toDelete, key);
      assert s'.reporter.todo == s.reporter.todo - {key};
    }
  }

  /** In every run, what an entry has not reported is exactly what arrived at it since the
      report loop was last there. */
  lemma {:induction false} UnreportedIsSinceReport(tr: seq<State>, j: nat, e: nat)
    requires Run(tr) && j < |tr|
    ensures e < |tr[j].heap| ==> tr[j].heap[e].arrivals - tr[j].heap[e].reported == SinceReport(tr, j, e)
    ensures e >= |tr[j].heap| ==> SinceReport(tr, j, e) == 0
  {
    hide Inv, Step, Reports, Arrives;
    if j > 0 {
      UnreportedIsSinceReport(tr, j - 1, e);
      RunKeepsInv(tr);
      StepCounts(tr[j - 1], tr[j], e);
    }
  }

  predicate ArrivesAt(tr: seq<State>, k: nat, e: nat) { k + 1 < |tr| && Arrives(tr[k], tr[k + 1], e) }

  predicate ReportsAt(tr: seq<State>, k: nat, e: nat) { k + 1 < |tr| && Reports(tr[k], tr[k + 1], e) }

  /** Every arrival at entry e before state i was followed by a report of it. */
  ghost predicate AllReported(tr: seq<State>, i: nat, e: nat) {
    forall k: nat :: k < i && ArrivesAt(tr, k, e) ==> exists r: nat :: k <= r < i && ReportsAt(tr, r, e)
  }

  lemma {:induction false} NoneSinceReport(tr: seq<State>, i: nat, e: nat)
    requires i < |tr|
    ensures SinceReport(tr, i, e) == 0 <==> AllReported(tr, i, e)
  {
    hide Arrives, Reports;
    if i > 0 {
      NoneSinceReport(tr, i - 1, e);
      if ReportsAt(tr, i - 1, e) {
        assert AllReported(tr, i, e);
      } else if ArrivesAt(tr, i - 1, e) {
        assert !AllReported(tr, i, e);
      } else {
        assert AllReported(tr, i, e) ==> AllReported(tr, i - 1, e);
      }
    }
  }

  /** No key leads to the entry any more. */
  predicate Unmapped(s: State, e: nat) { forall k :: k in s.stats ==> s.stats[k] != e }

  lemma StepLeavesUnmapped(s: State, s': State, e: nat)
    requires Inv(s) && Step(s, s') && e < |s.heap| && Unmapped(s, e)
    ensures e < |s'.heap| && s'.heap[e] == s.heap[e] && Unmapped(s', e)
  {
    hide Count, LockInv, RefInv, CountInv;
    if ReportStep(s, s') {
      ReportLeavesUnmapped(s, s', e);
    }
  }

  lemma ReportLeavesUnmapped(s: State, s': State, e: nat)
    requires MapInv(s) && ReporterInv(s) && ReportStep(s, s') && e < |s.heap| && Unmapped(s, e)
    ensures e < |s'.heap| && s'.heap[e] == s.heap[e] && Unmapped(s', e)
  {
  }

  /** A deleted entry stays as it was for the rest of the run: what it has not reported is
      lost, and that is nothing if and only if nothing arrived since its last report. */
  lemma {:induction false} DeletedKeepsUnreported(tr: seq<State>, i: nat, j: nat, e: nat)
    requires Run(tr) && i <= j < |tr| && e < |tr[i].heap| && Unmapped(tr[i], e)
    ensures e < |tr[j].heap| && Unmapped(tr[j], e)
    ensures tr[j].heap[e] == tr[i].heap[e]
    ensures tr[j].heap[e].arrivals - tr[j].heap[e].reported == SinceReport(tr, i, e)
    ensures tr[j].heap[e].reported == tr[j].heap[e].arrivals <==> AllReported(tr, i, e)
  {
    hide Inv, Step, Unmapped, SinceReport, AllReported;
    UnreportedIsSinceReport(tr, i, e);
    NoneSinceReport(tr, i, e);
    if i < j {
      DeletedKeepsUnreported(tr, i, j - 1, e);
      RunKeepsInv(tr);
      StepLeavesUnmapped(tr[j - 1], tr[j], e);
    }
  }

  // ----- when arrivals can be lost

  /** The reporter is still in the report in which it has been at the key's entry. */
  predicate Past(s: State, key: Key, e: nat) {
    && !s.reporter.Waiting? && key in s.stats && s.stats[key] == e
    && (s.reporter.Reading? ==> key !in s.reporter.todo)
  }

  /** Step r is the report loop's turn at the key, and the same report goes on until state j. */
  ghost predicate SameReport(tr: seq<State>, r: nat, j: nat, key: Key) {
    && r < j < |tr| && key in tr[r].stats && ReportsAt(tr, r, tr[r].stats[key])
    && forall m: nat :: r < m <= j ==> Past(tr[m], key, tr[r].stats[key])
  }

  /** The keys the reporter means to delete. */
  function ToDelete(s: State): seq<Key> {
    match s.reporter
    case Reading(_, toDelete) => toDelete
    case WantDelete(toDelete) => toDelete
    case Deleting(toDelete) => toDelete
    case _ => []
  }

  /** A key to delete stays one for the same entry, or has just had its turn. */
  lemma StepToDelete(s: State, s': State, key: Key)
    requires Inv(s) && Step(s, s') && key in ToDelete(s')
    ensures key in s.stats && Past(s', key, s.stats[key])
    ensures key in ToDelete(s) || Reports(s, s', s.stats[key])
  {
    hide Count, LockInv, EntryInv, RefInv, CountInv;
    if ReportStep(s, s') {
      ReportToDelete(s, s', key);
    }
  }

  lemma ReportToDelete(s: State, s': State, key: Key)
    requires MapInv(s) && ReporterInv(s) && ReportStep(s, s') && key in ToDelete(s')
    ensures key in s.stats && Past(s', key, s.stats[key])
    ensures key in ToDelete(s) || Reports(s, s', s.stats[key])
  {
    if s.reporter.Reading? && s.reporter.todo != {} {
      var turn :| turn in s.reporter.todo && ReportKey(s, s', s.reporter.todo, s.reporter.toDelete, turn);
      assert s'.reporter.todo == s.reporter.todo - {turn};
    }
  }

  /** Every key about to be deleted had its turn in the report still going on. */
  lemma {:induction false} DeletedWasReported(tr: seq<State>, j: nat, key: Key) returns (r: nat)
    requires Run(tr) && j < |tr| && key in ToDelete(tr[j])
    ensures SameReport(tr, r, j, key)
  {
    hide Inv, Step, Reports, Past, ToDelete;
    RunKeepsInv(tr);
    assert ToDelete(tr[0]) == [] by { NothingToDelete(tr[0]); }
    StepToDelete(tr[j - 1], tr[j], key);
    if key in ToDelete(tr[j - 1]) {
      r := DeletedWasReported(tr, j - 1, key);
      assert Past(tr[j - 1], key, tr[r].stats[key]);
      PastMeaning(tr[j - 1], key, tr[r].stats[key]);
    } else {
      r := j - 1;
    }
  }

  lemma NothingToDelete(s: State)
    requires Init(s)
    ensures ToDelete(s) == []
  {
  }

  lemma PastMeaning(s: State, key: Key, e: nat)
    requires Past(s, key, e)
    ensures key in s.stats && s.stats[key] == e
  {
  }

  /** The arrivals at entry e in the steps from lo up to hi. */
  function ArrivalsIn(tr: seq<State>, lo: nat, hi: nat, e: nat): nat
    requires hi < |tr|
  {
    if hi <= lo then 0
    else ArrivalsIn(tr, lo, hi - 1, e) + (if Arrives(tr[hi - 1], tr[hi], e) then 1 else 0)
  }

  /** In the rest of that report the loop does not come back to the entry. */
  lemma NoSecondTurn(s: State, s': State, key: Key, e: nat)
    requires MapInv(s) && Past(s, key, e)
    ensures !Reports(s, s', e)
  {
  }

  lemma {:induction false} SinceThatTurn(tr: seq<State>, r: nat, j: nat, key: Key)
    requires Run(tr) && SameReport(tr, r, j, key)
    ensures SinceReport(tr, j, tr[r].stats[key]) == ArrivalsIn(tr, r + 1, j, tr[r].stats[key])
  {
    hide Reports, Past, Arrives, Inv, Step, MapInv, Init;
    var e := tr[r].stats[key];
    if j > r + 1 {
      SinceThatTurn(tr, r, j - 1, key);
      RunKeepsInv(tr);
      InvHasMap(tr[j - 1]);
      NoSecondTurn(tr[j - 1], tr[j], key, e);
    }
  }

  lemma InvHasMap(s: State)
    requires Inv(s)
    ensures MapInv(s)
  {
  }

  /** When a key is deleted, the report loop's turn at its entry was in the very same report.
      What is lost are the arrivals since that turn, and by the deletion every one of those
      requests is gone: only requests that came and went in between can be lost. */
  lemma LossWindow(tr: seq<State>, j: nat, key: Key) returns (r: nat)
    requires Run(tr) && j + 1 < |tr| && key in tr[j].stats && key !in tr[j + 1].stats
    ensures SameReport(tr, r, j, key) && tr[r].stats[key] == tr[j].stats[key] < |tr[j].heap|
    ensures var e := tr[j].stats[key];
      && tr[j].heap[e].arrivals - tr[j].heap[e].reported == ArrivalsIn(tr, r + 1, j, e)
      && forall i :: 0 <= i < |tr[j].threads| ==> !Holding(e)(tr[j].threads[i])
  {
    hide SinceReport, ArrivalsIn, Reports, Arrives, Count;
    RunKeepsInv(tr);
    assert Step(tr[j], tr[j + 1]);
    DeleteStep(tr[j], tr[j + 1], key);
    r := DeletedWasReported(tr, j, key);
    assert Past(tr[j], key, tr[r].stats[key]);
    SinceThatTurn(tr, r, j, key);
    UnreportedIsSinceReport(tr, j, tr[j].stats[key]);
    NobodyHolds(tr[j], key);
  }

  lemma DeleteStep(s: State, s': State, key: Key)
    requires Inv(s) && Step(s, s') && key in s.stats && key !in s'.stats
    ensures s.reporter.Deleting? && key in ToDelete(s) && s.stats[key] < |s.heap| && s.heap[s.stats[key]].refs == 0
  {
    hide Count, LockInv, EntryInv, RefInv, CountInv;
    if ReportStep(s, s') {
      assert s.reporter.Deleting?;
    }
  }

  // ----- a run that loses an arrival

  ghost predicate Reachable(s: State) { exists tr :: Run(tr) && tr[|tr| - 1] == s }

  lemma OneMore(s: State, s': State)
    requires Reachable(s) && Step(s, s')
    ensures Reachable(s')
  {
    hide Step;
    var tr :| Run(tr) && tr[|tr| - 1] == s;
    var longer := tr + [s'];
    forall j | 0 < j < |longer|
      ensures Step(longer[j - 1], longer[j])
    {
      if j < |tr| {
        assert longer[j - 1] == tr[j - 1] && longer[j] == tr[j];
      }
    }
    assert Run(longer);
  }

  const K: Key := "k"

  /** One request thread and no entry yet. */
  function Empty(pc: Pc): State { State([], map[], [pc], Waiting) }

  /** One request thread and one entry. */
  function One(refs: int, firstRequest: int, arrivals: nat, reported: nat, pc: Pc, reporter: ReportPc): State {
    State([Entry(K, refs, firstRequest, arrivals, reported, 1)], map[K := 0], [pc], reporter)
  }

  /** The thread moves from a reachable state. */
  lemma Moves(s: State, s': State)
    requires Reachable(s) && |s.threads| == |s'.threads| == 1 && ThreadStep(s, s.threads[0], s', s'.threads[0])
    ensures Reachable(s')
  {
    hide Reachable, ThreadStep;
    assert s'.threads == s.threads[0 := s'.threads[0]];
    OneMore(s, s');
  }

  lemma Reporting(s: State, s': State)
    requires Reachable(s) && ReportStep(s, s')
    ensures Reachable(s')
  {
    hide Reachable, ReportStep;
    OneMore(s, s');
  }

  lemma Starts()
    ensures Reachable(Empty(Idle))
  {
    assert Run([Empty(Idle)]);
  }

  lemma FirstRequestMisses()
    ensures Reachable(Empty(InWrite(K)))
  {
    hide Reachable;
    Starts();
    Moves(Empty(Idle), Empty(WantRead(K)));
    Moves(Empty(WantRead(K)), Empty(InRead(K)));
    Moves(Empty(InRead(K)), Empty(Missed(K)));
    Moves(Empty(Missed(K)), Empty(WantWrite(K)));
    Moves(Empty(WantWrite(K)), Empty(InWrite(K)));
  }

  lemma FirstRequestCreates()
    ensures Reachable(One(1, 1, 0, 0, WriteDone(K, 0), Waiting))
  {
    hide Reachable;
    FirstRequestMisses();
    Moves(Empty(InWrite(K)), One(1, 1, 0, 0, WriteDone(K, 0), Waiting));
  }

  lemma FirstRequestServed()
    ensures Reachable(One(0, 1, 1, 0, Idle, Waiting))
  {
    hide Reachable;
    FirstRequestCreates();
    Moves(One(1, 1, 0, 0, WriteDone(K, 0), Waiting), One(1, 1, 0, 0, Arriving(K, 0), Waiting));
    Moves(One(1, 1, 0, 0, Arriving(K, 0), Waiting), One(1, 1, 1, 0, Serving(K, 0), Waiting));
    Moves(One(1, 1, 1, 0, Serving(K, 0), Waiting), One(1, 1, 1, 0, Leaving(K, 0), Waiting));
    Moves(One(1, 1, 1, 0, Leaving(K, 0), Waiting), One(0, 1, 1, 0, Idle, Waiting));
  }

  /** The report loop's turn at the only entry. */
  lemma ReportsOne(first: int, arrivals: nat, reported: nat, toDelete: seq<Key>)
    requires Reachable(One(0, first, arrivals, reported, Idle, Waiting))
    requires arrivals - reported == first && toDelete in {[], [K]}
    ensures Reachable(One(0, 0, arrivals, arrivals, Idle, Reading({}, toDelete)))
  {
    hide Reachable;
    var s := One(0, first, arrivals, reported, Idle, Waiting);
    var reading := One(0, first, arrivals, reported, Idle, Reading({K}, []));
    Reporting(s, reading);
    var done := One(0, 0, arrivals, arrivals, Idle, Reading({}, toDelete));
    assert {K} - {K} == {} && [] + [K] == [K];
    assert ReportKey(reading, done, {K}, [], K);
    Reporting(reading, done);
  }

  /** A first report counts the request, a second finds the stat idle. */
  lemma TwoReports()
    ensures Reachable(One(0, 0, 1, 1, Idle, WantDelete([K])))
  {
    hide Reachable;
    FirstRequestServed();
    ReportsOne(1, 1, 0, []);
    Reporting(One(0, 0, 1, 1, Idle, Reading({}, [])), One(0, 0, 1, 1, Idle, Waiting));
    ReportsOne(0, 1, 1, [K]);
    Reporting(One(0, 0, 1, 1, Idle, Reading({}, [K])), One(0, 0, 1, 1, Idle, WantDelete([K])));
  }

  /** Before the deleter gets the lock a second request comes and goes. */
  lemma SecondRequestArrives()
    ensures Reachable(One(1, 0, 1, 1, Arriving(K, 0), WantDelete([K])))
  {
    hide Reachable;
    var d := WantDelete([K]);
    TwoReports();
    Moves(One(0, 0, 1, 1, Idle, d), One(0, 0, 1, 1, WantRead(K), d));
    Moves(One(0, 0, 1, 1, WantRead(K), d), One(0, 0, 1, 1, InRead(K), d));
    Moves(One(0, 0, 1, 1, InRead(K), d), One(0, 0, 1, 1, Found(K, 0), d));
    Moves(One(0, 0, 1, 1, Found(K, 0), d), One(1, 0, 1, 1, FoundDone(K, 0), d));
    Moves(One(1, 0, 1, 1, FoundDone(K, 0), d), One(1, 0, 1, 1, Arriving(K, 0), d));
  }

  lemma SecondRequestServed()
    ensures Reachable(One(0, 0, 2, 1, Idle, WantDelete([K])))
  {
    hide Reachable;
    var d := WantDelete([K]);
    SecondRequestArrives();
    Moves(One(1, 0, 1, 1, Arriving(K, 0), d), One(1, 0, 2, 1, Serving(K, 0), d));
    Moves(One(1, 0, 2, 1, Serving(K, 0), d), One(1, 0, 2, 1, Leaving(K, 0), d));
    Moves(One(1, 0, 2, 1, Leaving(K, 0), d), One(0, 0, 2, 1, Idle, d));
  }

  /** A run that loses an arrival: the entry is gone with two arrivals and one reported,
      because a request came and went between the report and the deleter's lock. */
  lemma ArrivalCanBeLost() returns (tr: seq<State>)
    ensures Run(tr)
    ensures var s := tr[|tr| - 1];
      |s.heap| == 1 && Unmapped(s, 0) && s.heap[0].arrivals == 2 && s.heap[0].reported == s.heap[0].issued == 1
  {
    var last := State([Entry(K, 0, 0, 2, 1, 1)], map[], [Idle], Deleting([]));
    assert Reachable(last) by {
      hide Reachable;
      SecondRequestServed();
      Reporting(One(0, 0, 2, 1, Idle, WantDelete([K])), One(0, 0, 2, 1, Idle, Deleting([K])));
      assert map[K := 0] - {K} == map[] && [K][1..] == [];
      Reporting(One(0, 0, 2, 1, Idle, Deleting([K])), last);
    }
    tr :| Run(tr) && tr[|tr| - 1] == last;
  }
}
