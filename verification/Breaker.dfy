/** The queue proxy's and activator's admission breaker: a pending counter, a
    semaphore kept in one packed 64-bit word, and a bounded channel of wakeup
    tokens.  Any number of threads interleave; every atomic load,
    compare-and-swap, channel send and channel receive is a step of its own. */
module Breaker {
  import Bits

  /** The largest valid MaxConcurrency (math.MaxInt32). */
  const MAX_BREAKER_CAPACITY: nat := 0x7fff_ffff

  const HALF: nat := 0x1_0000_0000

  datatype Params = Params(queueDepth: nat, maxConcurrency: nat, initialCapacity: nat) {
    /** What NewBreaker accepts, with the documented bound on MaxConcurrency. */
    predicate Valid() {
      queueDepth > 0 && initialCapacity <= maxConcurrency <= MAX_BREAKER_CAPACITY
    }

    function TotalSlots(): nat {
      queueDepth + maxConcurrency
    }
  }

  // ----- the packed word

  /** `left << 32 | right` on 64-bit words. */
  function Pack(left: nat, right: nat): nat {
    Bits.Or((left * HALF) % (HALF * HALF), right)
  }

  /** `in >> 32` and `in & 0xffffffff`; UnpackIsBitwise relates shift and mask to division. */
  function Unpack(word: nat): (nat, nat) {
    (word / HALF, word % HALF)
  }

  lemma UnpackIsBitwise(word: nat)
    ensures Unpack(word) == (Bits.Shr(word, 32), Bits.And(word, 0xffff_ffff))
  {
    Bits.ShrIsDivision(word, 32);
    Bits.Pow2At64();
    Bits.AndMask(word, 32);
  }

  lemma PackIsSum(left: nat, right: nat)
    requires left < HALF && right < HALF
    ensures Pack(left, right) == left * HALF + right
  {
    hide Bits.Pow2, Bits.Or;
    Bits.Pow2At64();
    Bits.OrDisjoint(left, right, 32);
    assert (left * HALF) % (HALF * HALF) == left * HALF;
  }

  /** Two 32-bit counters share a word without spilling into each other. */
  lemma PackRoundTrip(left: nat, right: nat)
    requires left < HALF && right < HALF
    ensures Pack(left, right) < HALF * HALF
    ensures Unpack(Pack(left, right)) == (left, right)
  {
    PackIsSum(left, right);
  }

  // ----- threads

  datatype Call = Reserve | Maybe

  /** Where a thread stands, with the values its last load left in locals. */
  datatype Pc =
    | Idle
    | PendingLoad(call: Call)                // tryAcquirePending
    | PendingCas(call: Call, cur: nat)
    | TryLoad                                // semaphore.tryAcquire
    | TryCas(seen: nat)
    | AcquireLoad(woken: bool)               // semaphore.acquire
    | AcquireCas(seen: nat, woken: bool)
    | Waiting                                // blocked in select on ctx.Done and the queue
    | Holding                                // the thunk runs, or the Reserve callback is outstanding
    | ReleaseLoad                            // semaphore.release
    | ReleaseCas(seen: nat)
    | ReleaseSend
    | Leaving                                // about to run releasePending
    | UpdateLoad(size: nat)                  // semaphore.updateCapacity
    | UpdateCas(size: nat, seen: nat)
    | UpdateSend(left: nat)
    | Panicked                               // "release and acquire are not paired"

  /** The shared words: the packed semaphore state, the tokens in the channel, the pending counter. */
  datatype Shared = Shared(word: nat, tokens: nat, pending: nat) {
    function Capacity(): nat { Unpack(word).0 }

    function InFlight(): nat { Unpack(word).1 }

    predicate Full() { InFlight() >= Capacity() }

    /** A non-blocking send: a full channel drops the token. */
    function Sent(p: Params): Shared {
      if tokens < p.maxConcurrency then this.(tokens := tokens + 1) else this
    }
  }

  datatype State = State(sh: Shared, threads: seq<Pc>)

  /** The breaker NewBreaker publishes: newSemaphore has already run
      updateCapacity(initialCapacity) on an empty channel of maxConcurrency slots. */
  ghost predicate Init(p: Params, s: State) {
    && s.sh == Shared(Pack(p.initialCapacity, 0), p.initialCapacity, 0)
    && forall i :: 0 <= i < |s.threads| ==> s.threads[i] == Idle
  }

  /** One atomic step of a thread at pc. */
  predicate ThreadStep(p: Params, sh: Shared, pc: Pc, sh': Shared, pc': Pc) {
    match pc
    case Idle =>
      && sh' == sh
      && (pc'.PendingLoad? || (pc'.UpdateLoad? && pc'.size <= p.maxConcurrency))
    case PendingLoad(call) =>
      sh' == sh && pc' == if sh.pending == p.TotalSlots() then Idle else PendingCas(call, sh.pending)
    case PendingCas(call, cur) =>
      if sh.pending == cur
      then sh' == sh.(pending := cur + 1) && pc' == if call.Reserve? then TryLoad else AcquireLoad(false)
      else sh' == sh && pc' == PendingLoad(call)
    case TryLoad =>
      sh' == sh && pc' == if sh.Full() then Leaving else TryCas(sh.word)
    case TryCas(seen) =>
      if sh.word == seen
      then sh' == sh.(word := Pack(Unpack(seen).0, Unpack(seen).1 + 1)) && pc' == Holding
      else sh' == sh && pc' == TryLoad
    case AcquireLoad(woken) =>
      sh' == sh && pc' == if sh.Full() then Waiting else AcquireCas(sh.word, woken)
    case AcquireCas(seen, woken) =>
      if sh.word == seen
      then sh' == sh.(word := Pack(Unpack(seen).0, Unpack(seen).1 + 1)) && pc' == Holding
      else sh' == sh && pc' == AcquireLoad(woken)
    case Waiting =>
      || (sh' == sh && pc' == Leaving)                 // the context is done
      || (sh.tokens > 0 && sh' == sh.(tokens := sh.tokens - 1) && pc' == AcquireLoad(true))
    case Holding =>
      sh' == sh && pc' == ReleaseLoad
    case ReleaseLoad =>
      sh' == sh && pc' == if sh.InFlight() == 0 then Panicked else ReleaseCas(sh.word)
    case ReleaseCas(seen) =>
      var (cap, inn) := Unpack(seen);
      if sh.word == seen && inn > 0
      then sh' == sh.(word := Pack(cap, inn - 1)) && pc' == if inn - 1 < cap then ReleaseSend else Leaving
      else sh' == sh && pc' == ReleaseLoad
    case ReleaseSend =>
      sh' == sh.Sent(p) && pc' == Leaving
    case Leaving =>
      sh.pending > 0 && sh' == sh.(pending := sh.pending - 1) && pc' == Idle
    case UpdateLoad(size) =>
      sh' == sh && pc' == if sh.Capacity() == size then Idle else UpdateCas(size, sh.word)
    case UpdateCas(size, seen) =>
      var (cap, inn) := Unpack(seen);
      if sh.word == seen
      then sh' == sh.(word := Pack(size, inn)) && pc' == if size > cap then UpdateSend(size - cap) else Idle
      else sh' == sh && pc' == UpdateLoad(size)
    case UpdateSend(left) =>
      if left == 0 then sh' == sh && pc' == Idle else sh' == sh.Sent(p) && pc' == UpdateSend(left - 1)
    case Panicked => false
  }

  /** Thread i steps, the others stand still. */
  predicate Step(p: Params, s: State, i: nat, s': State)
    requires i < |s.threads|
  {
    && |s'.threads| == |s.threads|
    && s'.threads == s.threads[i := s'.threads[i]]
    && ThreadStep(p, s.sh, s.threads[i], s'.sh, s'.threads[i])
  }

  /** A run: an initial state followed by steps of any threads in any order. */
  ghost predicate Run(p: Params, tr: seq<State>) {
    && |tr| > 0
    && Init(p, tr[0])
    && forall k :: 0 < k < |tr| ==> Follows(p, tr[k - 1], tr[k])
  }

  ghost predicate Follows(p: Params, s: State, s': State) {
    exists i: nat :: i < |s.threads| && Step(p, s, i, s')
  }

  // ----- counting over threads

  /** What a thread contributes to each of the four sums of the invariant. */
  datatype Role = Holder | Queued | Owed | Woken

  function Weight(r: Role, pc: Pc): nat {
    match r
    case Holder => if pc.Holding? || pc.ReleaseLoad? || pc.ReleaseCas? then 1 else 0
    case Queued =>
      if pc.Idle? || pc.PendingLoad? || pc.PendingCas? || pc.UpdateLoad? || pc.UpdateCas? || pc.UpdateSend?
      then 0 else 1
    case Owed => if pc.ReleaseSend? then 1 else if pc.UpdateSend? then pc.left else 0
    case Woken => if (pc.AcquireLoad? || pc.AcquireCas?) && pc.woken then 1 else 0
  }

  function Count(r: Role, ts: seq<Pc>): nat {
    if ts == [] then 0 else Weight(r, ts[0]) + Count(r, ts[1..])
  }

  lemma {:induction false} CountUpdate(r: Role, ts: seq<Pc>, i: nat, pc: Pc)
    requires i < |ts|
    ensures Count(r, ts[i := pc]) == Count(r, ts) - Weight(r, ts[i]) + Weight(r, pc)
  {
    if i == 0 {
      assert ts[i := pc][1..] == ts[1..];
    } else {
      assert ts[i := pc][1..] == ts[1..][i - 1 := pc];
      CountUpdate(r, ts[1..], i - 1, pc);
    }
  }

  lemma {:induction false} CountHas(r: Role, ts: seq<Pc>, i: nat)
    requires i < |ts|
    ensures Weight(r, ts[i]) <= Count(r, ts)
  {
    if i > 0 {
      CountHas(r, ts[1..], i - 1);
    }
  }

  /** A positive sum has a thread that contributes to it. */
  lemma {:induction false} CountWitness(r: Role, ts: seq<Pc>) returns (i: nat)
    requires Count(r, ts) > 0
    ensures i < |ts| && Weight(r, ts[i]) > 0
  {
    if Weight(r, ts[0]) > 0 {
      i := 0;
    } else {
      var j := CountWitness(r, ts[1..]);
      i := j + 1;
    }
  }

  lemma {:induction false} CountIdle(r: Role, ts: seq<Pc>)
    requires forall i :: 0 <= i < |ts| ==> ts[i] == Idle
    ensures Count(r, ts) == 0
  {
    if ts != [] {
      CountIdle(r, ts[1..]);
    }
  }

  lemma {:induction false} HoldersAreQueued(ts: seq<Pc>)
    ensures Count(Holder, ts) <= Count(Queued, ts)
  {
    if ts != [] {
      HoldersAreQueued(ts[1..]);
    }
  }

  // ----- the invariant

  /** What the locals of a thread between two of its steps remember. */
  predicate LocalInv(p: Params, pc: Pc) {
    match pc
    case PendingCas(_, cur) => cur != p.TotalSlots()
    case TryCas(seen) => Unpack(seen).1 < Unpack(seen).0
    case AcquireCas(seen, _) => Unpack(seen).1 < Unpack(seen).0
    case ReleaseCas(seen) => Unpack(seen).1 > 0
    case UpdateLoad(size) => size <= p.maxConcurrency
    case UpdateCas(size, _) => size <= p.maxConcurrency
    case Panicked => false
    case _ => true
  }

  predicate PackedInv(p: Params, sh: Shared) {
    && sh.Capacity() <= p.maxConcurrency
    && sh.InFlight() <= p.maxConcurrency
    && sh.word == Pack(sh.Capacity(), sh.InFlight())
  }

  predicate AccountingInv(p: Params, s: State) {
    && s.sh.InFlight() == Count(Holder, s.threads)
    && s.sh.pending == Count(Queued, s.threads)
    && s.sh.pending <= p.TotalSlots()
  }

  /** Free permits are covered by tokens, by sends still owed after a successful
      compare-and-swap, and by woken waiters that have not yet acquired or found
      the semaphore full again. */
  predicate WakeupInv(p: Params, s: State) {
    && s.sh.tokens <= p.maxConcurrency
    && s.sh.Capacity() - s.sh.InFlight() <= s.sh.tokens + Count(Owed, s.threads) + Count(Woken, s.threads)
  }

  ghost predicate Inv(p: Params, s: State) {
    && PackedInv(p, s.sh)
    && AccountingInv(p, s)
    && WakeupInv(p, s)
    && forall i :: 0 <= i < |s.threads| ==> LocalInv(p, s.threads[i])
  }

  lemma InitEstablishesInv(p: Params, s: State)
    requires p.Valid() && Init(p, s)
    ensures Inv(p, s)
  {
    PackRoundTrip(p.initialCapacity, 0);
    CountIdle(Holder, s.threads);
    CountIdle(Queued, s.threads);
    CountIdle(Owed, s.threads);
    CountIdle(Woken, s.threads);
  }

  // ----- the packed word refines two plain counters

  /** The effect of a step on (capacity, in-flight), told by where the thread was
      and where it went: only a successful compare-and-swap changes either. */
  predicate CounterStep(p: Params, pc: Pc, cap: nat, inn: nat, pc': Pc, cap': nat, inn': nat) {
    if (pc.TryCas? || pc.AcquireCas?) && pc'.Holding? then
      inn < cap && cap' == cap && inn' == inn + 1
    else if pc.ReleaseCas? && !pc'.ReleaseLoad? then
      inn > 0 && cap' == cap && inn' == inn - 1 && pc' == if inn' < cap then ReleaseSend else Leaving
    else if pc.UpdateCas? && !pc'.UpdateLoad? then
      cap' == pc.size <= p.maxConcurrency && inn' == inn && pc' == if cap' > cap then UpdateSend(cap' - cap) else Idle
    else
      cap' == cap && inn' == inn
  }

  /** Every step on the packed word is a step on two counters that never spill. */
  lemma StepRefinesCounters(p: Params, sh: Shared, pc: Pc, sh': Shared, pc': Pc)
    requires p.Valid() && PackedInv(p, sh) && LocalInv(p, pc) && ThreadStep(p, sh, pc, sh', pc')
    ensures PackedInv(p, sh')
    ensures CounterStep(p, pc, sh.Capacity(), sh.InFlight(), pc', sh'.Capacity(), sh'.InFlight())
  {
    hide Pack, Unpack;
    var cap, inn := sh.Capacity(), sh.InFlight();
    if sh'.word == sh.word && !pc.UpdateCas? {
      CasAlwaysWrites(p, sh, pc, sh', pc');
    } else if pc.TryCas? || pc.AcquireCas? {
      PackRoundTrip(cap, inn + 1);
    } else if pc.ReleaseCas? {
      PackRoundTrip(cap, inn - 1);
    } else {
      PackRoundTrip(pc.size, inn);
    }
  }

  /** A successful compare-and-swap of the in-flight count changes the word. */
  lemma CasAlwaysWrites(p: Params, sh: Shared, pc: Pc, sh': Shared, pc': Pc)
    requires p.Valid() && PackedInv(p, sh) && LocalInv(p, pc) && ThreadStep(p, sh, pc, sh', pc')
    requires sh'.word == sh.word && !pc.UpdateCas?
    ensures !((pc.TryCas? || pc.AcquireCas?) && pc'.Holding?)
    ensures !(pc.ReleaseCas? && !pc'.ReleaseLoad?)
  {
    hide Pack;
    var cap, inn := sh.Capacity(), sh.InFlight();
    if pc.TryCas? || pc.AcquireCas? {
      PackRoundTrip(cap, inn + 1);
    } else if pc.ReleaseCas? && inn > 0 {
      PackRoundTrip(cap, inn - 1);
    }
  }

  lemma StepKeepsLocal(p: Params, sh: Shared, pc: Pc, sh': Shared, pc': Pc)
    requires LocalInv(p, pc) && ThreadStep(p, sh, pc, sh', pc')
    requires pc.ReleaseLoad? ==> sh.InFlight() > 0
    ensures LocalInv(p, pc')
  {
  }

  lemma StepKeepsAccounting(p: Params, s: State, i: nat, s': State)
    requires p.Valid() && Inv(p, s) && i < |s.threads| && Step(p, s, i, s')
    ensures AccountingInv(p, s')
  {
    hide Pack, Unpack;
    assert LocalInv(p, s.threads[i]);
    StepRefinesCounters(p, s.sh, s.threads[i], s'.sh, s'.threads[i]);
    CountUpdate(Holder, s.threads, i, s'.threads[i]);
    CountUpdate(Queued, s.threads, i, s'.threads[i]);
  }

  lemma StepKeepsWakeup(p: Params, s: State, i: nat, s': State)
    requires p.Valid() && Inv(p, s) && i < |s.threads| && Step(p, s, i, s')
    ensures WakeupInv(p, s')
  {
    hide Pack, Unpack;
    assert LocalInv(p, s.threads[i]);
    StepRefinesCounters(p, s.sh, s.threads[i], s'.sh, s'.threads[i]);
    CountUpdate(Owed, s.threads, i, s'.threads[i]);
    CountUpdate(Woken, s.threads, i, s'.threads[i]);
  }

  /** Every atomic step of every thread keeps the invariant. */
  lemma StepKeepsInv(p: Params, s: State, i: nat, s': State)
    requires p.Valid() && Inv(p, s) && i < |s.threads| && Step(p, s, i, s')
    ensures Inv(p, s')
  {
    assert LocalInv(p, s.threads[i]);
    StepRefinesCounters(p, s.sh, s.threads[i], s'.sh, s'.threads[i]);
    CountHas(Holder, s.threads, i);
    StepKeepsLocal(p, s.sh, s.threads[i], s'.sh, s'.threads[i]);
    StepKeepsAccounting(p, s, i, s');
    StepKeepsWakeup(p, s, i, s');
  }

  /** Safety over whole runs: the invariant holds in every reachable state. */
  lemma {:induction false} RunKeepsInv(p: Params, tr: seq<State>)
    requires p.Valid() && Run(p, tr)
    ensures forall k :: 0 <= k < |tr| ==> Inv(p, tr[k])
  {
    var n := |tr| - 1;
    if n == 0 {
      InitEstablishesInv(p, tr[0]);
    } else {
      RunKeepsInv(p, tr[..n]);
      assert Inv(p, tr[..n][n - 1]);
      assert Follows(p, tr[n - 1], tr[n]);
      var i: nat :| i < |tr[n - 1].threads| && Step(p, tr[n - 1], i, tr[n]);
      StepKeepsInv(p, tr[n - 1], i, tr[n]);
      forall k | 0 <= k < |tr|
        ensures Inv(p, tr[k])
      {
        if k < n {
          assert tr[k] == tr[..n][k];
        }
      }
    }
  }

  // ----- what the invariant means

  /** Accounting in every reachable state: the packed in-flight count is the number
      of callers holding a permit, it is at most the pending count, the pending count
      is at most QueueDepth + MaxConcurrency, and no release ever finds zero. */
  lemma AccountingHolds(p: Params, tr: seq<State>, k: nat)
    requires p.Valid() && Run(p, tr) && k < |tr|
    ensures tr[k].sh.InFlight() == Count(Holder, tr[k].threads) <= tr[k].sh.pending == Count(Queued, tr[k].threads)
    ensures tr[k].sh.pending <= p.queueDepth + p.maxConcurrency
    ensures tr[k].sh.word < HALF * HALF
    ensures Panicked !in tr[k].threads
  {
    RunKeepsInv(p, tr);
    HoldersAreQueued(tr[k].threads);
    assert Inv(p, tr[k]);
    PackRoundTrip(tr[k].sh.Capacity(), tr[k].sh.InFlight());
  }

  /** In-flight passes capacity only when capacity shrinks, and while above it only falls. */
  lemma OvershootOnlyByShrinking(p: Params, tr: seq<State>, k: nat)
    requires p.Valid() && Run(p, tr) && 0 < k < |tr|
    ensures tr[k].sh.InFlight() > tr[k].sh.Capacity() ==>
              && tr[k].sh.InFlight() <= tr[k - 1].sh.InFlight()
              && (tr[k - 1].sh.InFlight() > tr[k - 1].sh.Capacity() || tr[k].sh.Capacity() < tr[k - 1].sh.Capacity())
    ensures tr[k - 1].sh.Full() ==> tr[k].sh.InFlight() <= tr[k - 1].sh.InFlight()
  {
    RunKeepsInv(p, tr);
    assert Inv(p, tr[k - 1]) && Follows(p, tr[k - 1], tr[k]);
    var s, s' := tr[k - 1], tr[k];
    var i: nat :| i < |s.threads| && Step(p, s, i, s');
    assert LocalInv(p, s.threads[i]);
    StepRefinesCounters(p, s.sh, s.threads[i], s'.sh, s'.threads[i]);
  }

  /** A thread that will hand on or use a wakeup without waiting for anyone. */
  predicate CarriesWakeup(pc: Pc) {
    Weight(Owed, pc) > 0 || Weight(Woken, pc) > 0
  }

  /** Who that is: a thread that owes a send after a release or a rise in capacity, or one woken
      from its wait that has not used the wakeup. */
  lemma CarriersExactly(pc: Pc)
    ensures CarriesWakeup(pc) <==>
              || pc.ReleaseSend?
              || (pc.UpdateSend? && pc.left > 0)
              || ((pc.AcquireLoad? || pc.AcquireCas?) && pc.woken)
  {
  }

  /** No lost wakeup: spare capacity always has a token, or a thread still carrying one. */
  lemma NoLostWakeup(p: Params, tr: seq<State>, k: nat)
    requires p.Valid() && Run(p, tr) && k < |tr| && !tr[k].sh.Full()
    ensures tr[k].sh.tokens > 0 || exists j :: 0 <= j < |tr[k].threads| && CarriesWakeup(tr[k].threads[j])
  {
    RunKeepsInv(p, tr);
    var s := tr[k];
    assert Inv(p, s);
    if Count(Owed, s.threads) > 0 {
      var j := CountWitness(Owed, s.threads);
      assert CarriesWakeup(s.threads[j]);
    } else if Count(Woken, s.threads) > 0 {
      var j := CountWitness(Woken, s.threads);
      assert CarriesWakeup(s.threads[j]);
    }
  }

  /** Once nobody is between two atomic steps, every free permit has its own token. */
  lemma QuiescentTokensCoverFree(p: Params, tr: seq<State>, k: nat)
    requires p.Valid() && Run(p, tr) && k < |tr|
    requires forall j :: 0 <= j < |tr[k].threads| ==>
               tr[k].threads[j].Idle? || tr[k].threads[j].Holding? || tr[k].threads[j].Waiting?
    ensures tr[k].sh.Capacity() - tr[k].sh.InFlight() <= tr[k].sh.tokens
  {
    RunKeepsInv(p, tr);
    var s := tr[k];
    assert Inv(p, s);
    if Count(Owed, s.threads) > 0 {
      var j := CountWitness(Owed, s.threads);
      assert false;
    }
    if Count(Woken, s.threads) > 0 {
      var j := CountWitness(Woken, s.threads);
      assert false;
    }
  }

  ghost predicate Path(p: Params, path: seq<State>) {
    |path| > 0 && forall k :: 0 < k < |path| ==> Follows(p, path[k - 1], path[k])
  }

  lemma PathJoin(p: Params, a: seq<State>, b: seq<State>)
    requires Path(p, a) && Path(p, b) && a[|a| - 1] == b[0]
    ensures Path(p, a + b[1..])
  {
    var c := a + b[1..];
    forall k | 0 < k < |c|
      ensures Follows(p, c[k - 1], c[k])
    {
      if k >= |a| {
        assert c[k] == b[k - |a| + 1] && c[k - 1] == b[k - |a|];
      }
    }
  }

  /** Along the path only threads that were waiting or carrying a wakeup have moved. */
  ghost predicate OnlyWakeups(s: State, path: seq<State>) {
    forall k :: 0 <= k < |path| ==>
      && |path[k].threads| == |s.threads|
      && forall j :: 0 <= j < |s.threads| && !s.threads[j].Waiting? && !CarriesWakeup(s.threads[j]) ==>
           path[k].threads[j] == s.threads[j]
  }

  function Moved(s: State, i: nat, sh: Shared, pc: Pc): State
    requires i < |s.threads|
  {
    State(sh, s.threads[i := pc])
  }

  /** A thread about to load a semaphore with room can hold a permit two steps later. */
  lemma LoadLeadsToPermit(p: Params, s: State, i: nat) returns (path: seq<State>)
    requires p.Valid() && PackedInv(p, s.sh)
    requires i < |s.threads| && s.threads[i].AcquireLoad? && !s.sh.Full()
    ensures Path(p, path) && path[0] == s && |path| == 3
    ensures |path[1].threads| == |s.threads| && path[1].threads == s.threads[i := path[1].threads[i]]
    ensures path[2].threads == s.threads[i := Holding] && path[2].sh.InFlight() == s.sh.InFlight() + 1
  {
    var s1 := Moved(s, i, s.sh, AcquireCas(s.sh.word, s.threads[i].woken));
    var s2 := Moved(s1, i, s.sh.(word := Pack(s.sh.Capacity(), s.sh.InFlight() + 1)), Holding);
    PackRoundTrip(s.sh.Capacity(), s.sh.InFlight() + 1);
    assert Step(p, s, i, s1) && Step(p, s1, i, s2);
    assert Follows(p, s, s1) && Follows(p, s1, s2);
    path := [s, s1, s2];
  }

  /** A token, a waiter and a free permit: the waiter can take the permit. */
  lemma TokenLeadsToPermit(p: Params, s: State, w: nat) returns (path: seq<State>)
    requires p.Valid() && PackedInv(p, s.sh)
    requires w < |s.threads| && s.threads[w].Waiting? && !s.sh.Full() && s.sh.tokens > 0
    ensures Path(p, path) && path[0] == s && |path| == 4 && OnlyWakeups(s, path)
    ensures path[3].sh.InFlight() == s.sh.InFlight() + 1
  {
    var s1 := Moved(s, w, s.sh.(tokens := s.sh.tokens - 1), AcquireLoad(true));
    assert Step(p, s, w, s1);
    assert Follows(p, s, s1);
    var rest := LoadLeadsToPermit(p, s1, w);
    PathJoin(p, [s, s1], rest);
    path := [s, s1] + rest[1..];
  }

  /** Dropped tokens are harmless: whenever a waiter is parked and a permit is free, at
      most five further steps, all by threads already waiting or already carrying a
      wakeup, hand the permit out.  No new arrival or release is needed. */
  lemma ParkedWaiterIsServed(p: Params, s: State, w: nat) returns (path: seq<State>)
    requires p.Valid() && Inv(p, s)
    requires w < |s.threads| && s.threads[w].Waiting? && !s.sh.Full()
    ensures Path(p, path) && path[0] == s && |path| <= 6 && OnlyWakeups(s, path)
    ensures path[|path| - 1].sh.InFlight() == s.sh.InFlight() + 1
  {
    hide Pack, Unpack;
    if s.sh.tokens > 0 {
      path := TokenLeadsToPermit(p, s, w);
    } else if Count(Owed, s.threads) > 0 {
      var j := CountWitness(Owed, s.threads);
      var s1 := Moved(s, j, s.sh.Sent(p),
                      if s.threads[j].ReleaseSend? then Leaving else UpdateSend(s.threads[j].left - 1));
      assert Step(p, s, j, s1);
      assert Follows(p, s, s1);
      var rest := TokenLeadsToPermit(p, s1, w);
      PathJoin(p, [s, s1], rest);
      path := [s, s1] + rest[1..];
    } else {
      var j := CountWitness(Woken, s.threads);
      path := WokenLeadsToPermit(p, s, j);
    }
  }

  lemma WokenLeadsToPermit(p: Params, s: State, j: nat) returns (path: seq<State>)
    requires p.Valid() && Inv(p, s)
    requires j < |s.threads| && Weight(Woken, s.threads[j]) > 0 && !s.sh.Full()
    ensures Path(p, path) && path[0] == s && |path| <= 4 && OnlyWakeups(s, path)
    ensures path[|path| - 1].sh.InFlight() == s.sh.InFlight() + 1
  {
    hide Count, Pack, Unpack;
    if s.threads[j].AcquireLoad? {
      path := LoadLeadsToPermit(p, s, j);
    } else if s.threads[j].seen == s.sh.word {
      var s1 := Moved(s, j, s.sh.(word := Pack(s.sh.Capacity(), s.sh.InFlight() + 1)), Holding);
      PackRoundTrip(s.sh.Capacity(), s.sh.InFlight() + 1);
      assert Step(p, s, j, s1);
      assert Follows(p, s, s1);
      path := [s, s1];
    } else {
      var s1 := Moved(s, j, s.sh, AcquireLoad(s.threads[j].woken));
      assert Step(p, s, j, s1);
      assert Follows(p, s, s1);
      var rest := LoadLeadsToPermit(p, s1, j);
      PathJoin(p, [s, s1], rest);
      path := [s, s1] + rest[1..];
    }
  }

  // ----- who is let in

  /** A new breaker has its initial capacity and nobody in it. */
  lemma StartsEmpty(p: Params, tr: seq<State>)
    requires p.Valid() && Run(p, tr)
    ensures tr[0].sh.Capacity() == p.initialCapacity && tr[0].sh.InFlight() == tr[0].sh.pending == 0
  {
    PackRoundTrip(p.initialCapacity, 0);
  }

  /** A caller is refused a place in the queue exactly when QueueDepth + MaxConcurrency
      callers are in. */
  lemma RefusedExactlyWhenFull(p: Params, tr: seq<State>, k: nat, i: nat, s': State)
    requires p.Valid() && Run(p, tr) && k < |tr| && i < |tr[k].threads| && tr[k].threads[i].PendingLoad?
    requires Step(p, tr[k], i, s')
    ensures s'.threads[i].Idle? <==> Count(Queued, tr[k].threads) == p.queueDepth + p.maxConcurrency
  {
    RunKeepsInv(p, tr);
    assert Inv(p, tr[k]);
  }

  /** While fewer are in, a caller that is not raced is in two steps later. */
  lemma RoomLeadsToQueue(p: Params, tr: seq<State>, k: nat, i: nat) returns (path: seq<State>)
    requires p.Valid() && Run(p, tr) && k < |tr| && i < |tr[k].threads| && tr[k].threads[i].PendingLoad?
    requires Count(Queued, tr[k].threads) < p.queueDepth + p.maxConcurrency
    ensures Path(p, path) && |path| == 3 && path[0] == tr[k]
    ensures path[2].sh == tr[k].sh.(pending := tr[k].sh.pending + 1)
    ensures path[2].threads == tr[k].threads[i := if tr[k].threads[i].call.Maybe? then AcquireLoad(false) else TryLoad]
  {
    RunKeepsInv(p, tr);
    var s := tr[k];
    assert Inv(p, s);
    var call := s.threads[i].call;
    var s1 := Moved(s, i, s.sh, PendingCas(call, s.sh.pending));
    var s2 := Moved(s1, i, s.sh.(pending := s.sh.pending + 1), if call.Reserve? then TryLoad else AcquireLoad(false));
    assert Step(p, s, i, s1) && Step(p, s1, i, s2);
    assert Follows(p, s, s1) && Follows(p, s1, s2);
    path := [s, s1, s2];
  }

  /** Reserve gives up, and Maybe waits, exactly when the permits are taken. */
  lemma TurnedAwayExactlyWhenTaken(p: Params, s: State, i: nat, s': State)
    requires i < |s.threads| && Step(p, s, i, s')
    ensures s.threads[i].TryLoad? ==> (s'.threads[i] == Leaving <==> s.sh.InFlight() >= s.sh.Capacity())
    ensures s.threads[i].AcquireLoad? ==> (s'.threads[i] == Waiting <==> s.sh.InFlight() >= s.sh.Capacity())
  {
  }

  /** With a permit free a Reserve that is not raced holds it two steps later. */
  lemma ReserveLeadsToPermit(p: Params, s: State, i: nat) returns (path: seq<State>)
    requires p.Valid() && PackedInv(p, s.sh) && i < |s.threads| && s.threads[i].TryLoad?
    requires s.sh.InFlight() < s.sh.Capacity()
    ensures Path(p, path) && path[0] == s && |path| == 3
    ensures path[2].threads == s.threads[i := Holding] && path[2].sh.InFlight() == s.sh.InFlight() + 1
  {
    var s1 := Moved(s, i, s.sh, TryCas(s.sh.word));
    var s2 := Moved(s1, i, s.sh.(word := Pack(s.sh.Capacity(), s.sh.InFlight() + 1)), Holding);
    PackRoundTrip(s.sh.Capacity(), s.sh.InFlight() + 1);
    assert Step(p, s, i, s1) && Step(p, s1, i, s2);
    assert Follows(p, s, s1) && Follows(p, s1, s2);
    path := [s, s1, s2];
  }

  /** A holder that is not raced gives back permit and place, and leaves a token when that
      frees a permit, unless the channel is full. */
  lemma ReleaseGivesBack(p: Params, s: State, i: nat) returns (path: seq<State>)
    requires p.Valid() && Inv(p, s) && i < |s.threads| && s.threads[i].Holding?
    ensures Path(p, path) && path[0] == s && |path| <= 6
    ensures var t := path[|path| - 1];
      && t.threads == s.threads[i := Idle] && t.sh.Capacity() == s.sh.Capacity()
      && t.sh.InFlight() == s.sh.InFlight() - 1 && t.sh.pending == s.sh.pending - 1
      && t.sh.tokens ==
           s.sh.tokens + (if s.sh.InFlight() <= s.sh.Capacity() && s.sh.tokens < p.maxConcurrency then 1 else 0)
  {
    hide Pack, Unpack, Count;
    CountHas(Holder, s.threads, i);
    CountHas(Queued, s.threads, i);
    var cap, inn := s.sh.Capacity(), s.sh.InFlight();
    PackRoundTrip(cap, inn - 1);
    var s1 := Moved(s, i, s.sh, ReleaseLoad);
    var s2 := Moved(s1, i, s.sh, ReleaseCas(s.sh.word));
    var s3 := Moved(s2, i, s.sh.(word := Pack(cap, inn - 1)), if inn - 1 < cap then ReleaseSend else Leaving);
    assert Step(p, s, i, s1) && Step(p, s1, i, s2) && Step(p, s2, i, s3);
    assert Follows(p, s, s1) && Follows(p, s1, s2) && Follows(p, s2, s3);
    var rest := LeaveLeadsToIdle(p, s3, i);
    PathJoin(p, [s, s1, s2, s3], rest);
    path := [s, s1, s2, s3] + rest[1..];
  }

  lemma LeaveLeadsToIdle(p: Params, s: State, i: nat) returns (path: seq<State>)
    requires i < |s.threads| && (s.threads[i].ReleaseSend? || s.threads[i].Leaving?) && s.sh.pending > 0
    ensures Path(p, path) && path[0] == s && |path| <= 3
    ensures path[|path| - 1].threads == s.threads[i := Idle]
    ensures var sent := if s.threads[i].ReleaseSend? then s.sh.Sent(p) else s.sh;
      path[|path| - 1].sh == sent.(pending := s.sh.pending - 1)
  {
    hide Pack, Unpack, Count;
    var sent := if s.threads[i].ReleaseSend? then s.sh.Sent(p) else s.sh;
    if s.threads[i].ReleaseSend? {
      var s1 := Moved(s, i, sent, Leaving);
      var s2 := Moved(s1, i, sent.(pending := sent.pending - 1), Idle);
      assert Step(p, s, i, s1) && Step(p, s1, i, s2);
      assert Follows(p, s, s1) && Follows(p, s1, s2);
      path := [s, s1, s2];
    } else {
      var s1 := Moved(s, i, s.sh.(pending := s.sh.pending - 1), Idle);
      assert Step(p, s, i, s1);
      assert Follows(p, s, s1);
      path := [s, s1];
    }
  }

  /** An update that is not raced sets the capacity to what was asked for. */
  lemma UpdateLeadsToCapacity(p: Params, s: State, i: nat) returns (path: seq<State>)
    requires p.Valid() && Inv(p, s) && i < |s.threads| && s.threads[i].UpdateLoad?
    ensures Path(p, path) && path[0] == s && |path| <= 3
    ensures path[|path| - 1].sh.Capacity() == s.threads[i].size && path[|path| - 1].sh.InFlight() == s.sh.InFlight()
  {
    hide Pack, Unpack, Count;
    var size, cap, inn := s.threads[i].size, s.sh.Capacity(), s.sh.InFlight();
    assert LocalInv(p, s.threads[i]);
    if size == cap {
      path := [s];
    } else {
      PackRoundTrip(size, inn);
      var s1 := Moved(s, i, s.sh, UpdateCas(size, s.sh.word));
      var s2 := Moved(s1, i, s.sh.(word := Pack(size, inn)), if size > cap then UpdateSend(size - cap) else Idle);
      assert Step(p, s, i, s1) && Step(p, s1, i, s2);
      assert Follows(p, s, s1) && Follows(p, s1, s2);
      path := [s, s1, s2];
    }
  }
}
