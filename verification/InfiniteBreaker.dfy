/** The breaker for unlimited container concurrency: requests pass while the revision
    has capacity, else wait on a channel that the next scale-up closes.  Any number of
    threads call Maybe and UpdateConcurrency; the lock guards the current channel. */
module InfiniteBreaker {

  datatype Pc =
    | Idle
    | Check                                  // Maybe: about to read the concurrency
    | WantChannel                            // Maybe: saw zero; about to read the channel under RLock
    | Select(ch: nat)                        // Maybe: waits for ch to close or its context to end
    | Running                                // the thunk runs
    | WantLock(cc: nat)                      // UpdateConcurrency: about to Lock
    | Locked(rcc: nat)                       // holds the lock, about to swap the concurrency
    | Swapped(was: nat, rcc: nat)            // holds the lock, about to act on the channel
    | Unlocking                              // holds the lock, about to release it
    | Panicked                               // closed a closed channel

  /** Every channel ever made, by whether it is closed; the last one is `broadcast`. */
  datatype State = State(concurrency: nat, closed: seq<bool>, threads: seq<Pc>) {
    function Broadcast(): int { |closed| - 1 }
  }

  predicate HoldsLock(pc: Pc) { pc.Locked? || pc.Swapped? || pc.Unlocking? }

  predicate LockIsFree(s: State) {
    forall i :: 0 <= i < |s.threads| ==> !HoldsLock(s.threads[i])
  }

  function ZeroOrOne(x: nat): nat { if x == 0 then 0 else 1 }

  predicate Init(s: State) {
    s.concurrency == 0 && s.closed == [false] && forall i :: 0 <= i < |s.threads| ==> s.threads[i] == Idle
  }

  predicate ThreadStep(s: State, pc: Pc, s': State, pc': Pc) {
    match pc
    case Idle => Same(s, s') && (pc' == Check || pc'.WantLock?)
    case Check => Same(s, s') && pc' == if s.concurrency > 0 then Running else WantChannel
    case WantChannel => LockIsFree(s) && Same(s, s') && s.closed != [] && pc' == Select(s.Broadcast())
    case Select(ch) => Same(s, s') && (pc' == Idle || (ch < |s.closed| && s.closed[ch] && pc' == Running))
    case Running => Same(s, s') && pc' == Idle
    case WantLock(cc) => LockIsFree(s) && Same(s, s') && pc' == Locked(ZeroOrOne(cc))
    case Locked(rcc) => s'.concurrency == rcc && s'.closed == s.closed && pc' == Swapped(s.concurrency, rcc)
    case Swapped(was, rcc) =>
      s'.concurrency == s.concurrency &&
      if was == rcc then s'.closed == s.closed && pc' == Unlocking
      else if rcc == 0 then s'.closed == s.closed + [false] && pc' == Unlocking
      else if s.closed == [] || s.closed[s.Broadcast()] then s'.closed == s.closed && pc' == Panicked
      else s'.closed == s.closed[s.Broadcast() := true] && pc' == Unlocking
    case Unlocking => Same(s, s') && pc' == Idle
    case Panicked => false
  }

  predicate Same(s: State, s': State) { s'.concurrency == s.concurrency && s'.closed == s.closed }

  predicate Step(s: State, i: nat, s': State)
    requires i < |s.threads|
  {
    && |s'.threads| == |s.threads| && s'.threads == s.threads[i := s'.threads[i]]
    && ThreadStep(s, s.threads[i], s', s'.threads[i])
  }

  ghost predicate Follows(s: State, s': State) {
    exists i: nat :: i < |s.threads| && Step(s, i, s')
  }

  ghost predicate Run(tr: seq<State>) {
    |tr| > 0 && Init(tr[0]) && forall j :: 0 < j < |tr| ==> Follows(tr[j - 1], tr[j])
  }

  /** The concurrency the current channel stands for: the swapped-out one while a
      thread is between swapping and acting. */
  ghost predicate ChannelInv(s: State) {
    && s.closed != [] && s.concurrency <= 1
    && (forall k :: 0 <= k < s.Broadcast() ==> s.closed[k])
    && (forall i :: 0 <= i < |s.threads| && s.threads[i].Swapped? ==>
          && s.threads[i].rcc == s.concurrency && s.threads[i].was <= 1
          && (s.closed[s.Broadcast()] <==> s.threads[i].was == 1))
    && ((forall i :: 0 <= i < |s.threads| ==> !s.threads[i].Swapped?) ==>
          (s.closed[s.Broadcast()] <==> s.concurrency == 1))
  }

  predicate LockInv(s: State) {
    forall i, j :: 0 <= i < j < |s.threads| ==> !(HoldsLock(s.threads[i]) && HoldsLock(s.threads[j]))
  }

  predicate LocalInv(s: State) {
    forall i :: 0 <= i < |s.threads| ==>
      && !s.threads[i].Panicked?
      && (s.threads[i].Select? ==> s.threads[i].ch < |s.closed|)
      && (s.threads[i].Locked? ==> s.threads[i].rcc <= 1)
  }

  ghost predicate Inv(s: State) { ChannelInv(s) && LockInv(s) && LocalInv(s) }

  lemma StepKeepsInv(s: State, i: nat, s': State)
    requires Inv(s) && i < |s.threads| && Step(s, i, s')
    ensures Inv(s')
  {
    assert LockInv(s');
    if s.threads[i].Locked? {
      assert forall j :: 0 <= j < |s.threads| && j != i ==> !HoldsLock(s.threads[j]);
      assert s'.threads[i].Swapped?;
    } else if s.threads[i].Swapped? {
      assert forall j :: 0 <= j < |s.threads| && j != i ==> !HoldsLock(s.threads[j]);
    } else {
      assert forall j :: 0 <= j < |s.threads| ==> (s'.threads[j].Swapped? <==> s.threads[j].Swapped?);
    }
  }

  lemma {:induction false} RunKeepsInv(tr: seq<State>)
    requires Run(tr)
    ensures forall j :: 0 <= j < |tr| ==> Inv(tr[j])
  {
    var n := |tr| - 1;
    if n > 0 {
      RunKeepsInv(tr[..n]);
      assert Inv(tr[..n][n - 1]);
      assert Follows(tr[n - 1], tr[n]);
      var i: nat :| i < |tr[n - 1].threads| && Step(tr[n - 1], i, tr[n]);
      StepKeepsInv(tr[n - 1], i, tr[n]);
      forall j | 0 <= j < |tr|
        ensures Inv(tr[j])
      {
        if j < n {
          assert tr[j] == tr[..n][j];
        }
      }
    }
  }

  /** In every interleaving: with the lock free the current channel is closed exactly
      when the concurrency is 1; superseded channels are closed and none is closed twice;
      every waiter waits on a closed channel or on the one the next scale-up closes. */
  lemma BroadcastReachesEveryWaiter(tr: seq<State>, j: nat)
    requires Run(tr) && j < |tr|
    ensures tr[j].closed != []
    ensures LockIsFree(tr[j]) ==> (tr[j].concurrency == 1 <==> tr[j].closed[tr[j].Broadcast()])
    ensures forall k :: 0 <= k < tr[j].Broadcast() ==> tr[j].closed[k]
    ensures Panicked !in tr[j].threads
    ensures forall i :: 0 <= i < |tr[j].threads| && tr[j].threads[i].Select? ==>
              && tr[j].threads[i].ch < |tr[j].closed|
              && (tr[j].closed[tr[j].threads[i].ch] || tr[j].threads[i].ch == tr[j].Broadcast())
  {
    RunKeepsInv(tr);
    assert Inv(tr[j]);
  }

  // ----- who runs

  /** A request runs at once exactly when there is capacity, and a waiting one only once its
      channel is closed. */
  lemma RunsOnlyWithCapacity(tr: seq<State>, j: nat, i: nat, s': State)
    requires Run(tr) && j < |tr| && i < |tr[j].threads| && Step(tr[j], i, s')
    ensures tr[j].threads[i].Check? ==> (s'.threads[i].Running? <==> tr[j].concurrency == 1)
    ensures s'.threads[i].Running? ==>
              || (tr[j].threads[i].Check? && tr[j].concurrency == 1)
              || (tr[j].threads[i].Select? && tr[j].threads[i].ch < |tr[j].closed| && tr[j].closed[tr[j].threads[i].ch])
  {
    RunKeepsInv(tr);
    assert Inv(tr[j]);
  }

  ghost predicate Path(path: seq<State>) {
    |path| > 0 && forall k :: 0 < k < |path| ==> Follows(path[k - 1], path[k])
  }

  function Moved(s: State, i: nat, concurrency: nat, closed: seq<bool>, pc: Pc): State
    requires i < |s.threads|
  {
    State(concurrency, closed, s.threads[i := pc])
  }

  /** An update that finds the lock free sets the concurrency to 0 for 0 and to 1 for anything
      else, and leaves the current channel closed exactly in the second case. */
  lemma UpdateLeadsToConcurrency(tr: seq<State>, j: nat, i: nat) returns (path: seq<State>)
    requires Run(tr) && j < |tr| && i < |tr[j].threads| && tr[j].threads[i].WantLock? && LockIsFree(tr[j])
    ensures Path(path) && path[0] == tr[j] && |path| == 4
    ensures var t, cc := path[3], tr[j].threads[i].cc;
      && t.threads == tr[j].threads[i := Unlocking]
      && t.concurrency == (if cc == 0 then 0 else 1)
      && t.closed != [] && (t.closed[|t.closed| - 1] <==> cc != 0)
      && |t.closed| >= |tr[j].closed|
      && forall k :: 0 <= k < |tr[j].closed| && (tr[j].closed[k] || cc != 0) ==> t.closed[k]
  {
    RunKeepsInv(tr);
    var s := tr[j];
    assert Inv(s);
    var rcc := if s.threads[i].cc == 0 then 0 else 1;
    var closed := if s.concurrency == rcc then s.closed
                  else if rcc == 0 then s.closed + [false]
                  else s.closed[s.Broadcast() := true];
    var s1 := Moved(s, i, s.concurrency, s.closed, Locked(rcc));
    var s2 := Moved(s1, i, rcc, s.closed, Swapped(s.concurrency, rcc));
    var s3 := Moved(s2, i, rcc, closed, Unlocking);
    assert Step(s, i, s1) && Step(s1, i, s2) && Step(s2, i, s3);
    assert Follows(s, s1) && Follows(s1, s2) && Follows(s2, s3);
    path := [s, s1, s2, s3];
  }

  /** A scale-up lets every waiter run. */
  lemma ScaleUpReleasesWaiter(tr: seq<State>, j: nat, i: nat, w: nat) returns (path: seq<State>)
    requires Run(tr) && j < |tr| && i < |tr[j].threads| && tr[j].threads[i].WantLock? && LockIsFree(tr[j])
    requires tr[j].threads[i].cc != 0 && w < |tr[j].threads| && tr[j].threads[w].Select?
    ensures Path(path) && path[0] == tr[j] && |path| == 5 && |path[4].threads| == |tr[j].threads|
    ensures path[4].threads[w] == Running
  {
    RunKeepsInv(tr);
    assert Inv(tr[j]);
    var update := UpdateLeadsToConcurrency(tr, j, i);
    var t := update[3];
    assert t.threads[w] == tr[j].threads[w];
    var last := Moved(t, w, t.concurrency, t.closed, Running);
    assert Step(t, w, last);
    assert Follows(t, last);
    path := update + [last];
  }
}
