/** The per-revision throttler: it turns the watcher's reports and the activator
    endpoint list into a set of pods to route to and a breaker capacity. */
module Throttler {
  import opened Common
  import opened Strs
  import opened Slicing

  /** A podTracker; id stands for the object, which owns the pod's breaker. */
  datatype Tracker = Tracker(dest: string, id: nat)

  function DestsOf(ts: seq<Tracker>): seq<string> {
    seq(|ts|, i requires 0 <= i < |ts| => ts[i].dest)
  }

  /** Sorted by address, one tracker per address, every object made by this throttler. */
  predicate TrackersOk(ts: seq<Tracker>, created: nat) {
    && StrictlySorted(DestsOf(ts))
    && (forall i :: 0 <= i < |ts| ==> ts[i].id < created)
    && (forall i, j :: 0 <= i < j < |ts| ==> ts[i].id != ts[j].id)
  }

  /** The tracker kept for an address, if there is one. */
  predicate Reuses(before: seq<Tracker>, created: nat, t: Tracker) {
    if exists i :: 0 <= i < |before| && before[i].dest == t.dest then t in before else t.id >= created
  }

  class RevisionThrottler {
    const containerConcurrency: nat
    var numActivators: nat
    var activatorIndex: int
    var backendCount: nat
    var podTrackers: seq<Tracker>
    var assignedTrackers: seq<Tracker>
    var clusterIPTracker: Option<string>
    var breakerCapacity: int
    var created: nat

    /** Index and count of activators fit, trackers are in order, and the routing set and
        the capacity are those of the current trackers and activators; pods in use are
        the backends counted. */
    ghost predicate Valid()
      reads this
    {
      && -1 <= activatorIndex && (activatorIndex >= 0 ==> activatorIndex < numActivators)
      && TrackersOk(podTrackers, created)
      && (clusterIPTracker.None? ==> assignedTrackers == Assignment() && backendCount == |podTrackers|)
      && breakerCapacity == CalculateCapacity(containerConcurrency, backendCount,
                              if clusterIPTracker.None? then |assignedTrackers| else 0, numActivators)
    }

    /** This activator's share of the pods. */
    function Assignment(): seq<Tracker>
      reads this
      requires -1 <= activatorIndex && (activatorIndex >= 0 ==> activatorIndex < numActivators)
    {
      if containerConcurrency > 0 then AssignSlice(podTrackers, activatorIndex, numActivators) else podTrackers
    }

    constructor (containerConcurrency: nat)
      ensures Valid() && this.containerConcurrency == containerConcurrency
      ensures podTrackers == [] && clusterIPTracker == None && activatorIndex == -1
    {
      this.containerConcurrency := containerConcurrency;
      numActivators, activatorIndex, backendCount := 0, -1, 0;
      podTrackers, assignedTrackers, clusterIPTracker := [], [], None;
      breakerCapacity, created := 0, 0;
    }

    /** updateCapacity: reassigns pods (unless the cluster IP is used) and sets the breaker. */
    method UpdateCapacity(backends: nat)
      requires -1 <= activatorIndex && (activatorIndex >= 0 ==> activatorIndex < numActivators)
      requires TrackersOk(podTrackers, created) && (clusterIPTracker.None? ==> backends == |podTrackers|)
      modifies this`assignedTrackers, this`backendCount, this`breakerCapacity
      ensures Valid() && backendCount == backends
    {
      var numTrackers := 0;
      if clusterIPTracker.None? {
        var mine := podTrackers;
        if containerConcurrency > 0 {
          mine := AssignSlice(podTrackers, activatorIndex, numActivators);
        }
        assignedTrackers := mine;
        numTrackers := |mine|;
      }
      breakerCapacity := CalculateCapacity(containerConcurrency, backends, numTrackers, numActivators);
      backendCount := backends;
    }

    /** handleUpdate for pod addresses: known pods keep their tracker object, so their
        in-flight requests stay counted; new ones get a fresh one. */
    method HandlePods(dests: set<string>)
      requires Valid()
      modifies this
      ensures Valid() && clusterIPTracker == None
      ensures DestsOf(podTrackers) == Sorted(dests)
      ensures forall i :: 0 <= i < |podTrackers| ==> Reuses(old(podTrackers), old(created), podTrackers[i])
      ensures backendCount == |dests| && numActivators == old(numActivators) && activatorIndex == old(activatorIndex)
    {
      hide Reuses, TrackersOk, AssignSlice, CalculateCapacity, Sorted, StrictlySorted;
      var names := Sorted(dests);
      var trackers, made := BuildTrackers(names);
      assert DestsOf(trackers) == names;
      podTrackers, clusterIPTracker, created := trackers, None, made;
      // With no address to target the throttler is updated as for zero backends.
      UpdateCapacity(if |trackers| > 0 then |dests| else 0);
    }

    method BuildTrackers(names: seq<string>) returns (trackers: seq<Tracker>, made: nat)
      requires TrackersOk(podTrackers, created) && StrictlySorted(names)
      ensures DestsOf(trackers) == names && made >= created && TrackersOk(trackers, made)
      ensures forall i :: 0 <= i < |trackers| ==> Reuses(podTrackers, created, trackers[i])
    {
      trackers, made := [], created;
      for k := 0 to |names|
        invariant made >= created && DestsOf(trackers) == names[..k]
        invariant forall i :: 0 <= i < |trackers| ==> trackers[i].id < made && Reuses(podTrackers, created, trackers[i])
        invariant forall i, j :: 0 <= i < j < |trackers| ==> trackers[i].id != trackers[j].id
      {
        var at := FindTracker(names[k]);
        var t := if at < 0 then Tracker(names[k], made) else podTrackers[at];
        NewIdDiffers(podTrackers, created, trackers, names, k, t);
        made := if at < 0 then made + 1 else made;
        trackers := trackers + [t];
        assert names[..k + 1] == names[..k] + [names[k]];
      }
      assert names[..|names|] == names;
    }

    /** The lookup in trackersMap. */
    method FindTracker(dest: string) returns (at: int)
      ensures at < 0 ==> forall i :: 0 <= i < |podTrackers| ==> podTrackers[i].dest != dest
      ensures at >= 0 ==> at < |podTrackers| && podTrackers[at].dest == dest
    {
      for i := 0 to |podTrackers|
        invariant forall j :: 0 <= j < i ==> podTrackers[j].dest != dest
      {
        if podTrackers[i].dest == dest {
          return i;
        }
      }
      return -1;
    }

    /** handleUpdate for a healthy cluster IP. */
    method HandleClusterIP(dest: string, dests: set<string>)
      requires Valid()
      modifies this
      ensures Valid() && clusterIPTracker == Some(dest) && podTrackers == [] && backendCount == |dests|
      ensures assignedTrackers == old(assignedTrackers)
      ensures numActivators == old(numActivators) && activatorIndex == old(activatorIndex)
    {
      podTrackers, clusterIPTracker := [], Some(dest);
      var numTrackers := 0;
      breakerCapacity := CalculateCapacity(containerConcurrency, |dests|, numTrackers, numActivators);
      backendCount := |dests|;
    }

    /** handlePubEpsUpdate: an activator that is in the path learns its index among the
        sorted addresses and rebalances; one that is not changes nothing. */
    method HandlePublicEndpoints(eps: set<string>, selfIP: string)
      requires Valid()
      modifies this
      ensures Valid() && podTrackers == old(podTrackers) && clusterIPTracker == old(clusterIPTracker)
      ensures backendCount == old(backendCount)
      ensures selfIP in eps ==>
                && numActivators == |eps| && 0 <= activatorIndex < |Sorted(eps)|
                && Sorted(eps)[activatorIndex] == selfIP
      ensures selfIP !in eps ==>
                && numActivators == old(numActivators) && activatorIndex == old(activatorIndex)
                && assignedTrackers == old(assignedTrackers) && breakerCapacity == old(breakerCapacity)
    {
      if selfIP !in eps {
        return;
      }
      var epsL := Sorted(eps);
      InferIndexIsPosition(epsL, selfIP);
      assert selfIP in Elems(epsL);
      var newNA, newAI := |epsL|, InferIndex(epsL, selfIP);
      if numActivators == newNA && activatorIndex == newAI {
        return;
      }
      numActivators, activatorIndex := newNA, newAI;
      UpdateCapacity(backendCount);
    }
  }

  // ----- throttlers of one revision in several activators

  /** The breaker never gets a capacity beyond the slots of its channel. */
  lemma CapacityFits(rt: RevisionThrottler)
    requires rt.Valid()
    ensures 0 <= rt.breakerCapacity <= REVISION_MAX_CONCURRENCY
  {
    var mine := if rt.clusterIPTracker.None? then |rt.assignedTrackers| else 0;
    if rt.podTrackers == [] && rt.clusterIPTracker.None? {
      assert rt.assignedTrackers == [];
    }
    CapacityFitsBreaker(rt.containerConcurrency, rt.backendCount, mine, rt.numActivators);
  }

  /** Without a concurrency limit, and without a place among the activators, a throttler routes
      to every pod; without a limit its breaker is fully open while there is one. */
  lemma UnlimitedRoutesToAll(rt: RevisionThrottler)
    requires rt.Valid() && rt.clusterIPTracker.None?
    ensures rt.containerConcurrency == 0 || rt.activatorIndex == -1 ==> rt.assignedTrackers == rt.podTrackers
    ensures rt.containerConcurrency == 0 ==> rt.breakerCapacity == if |rt.podTrackers| > 0 then 2147483647 else 0
  {
    UnlimitedCapacity(rt.backendCount, |rt.assignedTrackers|, rt.numActivators);
  }

  /** Slicing looks at positions only. */
  lemma SliceOfDests(ts: seq<Tracker>, selfIndex: int, n: nat)
    requires -1 <= selfIndex && (selfIndex >= 0 ==> selfIndex < n)
    ensures DestsOf(AssignSlice(ts, selfIndex, n)) == AssignSlice(DestsOf(ts), selfIndex, n)
  {
    hide PickIndices, DestsOf;
    var lt := |ts|;
    DestsOfPart(ts, 0, lt);
    if selfIndex != -1 && lt > 1 && n != 1 {
      var (begin, end, remnants) := PickIndices(lt, selfIndex, n);
      PickedInRange(lt, selfIndex, n);
      DestsOfPart(ts, begin, end);
      if remnants > 0 && remnants > selfIndex {
        var last := ts[lt - remnants..][selfIndex];
        DestsOfMore(ts[begin..end], last);
        DestAt(ts, lt - remnants, selfIndex);
      }
    }
  }

  lemma DestsOfPart(ts: seq<Tracker>, begin: nat, end: nat)
    requires begin <= end <= |ts|
    ensures |DestsOf(ts)| == |ts| && DestsOf(ts[begin..end]) == DestsOf(ts)[begin..end]
  {
  }

  lemma DestsOfMore(ts: seq<Tracker>, t: Tracker)
    ensures DestsOf(ts + [t]) == DestsOf(ts) + [t.dest]
  {
  }

  lemma DestAt(ts: seq<Tracker>, from: nat, i: nat)
    requires from + i < |ts|
    ensures |DestsOf(ts)| == |ts| && DestsOf(ts)[from..][i] == ts[from..][i].dest
  {
  }

  /** The throttler has processed the endpoint list and the pods, as the activator at ip. */
  ghost predicate InStep(rt: RevisionThrottler, eps: seq<string>, ip: string, pods: seq<string>, cc: nat)
    reads rt
  {
    && rt.Valid() && rt.containerConcurrency == cc && rt.clusterIPTracker.None?
    && DestsOf(rt.podTrackers) == pods
    && rt.numActivators == |eps| && rt.activatorIndex == InferIndex(eps, ip)
  }

  /** One throttler per listed address, all of the same revision and up to date. */
  ghost predicate AllInStep(rts: seq<RevisionThrottler>, eps: seq<string>, pods: seq<string>, cc: nat)
    reads rts
  {
    |rts| == |eps| && StrictlySorted(eps) && forall i :: 0 <= i < |rts| ==> InStep(rts[i], eps, eps[i], pods, cc)
  }

  /** Any throttler that handles the pods and then the endpoint list is in step. */
  method BringInStep(rt: RevisionThrottler, eps: set<string>, ip: string, dests: set<string>)
    requires rt.Valid() && ip in eps
    modifies rt
    ensures InStep(rt, Sorted(eps), ip, Sorted(dests), rt.containerConcurrency)
  {
    hide AssignSlice, CalculateCapacity, TrackersOk, InferIndex, Sorted;
    rt.HandlePods(dests);
    rt.HandlePublicEndpoints(eps, ip);
    InferIndexIsPosition(Sorted(eps), ip);
  }

  /** In the other order too. */
  method BringInStepEndpointsFirst(rt: RevisionThrottler, eps: set<string>, ip: string, dests: set<string>)
    requires rt.Valid() && ip in eps
    modifies rt
    ensures InStep(rt, Sorted(eps), ip, Sorted(dests), rt.containerConcurrency)
  {
    hide AssignSlice, CalculateCapacity, TrackersOk, InferIndex, Sorted;
    rt.HandlePublicEndpoints(eps, ip);
    rt.HandlePods(dests);
    InferIndexIsPosition(Sorted(eps), ip);
  }

  /** The pods the first k throttlers route to. */
  ghost function Routed(rts: seq<RevisionThrottler>, k: nat): multiset<string>
    requires k <= |rts|
    reads rts
  {
    if k == 0 then multiset{} else Routed(rts, k - 1) + multiset(DestsOf(rts[k - 1].assignedTrackers))
  }

  /** The capacities of the first k throttlers' breakers. */
  ghost function Capacities(rts: seq<RevisionThrottler>, k: nat): int
    requires k <= |rts|
    reads rts
  {
    if k == 0 then 0 else Capacities(rts, k - 1) + rts[k - 1].breakerCapacity
  }

  lemma ThrottlerTakes(rts: seq<RevisionThrottler>, eps: seq<string>, pods: seq<string>, cc: nat, i: nat)
    requires AllInStep(rts, eps, pods, cc) && cc > 0 && i < |rts|
    ensures DestsOf(rts[i].assignedTrackers) == AssignSlice(pods, i, |eps|)
    ensures rts[i].breakerCapacity == CalculateCapacity(cc, |pods|, |AssignSlice(pods, i, |eps|)|, |eps|)
  {
    hide AssignSlice, CalculateCapacity, InferIndex, TrackersOk;
    var rt := rts[i];
    assert InStep(rt, eps, eps[i], pods, cc);
    InferIndexIsPosition(eps, eps[i]);
    SliceOfDests(rt.podTrackers, i, |eps|);
    assert |DestsOf(rt.assignedTrackers)| == |rt.assignedTrackers| && |DestsOf(rt.podTrackers)| == |rt.podTrackers|;
  }

  lemma {:induction false} ThrottlersTake(
    rts: seq<RevisionThrottler>, eps: seq<string>, pods: seq<string>, cc: nat, k: nat)
    requires AllInStep(rts, eps, pods, cc) && cc > 0 && k <= |rts|
    ensures Routed(rts, k) == Taken(pods, |eps|, k)
    ensures Capacities(rts, k) == PodCapacities(cc, pods, |eps|, k)
  {
    hide AssignSlice, CalculateCapacity, AllInStep;
    if k > 0 {
      ThrottlersTake(rts, eps, pods, cc, k - 1);
      assert |rts| == |eps| by { SameNumber(rts, eps, pods, cc); }
      ThrottlerTakes(rts, eps, pods, cc, k - 1);
    } else {
      SameNumber(rts, eps, pods, cc);
    }
  }

  lemma SameNumber(rts: seq<RevisionThrottler>, eps: seq<string>, pods: seq<string>, cc: nat)
    requires AllInStep(rts, eps, pods, cc)
    ensures |rts| == |eps| && StrictlySorted(eps)
  {
  }

  /** The throttlers of one revision, one per listed activator, route to every pod from
      exactly one activator, and their breakers together admit what the pods can take. */
  lemma ThrottlersPartitionPods(rts: seq<RevisionThrottler>, eps: seq<string>, pods: seq<string>, cc: nat)
    requires AllInStep(rts, eps, pods, cc) && cc > 0 && 0 < |eps| <= |pods|
    ensures Routed(rts, |rts|) == multiset(pods)
    ensures cc * |pods| <= REVISION_MAX_CONCURRENCY ==> Capacities(rts, |rts|) == cc * |pods|
  {
    hide AllInStep, Routed, Capacities;
    SameNumber(rts, eps, pods, cc);
    ThrottlersTake(rts, eps, pods, cc, |rts|);
    SlicesPartition(pods, |eps|);
    if cc * |pods| <= REVISION_MAX_CONCURRENCY {
      PodCapacitiesSum(cc, pods, |eps|);
    }
  }

  /** With more activators than pods, each pod is routed to from the floor or the ceiling of
      activators / pods of them. */
  lemma ThrottlersSharePods(rts: seq<RevisionThrottler>, eps: seq<string>, pods: seq<string>, cc: nat, p: nat)
    requires AllInStep(rts, eps, pods, cc) && cc > 0 && p < |pods| < |eps|
    ensures Routed(rts, |rts|)[pods[p]] == |eps| / |pods| + (if p < |eps| % |pods| then 1 else 0)
  {
    hide Routed, Capacities, AllInStep;
    SameNumber(rts, eps, pods, cc);
    ThrottlersTake(rts, eps, pods, cc, |rts|);
    PodsDiffer(rts, eps, pods, cc);
    SharedEvenly(pods, |eps|, p);
  }

  lemma PodsDiffer(rts: seq<RevisionThrottler>, eps: seq<string>, pods: seq<string>, cc: nat)
    requires AllInStep(rts, eps, pods, cc) && |rts| > 0
    ensures AllDifferent(pods)
  {
    hide InferIndex, CalculateCapacity, AssignSlice, StrictlySorted;
    assert InStep(rts[0], eps, eps[0], pods, cc);
    SortedDiffer(pods);
  }

  lemma SortedDiffer(xs: seq<string>)
    requires StrictlySorted(xs)
    ensures AllDifferent(xs)
  {
    forall i, j | 0 <= i < j < |xs|
      ensures xs[i] != xs[j]
    {
      assert Less(xs[i], xs[j]);
      LessIrreflexive(xs[i]);
    }
  }

  /** Throttlers of one revision that all use its cluster IP and count the same backends. */
  ghost predicate AllOnClusterIP(rts: seq<RevisionThrottler>, backends: nat, cc: nat)
    reads rts
  {
    forall i :: 0 <= i < |rts| ==>
      && rts[i].Valid() && rts[i].containerConcurrency == cc && rts[i].clusterIPTracker.Some?
      && rts[i].backendCount == backends && rts[i].numActivators == |rts|
  }

  lemma {:induction false} ClusterCapacities(rts: seq<RevisionThrottler>, backends: nat, cc: nat, k: nat)
    requires AllOnClusterIP(rts, backends, cc) && k <= |rts|
    ensures Capacities(rts, k) == k * CalculateCapacity(cc, backends, 0, |rts|)
  {
    hide CalculateCapacity, TrackersOk, AssignSlice;
    if k > 0 {
      ClusterCapacities(rts, backends, cc, k - 1);
      var c := CalculateCapacity(cc, backends, 0, |rts|);
      assert rts[k - 1].breakerCapacity == c;
      assert k * c == (k - 1) * c + c;
    }
  }

  /** Their breakers together stay within the revision's capacity, or admit one request each
      when there are more activators than slots. */
  lemma ThrottlersOnClusterIP(rts: seq<RevisionThrottler>, backends: nat, cc: nat)
    requires AllOnClusterIP(rts, backends, cc) && cc > 0 && |rts| > 0
    ensures Capacities(rts, |rts|) <= Max(cc * backends, |rts|)
    ensures backends > 0 ==> forall i :: 0 <= i < |rts| ==> rts[i].breakerCapacity >= 1
  {
    hide CalculateCapacity, Capacities, TrackersOk, AssignSlice;
    ClusterCapacities(rts, backends, cc, |rts|);
    ClusterCapacitiesBounded(cc, backends, |rts|);
  }

  // ----- tracker objects

  /** A reused object is not yet in the list (its address is new there), a fresh one is newer. */
  lemma NewIdDiffers(before: seq<Tracker>, created: nat, trackers: seq<Tracker>, names: seq<string>, k: nat, t: Tracker)
    requires TrackersOk(before, created) && StrictlySorted(names) && k < |names|
    requires DestsOf(trackers) == names[..k] && t.dest == names[k]
    requires forall i :: 0 <= i < |trackers| ==> Reuses(before, created, trackers[i])
    requires t in before || forall i :: 0 <= i < |trackers| ==> trackers[i].id < t.id
    requires t in before || (t.id >= created && forall i :: 0 <= i < |before| ==> before[i].dest != t.dest)
    ensures Reuses(before, created, t)
    ensures forall i :: 0 <= i < |trackers| ==> trackers[i].id != t.id
  {
    forall i | 0 <= i < |trackers|
      ensures trackers[i].id != t.id
    {
      assert DestsOf(trackers)[i] == names[i];
      assert Less(names[i], names[k]);
      LessIrreflexive(names[k]);
    }
    UniqueByDest(before, created, t);
  }

  lemma UniqueByDest(before: seq<Tracker>, created: nat, t: Tracker)
    requires TrackersOk(before, created)
    ensures t in before ==> t.id < created
    ensures forall i, j :: 0 <= i < j < |before| ==> before[i].dest != before[j].dest
  {
    forall i, j | 0 <= i < j < |before|
      ensures before[i].dest != before[j].dest
    {
      assert Less(DestsOf(before)[i], DestsOf(before)[j]);
      LessIrreflexive(before[i].dest);
    }
  }
}
