/** How independent activators divide a revision's pods: each finds its own index in the
    sorted endpoint list and takes a slice of the sorted pods. */
module Slicing {
  import opened Strs
  import Bits

  const REVISION_MAX_CONCURRENCY: nat := 0x7fff_ffff

  // ----- the activator's index

  /** sort.SearchStrings: the first position whose element is not below ip. */
  function Search(eps: seq<string>, ip: string): (r: nat)
    ensures r <= |eps|
  {
    if eps == [] || !Less(eps[0], ip) then 0 else 1 + Search(eps[1..], ip)
  }

  function InferIndex(eps: seq<string>, ip: string): int {
    var idx := Search(eps, ip);
    if idx == |eps| || eps[idx] != ip then -1 else idx
  }

  lemma {:induction false} SearchFinds(eps: seq<string>, i: nat)
    requires StrictlySorted(eps) && i < |eps|
    ensures Search(eps, eps[i]) == i
  {
    if i == 0 {
      LessIrreflexive(eps[0]);
    } else {
      SearchFinds(eps[1..], i - 1);
    }
  }

  /** On a sorted list of distinct addresses the index is the position, and -1 exactly
      for an address that is not listed. */
  lemma InferIndexIsPosition(eps: seq<string>, ip: string)
    requires StrictlySorted(eps)
    ensures -1 <= InferIndex(eps, ip) < |eps|
    ensures InferIndex(eps, ip) == -1 <==> ip !in eps
    ensures forall i :: 0 <= i < |eps| ==> InferIndex(eps, eps[i]) == i
  {
    forall i | 0 <= i < |eps|
      ensures InferIndex(eps, eps[i]) == i
    {
      SearchFinds(eps, i);
    }
  }

  // ----- slices

  function PickIndices(numTrackers: nat, selfIndex: nat, numActivators: nat): (nat, nat, nat)
    requires numTrackers > 0 && numActivators > 0
  {
    if numActivators > numTrackers then
      var begin := selfIndex % numTrackers;
      (begin, begin + 1, 0)
    else
      var sliceSize := numTrackers / numActivators;
      (selfIndex * sliceSize, selfIndex * sliceSize + sliceSize, numTrackers % numActivators)
  }

  function AssignSlice<T>(trackers: seq<T>, selfIndex: int, numActivators: nat): seq<T>
    requires -1 <= selfIndex && (selfIndex >= 0 ==> selfIndex < numActivators)
  {
    var lt := |trackers|;
    if selfIndex == -1 || lt <= 1 then trackers
    else if numActivators == 1 then trackers
    else
      var (begin, end, remnants) := PickIndices(lt, selfIndex, numActivators);
      PickedInRange(lt, selfIndex, numActivators);
      var x := trackers[begin..end];
      if remnants > 0 && remnants > selfIndex then x + [trackers[lt - remnants..][selfIndex]] else x
  }

  /** An activator that is not in the list takes every pod, and so does the only one. */
  lemma UnassignedTakesAll<T>(trackers: seq<T>, n: nat)
    ensures AssignSlice(trackers, -1, n) == trackers && AssignSlice(trackers, 0, 1) == trackers
  {
  }

  lemma PickedInRange(lt: nat, self: nat, n: nat)
    requires lt > 0 && self < n
    ensures var (begin, end, remnants) := PickIndices(lt, self, n);
            begin <= end <= lt && remnants <= lt
  {
    if n <= lt {
      SliceEnds(lt, self, n);
    }
  }

  lemma SliceEnds(lt: nat, self: nat, n: nat)
    requires 0 < n <= lt && self < n
    ensures var size := lt / n;
            && size >= 1
            && (self + 1) * size == self * size + size <= n * size == lt - lt % n
  {
    var size := lt / n;
    assert lt == n * size + lt % n;
    Bits.MulMono(self + 1, n, size);
    if size <= 0 {
      Bits.MulMono(size, 0, n);
    }
  }

  // ----- at most as many activators as pods

  /** What the first k activators take together. */
  function Taken<T>(trackers: seq<T>, n: nat, k: nat): multiset<T>
    requires k <= n
  {
    if k == 0 then multiset{} else Taken(trackers, n, k - 1) + multiset(AssignSlice(trackers, k - 1, n))
  }

  /** The first k activators' even slices and their share of the remnants. */
  function Prefix<T>(trackers: seq<T>, n: nat, k: nat): seq<T>
    requires 0 < n <= |trackers| && k <= n
  {
    if k > 0 then SliceEnds(|trackers|, k - 1, n); trackers[..k * (|trackers| / n)] else []
  }

  function Remnants<T>(trackers: seq<T>, n: nat, k: nat): seq<T>
    requires 0 < n <= |trackers|
  {
    var tail := trackers[|trackers| - |trackers| % n..];
    tail[..if k < |tail| then k else |tail|]
  }

  /** One more activator takes one more slice and, while they last, one more remnant. */
  lemma TakeOne<T>(trackers: seq<T>, n: nat, k: nat)
    requires 1 < n <= |trackers| && k < n
    ensures multiset(Prefix(trackers, n, k)) + multiset(Remnants(trackers, n, k))
            + multiset(AssignSlice(trackers, k, n)) ==
            multiset(Prefix(trackers, n, k + 1)) + multiset(Remnants(trackers, n, k + 1))
  {
    var lt, size, r := |trackers|, |trackers| / n, |trackers| % n;
    SliceEnds(lt, k, n);
    var slice := trackers[k * size..k * size + size];
    assert Prefix(trackers, n, k) == trackers[..k * size];
    assert Prefix(trackers, n, k + 1) == trackers[..k * size] + slice;
    var tail := trackers[lt - r..];
    if k < r {
      assert Remnants(trackers, n, k + 1) == Remnants(trackers, n, k) + [tail[k]];
      assert AssignSlice(trackers, k, n) == slice + [tail[k]];
    } else {
      assert Remnants(trackers, n, k + 1) == Remnants(trackers, n, k);
      assert AssignSlice(trackers, k, n) == slice;
    }
  }

  lemma {:induction false} TakenSoFar<T>(trackers: seq<T>, n: nat, k: nat)
    requires 1 < n <= |trackers| && k <= n
    ensures Taken(trackers, n, k) == multiset(Prefix(trackers, n, k)) + multiset(Remnants(trackers, n, k))
  {
    hide AssignSlice, Prefix, Remnants, Taken;
    if k == 0 {
      NothingTaken(trackers, n);
    } else {
      TakenSoFar(trackers, n, k - 1);
      TakeOne(trackers, n, k - 1);
      TakenNext(trackers, n, k);
    }
  }

  lemma NothingTaken<T>(trackers: seq<T>, n: nat)
    requires 0 < n <= |trackers|
    ensures Taken(trackers, n, 0) == multiset(Prefix(trackers, n, 0)) + multiset(Remnants(trackers, n, 0))
  {
  }

  lemma TakenNext<T>(trackers: seq<T>, n: nat, k: nat)
    requires 0 < k <= n
    ensures Taken(trackers, n, k) == Taken(trackers, n, k - 1) + multiset(AssignSlice(trackers, k - 1, n))
  {
    hide AssignSlice;
  }

  /** Every pod goes to exactly one activator. */
  lemma SlicesPartition<T>(trackers: seq<T>, n: nat)
    requires 0 < n <= |trackers|
    ensures Taken(trackers, n, n) == multiset(trackers)
  {
    if n == 1 {
      assert Taken(trackers, 1, 1) == Taken(trackers, 1, 0) + multiset(AssignSlice(trackers, 0, 1));
    } else {
      TakenSoFar(trackers, n, n);
      SliceEnds(|trackers|, n - 1, n);
      var cut := |trackers| - |trackers| % n;
      assert Prefix(trackers, n, n) == trackers[..cut];
      assert Remnants(trackers, n, n) == trackers[cut..];
      assert trackers == trackers[..cut] + trackers[cut..];
    }
  }

  /** What the activator at an address takes, once it has found itself in the list. */
  function TakenAt<T>(eps: seq<string>, pods: seq<T>, ip: string): seq<T>
    requires StrictlySorted(eps)
  {
    InferIndexIsPosition(eps, ip);
    AssignSlice(pods, InferIndex(eps, ip), |eps|)
  }

  /** What the first k listed addresses take together. */
  function TakenByAddresses<T>(eps: seq<string>, pods: seq<T>, k: nat): multiset<T>
    requires StrictlySorted(eps) && k <= |eps|
  {
    if k == 0 then multiset{} else TakenByAddresses(eps, pods, k - 1) + multiset(TakenAt(eps, pods, eps[k - 1]))
  }

  lemma {:induction false} AddressesArePositions<T>(eps: seq<string>, pods: seq<T>, k: nat)
    requires StrictlySorted(eps) && k <= |eps|
    ensures TakenByAddresses(eps, pods, k) == Taken(pods, |eps|, k)
  {
    hide AssignSlice, InferIndex;
    if k > 0 {
      AddressesArePositions(eps, pods, k - 1);
      InferIndexIsPosition(eps, eps[k - 1]);
    }
  }

  /** Activators that share one sorted endpoint list, each knowing only its own address,
      divide the pods among them: every pod goes to exactly one. */
  lemma ActivatorsPartitionPods<T>(eps: seq<string>, pods: seq<T>)
    requires StrictlySorted(eps) && 0 < |eps| <= |pods|
    ensures TakenByAddresses(eps, pods, |eps|) == multiset(pods)
  {
    AddressesArePositions(eps, pods, |eps|);
    SlicesPartition(pods, |eps|);
  }

  /** With more activators than pods, each pod is taken by the floor or the ceiling of
      activators / pods of the addresses. */
  lemma ActivatorsSharePods<T>(eps: seq<string>, pods: seq<T>, p: nat)
    requires StrictlySorted(eps) && AllDifferent(pods) && p < |pods| < |eps|
    ensures TakenByAddresses(eps, pods, |eps|)[pods[p]]
         == |eps| / |pods| + (if p < |eps| % |pods| then 1 else 0)
  {
    AddressesArePositions(eps, pods, |eps|);
    SharedEvenly(pods, |eps|, p);
  }

  /** Slice sizes differ by at most one, and none is empty. */
  lemma SliceSizes<T>(trackers: seq<T>, self: nat, n: nat)
    requires 0 < n <= |trackers| && self < n
    ensures |AssignSlice(trackers, self, n)| == |trackers| / n + (if self < |trackers| % n then 1 else 0)
    ensures |AssignSlice(trackers, self, n)| >= 1
  {
    SliceEnds(|trackers|, self, n);
  }

  // ----- more activators than pods

  /** With more activators than pods each takes the pod at its index modulo their number. */
  lemma RoundRobin<T>(trackers: seq<T>, self: nat, n: nat)
    requires 0 < |trackers| < n && self < n
    ensures AssignSlice(trackers, self, n) == [trackers[self % |trackers|]]
  {
  }

  /** How many of the activators 0..n-1 take pod p of lt. */
  function Shares(lt: nat, p: nat, n: nat): nat
    requires p < lt
  {
    if n == 0 then 0 else Shares(lt, p, n - 1) + (if (n - 1) % lt == p then 1 else 0)
  }

  /** Each pod is shared by the floor or the ceiling of activators / pods. */
  lemma {:induction false} SharesAreEven(lt: nat, p: nat, n: nat)
    requires p < lt
    ensures Shares(lt, p, n) == n / lt + (if p < n % lt then 1 else 0)
  {
    if n == 0 {
      Bits.ModUnique(0, lt, 0, 0);
    } else {
      SharesAreEven(lt, p, n - 1);
      Successor(n, lt);
    }
  }

  /** Quotient and remainder of n from those of n - 1. */
  lemma Successor(n: nat, lt: nat)
    requires n > 0 && lt > 0
    ensures if (n - 1) % lt + 1 < lt
            then n / lt == (n - 1) / lt && n % lt == (n - 1) % lt + 1
            else n / lt == (n - 1) / lt + 1 && n % lt == 0
  {
    var q, r := (n - 1) / lt, (n - 1) % lt;
    assert n - 1 == q * lt + r;
    if r + 1 < lt {
      Bits.ModUnique(n, lt, q, r + 1);
    } else {
      assert (q + 1) * lt == q * lt + lt;
      Bits.ModUnique(n, lt, q + 1, 0);
    }
  }

  predicate AllDifferent<T(==)>(ts: seq<T>) {
    forall i, j :: 0 <= i < j < |ts| ==> ts[i] != ts[j]
  }

  /** How often a pod is taken when there are more activators than pods. */
  lemma {:induction false} TakenByShares<T>(trackers: seq<T>, n: nat, k: nat, p: nat)
    requires AllDifferent(trackers) && p < |trackers| < n && k <= n
    ensures Taken(trackers, n, k)[trackers[p]] == Shares(|trackers|, p, k)
  {
    hide AssignSlice;
    if k > 0 {
      TakenByShares(trackers, n, k - 1, p);
      RoundRobin(trackers, k - 1, n);
    }
  }

  /** With more activators than pods, each pod goes to the floor or the ceiling of
      activators / pods of them. */
  lemma SharedEvenly<T>(trackers: seq<T>, n: nat, p: nat)
    requires AllDifferent(trackers) && p < |trackers| < n
    ensures Taken(trackers, n, n)[trackers[p]] == n / |trackers| + (if p < n % |trackers| then 1 else 0)
  {
    TakenByShares(trackers, n, n, p);
    SharesAreEven(|trackers|, p, n);
  }

  // ----- capacity

  function MinOneOrValue(num: int): int { if num > 1 then num else 1 }

  function CalculateCapacity(cc: nat, backendCount: nat, numTrackers: nat, activatorCount: nat): int {
    var target :=
      if numTrackers > 0 then cc * numTrackers
      else if cc * backendCount > 0 then MinOneOrValue(cc * backendCount / MinOneOrValue(activatorCount))
      else cc * backendCount;
    if backendCount > 0 && (cc == 0 || target > REVISION_MAX_CONCURRENCY) then REVISION_MAX_CONCURRENCY else target
  }

  /** A breaker never gets a capacity beyond the slots of its channel. */
  lemma CapacityFitsBreaker(cc: nat, backendCount: nat, numTrackers: nat, activatorCount: nat)
    requires backendCount > 0 || numTrackers == 0
    ensures 0 <= CalculateCapacity(cc, backendCount, numTrackers, activatorCount) <= REVISION_MAX_CONCURRENCY
  {
    if backendCount == 0 {
      assert cc * backendCount == 0;
    } else {
      Bits.MulMono(0, cc, numTrackers);
      Bits.MulMono(0, cc, backendCount);
    }
  }

  /** Unlimited containers give the full capacity as soon as there is a backend, and no backends
      give none. */
  lemma UnlimitedCapacity(backendCount: nat, numTrackers: nat, activatorCount: nat)
    ensures backendCount > 0 ==> CalculateCapacity(0, backendCount, numTrackers, activatorCount) == 2147483647
    ensures forall cc: nat :: CalculateCapacity(cc, 0, 0, activatorCount) == 0
  {
    forall cc: nat
      ensures CalculateCapacity(cc, 0, 0, activatorCount) == 0
    {
      assert cc * 0 == 0;
    }
  }

  /** With pods assigned, the capacity is the concurrency of each times their number, cut off at
      the largest 32-bit integer. */
  lemma PodCapacityExactly(cc: nat, backendCount: nat, numTrackers: nat, activatorCount: nat)
    requires cc > 0 && backendCount > 0 && numTrackers > 0
    ensures CalculateCapacity(cc, backendCount, numTrackers, activatorCount)
         == if cc * numTrackers > 2147483647 then 2147483647 else cc * numTrackers
  {
  }

  /** On the cluster IP, the capacity is this activator's share of the whole, rounded down, but
      at least one and at most the largest 32-bit integer. */
  lemma ClusterCapacityExactly(cc: nat, backendCount: nat, activatorCount: nat)
    requires cc > 0 && backendCount > 0
    ensures var n := if activatorCount == 0 then 1 else activatorCount;
      var c := CalculateCapacity(cc, backendCount, 0, activatorCount);
      || (c == 2147483647 && n * c <= cc * backendCount)
      || (c == 1 && cc * backendCount < n)
      || n * c <= cc * backendCount < n * (c + 1)
  {
    var n := if activatorCount == 0 then 1 else activatorCount;
    var total := cc * backendCount;
    Bits.MulMono(1, cc, backendCount);
    var share := total / n;
    assert total == n * share + total % n;
    assert n * (share + 1) == n * share + n;
    var c := CalculateCapacity(cc, backendCount, 0, activatorCount);
    if share == 0 {
      assert c == 1;
    } else if share > 2147483647 {
      Bits.MulMono(2147483647, share, n);
    }
  }

  /** The capacities of the first k activators in pod mode. */
  function PodCapacities<T>(cc: nat, pods: seq<T>, n: nat, k: nat): int
    requires k <= n
  {
    if k == 0 then 0
    else PodCapacities(cc, pods, n, k - 1) + CalculateCapacity(cc, |pods|, |AssignSlice(pods, k - 1, n)|, n)
  }

  lemma {:induction false} CapacitiesCountTaken<T>(cc: nat, pods: seq<T>, n: nat, k: nat)
    requires 0 < n <= |pods| && k <= n && cc > 0 && cc * |pods| <= REVISION_MAX_CONCURRENCY
    ensures PodCapacities(cc, pods, n, k) == cc * |Taken(pods, n, k)|
  {
    hide AssignSlice, CalculateCapacity;
    if k > 0 {
      CapacitiesCountTaken(cc, pods, n, k - 1);
      var slice := AssignSlice(pods, k - 1, n);
      SliceSizes(pods, k - 1, n);
      SliceWithin(pods, k - 1, n);
      CapacityOfSlice(cc, |pods|, |slice|, n);
      assert |Taken(pods, n, k)| == |Taken(pods, n, k - 1)| + |slice|;
      Distribute(cc, |Taken(pods, n, k - 1)|, |slice|);
    }
  }

  lemma CapacityOfSlice(cc: nat, pods: nat, m: nat, n: nat)
    requires cc > 0 && 0 < m <= pods && cc * pods <= REVISION_MAX_CONCURRENCY
    ensures CalculateCapacity(cc, pods, m, n) == cc * m
  {
    Bits.MulMono(m, pods, cc);
  }

  lemma Distribute(c: nat, a: nat, b: nat)
    ensures c * (a + b) == c * a + c * b
  {
  }

  lemma SliceWithin<T>(pods: seq<T>, self: nat, n: nat)
    requires 0 < n <= |pods| && self < n
    ensures |AssignSlice(pods, self, n)| <= |pods|
  {
    SliceEnds(|pods|, self, n);
    SliceSizes(pods, self, n);
    var size := |pods| / n;
    Bits.MulMono(1, n, size);
    assert size + |pods| % n <= |pods|;
  }

  /** In pod mode the activators' capacities add up to containerConcurrency times pods. */
  lemma PodCapacitiesSum<T>(cc: nat, pods: seq<T>, n: nat)
    requires 0 < n <= |pods| && cc > 0 && cc * |pods| <= REVISION_MAX_CONCURRENCY
    ensures PodCapacities(cc, pods, n, n) == cc * |pods|
  {
    CapacitiesCountTaken(cc, pods, n, n);
    SlicesPartition(pods, n);
  }

  /** In cluster-IP mode n activators together stay within the revision's capacity, or
      take one slot each when there are more activators than slots. */
  lemma ClusterCapacitiesBounded(cc: nat, backendCount: nat, n: nat)
    requires cc > 0 && n > 0
    ensures n * CalculateCapacity(cc, backendCount, 0, n) <= (if cc * backendCount > n then cc * backendCount else n)
    ensures backendCount > 0 ==> CalculateCapacity(cc, backendCount, 0, n) >= 1
  {
    var total := cc * backendCount;
    if backendCount > 0 {
      assert total > 0;
      var share := total / n;
      assert total == n * share + total % n;
      var capacity := CalculateCapacity(cc, backendCount, 0, n);
      assert capacity <= MinOneOrValue(share);
      Bits.MulMono(capacity, MinOneOrValue(share), n);
    } else {
      assert total == 0;
    }
  }
}
