/** Sampling a revision's pods: the sample size, and the two groups of concurrent
    workers that scrape it, one pod at a time or through the revision's service. */
module Scraper {
  import opened Common
  import opened Counting

  // ----- sample size

  /** criticalValueSquared * populationVariance / marginOfErrorSquared. */
  const UNBOUNDED_SAMPLE: real := 1.96 * 1.96 * 100.0 / 25.0

  function PopulationMeanSampleSize(population: real): real {
    if population <= 3.0 then (if population > 0.0 then population else 0.0)
    else Ceil(population * UNBOUNDED_SAMPLE / (population + UNBOUNDED_SAMPLE - 1.0)) as real
  }

  function SampleSize(pods: nat): int { PopulationMeanSampleSize(pods as real).Floor }

  lemma QuotientBound(a: real, b: real, d: real, q: real)
    requires a > 0.0 && d >= b > 0.0 && q * d == a * b
    ensures q <= a
  {
    assert (q - a) * d == a * (b - d);
  }

  /** Every nonempty population has a sample of at least one pod, at most all of them,
      and at most sixteen; the float is an exact integer, so the cast loses nothing. */
  lemma SampleSizeBounds(pods: nat)
    requires pods > 0
    ensures 1 <= SampleSize(pods) <= pods && SampleSize(pods) <= 16
    ensures SampleSize(pods) as real == PopulationMeanSampleSize(pods as real)
  {
    var n, x := pods as real, UNBOUNDED_SAMPLE;
    if pods > 3 {
      var d := n + x - 1.0;
      var q := n * x / d;
      assert q * d == n * x;
      CeilBounds(q);
      assert q > 0.0;
      QuotientBound(n, x, d, q);
      QuotientBound(x, n, d, q);
    }
  }

  /** The formula in numbers, with X = 15.3664: up to three pods the sample is all of them, and
      beyond that the least whole number not below N X / (N + X - 1). */
  lemma SampleSizeExactly(pods: nat)
    ensures pods <= 3 ==> SampleSize(pods) == pods
    ensures pods > 3 ==>
              var n, k := pods as real, SampleSize(pods) as real;
              (k - 1.0) * (n + 14.3664) < n * 15.3664 <= k * (n + 14.3664)
  {
    if pods > 3 {
      var n := pods as real;
      var q := n * 15.3664 / (n + 14.3664);
      CeilBounds(q);
      assert UNBOUNDED_SAMPLE == 15.3664;
      SampleSizeBounds(pods);
      QuotientBetween(n * 15.3664, n + 14.3664, SampleSize(pods) as real - 1.0, SampleSize(pods) as real);
    }
  }

  lemma QuotientBetween(a: real, d: real, low: real, high: real)
    requires d > 0.0 && low < a / d <= high
    ensures low * d < a <= high * d
  {
    var q := a / d;
    assert q * d == a;
    assert (q - low) * d > 0.0 && (high - q) * d >= 0.0;
  }

  // ----- scraping through the service

  /** The quantities summed over the sample. */
  datatype Load = Load(concurrency: real, proxiedConcurrency: real, requests: real, proxiedRequests: real) {
    function Plus(o: Load): Load {
      Load(concurrency + o.concurrency, proxiedConcurrency + o.proxiedConcurrency,
           requests + o.requests, proxiedRequests + o.proxiedRequests)
    }

    function Averaged(sample: nat, total: nat): Load
      requires sample > 0
    {
      Load(Scaled(concurrency, sample, total), Scaled(proxiedConcurrency, sample, total),
           Scaled(requests, sample, total), Scaled(proxiedRequests, sample, total))
    }

    function Times(n: nat): Load {
      Load(Multiple(concurrency, n), Multiple(proxiedConcurrency, n),
           Multiple(requests, n), Multiple(proxiedRequests, n))
    }
  }

  /** From sample pods to total pods. */
  function Scaled(x: real, sample: nat, total: nat): real
    requires sample > 0
  {
    x / sample as real * total as real
  }

  function Multiple(x: real, n: nat): real { x * n as real }

  const NO_LOAD := Load(0.0, 0.0, 0.0, 0.0)

  /** A scraped stat: which pod answered, how long it has been up, and what it serves. */
  datatype Stat = Stat(pod: string, uptime: real, load: Load)

  datatype Error = DidNotReceiveStat | ScrapeFailed

  const MAX_RETRIES: nat := 10

  /** Where a worker of scrapeService stands. */
  datatype Pc =
    | Try(tries: nat)                        // about to send the request
    | Got(tries: nat, stat: Stat)            // answered; about to LoadOrStore the pod's name
    | Fresh(tries: nat, stat: Stat)          // first to see this pod; about to send the stat
    | Failed(tries: nat, error: Error)       // tryScrape returned an error
    | DoneOld                                // returned nil after sending an old pod's stat
    | DoneFull                               // returned nil because the young channel was full
    | DoneErr(error: Error)

  datatype State = State(
    seen: set<string>,
    oldStats: seq<Stat>,
    youngStats: seq<Stat>,
    firstErr: Option<Error>,
    workers: seq<Pc>)

  predicate Init(k: nat, s: State) {
    && s.seen == {} && s.oldStats == [] && s.youngStats == [] && s.firstErr == None
    && |s.workers| == k && forall i :: 0 <= i < k ==> s.workers[i] == Try(1)
  }

  /** Worker i goes to pc. */
  function At(s: State, i: nat, pc: Pc): State
    requires i < |s.workers|
  {
    s.(workers := s.workers[i := pc])
  }

  /** A step of worker i; both channels have k slots and nobody reads them yet. */
  ghost predicate Step(k: nat, cutOff: real, s: State, i: nat, s': State)
    requires i < |s.workers|
  {
    match s.workers[i]
    case Try(t) =>
      || s' == At(s, i, Failed(t, ScrapeFailed))
      || exists stat :: s' == At(s, i, Got(t, stat))
    case Got(t, stat) =>
      if stat.pod in s.seen then s' == At(s, i, Failed(t, DidNotReceiveStat))
      else s' == At(s, i, Fresh(t, stat)).(seen := s.seen + {stat.pod})
    case Failed(t, e) =>
      if t >= MAX_RETRIES
      then s' == At(s, i, DoneErr(e)).(firstErr := if s.firstErr.None? then Some(e) else s.firstErr)
      else s' == At(s, i, Try(t + 1))
    case Fresh(t, stat) =>
      if stat.uptime >= cutOff
      then |s.oldStats| < k && s' == At(s, i, DoneOld).(oldStats := s.oldStats + [stat])
      else if |s.youngStats| < k
      then s' == At(s, i, Try(t + 1)).(youngStats := s.youngStats + [stat])
      else s' == At(s, i, DoneFull)
    case _ => false
  }

  ghost predicate Follows(k: nat, cutOff: real, s: State, s': State) {
    exists i: nat :: i < |s.workers| && Step(k, cutOff, s, i, s')
  }

  ghost predicate Run(k: nat, cutOff: real, tr: seq<State>) {
    && |tr| > 0 && Init(k, tr[0])
    && forall j :: 0 < j < |tr| ==> Follows(k, cutOff, tr[j - 1], tr[j])
  }

  predicate Distinct(stats: seq<Stat>) {
    forall a, b :: 0 <= a < b < |stats| ==> stats[a].pod != stats[b].pod
  }

  /** The pod is in no stat sent so far. */
  predicate Unsent(s: State, pod: string) {
    && (forall a :: 0 <= a < |s.oldStats| ==> s.oldStats[a].pod != pod)
    && (forall a :: 0 <= a < |s.youngStats| ==> s.youngStats[a].pod != pod)
  }

  predicate ChannelInv(k: nat, s: State) {
    && |s.workers| == k && |s.oldStats| == Count((pc: Pc) => pc.DoneOld?, s.workers)
    && |s.youngStats| <= k
    && (forall i :: 0 <= i < k && s.workers[i].DoneFull? ==> |s.youngStats| == k)
    && (forall i :: 0 <= i < k && s.workers[i].DoneErr? ==> s.firstErr.Some?)
  }

  /** The stats sent are of distinct pods, all of them seen. */
  predicate SentInv(s: State) {
    && Distinct(s.oldStats) && Distinct(s.youngStats)
    && (forall a, b :: 0 <= a < |s.oldStats| && 0 <= b < |s.youngStats| ==> s.oldStats[a].pod != s.youngStats[b].pod)
    && (forall a :: 0 <= a < |s.oldStats| ==> s.oldStats[a].pod in s.seen)
    && (forall a :: 0 <= a < |s.youngStats| ==> s.youngStats[a].pod in s.seen)
  }

  /** The stats about to be sent are of distinct pods, seen and not sent yet. */
  predicate FreshInv(s: State) {
    && (forall i :: 0 <= i < |s.workers| && s.workers[i].Fresh? ==>
          s.workers[i].stat.pod in s.seen && Unsent(s, s.workers[i].stat.pod))
    && (forall i, j :: 0 <= i < j < |s.workers| && s.workers[i].Fresh? && s.workers[j].Fresh? ==>
          s.workers[i].stat.pod != s.workers[j].stat.pod)
  }

  predicate PodInv(s: State) { SentInv(s) && FreshInv(s) }

  lemma StepKeepsChannels(k: nat, cutOff: real, s: State, i: nat, s': State)
    requires ChannelInv(k, s) && i < k && Step(k, cutOff, s, i, s')
    ensures ChannelInv(k, s')
  {
    CountUpdate((pc: Pc) => pc.DoneOld?, s.workers, i, s'.workers[i]);
  }

  lemma StepKeepsSent(k: nat, cutOff: real, s: State, i: nat, s': State)
    requires PodInv(s) && i < |s.workers| && Step(k, cutOff, s, i, s')
    ensures SentInv(s')
  {
    var pc := s.workers[i];
    if pc.Fresh? {
      assert Unsent(s, pc.stat.pod);
    }
  }

  lemma StepKeepsFresh(k: nat, cutOff: real, s: State, i: nat, s': State)
    requires PodInv(s) && i < |s.workers| && Step(k, cutOff, s, i, s')
    ensures FreshInv(s')
  {
    hide Distinct;
    match s.workers[i]
    case Fresh(_, stat) =>
      forall j | 0 <= j < |s'.workers| && s'.workers[j].Fresh?
        ensures Unsent(s', s'.workers[j].stat.pod)
      {
        assert j != i && Unsent(s, s.workers[j].stat.pod) && s.workers[j].stat.pod != stat.pod;
      }
    case _ =>
  }

  lemma {:induction false} RunKeepsInv(k: nat, cutOff: real, tr: seq<State>)
    requires Run(k, cutOff, tr)
    ensures forall j :: 0 <= j < |tr| ==> ChannelInv(k, tr[j]) && PodInv(tr[j])
  {
    var n := |tr| - 1;
    if n == 0 {
      CountBound((pc: Pc) => pc.DoneOld?, tr[0].workers);
    } else {
      RunKeepsInv(k, cutOff, tr[..n]);
      assert ChannelInv(k, tr[..n][n - 1]) && PodInv(tr[..n][n - 1]);
      assert Follows(k, cutOff, tr[n - 1], tr[n]);
      var i: nat :| i < |tr[n - 1].workers| && Step(k, cutOff, tr[n - 1], i, tr[n]);
      StepKeepsChannels(k, cutOff, tr[n - 1], i, tr[n]);
      StepKeepsSent(k, cutOff, tr[n - 1], i, tr[n]);
      StepKeepsFresh(k, cutOff, tr[n - 1], i, tr[n]);
      forall j | 0 <= j < |tr|
        ensures ChannelInv(k, tr[j]) && PodInv(tr[j])
      {
        if j < n {
          assert tr[j] == tr[..n][j];
        }
      }
    }
  }

  /** A worker with an old pod's stat never blocks on its send. */
  lemma OldSendNeverBlocks(k: nat, cutOff: real, tr: seq<State>, j: nat, i: nat)
    requires Run(k, cutOff, tr) && j < |tr| && i < |tr[j].workers| && tr[j].workers[i].Fresh?
    ensures |tr[j].oldStats| < k
  {
    RunKeepsInv(k, cutOff, tr);
    assert ChannelInv(k, tr[j]);
    var p := (pc: Pc) => pc.DoneOld?;
    assert !p(tr[j].workers[i]);
    CountBound(p, tr[j].workers);
  }

  /** The stats in the old channel are of pods up at least as long as the cut-off, those in the
      young one of pods up less long. */
  predicate AgeInv(cutOff: real, s: State) {
    && (forall a :: 0 <= a < |s.oldStats| ==> s.oldStats[a].uptime >= cutOff)
    && (forall a :: 0 <= a < |s.youngStats| ==> s.youngStats[a].uptime < cutOff)
  }

  lemma {:induction false} ChannelsByAge(k: nat, cutOff: real, tr: seq<State>)
    requires Run(k, cutOff, tr)
    ensures AgeInv(cutOff, tr[|tr| - 1])
  {
    var n := |tr| - 1;
    if n > 0 {
      ChannelsByAge(k, cutOff, tr[..n]);
      assert tr[..n][n - 1] == tr[n - 1];
      assert Follows(k, cutOff, tr[n - 1], tr[n]);
      var i: nat :| i < |tr[n - 1].workers| && Step(k, cutOff, tr[n - 1], i, tr[n]);
    }
  }

  /** A worker gives up with an error exactly from its tenth failed try on, and tries again
      before that. */
  lemma GivesUpAfterTen(k: nat, cutOff: real, s: State, i: nat, s': State)
    requires i < |s.workers| && s.workers[i].Failed? && Step(k, cutOff, s, i, s')
    ensures |s'.workers| == |s.workers|
    ensures s.workers[i].tries >= 10 ==> s'.workers[i] == DoneErr(s.workers[i].error) && s'.firstErr.Some?
    ensures s.workers[i].tries < 10 ==> s'.workers[i] == Try(s.workers[i].tries + 1) && s'.firstErr == s.firstErr
  {
  }

  /** A new pod's stat ends the worker if the pod is old; if it is young it goes into the young
      channel and the worker tries on, or ends when that is full. */
  lemma SendDecision(k: nat, cutOff: real, s: State, i: nat, s': State)
    requires i < |s.workers| && s.workers[i].Fresh? && Step(k, cutOff, s, i, s')
    ensures |s'.workers| == |s.workers|
    ensures var stat, tries := s.workers[i].stat, s.workers[i].tries;
      if stat.uptime >= cutOff
      then s'.workers[i] == DoneOld && s'.oldStats == s.oldStats + [stat] && s'.youngStats == s.youngStats
      else if |s.youngStats| < k
      then s'.workers[i] == Try(tries + 1) && s'.youngStats == s.youngStats + [stat] && s'.oldStats == s.oldStats
      else s'.workers[i] == DoneFull && s'.youngStats == s.youngStats && s'.oldStats == s.oldStats
  {
  }

  /** A pod seen before counts as a failed try; a new one's stat goes on. */
  lemma SeenPodFails(k: nat, cutOff: real, s: State, i: nat, s': State)
    requires i < |s.workers| && s.workers[i].Got? && Step(k, cutOff, s, i, s')
    ensures |s'.workers| == |s.workers| && s.workers[i].stat.pod in s'.seen
    ensures s.workers[i].stat.pod in s.seen ==> s'.workers[i] == Failed(s.workers[i].tries, DidNotReceiveStat)
    ensures s.workers[i].stat.pod !in s.seen ==> s'.workers[i] == Fresh(s.workers[i].tries, s.workers[i].stat)
  {
  }

  predicate Finished(s: State) {
    forall i :: 0 <= i < |s.workers| ==> s.workers[i].DoneOld? || s.workers[i].DoneFull? || s.workers[i].DoneErr?
  }

  /** The check after grp.Wait. */
  predicate Succeeds(k: nat, s: State) {
    || s.firstErr.None?
    || (s.firstErr == Some(DidNotReceiveStat) && |s.oldStats| + |s.youngStats| >= k)
  }

  /** When the workers are done, the scrape succeeds exactly when none returned an error, or the
      first error was only that no new pod answered and there are enough stats all the same. */
  lemma SucceedsExactly(k: nat, cutOff: real, tr: seq<State>)
    requires Run(k, cutOff, tr) && Finished(tr[|tr| - 1])
    ensures var s := tr[|tr| - 1];
      Succeeds(k, s) <==>
      || (forall i :: 0 <= i < |s.workers| ==> !s.workers[i].DoneErr?)
      || (s.firstErr == Some(DidNotReceiveStat) && |s.oldStats| + |s.youngStats| >= k)
  {
    hide Step;
    RunKeepsInv(k, cutOff, tr);
    var s := tr[|tr| - 1];
    assert ChannelInv(k, s);
    ErrorHasWorker(k, cutOff, tr);
  }

  /** An error is noted only with a worker that returned one. */
  lemma {:induction false} ErrorHasWorker(k: nat, cutOff: real, tr: seq<State>)
    requires Run(k, cutOff, tr)
    ensures var s := tr[|tr| - 1]; s.firstErr.Some? ==> exists i :: 0 <= i < |s.workers| && s.workers[i].DoneErr?
  {
    var n := |tr| - 1;
    if n > 0 {
      ErrorHasWorker(k, cutOff, tr[..n]);
      assert tr[..n][n - 1] == tr[n - 1];
      assert Follows(k, cutOff, tr[n - 1], tr[n]);
      var i: nat :| i < |tr[n - 1].workers| && Step(k, cutOff, tr[n - 1], i, tr[n]);
      var s, s' := tr[n - 1], tr[n];
      if s.firstErr.Some? {
        var w :| 0 <= w < |s.workers| && s.workers[w].DoneErr?;
        assert w != i;
        assert s'.workers[w].DoneErr?;
      } else if s'.firstErr.Some? {
        assert s'.workers[i].DoneErr?;
      }
    }
  }

  /** The stats that are summed: every old pod's first, then young ones up to k. */
  function Selected(k: nat, s: State): seq<Stat>
    requires |s.oldStats| <= k <= |s.oldStats| + |s.youngStats|
  {
    s.oldStats + s.youngStats[..k - |s.oldStats|]
  }

  /** Under every interleaving a successful service scrape sums exactly k stats from
      pairwise distinct pods, and the closed young channel is never read past its stats. */
  lemma SuccessfulServiceScrape(k: nat, cutOff: real, tr: seq<State>)
    requires Run(k, cutOff, tr) && Finished(tr[|tr| - 1]) && Succeeds(k, tr[|tr| - 1])
    ensures var s := tr[|tr| - 1];
            && |s.oldStats| <= k <= |s.oldStats| + |s.youngStats|
            && |Selected(k, s)| == k && Distinct(Selected(k, s))
            && s.oldStats <= Selected(k, s)
  {
    RunKeepsInv(k, cutOff, tr);
    var s := tr[|tr| - 1];
    assert ChannelInv(k, s) && PodInv(s);
    var p := (pc: Pc) => pc.DoneOld?;
    CountBound(p, s.workers);
    if s.firstErr.None? && !exists i :: 0 <= i < k && s.workers[i].DoneFull? {
      assert forall i :: 0 <= i < k ==> p(s.workers[i]);
    }
  }

  function Sum(stats: seq<Stat>): Load {
    if stats == [] then NO_LOAD else Sum(stats[..|stats| - 1]).Plus(stats[|stats| - 1].load)
  }

  lemma SumNext(stats: seq<Stat>, i: nat)
    requires i < |stats|
    ensures Sum(stats[..i + 1]) == Sum(stats[..i]).Plus(stats[i].load)
  {
    assert stats[..i + 1][..i] == stats[..i];
  }

  /** The two summing loops: all the old stats, then as many young ones as are missing. */
  method AddUp(k: nat, s: State) returns (load: Load)
    requires |s.oldStats| <= k <= |s.oldStats| + |s.youngStats|
    ensures load == Sum(Selected(k, s))
  {
    load := NO_LOAD;
    var oldCnt := |s.oldStats|;
    ghost var all := Selected(k, s);
    for i := 0 to oldCnt
      invariant load == Sum(all[..i])
    {
      SumNext(all, i);
      load := load.Plus(s.oldStats[i].load);
    }
    for i := oldCnt to k
      invariant load == Sum(all[..i])
    {
      SumNext(all, i);
      load := load.Plus(s.youngStats[i - oldCnt].load);
    }
    assert all[..k] == all;
  }

  /** The selected sample scaled to the population: pods that are all alike are reported
      as exactly that many times one of them. */
  method Aggregate(k: nat, total: nat, s: State) returns (load: Load)
    requires k > 0 && |s.oldStats| <= k <= |s.oldStats| + |s.youngStats|
    ensures load == Sum(Selected(k, s)).Averaged(k, total)
    ensures forall x :: (forall i :: 0 <= i < k ==> Selected(k, s)[i].load == x) ==> load == x.Times(total)
  {
    load := AddUp(k, s);
    load := load.Averaged(k, total);
    forall x | forall i :: 0 <= i < k ==> Selected(k, s)[i].load == x
      ensures load == x.Times(total)
    {
      SumOfAlike(Selected(k, s), x);
      AveragedBack(x, k, total);
    }
  }

  lemma {:induction false} SumOfAlike(stats: seq<Stat>, x: Load)
    requires forall i :: 0 <= i < |stats| ==> stats[i].load == x
    ensures Sum(stats) == x.Times(|stats|)
  {
    if stats != [] {
      SumOfAlike(stats[..|stats| - 1], x);
    }
  }

  lemma AveragedBack(x: Load, k: nat, total: nat)
    requires k > 0
    ensures x.Times(k).Averaged(k, total) == x.Times(total)
  {
    hide Scaled, Multiple;
    ScaledBack(x.concurrency, k, total);
    ScaledBack(x.proxiedConcurrency, k, total);
    ScaledBack(x.requests, k, total);
    ScaledBack(x.proxiedRequests, k, total);
  }

  lemma ScaledBack(x: real, k: nat, total: nat)
    requires k > 0
    ensures Scaled(Multiple(x, k), k, total) == Multiple(x, total)
  {
    assert x * k as real / k as real == x;
  }

  // ----- scraping pods directly

  /** Where a worker of scrapePods stands. */
  datatype PodPc =
    | NextPod                    // about to take the next index
    | Scraping(idx: nat)         // scraping the pod at that index
    | Sent                       // returned nil after sending its stat
    | Gone                       // returned an error: pods exhausted, or a bad request

  datatype PodState = PodState(idx: int, results: seq<nat>, workers: seq<PodPc>)

  predicate PodInit(k: nat, s: PodState) {
    s.idx == -1 && s.results == [] && |s.workers| == k && forall i :: 0 <= i < k ==> s.workers[i] == NextPod
  }

  /** A step of worker i over a list of the given number of pods; results are pod indices. */
  predicate PodStep(k: nat, pods: nat, s: PodState, i: nat, s': PodState)
    requires i < |s.workers|
  {
    && |s'.workers| == |s.workers| && s'.workers == s.workers[i := s'.workers[i]]
    && match s.workers[i]
       case NextPod =>
         && s'.idx == s.idx + 1 && s'.results == s.results
         && s'.workers[i] == if s'.idx >= pods || s'.idx < 0 then Gone else Scraping(s'.idx)
       case Scraping(idx) =>
         && s'.idx == s.idx
         && if s'.workers[i].Sent? then |s.results| < k && s'.results == s.results + [idx]
            else s'.results == s.results && (s'.workers[i].NextPod? || s'.workers[i].Gone?)
       case _ => false
  }

  ghost predicate PodFollows(k: nat, pods: nat, s: PodState, s': PodState) {
    exists i: nat :: i < |s.workers| && PodStep(k, pods, s, i, s')
  }

  ghost predicate PodRun(k: nat, pods: nat, tr: seq<PodState>) {
    && |tr| > 0 && PodInit(k, tr[0])
    && forall j :: 0 < j < |tr| ==> PodFollows(k, pods, tr[j - 1], tr[j])
  }

  /** Every index is taken once: results and pods being scraped are all different. */
  predicate IndexInv(k: nat, pods: nat, s: PodState) {
    && |s.workers| == k && s.idx >= -1 && |s.results| == Count((pc: PodPc) => pc.Sent?, s.workers)
    && (forall a :: 0 <= a < |s.results| ==> s.results[a] <= s.idx && s.results[a] < pods)
    && (forall a, b :: 0 <= a < b < |s.results| ==> s.results[a] != s.results[b])
    && (forall i :: 0 <= i < k && s.workers[i].Scraping? ==>
          s.workers[i].idx <= s.idx && s.workers[i].idx < pods && s.workers[i].idx !in s.results)
    && (forall i, j :: 0 <= i < j < k && s.workers[i].Scraping? && s.workers[j].Scraping? ==>
          s.workers[i].idx != s.workers[j].idx)
  }

  lemma PodStepKeepsInv(k: nat, pods: nat, s: PodState, i: nat, s': PodState)
    requires IndexInv(k, pods, s) && i < k && PodStep(k, pods, s, i, s')
    ensures IndexInv(k, pods, s')
  {
    CountUpdate((pc: PodPc) => pc.Sent?, s.workers, i, s'.workers[i]);
  }

  lemma {:induction false} PodRunKeepsInv(k: nat, pods: nat, tr: seq<PodState>)
    requires PodRun(k, pods, tr)
    ensures IndexInv(k, pods, tr[|tr| - 1])
  {
    var n := |tr| - 1;
    if n == 0 {
      CountBound((pc: PodPc) => pc.Sent?, tr[0].workers);
    } else {
      PodRunKeepsInv(k, pods, tr[..n]);
      assert IndexInv(k, pods, tr[..n][n - 1]);
      assert PodFollows(k, pods, tr[n - 1], tr[n]);
      var i: nat :| i < |tr[n - 1].workers| && PodStep(k, pods, tr[n - 1], i, tr[n]);
      PodStepKeepsInv(k, pods, tr[n - 1], i, tr[n]);
    }
  }

  /** When all workers return nil, exactly k stats from k different pods were sent, and
      no worker could ever have blocked on the channel of k slots. */
  lemma SuccessfulPodScrape(k: nat, pods: nat, tr: seq<PodState>)
    requires PodRun(k, pods, tr)
    ensures var s := tr[|tr| - 1];
            && |s.workers| == k
            && (forall i :: 0 <= i < k && s.workers[i].Scraping? ==> |s.results| < k)
            && ((forall i :: 0 <= i < k ==> s.workers[i].Sent?) ==> |s.results| == k)
            && (forall a, b :: 0 <= a < b < |s.results| ==> s.results[a] != s.results[b])
            && (forall a :: 0 <= a < |s.results| ==> s.results[a] < pods)
  {
    PodRunKeepsInv(k, pods, tr);
    var s := tr[|tr| - 1];
    var p := (pc: PodPc) => pc.Sent?;
    CountBound(p, s.workers);
    if i :| 0 <= i < k && s.workers[i].Scraping? {
      assert !p(s.workers[i]);
    }
  }
}
