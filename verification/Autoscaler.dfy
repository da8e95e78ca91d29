/** The autoscaler's decision: rate-limited pod counts, the panic mode that survives from
    one evaluation to the next, and what repeated decisions lead to.  Values are reals, the
    scale-down delay window is absent. */
module Autoscaler {
  import opened Common

  datatype DeciderSpec = DeciderSpec(
    maxScaleUpRate: real,
    maxScaleDownRate: real,
    targetValue: real,
    totalValue: real,
    targetBurstCapacity: real,
    panicThreshold: real,
    stableWindow: int,
    reachable: bool,
    activationScale: int)
  {
    /** What configuration parsing lets through. */
    predicate Valid() {
      maxScaleUpRate > 1.0 && maxScaleDownRate > 1.0 && targetValue > 0.0
    }
  }

  datatype Observed = Observed(stable: real, panic: real)

  datatype ScaleResult = ScaleResult(desired: int, excess: int, valid: bool)

  const INVALID := ScaleResult(0, 0, false)

  // ----- the desired counts

  function Ready(pods: nat): nat { if pods == 0 then 1 else pods }

  /** The pods that would serve a load at the target value each. */
  function Needed(spec: DeciderSpec, load: real): int
    requires spec.Valid()
  {
    Ceil(load / spec.targetValue)
  }

  function MaxScaleUp(spec: DeciderSpec, pods: nat): int {
    Ceil(spec.maxScaleUpRate * Ready(pods) as real)
  }

  function MaxScaleDown(spec: DeciderSpec, pods: nat): int
    requires spec.Valid()
  {
    if spec.reachable then (Ready(pods) as real / spec.maxScaleDownRate).Floor else 0
  }

  function Clamped(spec: DeciderSpec, pods: nat, needed: int): int
    requires spec.Valid()
  {
    Min(Max(needed, MaxScaleDown(spec, pods)), MaxScaleUp(spec, pods))
  }

  /** The count wanted for a load, with the activation scale. */
  function Wanted(spec: DeciderSpec, pods: nat, load: real): int
    requires spec.Valid()
  {
    var clamped := Clamped(spec, pods, Needed(spec, load));
    if spec.activationScale > 1 && Needed(spec, load) > 0 then Max(clamped, spec.activationScale) else clamped
  }

  predicate OverThreshold(spec: DeciderSpec, pods: nat, observed: Observed)
    requires spec.Valid()
  {
    Needed(spec, observed.panic) as real / Ready(pods) as real >= spec.panicThreshold
  }

  function ExcessBurst(spec: DeciderSpec, pods: nat, observed: Observed): int {
    if spec.targetBurstCapacity == 0.0 then 0
    else if spec.targetBurstCapacity > 0.0 then
      (pods as real * spec.totalValue - spec.targetBurstCapacity - observed.panic).Floor
    else -1
  }

  /** The rate limits leave room in both directions around the current count. */
  lemma RateLimits(spec: DeciderSpec, pods: nat)
    requires spec.Valid()
    ensures 0 <= MaxScaleDown(spec, pods) < Ready(pods) < MaxScaleUp(spec, pods)
  {
    var r := Ready(pods) as real;
    CeilBounds(spec.maxScaleUpRate * r);
    UpIsMore(spec.maxScaleUpRate, r);
    DownIsLess(spec.maxScaleDownRate, r);
  }

  lemma UpIsMore(rate: real, r: real)
    requires rate > 1.0 && r >= 1.0
    ensures rate * r > r
  {
    assert (rate - 1.0) * r > 0.0;
  }

  lemma DownIsLess(rate: real, r: real)
    requires rate > 1.0 && r >= 1.0
    ensures 0.0 < r / rate < r
  {
    var q := r / rate;
    assert q * rate == r;
    assert q <= 0.0 ==> q * rate <= 0.0;
    UpIsMoreThan(rate, q);
  }

  lemma UpIsMoreThan(rate: real, q: real)
    requires rate > 1.0 && q > 0.0
    ensures q * rate > q
  {
    assert (rate - 1.0) * q > 0.0;
  }

  /** The clamp picks the allowed count nearest to the needed one. */
  lemma ClampedIsNearest(spec: DeciderSpec, pods: nat, needed: int, other: int)
    requires spec.Valid() && MaxScaleDown(spec, pods) <= other <= MaxScaleUp(spec, pods)
    ensures var c := Clamped(spec, pods, needed);
      && MaxScaleDown(spec, pods) <= c <= MaxScaleUp(spec, pods)
      && (needed <= c <= other || other <= c <= needed || c == needed)
  {
    hide MaxScaleUp, MaxScaleDown;
    RateLimits(spec, pods);
  }

  /** The activation scale is a floor for any load at all, and no obstacle to zero. */
  lemma ActivationScaleHolds(spec: DeciderSpec, pods: nat, load: real)
    requires spec.Valid() && spec.activationScale > 1
    ensures Needed(spec, load) > 0 ==> Wanted(spec, pods, load) >= spec.activationScale
    ensures Needed(spec, load) <= 0 && pods <= 1 ==> Wanted(spec, pods, load) == 0
    ensures Wanted(spec, pods, load) in {Clamped(spec, pods, Needed(spec, load)), spec.activationScale}
  {
    hide Needed, MaxScaleUp, MaxScaleDown;
    RateLimits(spec, pods);
  }

  /** Excess burst capacity is negative, keeping the activator in the path, exactly when the
      target is unlimited or the ready pods cannot take the target on top of the load. */
  lemma ExcessBurstSign(spec: DeciderSpec, pods: nat, observed: Observed)
    ensures ExcessBurst(spec, pods, observed) < 0
       <==> || spec.targetBurstCapacity < 0.0
            || (spec.targetBurstCapacity > 0.0
                && pods as real * spec.totalValue < spec.targetBurstCapacity + observed.panic)
  {
    FloorSign(pods as real * spec.totalValue, spec.targetBurstCapacity, observed.panic);
  }

  lemma FloorSign(capacity: real, target: real, load: real)
    ensures (capacity - target - load).Floor < 0 <==> capacity < target + load
  {
  }

  /** So many pods carry the load at the target value each, and one fewer do not. */
  predicate JustCarry(pods: int, target: real, load: real) {
    (pods - 1) as real * target < load <= pods as real * target
  }

  lemma NeededCarriesLoad(spec: DeciderSpec, load: real)
    requires spec.Valid()
    ensures (Needed(spec, load) - 1) as real * spec.targetValue < load <= Needed(spec, load) as real * spec.targetValue
    ensures JustCarry(Needed(spec, load), spec.targetValue, load)
  {
    var q := load / spec.targetValue;
    assert q * spec.targetValue == load;
    CeilBounds(q);
    ScalesUp(q, Needed(spec, load) as real, spec.targetValue);
    ScalesUpStrictly(Needed(spec, load) as real - 1.0, q, spec.targetValue);
  }

  lemma ScalesUp(a: real, b: real, c: real)
    requires a <= b && c > 0.0
    ensures a * c <= b * c
  {
    assert (b - a) * c >= 0.0;
  }

  lemma ScalesUpStrictly(a: real, b: real, c: real)
    requires a < b && c > 0.0
    ensures a * c < b * c
  {
    assert (b - a) * c > 0.0;
  }

  /** The scale-up limit in numbers: the least whole count not below the rate times the pods,
      no pods counting as one. */
  lemma ScaleUpExactly(spec: DeciderSpec, pods: nat)
    requires spec.Valid()
    ensures var r, up := (if pods == 0 then 1 else pods) as real, MaxScaleUp(spec, pods);
      up as real - 1.0 < spec.maxScaleUpRate * r <= up as real
  {
    CeilBounds(spec.maxScaleUpRate * Ready(pods) as real);
  }

  /** The scale-down limit: for a reachable revision the largest whole count not above the pods
      divided by the rate, for another zero. */
  lemma ScaleDownExactly(spec: DeciderSpec, pods: nat)
    requires spec.Valid()
    ensures spec.reachable ==>
              var r, down := (if pods == 0 then 1 else pods) as real, MaxScaleDown(spec, pods);
              down as real * spec.maxScaleDownRate <= r < (down + 1) as real * spec.maxScaleDownRate
    ensures !spec.reachable ==> MaxScaleDown(spec, pods) == 0
  {
    if spec.reachable {
      FloorOfQuotient(Ready(pods) as real, spec.maxScaleDownRate, MaxScaleDown(spec, pods));
    }
  }

  lemma FloorOfQuotient(r: real, rate: real, down: int)
    requires rate > 0.0 && down == (r / rate).Floor
    ensures down as real * rate <= r && r < (down + 1) as real * rate
  {
    TimesBetween(r, rate, down as real, (down + 1) as real);
  }

  lemma TimesBetween(r: real, rate: real, low: real, high: real)
    requires rate > 0.0 && low <= r / rate < high
    ensures low * rate <= r && r < high * rate
  {
    var q := r / rate;
    assert q * rate == r;
    ScalesUp(low, q, rate);
    ScalesUpStrictly(q, high, rate);
  }

  /** Without an activation scale the wanted count is the needed one brought within limits. */
  lemma WantedWithinLimits(spec: DeciderSpec, pods: nat, load: real)
    requires spec.Valid() && spec.activationScale <= 1
    ensures Wanted(spec, pods, load) == Clamped(spec, pods, Needed(spec, load))
    ensures MaxScaleDown(spec, pods) <= Needed(spec, load) <= MaxScaleUp(spec, pods) ==>
              Wanted(spec, pods, load) == Needed(spec, load)
  {
    hide Needed, MaxScaleUp, MaxScaleDown;
  }

  /** It is the panic reading that decides: over the threshold means that the pods it needs
      are at least the threshold times the ready ones. */
  lemma ThresholdExactly(spec: DeciderSpec, pods: nat, observed: Observed)
    requires spec.Valid()
    ensures OverThreshold(spec, pods, observed) <==>
              Needed(spec, observed.panic) as real >= spec.panicThreshold * (if pods == 0 then 1 else pods) as real
  {
    hide Needed;
    var n, r := Needed(spec, observed.panic) as real, Ready(pods) as real;
    var q := n / r;
    assert q * r == n;
    if q >= spec.panicThreshold {
      ScalesUp(spec.panicThreshold, q, r);
    } else {
      ScalesUpStrictly(q, spec.panicThreshold, r);
    }
  }

  /** Excess burst capacity in numbers. */
  lemma ExcessBurstExactly(spec: DeciderSpec, pods: nat, observed: Observed)
    ensures spec.targetBurstCapacity == 0.0 ==> ExcessBurst(spec, pods, observed) == 0
    ensures spec.targetBurstCapacity < 0.0 ==> ExcessBurst(spec, pods, observed) == -1
    ensures spec.targetBurstCapacity > 0.0 ==>
              var spare := pods as real * spec.totalValue - observed.panic - spec.targetBurstCapacity;
              var excess := ExcessBurst(spec, pods, observed) as real;
              excess <= spare < excess + 1.0
  {
  }

  // ----- one evaluation

  /** The autoscaler's state between calls. */
  datatype State = State(panicTime: Option<int>, maxPanicPods: int, spec: DeciderSpec)

  /** Scaled reads of the ready count (not found reads as zero) and of the metrics may fail. */
  datatype Event =
    | Updated(spec: DeciderSpec)
    | Scaled(now: int, pods: Option<nat>, observed: Option<Observed>)
  {
    predicate Evaluates() { Scaled? && pods.Some? && observed.Some? }

    predicate Valid() { Updated? ==> spec.Valid() }
  }

  function Created(pods: Option<nat>, now: int, spec: DeciderSpec): State {
    var curC := if pods.Some? then pods.value else 0;
    State(if curC > 1 then Some(now) else None, curC, spec)
  }

  /** The event is an evaluation over the panic threshold. */
  predicate Over(e: Event, spec: DeciderSpec)
    requires spec.Valid()
  {
    e.Evaluates() && OverThreshold(spec, e.pods.value, e.observed.value)
  }

  /** The event is an evaluation under the threshold, more than the stable window after t. */
  predicate Expires(e: Event, spec: DeciderSpec, t: int)
    requires spec.Valid()
  {
    e.Evaluates() && !Over(e, spec) && t + spec.stableWindow < e.now
  }

  /** What an evaluation would provision for while panicking. */
  function PanicWant(e: Event, spec: DeciderSpec): int
    requires spec.Valid() && e.Evaluates()
  {
    Max(Wanted(spec, e.pods.value, e.observed.value.stable), Wanted(spec, e.pods.value, e.observed.value.panic))
  }

  function NextPanic(panicTime: Option<int>, spec: DeciderSpec, e: Event): Option<int>
    requires spec.Valid()
  {
    if Over(e, spec) then Some(e.now)
    else if panicTime.Some? && Expires(e, spec, panicTime.value) then None
    else panicTime
  }

  function Next(s: State, e: Event): State
    requires s.spec.Valid()
  {
    if e.Updated? then s.(spec := e.spec)
    else if !e.Evaluates() then s
    else
      var panicTime := NextPanic(s.panicTime, s.spec, e);
      State(panicTime,
            if panicTime.Some? then Max(s.maxPanicPods, PanicWant(e, s.spec))
            else if s.panicTime.Some? then 0
            else s.maxPanicPods,
            s.spec)
  }

  function Answer(s: State, e: Event): ScaleResult
    requires s.spec.Valid() && e.Scaled?
  {
    if !e.Evaluates() then INVALID
    else
      ScaleResult(
        if Next(s, e).panicTime.Some? then Next(s, e).maxPanicPods
        else Wanted(s.spec, e.pods.value, e.observed.value.stable),
        ExcessBurst(s.spec, e.pods.value, e.observed.value),
        true)
  }

  /** A new autoscaler is panicking exactly when it finds two pods or more; it remembers how
      many it found, none when they cannot be counted. */
  lemma CreatedExactly(pods: Option<nat>, now: int, spec: DeciderSpec)
    ensures Created(pods, now, spec).panicTime == (if pods.Some? && pods.value >= 2 then Some(now) else None)
    ensures Created(pods, now, spec).maxPanicPods == (if pods.Some? then pods.value else 0)
  {
  }

  /** When an evaluation begins, extends, ends or leaves a panic, in numbers. */
  lemma PanicExactly(s: State, now: int, pods: nat, observed: Observed)
    requires s.spec.Valid()
    ensures var over := Needed(s.spec, observed.panic) as real
                        >= s.spec.panicThreshold * (if pods == 0 then 1 else pods) as real;
      Next(s, Scaled(now, Some(pods), Some(observed))).panicTime ==
        if over then Some(now)
        else if s.panicTime.Some? && now - s.panicTime.value > s.spec.stableWindow then None
        else s.panicTime
  {
    hide Needed, OverThreshold, PanicWant;
    ThresholdExactly(s.spec, pods, observed);
  }

  /** The answer in stable mode is the count wanted for the stable reading; in a panic it is the
      largest of the counts wanted for either reading and the one already provisioned; a panic
      that ends forgets its count. */
  lemma AnswerExactly(s: State, now: int, pods: nat, observed: Observed)
    requires s.spec.Valid()
    ensures var e := Scaled(now, Some(pods), Some(observed));
      var desired, t := Answer(s, e).desired, Next(s, e);
      var stable, panic := Wanted(s.spec, pods, observed.stable), Wanted(s.spec, pods, observed.panic);
      && Answer(s, e).valid && Answer(s, e).excess == ExcessBurst(s.spec, pods, observed)
      && (t.panicTime.None? ==> desired == stable)
      && (t.panicTime.Some? ==>
            && desired >= stable && desired >= panic && desired >= s.maxPanicPods
            && desired in {stable, panic, s.maxPanicPods})
      && (t.panicTime.None? && s.panicTime.Some? ==> t.maxPanicPods == 0)
  {
    hide Wanted, NextPanic, ExcessBurst;
  }

  /** An evaluation that cannot read pods or metrics changes nothing and is not to be applied. */
  lemma FailedReadChangesNothing(s: State, now: int, pods: Option<nat>, observed: Option<Observed>)
    requires s.spec.Valid() && (pods.None? || observed.None?)
    ensures Next(s, Scaled(now, pods, observed)) == s && !Answer(s, Scaled(now, pods, observed)).valid
  {
  }

  /** In stable mode, with no limit in the way and no activation scale, the pods asked for carry
      the load at the target value each, and one fewer would not. */
  lemma StableAnswerCarriesLoad(s: State, now: int, pods: nat, observed: Observed)
    requires s.spec.Valid() && s.spec.activationScale <= 1
    requires Next(s, Scaled(now, Some(pods), Some(observed))).panicTime.None?
    requires MaxScaleDown(s.spec, pods) <= Needed(s.spec, observed.stable) <= MaxScaleUp(s.spec, pods)
    ensures var desired, target := Answer(s, Scaled(now, Some(pods), Some(observed))).desired, s.spec.targetValue;
      (desired - 1) as real * target < observed.stable <= desired as real * target
  {
    hide Needed, NextPanic, ExcessBurst, MaxScaleUp, MaxScaleDown, Wanted;
    AnswerExactly(s, now, pods, observed);
    WantedWithinLimits(s.spec, pods, observed.stable);
    NeededCarriesLoad(s.spec, observed.stable);
  }

  class Scaler {
    var panicTime: Option<int>
    var maxPanicPods: int
    var deciderSpec: DeciderSpec

    function Value(): State reads this { State(panicTime, maxPanicPods, deciderSpec) }

    /** newAutoscaler: panicking from the start when there is more than one pod. */
    constructor (pods: Option<nat>, now: int, spec: DeciderSpec)
      ensures Value() == Created(pods, now, spec)
    {
      var curC := 0;
      if pods.Some? {
        curC := pods.value;
      }
      panicTime := None;
      if curC > 1 {
        panicTime := Some(now);
      }
      maxPanicPods := curC;
      deciderSpec := spec;
    }

    method Update(spec: DeciderSpec)
      requires deciderSpec.Valid()
      modifies this
      ensures Value() == Next(old(Value()), Updated(spec))
    {
      deciderSpec := spec;
    }

    method Scale(now: int, pods: Option<nat>, observed: Option<Observed>) returns (r: ScaleResult)
      requires deciderSpec.Valid()
      modifies this
      ensures Value() == Next(old(Value()), Scaled(now, pods, observed))
      ensures r == Answer(old(Value()), Scaled(now, pods, observed))
    {
      hide Needed, MaxScaleUp, MaxScaleDown;
      var spec := deciderSpec;
      if pods.None? || observed.None? {
        return INVALID;
      }
      var readyPodsCount := Ready(pods.value);
      var maxScaleUp, maxScaleDown := MaxScaleUp(spec, pods.value), MaxScaleDown(spec, pods.value);
      var dspc, dppc := Needed(spec, observed.value.stable), Needed(spec, observed.value.panic);
      var desiredStablePodCount := Min(Max(dspc, maxScaleDown), maxScaleUp);
      var desiredPanicPodCount := Min(Max(dppc, maxScaleDown), maxScaleUp);
      if deciderSpec.activationScale > 1 {
        if dspc > 0 && deciderSpec.activationScale > desiredStablePodCount {
          desiredStablePodCount := deciderSpec.activationScale;
        }
        if dppc > 0 && deciderSpec.activationScale > desiredPanicPodCount {
          desiredPanicPodCount := deciderSpec.activationScale;
        }
      }
      var isOverPanicThreshold := dppc as real / readyPodsCount as real >= spec.panicThreshold;
      if panicTime.None? && isOverPanicThreshold {
        panicTime := Some(now);
      } else if isOverPanicThreshold {
        panicTime := Some(now);
      } else if panicTime.Some? && !isOverPanicThreshold && panicTime.value + spec.stableWindow < now {
        panicTime := None;
        maxPanicPods := 0;
      }
      var desiredPodCount := desiredStablePodCount;
      if panicTime.Some? {
        if desiredPodCount < desiredPanicPodCount {
          desiredPodCount := desiredPanicPodCount;
        }
        if desiredPodCount > maxPanicPods {
          maxPanicPods := desiredPodCount;
        }
        desiredPodCount := maxPanicPods;
      }
      r := ScaleResult(desiredPodCount, ExcessBurst(spec, pods.value, observed.value), true);
    }
  }

  // ----- runs

  ghost predicate Run(states: seq<State>, events: seq<Event>) {
    && |states| == |events| + 1
    && (forall i :: 0 <= i < |states| ==> states[i].spec.Valid())
    && forall i :: 0 <= i < |events| ==> states[i + 1] == Next(states[i], events[i])
  }

  /** The spec in force before event k, told from the events alone. */
  function SpecAt(first: DeciderSpec, events: seq<Event>, k: nat): (spec: DeciderSpec)
    requires k <= |events| && first.Valid() && forall i :: 0 <= i < |events| ==> events[i].Valid()
    ensures spec.Valid()
  {
    if k == 0 then first
    else if events[k - 1].Updated? then
      assert events[k - 1].Valid();
      events[k - 1].spec
    else SpecAt(first, events, k - 1)
  }

  /** The latest of the first k events to be over the threshold, as how many events there
      had been then and its time; construction counts when it began in panic. */
  function LastOver(first: State, events: seq<Event>, k: nat): Option<(nat, int)>
    requires k <= |events| && first.spec.Valid() && forall i :: 0 <= i < |events| ==> events[i].Valid()
  {
    if k == 0 then (if first.panicTime.Some? then Some((0, first.panicTime.value)) else None)
    else if Over(events[k - 1], SpecAt(first.spec, events, k - 1)) then Some((k, events[k - 1].now))
    else LastOver(first, events, k - 1)
  }

  /** One of the events from i up to k expires a panic dated t. */
  ghost predicate Expired(first: State, events: seq<Event>, i: nat, k: nat, t: int)
    requires k <= |events| && first.spec.Valid() && forall i :: 0 <= i < |events| ==> events[i].Valid()
  {
    exists j: nat :: i <= j < k && Expires(events[j], SpecAt(first.spec, events, j), t)
  }

  /** Panic mode from the history alone: dated by the latest evaluation over the threshold,
      unless some later evaluation came more than its stable window after that date. */
  ghost function PanicOf(first: State, events: seq<Event>, k: nat): Option<int>
    requires k <= |events| && first.spec.Valid() && forall i :: 0 <= i < |events| ==> events[i].Valid()
  {
    match LastOver(first, events, k)
    case None => None
    case Some((i, t)) => if Expired(first, events, i, k, t) then None else Some(t)
  }

  lemma RunEventsValid(states: seq<State>, events: seq<Event>)
    requires Run(states, events)
    ensures forall i :: 0 <= i < |events| ==> events[i].Valid()
  {
    forall i | 0 <= i < |events|
      ensures events[i].Valid()
    {
      assert states[i + 1] == Next(states[i], events[i]);
    }
  }

  lemma {:induction false} RunSpec(states: seq<State>, events: seq<Event>, k: nat)
    requires Run(states, events) && k <= |events| && forall i :: 0 <= i < |events| ==> events[i].Valid()
    ensures SpecAt(states[0].spec, events, k) == states[k].spec
  {
    hide NextPanic, PanicWant;
    if k > 0 {
      RunSpec(states, events, k - 1);
    }
  }

  lemma {:induction false} LastOverBefore(first: State, events: seq<Event>, k: nat)
    requires k <= |events| && first.spec.Valid() && forall i :: 0 <= i < |events| ==> events[i].Valid()
    ensures var o := LastOver(first, events, k); o.Some? ==> o.value.0 <= k
  {
    if k > 0 {
      LastOverBefore(first, events, k - 1);
    }
  }

  lemma ExpiredNext(first: State, events: seq<Event>, i: nat, k: nat, t: int)
    requires i < k <= |events| && first.spec.Valid() && forall i :: 0 <= i < |events| ==> events[i].Valid()
    ensures Expired(first, events, i, k, t)
       <==> Expired(first, events, i, k - 1, t) || Expires(events[k - 1], SpecAt(first.spec, events, k - 1), t)
  {
    hide SpecAt, Expires;
  }

  lemma PanicStep(s: State, e: Event)
    requires s.spec.Valid()
    ensures Next(s, e).panicTime == NextPanic(s.panicTime, s.spec, e)
  {
    hide OverThreshold, PanicWant;
  }

  /** Panic mode is exactly what the history says, in every run. */
  lemma {:induction false} PanicHistory(states: seq<State>, events: seq<Event>, k: nat)
    requires Run(states, events) && k <= |events|
    ensures forall i :: 0 <= i < |events| ==> events[i].Valid()
    ensures states[k].panicTime == PanicOf(states[0], events, k)
  {
    hide Next, SpecAt, Expired, OverThreshold;
    RunEventsValid(states, events);
    LastOverBefore(states[0], events, k);
    if k == 0 {
      assert forall t :: !Expired(states[0], events, 0, 0, t) by {
        NothingExpiresYet(states[0], events, 0);
      }
    } else {
      PanicHistory(states, events, k - 1);
      RunSpec(states, events, k - 1);
      PanicStep(states[k - 1], events[k - 1]);
      NothingExpiresYet(states[0], events, k);
      LastOverBefore(states[0], events, k - 1);
      var o := LastOver(states[0], events, k - 1);
      if o.Some? {
        ExpiredNext(states[0], events, o.value.0, k, o.value.1);
      }
    }
  }

  lemma NothingExpiresYet(first: State, events: seq<Event>, k: nat)
    requires k <= |events| && first.spec.Valid() && forall i :: 0 <= i < |events| ==> events[i].Valid()
    ensures forall t :: !Expired(first, events, k, k, t)
  {
  }

  /** Panicking throughout from before event i (or from its outcome) to after event j - 1. */
  ghost predicate PanicsThrough(states: seq<State>, i: nat, j: nat)
    requires j < |states|
  {
    forall m :: i < m <= j ==> states[m].panicTime.Some?
  }

  /** During one continuous panic the provisioned count is the largest one wanted, no
      smaller than what it began with. */
  lemma {:induction false} PanicPeak(states: seq<State>, events: seq<Event>, i: nat, j: nat)
    requires Run(states, events) && i <= j <= |events| && PanicsThrough(states, i, j)
    ensures states[j].maxPanicPods >= states[i].maxPanicPods
    ensures forall m :: i <= m < j && events[m].Evaluates() ==>
              states[j].maxPanicPods >= PanicWant(events[m], states[m].spec)
    ensures || states[j].maxPanicPods == states[i].maxPanicPods
            || exists m :: i <= m < j && events[m].Evaluates()
                           && states[j].maxPanicPods == PanicWant(events[m], states[m].spec)
  {
    hide NextPanic, PanicWant;
    if i < j {
      PanicPeak(states, events, i, j - 1);
      assert states[j] == Next(states[j - 1], events[j - 1]);
    }
  }

  /** The desired count never falls during one continuous panic. */
  lemma PanicNeverFalls(states: seq<State>, events: seq<Event>, i: nat, j: nat)
    requires Run(states, events) && i <= j < |events| && PanicsThrough(states, i, j + 1)
    requires events[i].Evaluates() && events[j].Evaluates()
    ensures Answer(states[i], events[i]).desired <= Answer(states[j], events[j]).desired
  {
    hide NextPanic, PanicWant, ExcessBurst;
    PanicPeak(states, events, i + 1, j + 1);
    assert states[i + 1].panicTime.Some?;
    assert states[j + 1].panicTime.Some?;
  }

  /** A new autoscaler holds the scale it found until its first panic is over. */
  lemma RestartHolds(states: seq<State>, events: seq<Event>, pods: nat, now: int, j: nat)
    requires Run(states, events) && states[0] == Created(Some(pods), now, states[0].spec)
    requires j < |events| && events[j].Evaluates() && PanicsThrough(states, 0, j + 1)
    ensures Answer(states[j], events[j]).desired >= pods
  {
    hide NextPanic, PanicWant, ExcessBurst;
    PanicPeak(states, events, 0, j + 1);
    assert states[j + 1].panicTime.Some?;
  }

  // ----- the closed loop

  /** Decisions under a constant load, each becoming the next ready count, none of them over
      the panic threshold; the panic reading is otherwise free. */
  ghost predicate ClosedLoop(states: seq<State>, pods: seq<nat>, events: seq<Event>, load: real) {
    && Run(states, events) && |pods| == |events| + 1
    && states[0].panicTime == None && states[0].spec.activationScale <= 1 && load >= 0.0
    && forall i :: 0 <= i < |events| ==>
         && events[i].Evaluates()
         && events[i].pods.value == pods[i] && events[i].observed.value.stable == load
         && !Over(events[i], states[i].spec)
         && Answer(states[i], events[i]).desired == pods[i + 1]
  }

  lemma {:induction false} StaysStable(states: seq<State>, pods: seq<nat>, events: seq<Event>, load: real, i: nat)
    requires ClosedLoop(states, pods, events, load) && i <= |events|
    ensures states[i].panicTime == None && states[i].spec == states[0].spec
  {
    hide OverThreshold, PanicWant, Answer;
    if i > 0 {
      StaysStable(states, pods, events, load, i - 1);
      assert states[i] == Next(states[i - 1], events[i - 1]);
    }
  }

  lemma LoopStep(states: seq<State>, pods: seq<nat>, events: seq<Event>, load: real, i: nat)
    requires ClosedLoop(states, pods, events, load) && i < |events|
    ensures pods[i + 1] == Clamped(states[0].spec, pods[i], Needed(states[0].spec, load))
  {
    hide Clamped, Needed, OverThreshold, PanicWant, ExcessBurst;
    StaysStable(states, pods, events, load, i);
    StaysStable(states, pods, events, load, i + 1);
    assert states[i + 1] == Next(states[i], events[i]);
  }

  lemma NeededNonNegative(spec: DeciderSpec, load: real)
    requires spec.Valid() && load >= 0.0
    ensures Needed(spec, load) >= 0
  {
    var q := load / spec.targetValue;
    assert q * spec.targetValue == load;
    assert q < 0.0 ==> q * spec.targetValue < 0.0;
    CeilBounds(q);
  }

  /** One decision moves strictly toward the needed count, never past it, and stays there. */
  lemma MovesToward(spec: DeciderSpec, pods: nat, needed: nat)
    requires spec.Valid()
    ensures var next := Clamped(spec, pods, needed);
      && (pods < needed ==> pods < next <= needed)
      && (pods > needed ==> needed <= next < pods)
      && (pods == needed ==> next == needed)
  {
    hide MaxScaleUp, MaxScaleDown;
    RateLimits(spec, pods);
  }

  function Distance(a: int, b: int): nat { if a < b then b - a else a - b }

  /** Convergence: every tick moves strictly toward the needed count or has arrived; it is
      never overshot; it is reached within as many ticks as pods were missing or surplus,
      from any start, and kept. */
  lemma {:induction false} Converges(states: seq<State>, pods: seq<nat>, events: seq<Event>, load: real, i: nat)
    requires ClosedLoop(states, pods, events, load) && i <= |events|
    ensures var needed := Needed(states[0].spec, load);
      && (pods[0] <= needed ==> pods[i] <= needed)
      && (pods[0] >= needed ==> pods[i] >= needed)
      && Distance(pods[i], needed) <= Max(0, Distance(pods[0], needed) - i)
      && (i < |events| && pods[i] != needed ==> Distance(pods[i + 1], needed) < Distance(pods[i], needed))
      && (Distance(pods[0], needed) <= i ==> pods[i] == needed)
  {
    hide Clamped, Needed, Run;
    SpecValid(states, events);
    var needed := Needed(states[0].spec, load);
    NeededNonNegative(states[0].spec, load);
    if i > 0 {
      Converges(states, pods, events, load, i - 1);
      LoopStep(states, pods, events, load, i - 1);
      MovesToward(states[0].spec, pods[i - 1], needed);
    }
    if i < |events| {
      LoopStep(states, pods, events, load, i);
      MovesToward(states[0].spec, pods[i], needed);
    }
  }

  lemma {:induction false} PowAtLeastOne(x: real, n: nat)
    requires x > 1.0
    ensures Pow(x, n) >= 1.0
  {
    if n > 0 {
      PowAtLeastOne(x, n - 1);
      UpIsMore(x, Pow(x, n - 1));
    }
  }

  /** So once there have been as many ticks as pods were missing or surplus, the pods carry the
      load and one fewer would not. */
  lemma ConvergesToLoad(states: seq<State>, pods: seq<nat>, events: seq<Event>, load: real, i: nat)
    requires ClosedLoop(states, pods, events, load) && i <= |events|
    requires Distance(pods[0], Needed(states[0].spec, load)) <= i
    ensures JustCarry(pods[i], states[0].spec.targetValue, load)
    ensures load <= pods[i] as real * states[0].spec.targetValue
    ensures pods[i] > 0 ==> (pods[i] - 1) as real * states[0].spec.targetValue < load
  {
    hide Needed, Run;
    SpecValid(states, events);
    Converges(states, pods, events, load, i);
    NeededCarriesLoad(states[0].spec, load);
  }

  lemma MulMonotone(x: real, a: real, b: real)
    requires x > 0.0 && a <= b
    ensures x * a <= x * b
  {
    assert x * (b - a) >= 0.0;
  }

  lemma GrowStep(spec: DeciderSpec, pods: nat, needed: nat)
    requires spec.Valid() && pods <= needed
    ensures var next := Clamped(spec, pods, needed);
      next == needed || next as real >= spec.maxScaleUpRate * Ready(pods) as real
  {
    hide MaxScaleDown;
    RateLimits(spec, pods);
    CeilBounds(spec.maxScaleUpRate * Ready(pods) as real);
  }

  lemma ShrinkStep(spec: DeciderSpec, pods: nat, needed: nat)
    requires spec.Valid() && pods >= needed
    ensures var next := Clamped(spec, pods, needed);
      next == needed || (spec.reachable && spec.maxScaleDownRate * next as real <= Ready(pods) as real)
  {
    hide MaxScaleUp;
    RateLimits(spec, pods);
    var next := Clamped(spec, pods, needed);
    if next != needed {
      assert next as real <= Ready(pods) as real / spec.maxScaleDownRate;
      DividedBack(spec.maxScaleDownRate, Ready(pods) as real, next as real);
    }
  }

  lemma DividedBack(rate: real, r: real, x: real)
    requires rate > 0.0 && x <= r / rate
    ensures rate * x <= r
  {
    MulMonotone(rate, x, r / rate);
    assert rate * (r / rate) == r;
  }

  /** At least start multiplied n times by the rate. */
  predicate GrownTo(rate: real, n: nat, start: nat, p: nat) {
    p as real >= Pow(rate, n) * start as real
  }

  /** At most start divided n times by the rate. */
  predicate ShrunkTo(rate: real, n: nat, start: nat, p: nat) {
    Pow(rate, n) * p as real <= start as real
  }

  lemma GrownMore(rate: real, n: nat, start: nat, p: nat, q: nat)
    requires rate > 1.0 && GrownTo(rate, n, start, p) && q as real >= rate * p as real
    ensures GrownTo(rate, n + 1, start, q)
  {
    var grown := Pow(rate, n) * start as real;
    MulMonotone(rate, grown, p as real);
    assert Pow(rate, n + 1) * start as real == rate * grown;
  }

  lemma ShrunkMore(rate: real, n: nat, start: nat, p: nat, q: nat)
    requires rate > 1.0 && ShrunkTo(rate, n, start, p) && rate * q as real <= p as real
    ensures ShrunkTo(rate, n + 1, start, q)
  {
    var power := Pow(rate, n);
    PowAtLeastOne(rate, n);
    MulMonotone(power, rate * q as real, p as real);
    assert Pow(rate, n + 1) * q as real == power * (rate * q as real);
  }

  /** Growth is geometric: after i ticks the count is the needed one, or at least the start
      multiplied i times by the scale-up rate. */
  lemma {:induction false} GrowsGeometrically(
    states: seq<State>, pods: seq<nat>, events: seq<Event>, load: real, i: nat)
    requires ClosedLoop(states, pods, events, load) && i <= |events| && pods[0] <= Needed(states[0].spec, load)
    ensures || pods[i] == Needed(states[0].spec, load)
            || GrownTo(states[0].spec.maxScaleUpRate, i, Ready(pods[0]), Ready(pods[i]))
  {
    hide Needed, Clamped, GrownTo, Run;
    SpecValid(states, events);
    var spec := states[0].spec;
    NeededNonNegative(spec, load);
    if i == 0 {
      AtStart(spec.maxScaleUpRate, Ready(pods[0]));
    } else {
      GrowsGeometrically(states, pods, events, load, i - 1);
      Converges(states, pods, events, load, i - 1);
      LoopStep(states, pods, events, load, i - 1);
      GrowOn(spec, i - 1, pods[0], pods[i - 1], Needed(spec, load));
    }
  }

  lemma GrowOn(spec: DeciderSpec, n: nat, start: nat, pods: nat, needed: nat)
    requires spec.Valid() && pods <= needed
    requires pods == needed || GrownTo(spec.maxScaleUpRate, n, Ready(start), Ready(pods))
    ensures var next := Clamped(spec, pods, needed);
      next == needed || (next >= 0 && GrownTo(spec.maxScaleUpRate, n + 1, Ready(start), Ready(next)))
  {
    hide Clamped, GrownTo;
    GrowStep(spec, pods, needed);
    MovesToward(spec, pods, needed);
    var next := Clamped(spec, pods, needed);
    if next != needed {
      GrownMore(spec.maxScaleUpRate, n, Ready(start), Ready(pods), next);
    }
  }

  lemma AtStart(rate: real, p: nat)
    ensures GrownTo(rate, 0, p, p) && ShrunkTo(rate, 0, p, p)
  {
  }

  lemma SpecValid(states: seq<State>, events: seq<Event>)
    requires Run(states, events)
    ensures |states| == |events| + 1 && states[0].spec.Valid()
  {
  }

  /** Shrinking too: the count is the needed one, or at most the start divided i times by
      the scale-down rate; an unreachable revision drops at once. */
  lemma {:induction false} ShrinksGeometrically(
    states: seq<State>, pods: seq<nat>, events: seq<Event>, load: real, i: nat)
    requires ClosedLoop(states, pods, events, load) && i <= |events| && pods[0] >= Needed(states[0].spec, load)
    ensures pods[i] == Needed(states[0].spec, load) || ShrunkTo(states[0].spec.maxScaleDownRate, i, pods[0], pods[i])
    ensures i > 0 && !states[0].spec.reachable ==> pods[i] == Needed(states[0].spec, load)
  {
    hide Needed, Clamped, ShrunkTo, Run;
    SpecValid(states, events);
    var spec := states[0].spec;
    NeededNonNegative(spec, load);
    if i == 0 {
      AtStart(spec.maxScaleDownRate, pods[0]);
    } else {
      ShrinksGeometrically(states, pods, events, load, i - 1);
      Converges(states, pods, events, load, i - 1);
      LoopStep(states, pods, events, load, i - 1);
      ShrinkOn(spec, i - 1, pods[0], pods[i - 1], Needed(spec, load));
    }
  }

  lemma ShrinkOn(spec: DeciderSpec, n: nat, start: nat, pods: nat, needed: nat)
    requires spec.Valid() && pods >= needed
    requires pods == needed || ShrunkTo(spec.maxScaleDownRate, n, start, pods)
    ensures var next := Clamped(spec, pods, needed);
      next == needed || (next >= 0 && spec.reachable && ShrunkTo(spec.maxScaleDownRate, n + 1, start, next))
  {
    hide Clamped, ShrunkTo;
    ShrinkStep(spec, pods, needed);
    MovesToward(spec, pods, needed);
    var next := Clamped(spec, pods, needed);
    if next != needed {
      ShrunkMore(spec.maxScaleDownRate, n, start, pods, next);
    }
  }
}
