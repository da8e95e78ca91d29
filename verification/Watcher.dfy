/** The activator's revision watcher: it probes a revision's pods, falls back to the
    cluster IP when pods cannot be addressed, and reports what the throttler may use.
    Probe outcomes and the service lookup are inputs that may change at every check. */
module Watcher {
  import opened Common

  datatype Dests = Dests(ready: set<string>, notReady: set<string>) {
    function All(): set<string> { ready + notReady }
  }

  /** An update on updateCh: a healthy cluster IP, or (with clusterIP "") the healthy pods. */
  datatype Update = Update(clusterIP: string, dests: set<string>)

  datatype MeshMode = Auto | Enabled | Disabled

  datatype Config = Config(usePassthroughLb: bool, meshMode: MeshMode, enableProbeOptimisation: bool)

  datatype ProbeOutcome = ProbeOutcome(ok: bool, notMesh: bool)

  /** What the world answers during one check: each pod's probe, getDest, probeClusterIP. */
  datatype Env = Env(probe: string -> ProbeOutcome, service: Option<string>, clusterOk: bool) {
    /** net.JoinHostPort never yields an empty string. */
    predicate Ok() { service.Some? ==> service.value != "" }
  }

  datatype State = State(
    healthyPods: set<string>,
    clusterIPHealthy: bool,
    podsAddressable: bool,
    cur: Dests,
    prev: Dests,
    sent: seq<Update>)
  {
    function Send(clusterIP: string, dests: set<string>): State {
      this.(sent := sent + [Update(clusterIP, dests)])
    }

    /** The run loop listens to its ticker only while something is left to probe. */
    predicate TickEnabled() {
      cur.All() != {} && !clusterIPHealthy && cur.All() != healthyPods
    }
  }

  const INITIAL := State({}, false, true, Dests({}, {}), Dests({}, {}), [])

  // ----- specification of a check

  /** A pod is healthy after probing if it was before, if Kubernetes says ready and the
      probe is not needed to detect a mesh, or if its probe passed and readiness allows it. */
  predicate Passes(c: Config, known: set<string>, cur: Dests, probe: string -> ProbeOutcome, d: string) {
    || d in known
    || (c.meshMode != Auto && d in cur.ready)
    || (probe(d).ok && (d in cur.ready || c.enableProbeOptimisation))
  }

  function Probed(c: Config, known: set<string>, cur: Dests, probe: string -> ProbeOutcome): set<string> {
    set d | d in cur.All() && Passes(c, known, cur, probe, d)
  }

  /** Some pod that had to be probed answered in a way no mesh would. */
  predicate SawNotMesh(c: Config, known: set<string>, cur: Dests, probe: string -> ProbeOutcome) {
    exists d :: d in cur.All() && d !in known && !(c.meshMode != Auto && d in cur.ready) && probe(d).notMesh
  }

  function ClusterCheck(c: Config, s: State, e: Env): State {
    if c.usePassthroughLb || c.meshMode == Disabled || e.service.None? then s
    else if s.clusterIPHealthy then s.Send(e.service.value, s.cur.ready)
    else if e.clusterOk then
      s.(podsAddressable := false, clusterIPHealthy := true, healthyPods := {}).Send(e.service.value, s.cur.ready)
    else s
  }

  function Check(c: Config, s: State, e: Env): State {
    if s.cur.All() == {} then
      s.(clusterIPHealthy := false, healthyPods := {}).Send("", {})
    else if s.podsAddressable && c.meshMode != Enabled then
      var reprobe := s.prev.ready * s.cur.notReady;
      var known := s.healthyPods - reprobe;
      var hs := Probed(c, known, s.cur, e.probe);
      if hs != known || reprobe != {} then s.(healthyPods := hs).Send("", hs)
      else if hs != {} || SawNotMesh(c, known, s.cur, e.probe) then s
      else ClusterCheck(c, s, e)
    else ClusterCheck(c, s, e)
  }

  datatype Event = Endpoints(dests: Dests) | Tick

  /** One turn of the run loop; a tick while the ticker is not listened to is no event. */
  function Turn(c: Config, s: State, ev: Event, e: Env): State {
    match ev
    case Endpoints(x) => Check(c, s.(prev := s.cur, cur := x), e)
    case Tick => if s.TickEnabled() then Check(c, s, e) else s
  }

  function Run(c: Config, events: seq<(Event, Env)>): State {
    if events == [] then INITIAL
    else
      var n := |events| - 1;
      Turn(c, Run(c, events[..n]), events[n].0, events[n].1)
  }

  // ----- safety

  /** The last report and the watcher's own view agree. */
  predicate LastAgrees(s: State) {
    if s.sent == [] then s.healthyPods == {}
    else
      var last := s.sent[|s.sent| - 1];
      if last.clusterIP == "" then last.dests == s.healthyPods else s.healthyPods == {}
  }

  /** Healthy pods are current endpoints, and ready ones unless probes may run ahead. */
  predicate WithinEndpoints(c: Config, s: State) {
    && s.healthyPods <= s.cur.All()
    && (!c.enableProbeOptimisation ==> s.healthyPods <= s.cur.ready)
  }

  predicate ReportsPods(u: Update) { u.clusterIP == "" && u.dests != {} }

  /** After a cluster IP has been reported no individual pods are. */
  predicate PodsNeverAfterClusterIP(sent: seq<Update>) {
    forall j, k :: 0 <= j < k < |sent| && sent[j].clusterIP != "" ==> !ReportsPods(sent[k])
  }

  ghost predicate Inv(c: Config, s: State) {
    && LastAgrees(s)
    && WithinEndpoints(c, s)
    && PodsNeverAfterClusterIP(s.sent)
    && (!s.podsAddressable || c.meshMode == Enabled ==> s.healthyPods == {})
    && (s.podsAddressable ==> !s.clusterIPHealthy && forall j :: 0 <= j < |s.sent| ==> s.sent[j].clusterIP == "")
  }

  /** Sending u keeps the order of reports, if it reports no pods or no cluster IP came before. */
  lemma SendKeepsOrder(sent: seq<Update>, u: Update)
    requires PodsNeverAfterClusterIP(sent)
    requires !ReportsPods(u) || forall j :: 0 <= j < |sent| ==> sent[j].clusterIP == ""
    ensures PodsNeverAfterClusterIP(sent + [u])
  {
  }

  lemma ClusterCheckKeepsInv(c: Config, s: State, e: Env)
    requires Inv(c, s) && e.Ok() && (s.podsAddressable && c.meshMode != Enabled ==> s.healthyPods == {})
    ensures Inv(c, ClusterCheck(c, s, e))
  {
    if e.service.Some? {
      SendKeepsOrder(s.sent, Update(e.service.value, s.cur.ready));
    }
  }

  /** A check keeps the invariant even right after the endpoints changed, when the
      healthy pods are only known to lie within the previous endpoints. */
  lemma CheckKeepsInv(c: Config, s: State, e: Env)
    requires e.Ok()
    requires LastAgrees(s) && PodsNeverAfterClusterIP(s.sent)
    requires !s.podsAddressable || c.meshMode == Enabled ==> s.healthyPods == {}
    requires s.podsAddressable ==> !s.clusterIPHealthy && forall j :: 0 <= j < |s.sent| ==> s.sent[j].clusterIP == ""
    requires !c.enableProbeOptimisation ==> s.healthyPods <= s.prev.ready || s.healthyPods <= s.cur.ready
    ensures Inv(c, Check(c, s, e))
  {
    if s.cur.All() == {} {
      SendKeepsOrder(s.sent, Update("", {}));
    } else if s.podsAddressable && c.meshMode != Enabled {
      var reprobe := s.prev.ready * s.cur.notReady;
      var known := s.healthyPods - reprobe;
      var hs := Probed(c, known, s.cur, e.probe);
      assert !c.enableProbeOptimisation ==> hs <= s.cur.ready by {
        if !c.enableProbeOptimisation {
          ProbedWithinReady(c, s, e.probe);
        }
      }
      if hs != known || reprobe != {} {
        SendKeepsOrder(s.sent, Update("", hs));
      } else {
        assert known == s.healthyPods;
        if hs == {} && !SawNotMesh(c, known, s.cur, e.probe) {
          ClusterCheckKeepsInv(c, s, e);
        }
      }
    } else {
      ClusterCheckKeepsInv(c, s, e);
    }
  }

  /** A pod that left the ready set is reprobed, so without probe optimisation only
      ready pods stay healthy. */
  lemma ProbedWithinReady(c: Config, s: State, probe: string -> ProbeOutcome)
    requires !c.enableProbeOptimisation
    requires s.healthyPods <= s.prev.ready || s.healthyPods <= s.cur.ready
    ensures Probed(c, s.healthyPods - s.prev.ready * s.cur.notReady, s.cur, probe) <= s.cur.ready
  {
  }

  lemma TurnKeepsInv(c: Config, s: State, ev: Event, e: Env)
    requires Inv(c, s) && e.Ok()
    ensures Inv(c, Turn(c, s, ev, e))
  {
    match ev
    case Endpoints(x) => CheckKeepsInv(c, s.(prev := s.cur, cur := x), e);
    case Tick => CheckKeepsInv(c, s, e);
  }

  /** Watcher safety over every run of endpoint updates, ticks and probe outcomes. */
  lemma {:induction false} RunIsSafe(c: Config, events: seq<(Event, Env)>)
    requires forall k :: 0 <= k < |events| ==> events[k].1.Ok()
    ensures Inv(c, Run(c, events))
    ensures var s := Run(c, events);
      && s.healthyPods <= s.cur.ready + s.cur.notReady
      && (!c.enableProbeOptimisation ==> s.healthyPods <= s.cur.ready)
      && (s.sent == [] ==> s.healthyPods == {})
      && (s.sent != [] && s.sent[|s.sent| - 1].clusterIP == "" ==> s.sent[|s.sent| - 1].dests == s.healthyPods)
      && (s.sent != [] && s.sent[|s.sent| - 1].clusterIP != "" ==> s.healthyPods == {})
      && forall j, k :: 0 <= j < k < |s.sent| && s.sent[j].clusterIP != "" && s.sent[k].clusterIP == "" ==>
           s.sent[k].dests == {}
  {
    if events != [] {
      var n := |events| - 1;
      RunIsSafe(c, events[..n]);
      TurnKeepsInv(c, Run(c, events[..n]), events[n].0, events[n].1);
    }
  }

  // ----- the watcher itself

  /** A report that says what the check left behind: a cluster IP with exactly the ready
      endpoints, or else exactly the healthy pods. */
  predicate Describes(u: Update, t: State) {
    u.dests == if u.clusterIP != "" then t.cur.ready else t.healthyPods
  }

  /** Between two states at most one report was sent, and it describes the second. */
  predicate ReportsOnce(s: State, t: State) {
    t.sent == s.sent || (|t.sent| == |s.sent| + 1 && s.sent <= t.sent && Describes(t.sent[|s.sent|], t))
  }

  lemma TurnReports(c: Config, s: State, ev: Event, e: Env)
    requires e.Ok()
    ensures ReportsOnce(s, Turn(c, s, ev, e))
  {
  }

  /** Report j was sent by turn k and describes what that turn's check left behind. */
  ghost predicate SentByTurn(c: Config, events: seq<(Event, Env)>, j: nat, k: nat) {
    && k < |events|
    && var t := Run(c, events[..k + 1]);
       && |Run(c, events[..k]).sent| == j && |t.sent| == j + 1
       && t.sent <= Run(c, events).sent && Describes(t.sent[j], t)
  }

  /** Over every run, each cluster-IP report carries exactly the ready endpoints of the
      check that sent it, each other report exactly its healthy pods. */
  lemma {:induction false} ReportsMatchTheirCheck(c: Config, events: seq<(Event, Env)>, j: nat) returns (k: nat)
    requires j < |Run(c, events).sent| && forall i :: 0 <= i < |events| ==> events[i].1.Ok()
    ensures SentByTurn(c, events, j, k)
  {
    hide Turn, Describes;
    var n := |events| - 1;
    var before := events[..n];
    TurnReports(c, Run(c, before), events[n].0, events[n].1);
    if j < |Run(c, before).sent| {
      k := ReportsMatchTheirCheck(c, before, j);
      assert events[..k + 1] == before[..k + 1] && events[..k] == before[..k];
    } else {
      k := n;
      assert events[..n + 1] == events;
    }
  }

  // ----- what a check decides

  /** After a check that probes pods, the healthy ones are exactly the current endpoints that
      were healthy and have not stopped being ready, that Kubernetes calls ready where the
      probe need not detect a mesh, or whose probe passed, which counts for a pod that is not
      ready only with probe optimisation. */
  lemma CheckHealth(c: Config, s: State, e: Env, d: string)
    requires s.cur.ready + s.cur.notReady != {} && s.podsAddressable && c.meshMode != Enabled
    ensures d in Check(c, s, e).healthyPods <==>
              && (d in s.cur.ready || d in s.cur.notReady)
              && (|| (d in s.healthyPods && !(d in s.prev.ready && d in s.cur.notReady))
                  || (c.meshMode == Disabled && d in s.cur.ready)
                  || (e.probe(d).ok && (d in s.cur.ready || c.enableProbeOptimisation)))
  {
    var known := s.healthyPods - s.prev.ready * s.cur.notReady;
    var hs := Probed(c, known, s.cur, e.probe);
    assert d in hs <==> d in s.cur.All() && Passes(c, known, s.cur, e.probe, d);
    if hs == {} {
      assert d !in hs;
    }
  }

  /** A check gets as far as the cluster IP: there are endpoints, the configuration allows it,
      and no pod is healthy, has just stopped being ready, passes its probe, or answers in a
      way that rules out a mesh. */
  ghost predicate ReachesClusterIP(c: Config, s: State, e: Env) {
    && s.cur.ready + s.cur.notReady != {} && !c.usePassthroughLb && c.meshMode != Disabled
    && (s.podsAddressable && c.meshMode == Auto ==>
          && s.healthyPods == {} && s.prev.ready * s.cur.notReady == {}
          && forall d :: d in s.cur.ready || d in s.cur.notReady ==>
               !e.probe(d).notMesh && !(e.probe(d).ok && (d in s.cur.ready || c.enableProbeOptimisation)))
  }

  lemma NothingProbed(c: Config, s: State, e: Env)
    requires ReachesClusterIP(c, s, e) && s.podsAddressable && c.meshMode == Auto
    ensures Probed(c, s.healthyPods - s.prev.ready * s.cur.notReady, s.cur, e.probe) == {}
    ensures !SawNotMesh(c, s.healthyPods - s.prev.ready * s.cur.notReady, s.cur, e.probe)
  {
  }

  /** What such a check does.  With a service whose address answers now, or did before, it
      reports exactly that address with the ready endpoints; otherwise it changes nothing. */
  lemma ClusterIPDecision(c: Config, s: State, e: Env)
    requires ReachesClusterIP(c, s, e)
    ensures e.service.Some? && (e.clusterOk || s.clusterIPHealthy) ==>
              var t := Check(c, s, e);
              && t.sent == s.sent + [Update(e.service.value, s.cur.ready)]
              && t.clusterIPHealthy && (!s.clusterIPHealthy ==> !t.podsAddressable && t.healthyPods == {})
    ensures e.service.None? || (!e.clusterOk && !s.clusterIPHealthy) ==> Check(c, s, e) == s
  {
    if s.podsAddressable && c.meshMode == Auto {
      NothingProbed(c, s, e);
    }
  }

  /** A check that does not get that far reports no cluster IP. */
  lemma OtherwiseNoClusterIP(c: Config, s: State, e: Env)
    requires !ReachesClusterIP(c, s, e)
    ensures var t := Check(c, s, e);
      t.sent == s.sent || (|t.sent| == |s.sent| + 1 && s.sent <= t.sent && t.sent[|s.sent|].clusterIP == "")
  {
    if s.cur.All() != {} && s.podsAddressable && c.meshMode == Auto && !c.usePassthroughLb {
      var known := s.healthyPods - s.prev.ready * s.cur.notReady;
      var hs := Probed(c, known, s.cur, e.probe);
      if hs == known && hs == {} && s.prev.ready * s.cur.notReady == {} && !SawNotMesh(c, known, s.cur, e.probe) {
        assert s.healthyPods == {};
        assert forall d :: d in s.cur.All() ==> d !in hs && d !in known;
      }
    }
  }

  /** Without endpoints a check reports that nothing is healthy, and forgets the cluster IP. */
  lemma NoEndpointsDecision(c: Config, s: State, e: Env)
    requires s.cur.ready + s.cur.notReady == {}
    ensures var t := Check(c, s, e);
      t.sent == s.sent + [Update("", {})] && t.healthyPods == {} && !t.clusterIPHealthy
      && t.podsAddressable == s.podsAddressable
  {
  }

  /** A tick does nothing once every endpoint is healthy, a cluster IP is, or there is no
      endpoint; otherwise it checks. */
  lemma TickDecision(c: Config, s: State, e: Env)
    ensures Turn(c, s, Tick, e) ==
            if s.cur.ready + s.cur.notReady == {} || s.clusterIPHealthy || s.healthyPods == s.cur.ready + s.cur.notReady
            then s else Check(c, s, e)
  {
  }

  /** The turn of an event, with the endpoints it leaves. */
  lemma TurnClusterIP(c: Config, s: State, ev: Event, e: Env)
    requires e.Ok()
    ensures var t := Turn(c, s, ev, e);
      && (|t.sent| == |s.sent| + 1 && t.sent[|s.sent|].clusterIP != "" ==>
            e.service == Some(t.sent[|s.sent|].clusterIP) && t.clusterIPHealthy)
      && (t.clusterIPHealthy ==> t.cur.ready + t.cur.notReady != {} || t == s)
      && (t.clusterIPHealthy && !s.clusterIPHealthy ==> e.clusterOk)
  {
  }

  /** Some turn found the cluster IP healthy, and there have been endpoints ever since. */
  ghost predicate ClusterIPProbed(c: Config, events: seq<(Event, Env)>) {
    exists k :: 0 <= k < |events| && events[k].1.clusterOk && EndpointsSince(c, events, k)
  }

  ghost predicate EndpointsSince(c: Config, events: seq<(Event, Env)>, k: nat) {
    forall i :: k < i <= |events| ==> Run(c, events[..i]).cur.All() != {}
  }

  lemma {:induction false} HealthyWasProbed(c: Config, events: seq<(Event, Env)>)
    requires Run(c, events).clusterIPHealthy && forall i :: 0 <= i < |events| ==> events[i].1.Ok()
    ensures ClusterIPProbed(c, events) && Run(c, events).cur.All() != {}
  {
    hide Turn;
    var n := |events| - 1;
    var before := events[..n];
    TurnClusterIP(c, Run(c, before), events[n].0, events[n].1);
    assert events[..n + 1] == events;
    if Run(c, before).clusterIPHealthy {
      HealthyWasProbed(c, before);
      var k :| 0 <= k < n && before[k].1.clusterOk && EndpointsSince(c, before, k);
      forall i | k < i <= |events|
        ensures Run(c, events[..i]).cur.All() != {}
      {
        if i <= n {
          assert events[..i] == before[..i];
        }
      }
      assert events[k] == before[k];
      assert EndpointsSince(c, events, k);
    } else {
      assert EndpointsSince(c, events, n);
    }
  }

  /** Over every run, a report of a cluster IP carries the service address its own turn looked
      up, and the address's probe passed in that turn or an earlier one with endpoints ever
      since. */
  lemma ClusterIPReportsWereProbed(c: Config, events: seq<(Event, Env)>, j: nat) returns (k: nat)
    requires j < |Run(c, events).sent| && forall i :: 0 <= i < |events| ==> events[i].1.Ok()
    ensures SentByTurn(c, events, j, k)
    ensures Run(c, events).sent[j].clusterIP != "" ==>
              && events[k].1.service == Some(Run(c, events).sent[j].clusterIP)
              && ClusterIPProbed(c, events[..k + 1])
  {
    hide Turn, Describes;
    k := ReportsMatchTheirCheck(c, events, j);
    var upTo := events[..k + 1];
    var t := Run(c, upTo);
    if t.sent[j].clusterIP != "" {
      assert upTo[..k] == events[..k];
      var before := Run(c, upTo[..k]);
      assert t == Turn(c, before, events[k].0, events[k].1);
      TurnReports(c, before, events[k].0, events[k].1);
      TurnClusterIP(c, before, events[k].0, events[k].1);
      HealthyWasProbed(c, upTo);
    }
  }

  /** With passthrough load balancing or no mesh no cluster IP is ever reported, and with a
      mesh no individual pods are. */
  lemma {:induction false} ModeDecidesReports(c: Config, events: seq<(Event, Env)>, j: nat)
    requires j < |Run(c, events).sent| && forall i :: 0 <= i < |events| ==> events[i].1.Ok()
    ensures c.usePassthroughLb || c.meshMode == Disabled ==> Run(c, events).sent[j].clusterIP == ""
    ensures c.meshMode == Enabled ==> !ReportsPods(Run(c, events).sent[j])
  {
    hide Probed, SawNotMesh;
    var n := |events| - 1;
    var before := Run(c, events[..n]);
    TurnReports(c, before, events[n].0, events[n].1);
    RunIsSafe(c, events);
    if j < |before.sent| {
      ModeDecidesReports(c, events[..n], j);
    }
  }

  function ProbePassed(
    c: Config, dests: set<string>, healthy: set<string>, cur: Dests, probe: string -> ProbeOutcome): set<string>
  {
    set d | d in dests && d !in healthy && probe(d).ok && (d in cur.ready || c.enableProbeOptimisation)
  }

  predicate ProbeNotMesh(dests: set<string>, healthy: set<string>, probe: string -> ProbeOutcome) {
    exists d :: d in dests && d !in healthy && probe(d).notMesh
  }

  lemma ProbeNone(c: Config, healthy: set<string>, cur: Dests, probe: string -> ProbeOutcome)
    ensures ProbePassed(c, {}, healthy, cur, probe) == {} && !ProbeNotMesh({}, healthy, probe)
  {
  }

  lemma ProbeOneMore(
    c: Config, done: set<string>, d: string, healthy: set<string>, cur: Dests, probe: string -> ProbeOutcome)
    ensures ProbePassed(c, done + {d}, healthy, cur, probe) ==
            ProbePassed(c, done, healthy, cur, probe)
            + (if d !in healthy && probe(d).ok && (d in cur.ready || c.enableProbeOptimisation) then {d} else {})
    ensures ProbeNotMesh(done + {d}, healthy, probe) <==>
            ProbeNotMesh(done, healthy, probe) || (d !in healthy && probe(d).notMesh)
  {
  }

  /** Adding the pods that passed and dropping those that are gone gives exactly Probed. */
  lemma ProbedClosedForm(c: Config, known: set<string>, cur: Dests, probe: string -> ProbeOutcome,
                         healthy: set<string>, passed: set<string>)
    requires healthy == if c.meshMode != Auto then known + cur.ready else known
    requires passed == ProbePassed(c, cur.All(), healthy, cur, probe)
    ensures (set d | d in healthy + passed && d in cur.All()) == Probed(c, known, cur, probe)
    ensures ProbeNotMesh(cur.All(), healthy, probe) == SawNotMesh(c, known, cur, probe)
  {
  }

  class RevisionWatcher {
    const config: Config
    var healthyPods: set<string>
    var clusterIPHealthy: bool
    var podsAddressable: bool
    var curDests: Dests
    var prevDests: Dests
    var updates: seq<Update>

    ghost function View(): State
      reads this
    {
      State(healthyPods, clusterIPHealthy, podsAddressable, curDests, prevDests, updates)
    }

    constructor (config: Config)
      ensures this.config == config && View() == INITIAL
    {
      this.config := config;
      healthyPods, clusterIPHealthy, podsAddressable := {}, false, true;
      curDests, prevDests, updates := Dests({}, {}), Dests({}, {}), [];
    }

    /** probePodIPs: every pod not already known healthy is probed, in any order. */
    method ProbePodIPs(probe: string -> ProbeOutcome) returns (succeeded: set<string>, noop: bool, notMesh: bool)
      ensures succeeded == Probed(config, healthyPods, curDests, probe)
      ensures noop == (succeeded == healthyPods)
      ensures notMesh == SawNotMesh(config, healthyPods, curDests, probe)
    {
      var dests := curDests.ready + curDests.notReady;
      if healthyPods == dests {
        return healthyPods, true, false;
      }
      var healthy := healthyPods;
      if config.meshMode != Auto {
        healthy := healthy + curDests.ready;
      }
      var passed, sawNotMesh := ProbeUnknown(dests, healthy, probe);
      ProbedClosedForm(config, healthyPods, curDests, probe, healthy, passed);
      healthy := set d | d in healthy + passed && d in dests;
      succeeded, noop, notMesh := healthy, healthy == healthyPods, sawNotMesh;
    }

    /** The probe group: each pod outside healthy is probed once, in any order. */
    method ProbeUnknown(dests: set<string>, healthy: set<string>, probe: string -> ProbeOutcome)
      returns (passed: set<string>, notMesh: bool)
      ensures passed == ProbePassed(config, dests, healthy, curDests, probe)
      ensures notMesh == ProbeNotMesh(dests, healthy, probe)
    {
      hide ProbePassed, ProbeNotMesh;
      passed, notMesh := {}, false;
      var left := dests;
      ProbeNone(config, healthy, curDests, probe);
      assert dests - left == {};
      while left != {}
        invariant left <= dests
        invariant passed == ProbePassed(config, dests - left, healthy, curDests, probe)
        invariant notMesh == ProbeNotMesh(dests - left, healthy, probe)
        decreases |left|
      {
        var d :| d in left;
        ghost var done := dests - left;
        left := left - {d};
        assert dests - left == done + {d};
        ProbeOneMore(config, done, d, healthy, curDests, probe);
        if d !in healthy {
          var outcome := probe(d);
          if outcome.ok && (d in curDests.ready || config.enableProbeOptimisation) {
            passed := passed + {d};
          }
          if outcome.notMesh {
            notMesh := true;
          }
        }
      }
      assert dests - left == dests;
    }

    /** checkDests. */
    method CheckDests(e: Env)
      modifies this
      ensures View() == Check(config, old(View()), e)
    {
      if curDests.ready == {} && curDests.notReady == {} {
        clusterIPHealthy := false;
        healthyPods := {};
        updates := updates + [Update("", {})];
        return;
      }
      if podsAddressable && config.meshMode != Enabled {
        var reprobe := prevDests.ready * curDests.notReady;
        healthyPods := healthyPods - reprobe;
        var hs, noop, notMesh := ProbePodIPs(e.probe);
        if !noop || reprobe != {} {
          healthyPods := hs;
          updates := updates + [Update("", hs)];
          return;
        }
        assert healthyPods == old(healthyPods);
        if hs != {} || notMesh {
          return;
        }
      }
      CheckClusterIP(e);
    }

    /** The fallback at the end of checkDests. */
    method CheckClusterIP(e: Env)
      modifies this
      ensures View() == ClusterCheck(config, old(View()), e)
    {
      if config.usePassthroughLb || config.meshMode == Disabled || e.service.None? {
        return;
      }
      if clusterIPHealthy {
        updates := updates + [Update(e.service.value, curDests.ready)];
        return;
      }
      if e.clusterOk {
        podsAddressable := false;
        clusterIPHealthy := true;
        healthyPods := {};
        updates := updates + [Update(e.service.value, curDests.ready)];
      }
    }

    /** One turn of the run loop. */
    method HandleEvent(ev: Event, e: Env)
      modifies this
      ensures View() == Turn(config, old(View()), ev, e)
    {
      match ev
      case Endpoints(x) =>
        prevDests, curDests := curDests, x;
        CheckDests(e);
      case Tick =>
        var listening := curDests.ready + curDests.notReady != {} && !clusterIPHealthy
                         && curDests.ready + curDests.notReady != healthyPods;
        if listening {
          CheckDests(e);
        }
    }
  }
}
