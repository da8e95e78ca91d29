/** Revisions under all their controllers: created by a configuration, labelled by route
    syncs and finalizations, deleted by garbage collection, in any order.  Each controller
    reads copies from a cache and writes to the API server later; a copy is some version the
    object has had so far, not the same for every reader.  One sync may be any number of
    Sync events, each doing some of its patches, and one collection any number of Collect
    events, so whatever happens between two of their calls is covered as well. */
module Lifecycle {
  import opened Common
  import opened Revisions
  import Labeler
  import Metasync
  import Gc

  type Store = map<string, Revision>

  function Metas(s: Store): map<string, Meta> { map n | n in s :: s[n].meta }

  datatype Event =
    | Create(name: string, config: string, configRoutes: Option<string>, preserved: string, now: int)
    | Sync(route: string, resolved: bool, names: set<string>, now: int, listed: Store, copies: Store)
    | Finalize(route: string, now: int, listed: Store, copies: Store)
    | Collect(cfg: Gc.Config, config: string, latestReady: string, now: int,
              listed: Store, listing: seq<Revision>, order: seq<Revision>, gone: set<nat>)

  /** MakeRevision: a configuration that carries routes hands them on, with the active
      label; otherwise the revision is pending until the labeler sees it. */
  function MakeRevision(
    name: string, config: string, configRoutes: Option<string>, preserved: string, now: int): Revision
  {
    Revision(name, config,
             if configRoutes.Some? then Meta(configRoutes, ACTIVE, Some(now)) else Meta(None, "pending", Some(now)),
             preserved, now)
  }

  /** Only patched metadata differs. */
  ghost predicate Relabelled(a: Store, b: Store) {
    a.Keys == b.Keys && forall n :: n in a ==> b[n] == a[n].(meta := b[n].meta)
  }

  function ViewOf(listed: Store, copies: Store): Metasync.View { Metasync.View(Metas(listed), Metas(copies)) }

  /** Some or all patches of a sync made from those copies. */
  ghost predicate SyncStep(
    a: Store, b: Store, listed: Store, copies: Store, route: string, resolved: bool, names: set<string>, now: int)
  {
    && Labeler.RouteName(route) && Relabelled(a, b)
    && Metasync.Partly(Metas(a), Metas(b),
                       Metasync.SyncedFrom(Metas(a), ViewOf(listed, copies), route, true, resolved, names, now))
  }

  /** A configuration's revisions as the lister gives them. */
  ghost predicate ListingOf(s: Store, config: string, listing: seq<Revision>) {
    && (forall i :: 0 <= i < |listing| ==>
          listing[i].name in s && s[listing[i].name] == listing[i] && listing[i].config == config)
    && (forall n :: n in s && s[n].config == config ==> s[n] in listing)
  }

  /** What each event may do.  Deletes are unconditional; a failed one leaves its revision. */
  ghost predicate Step(a: Store, e: Event, b: Store) {
    match e
    case Create(name, config, configRoutes, preserved, now) =>
      name !in a && b == a[name := MakeRevision(name, config, configRoutes, preserved, now)]
    case Sync(route, resolved, names, now, listed, copies) =>
      SyncStep(a, b, listed, copies, route, resolved, names, now)
    case Finalize(route, now, listed, copies) => SyncStep(a, b, listed, copies, route, true, {}, now)
    case Collect(cfg, config, latestReady, now, listed, listing, order, gone) =>
      && cfg.Valid() && ListingOf(listed, config, listing)
      && Gc.SortedBy(order, Gc.NonActive(listing, latestReady)) && Gc.Collected(cfg, order, now, gone)
      && (forall n :: n in b ==> n in a && b[n] == a[n])
      && (forall n :: n in a && n !in b ==> exists d :: d in gone && order[d].name == n)
  }

  /** The copy is a version the object had between two states. */
  ghost predicate Version(states: seq<Store>, lo: nat, hi: nat, n: string, copy: Revision) {
    exists k: nat :: lo <= k <= hi && k < |states| && n in states[k] && states[k][n] == copy
  }

  /** Every copy of revision n the event reads is a version from between two states. */
  ghost predicate Reads(e: Event, states: seq<Store>, lo: nat, hi: nat, n: string) {
    && (!e.Create? && n in e.listed ==> Version(states, lo, hi, n, e.listed[n]))
    && ((e.Sync? || e.Finalize?) && n in e.copies ==> Version(states, lo, hi, n, e.copies[n]))
  }

  /** Events read versions from any time up to when they write. */
  ghost predicate Run(states: seq<Store>, events: seq<Event>) {
    && |states| == |events| + 1
    && (forall i: nat :: i < |events| ==> Step(states[i], events[i], states[i + 1]))
    && (forall i: nat, n :: i < |events| ==> Reads(events[i], states, 0, i, n))
  }

  // ----- collection

  /** A member of the sorted list is a non-active member of the listing. */
  lemma SortedMember(listing: seq<Revision>, order: seq<Revision>, latestReady: string, d: nat)
    requires Gc.SortedBy(order, Gc.NonActive(listing, latestReady)) && d < |order|
    ensures order[d] in listing && !Gc.IsActive(order[d], latestReady)
  {
    hide Gc.IsActive;
    assert order[d] in multiset(order);
    Gc.NonActiveCount(listing, latestReady, order[d]);
  }

  /** Collection deletes only revisions that count as non-active in the copy it listed,
      whatever they have become since. */
  lemma CollectedWereNonActive(a: Store, e: Event, b: Store, n: string)
    requires Step(a, e, b) && e.Collect? && n in a && n !in b
    ensures n in e.listed && !Gc.IsActive(e.listed[n], e.latestReady) && e.listed[n].config == e.config
  {
    hide Gc.IsActive, Gc.NonActive;
    var d :| d in e.gone && e.order[d].name == n;
    SortedMember(e.listing, e.order, e.latestReady, d);
  }

  /** The sorted list holds exactly the listed revisions that are not the latest ready one, are
      not marked as preserved and are in reserve. */
  lemma SortedExactly(listing: seq<Revision>, order: seq<Revision>, latestReady: string, r: Revision)
    requires Gc.SortedBy(order, Gc.NonActive(listing, latestReady))
    ensures r in order <==>
              r in listing && r.name != latestReady && !Gc.SaysTrue(r.preserved) && r.meta.state == "reserve"
  {
    hide Gc.IsActive;
    assert r in order <==> r in multiset(order);
    assert r in listing <==> r in multiset(listing);
    Gc.NonActiveCount(listing, latestReady, r);
    Gc.ActiveExactly(r, latestReady);
  }

  /** In every run the latest ready revision of the configuration survives its collections, and
      so does every revision listed with a preserved annotation that says true. */
  lemma KeptForGood(states: seq<Store>, events: seq<Event>, i: nat, n: string)
    requires Run(states, events) && i < |events| && events[i].Collect? && n in states[i]
    requires n == events[i].latestReady || (n in events[i].listed && Gc.SaysTrue(events[i].listed[n].preserved))
    ensures n in states[i + 1] && states[i + 1][n] == states[i][n]
  {
    hide Gc.NonActive, Gc.IsActive, Gc.SortedBy, Gc.SaysTrue;
    var e := events[i];
    assert Step(states[i], e, states[i + 1]);
    if n !in states[i + 1] {
      var d :| d in e.gone && e.order[d].name == n;
      DeletedExactly(states[i], e, states[i + 1], d);
    }
  }

  lemma DeletedExactly(a: Store, e: Event, b: Store, d: nat)
    requires Step(a, e, b) && e.Collect? && d in e.gone
    ensures d < |e.order| && e.order[d].name in e.listed && e.listed[e.order[d].name] == e.order[d]
    ensures e.order[d].name != e.latestReady && !Gc.SaysTrue(e.order[d].preserved) && e.order[d].meta.state == "reserve"
  {
    hide Gc.NonActive, Gc.IsActive, Gc.SaysTrue;
    SortedExactly(e.listing, e.order, e.latestReady, e.order[d]);
  }

  /** A new revision carries its configuration's routes and is then active, or is pending; no
      collector that sees it so takes it. */
  lemma MadeExactly(
    name: string, config: string, configRoutes: Option<string>, preserved: string, now: int, latest: string)
    ensures var r := MakeRevision(name, config, configRoutes, preserved, now);
      && r.meta.routes == configRoutes && r.meta.state == (if configRoutes.Some? then "active" else "pending")
      && r.meta.modified == Some(now) && Gc.IsActive(r, latest)
  {
    var active, pending, reserve := "active", "pending", "reserve";
    assert active[0] != reserve[0] && pending[0] != reserve[0];
    hide Gc.IsActive;
    Gc.ActiveExactly(MakeRevision(name, config, configRoutes, preserved, now), latest);
  }

  /** Not seen in reserve, a revision survives. */
  lemma StepSpares(a: Store, e: Event, b: Store, n: string)
    requires Step(a, e, b) && e.Collect? && n in a && (n in e.listed ==> e.listed[n].meta.state != RESERVE)
    ensures n in b && b[n] == a[n]
  {
    hide Gc.NonActive, Gc.Collected, Gc.SortedBy;
    if n !in b {
      CollectedWereNonActive(a, e, b, n);
    }
  }

  /** In every run, a revision survives a collection that lists versions no older than state
      k, if it has not been in reserve since. */
  lemma NotReserveNeverCollected(states: seq<Store>, events: seq<Event>, k: nat, i: nat, n: string)
    requires Run(states, events) && k <= i < |events| && events[i].Collect? && n in states[i]
    requires Reads(events[i], states, k, i, n)
    requires forall j: nat :: k <= j <= i && n in states[j] ==> states[j][n].meta.state != RESERVE
    ensures n in states[i + 1] && states[i + 1][n] == states[i][n]
  {
    hide Step;
    StepSpares(states[i], events[i], states[i + 1], n);
  }

  // ----- the label, under safe views

  ghost predicate Inv(s: Store) { Metasync.AllConsistent(Metas(s)) }

  /** Every patch the event may make keeps its revision consistent. */
  ghost predicate Safe(a: Store, e: Event) {
    match e
    case Sync(route, _, names, _, listed, copies) => Metasync.SafeView(Metas(a), ViewOf(listed, copies), route, names)
    case Finalize(route, _, listed, copies) => Metasync.SafeView(Metas(a), ViewOf(listed, copies), route, {})
    case _ => true
  }

  /** The event reads what is stored. */
  predicate UpToDate(a: Store, e: Event) {
    match e
    case Create(_, _, _, _, _) => true
    case Sync(_, _, _, _, listed, copies) => listed == copies == a
    case Finalize(_, _, listed, copies) => listed == copies == a
    case Collect(_, _, _, _, listed, _, _, _) => listed == a
  }

  lemma UpToDateIsSafe(a: Store, e: Event)
    requires UpToDate(a, e)
    ensures Safe(a, e)
  {
    hide Metasync.SafeView;
    match e
    case Sync(route, _, names, _, _, _) => Metasync.CurrentIsSafe(Metas(a), route, names);
    case Finalize(route, _, _, _) => Metasync.CurrentIsSafe(Metas(a), route, {});
    case _ =>
  }

  lemma StepKeepsInv(a: Store, e: Event, b: Store)
    requires Inv(a) && Step(a, e, b) && Safe(a, e)
    ensures Inv(b)
  {
    hide Labeler.PatchedFrom, Gc.Collected, Metasync.SyncedFrom, Metasync.SafeView, Gc.SortedBy, ListingOf;
    match e
    case Sync(route, resolved, names, now, listed, copies) =>
      Metasync.PartlySyncedConsistent(Metas(a), ViewOf(listed, copies), Metas(b), route, resolved, names, now);
    case Finalize(route, now, listed, copies) =>
      Metasync.PartlySyncedConsistent(Metas(a), ViewOf(listed, copies), Metas(b), route, true, {}, now);
    case _ =>
      assert forall n :: n in b ==> Metas(b)[n] == b[n].meta;
      assert forall n :: n in a ==> Metas(a)[n] == a[n].meta;
  }

  /** Over every run of safe events a routed revision is labelled active. */
  lemma {:induction false} RunKeepsInv(states: seq<Store>, events: seq<Event>, i: nat)
    requires Run(states, events) && Inv(states[0]) && i <= |events|
    requires forall j: nat :: j < i ==> Safe(states[j], events[j])
    ensures Inv(states[i])
  {
    hide Inv, Step, Safe;
    if i > 0 {
      RunKeepsInv(states, events, i - 1);
      StepKeepsInv(states[i - 1], events[i - 1], states[i]);
    }
  }

  /** After any run of safe events, those that read what is stored among them, a revision
      with a nonempty routes annotation survives a collection that lists it as it is. */
  lemma RoutedNeverCollected(states: seq<Store>, events: seq<Event>, i: nat, n: string)
    requires Run(states, events) && Inv(states[0]) && i < |events| && events[i].Collect?
    requires forall j: nat :: j < i ==> Safe(states[j], events[j]) || UpToDate(states[j], events[j])
    requires n in states[i] && states[i][n].meta.routes.Some? && states[i][n].meta.routes.value != ""
    requires n in events[i].listed ==> events[i].listed[n] == states[i][n]
    ensures n in states[i + 1] && states[i + 1][n] == states[i][n]
  {
    hide Step, Safe, UpToDate;
    forall j: nat | j < i
      ensures Safe(states[j], events[j])
    {
      if UpToDate(states[j], events[j]) {
        UpToDateIsSafe(states[j], events[j]);
      }
    }
    RunKeepsInv(states, events, i);
    assert Labeler.Consistent(Metas(states[i])[n]);
    assert ACTIVE[0] != RESERVE[0];
    StepSpares(states[i], events[i], states[i + 1], n);
  }

  // ----- a route stays, once every cache has seen it

  /** The events that may take the route off the revision. */
  predicate Drops(e: Event, route: string, n: string) {
    match e
    case Sync(r, resolved, names, _, _, _) => r == route && resolved && n !in names
    case Finalize(r, _, _, _) => r == route
    case _ => false
  }

  /** In so many words, and whether an event reads what is stored. */
  lemma DropsExactly(a: Store, e: Event, route: string, n: string)
    ensures Drops(e, route, n) <==>
              || (e.Sync? && e.route == route && e.resolved && n !in e.names)
              || (e.Finalize? && e.route == route)
    ensures UpToDate(a, e) <==> e.Create? || (e.listed == a && (e.Collect? || e.copies == a))
  {
  }

  predicate Carried(r: Revision, route: string) {
    route in Labeler.Names(r.meta.routes) && r.meta.state == ACTIVE
  }

  ghost predicate Carries(s: Store, route: string, n: string) { n in s && Carried(s[n], route) }

  lemma SyncKeepsCarried(
    a: Store, b: Store, listed: Store, copies: Store,
    editor: string, resolved: bool, names: set<string>, now: int, route: string, n: string)
    requires SyncStep(a, b, listed, copies, editor, resolved, names, now)
    requires Labeler.RouteName(route) && Carries(a, route, n) && (n in copies ==> Carried(copies[n], route))
    requires editor == route && resolved ==> n in names
    ensures Carries(b, route, n)
  {
    hide Labeler.Names, Labeler.PatchedFrom, Metasync.Lists, Metasync.SyncedFrom;
    var v := ViewOf(listed, copies);
    Metasync.SyncedFromOne(Metas(a), v, editor, true, resolved, names, now, n);
    assert Metas(a)[n] == a[n].meta && Metas(b)[n] == b[n].meta;
    if n in copies {
      assert v.copies[n] == copies[n].meta;
      Labeler.CarriedStays(copies[n].meta, a[n].meta, editor, false, now, route);
      if editor != route {
        Labeler.CarriedStays(copies[n].meta, a[n].meta, editor, true, now, route);
      }
    }
  }

  /** An event whose copies of the revision all carry the route keeps it, on a revision that
      is kept. */
  lemma StepKeepsCarried(a: Store, e: Event, b: Store, route: string, n: string)
    requires Step(a, e, b) && Labeler.RouteName(route) && Carries(a, route, n) && !Drops(e, route, n)
    requires !e.Create? && n in e.listed ==> Carried(e.listed[n], route)
    requires (e.Sync? || e.Finalize?) && n in e.copies ==> Carried(e.copies[n], route)
    ensures Carries(b, route, n)
  {
    hide Labeler.Names, Gc.Collected, Gc.NonActive, Gc.SortedBy, SyncStep;
    assert ACTIVE[0] != RESERVE[0];
    match e
    case Create(_, _, _, _, _) =>
    case Sync(editor, resolved, names, now, listed, copies) =>
      SyncKeepsCarried(a, b, listed, copies, editor, resolved, names, now, route, n);
    case Finalize(editor, now, listed, copies) =>
      SyncKeepsCarried(a, b, listed, copies, editor, true, {}, now, route, n);
    case Collect(_, _, _, _, _, _, _, _) =>
      StepSpares(a, e, b, n);
  }

  /** Once a revision carries a route and is active, it is kept, carries it and stays active
      through every run of creations, syncs, finalizations and collections, failing or not,
      however old the copies they read, as long as no copy of it is from before then and the
      route neither resolves without the revision nor is finalized. */
  lemma {:induction false} RoutedStaysRouted(
    states: seq<Store>, events: seq<Event>, i: nat, j: nat, route: string, n: string)
    requires Run(states, events) && i <= j <= |events|
    requires Labeler.RouteName(route) && Carries(states[i], route, n)
    requires forall k: nat :: i <= k < j ==> !Drops(events[k], route, n) && Reads(events[k], states, i, k, n)
    ensures forall m: nat :: i <= m <= j ==> Carries(states[m], route, n)
  {
    hide Step, Drops, Carried;
    if i < j {
      RoutedStaysRouted(states, events, i, j - 1, route, n);
      assert Reads(events[j - 1], states, i, j - 1, n);
      StepKeepsCarried(states[j - 1], events[j - 1], states[j], route, n);
    }
  }

  /** So no collection in that stretch deletes it. */
  lemma CarriedNeverCollected(
    states: seq<Store>, events: seq<Event>, i: nat, j: nat, route: string, n: string)
    requires Run(states, events) && i <= j < |events| && events[j].Collect?
    requires Labeler.RouteName(route) && Carries(states[i], route, n)
    requires forall k: nat :: i <= k <= j ==> !Drops(events[k], route, n) && Reads(events[k], states, i, k, n)
    ensures n in states[j + 1] && states[j + 1][n] == states[j][n]
  {
    hide Step, Drops;
    RoutedStaysRouted(states, events, i, j, route, n);
    assert ACTIVE[0] != RESERVE[0];
    NotReserveNeverCollected(states, events, i, j, n);
  }

  // ----- when a revision was last active

  lemma SyncDatesChange(
    a: Store, b: Store, listed: Store, copies: Store,
    route: string, resolved: bool, names: set<string>, now: int, n: string)
    requires SyncStep(a, b, listed, copies, route, resolved, names, now) && n in a
    ensures b[n].meta.modified == Some(now) || b[n].meta.modified == a[n].meta.modified
    ensures b[n].meta.state != a[n].meta.state ==> b[n].meta.modified == Some(now)
    ensures listed == copies == a && b[n].meta.state == a[n].meta.state ==> b[n].meta.modified == a[n].meta.modified
  {
    hide Labeler.PatchedFrom, Labeler.Wanted, Metasync.Lists, Metasync.SyncedFrom;
    var v := ViewOf(listed, copies);
    Metasync.SyncedFromOne(Metas(a), v, route, true, resolved, names, now, n);
    assert Metas(a)[n] == a[n].meta && Metas(b)[n] == b[n].meta;
    if n in copies {
      assert v.copies[n] == copies[n].meta;
      Labeler.PatchedFromState(copies[n].meta, a[n].meta, route, false, now);
      Labeler.PatchedFromState(copies[n].meta, a[n].meta, route, true, now);
    }
  }

  lemma StepDatesChange(a: Store, e: Event, b: Store, n: string)
    requires Step(a, e, b) && n in a && n in b
    ensures b[n].meta.modified == Some(e.now) || b[n].meta.modified == a[n].meta.modified
    ensures b[n].meta.state != a[n].meta.state ==> b[n].meta.modified == Some(e.now)
    ensures UpToDate(a, e) && b[n].meta.state == a[n].meta.state ==> b[n].meta.modified == a[n].meta.modified
  {
    hide Gc.Collected, Gc.NonActive, Gc.SortedBy, SyncStep;
    match e
    case Sync(route, resolved, names, now, listed, copies) =>
      SyncDatesChange(a, b, listed, copies, route, resolved, names, now, n);
    case Finalize(route, now, listed, copies) =>
      SyncDatesChange(a, b, listed, copies, route, true, {}, now, n);
    case _ =>
  }

  /** No event from k on changed the revision's state. */
  ghost predicate SameStateSince(states: seq<Store>, n: string, k: nat, j: nat) {
    && j < |states|
    && forall m: nat :: k < m <= j ==>
         n in states[m] && n in states[j] && states[m][n].meta.state == states[j][n].meta.state
  }

  /** A revision whose state has changed is dated by the event that last changed it or a later
      one that wrote the same state again, never by an earlier one; by the very event that
      last changed it if the events read what is stored.  So the collector never takes it
      for idle longer than since its last route was dropped. */
  lemma {:induction false} LastActiveIsLastChange(states: seq<Store>, events: seq<Event>, i: nat, j: nat, n: string)
    returns (k: nat)
    requires Run(states, events) && i <= j <= |events| && forall m: nat :: i <= m <= j ==> n in states[m]
    requires states[i][n].meta.state != states[j][n].meta.state
    ensures i <= k < j && SameStateSince(states, n, k, j)
    ensures states[j][n].meta.modified == Some(events[k].now) && Gc.LastActive(states[j][n]) == events[k].now
    ensures (forall m: nat :: i <= m < j ==> UpToDate(states[m], events[m])) ==>
              states[k][n].meta.state != states[k + 1][n].meta.state
  {
    hide Step, UpToDate;
    StepDatesChange(states[j - 1], events[j - 1], states[j], n);
    if states[j - 1][n].meta.state != states[j][n].meta.state {
      k := j - 1;
    } else {
      k := LastActiveIsLastChange(states, events, i, j - 1, n);
      if states[j][n].meta.modified != states[j - 1][n].meta.modified {
        k := j - 1;
      }
    }
  }

  // ----- what outdated copies can do

  /** A store with one revision. */
  function Single(m: Meta): Store { map["r" := Revision("r", "c", m, "", 0)] }

  /** Keeping no non-active revision. */
  const KEEP_NONE := Gc.Config(Gc.DISABLED, Gc.DISABLED, 0, 0)

  function Adding(route: string, now: int, copy: Meta): Event {
    Sync(route, false, {"r"}, now, Single(copy), Single(copy))
  }

  function Collecting(now: int, copy: Meta): Event {
    var r := Revision("r", "c", copy, "", 0);
    Collect(KEEP_NONE, "c", "", now, Single(copy), [r], [r], {0})
  }

  lemma AddStep(copy: Meta, stored: Meta, route: string, now: int)
    requires Labeler.RouteName(route)
    ensures Step(Single(stored), Adding(route, now, copy),
                 Single(Labeler.PatchedFrom(copy, stored, route, true, false, now)))
  {
    hide Labeler.PatchedFrom, Metasync.Lists;
    var after := Labeler.PatchedFrom(copy, stored, route, true, false, now);
    var v := ViewOf(Single(copy), Single(copy));
    Metasync.SyncedFromOne(Metas(Single(stored)), v, route, true, false, {"r"}, now, "r");
    assert Metas(Single(after))["r"] == after;
  }

  lemma FinalizeStep(m: Meta, route: string, now: int)
    requires Labeler.RouteName(route) && Metasync.Lists(m, route, true)
    ensures Step(Single(m), Finalize(route, now, Single(m), Single(m)),
                 Single(Labeler.Patched(m, route, true, true, now)))
  {
    hide Labeler.PatchedFrom, Metasync.Lists;
    var after := Labeler.Patched(m, route, true, true, now);
    Metasync.SyncedFromOne(Metas(Single(m)), ViewOf(Single(m), Single(m)), route, true, true, {}, now, "r");
    assert Metas(Single(after))["r"] == after;
  }

  lemma CollectStep(copy: Meta, stored: Meta, now: int)
    requires copy.state == RESERVE
    ensures Step(Single(stored), Collecting(now, copy), map[])
  {
    var r := Revision("r", "c", copy, "", 0);
    assert Gc.NonActive([r], "") == [r] by {
      assert [r][..0] == [];
    }
    assert Gc.StaleIn(KEEP_NONE, [r], now, 1) == {};
  }

  lemma RunStart(s: Store)
    ensures Run([s], [])
  {
  }

  /** A run goes on with an event that reads the whole of some earlier state. */
  lemma RunMore(states: seq<Store>, events: seq<Event>, e: Event, b: Store, k: nat)
    requires Run(states, events) && k < |states| && Step(states[|states| - 1], e, b) && !e.Create?
    requires e.listed == states[k] && (e.Sync? || e.Finalize? ==> e.copies == states[k])
    ensures Run(states + [b], events + [e])
  {
    hide Step;
    var states', events' := states + [b], events + [e];
    forall i: nat | i < |events'|
      ensures Step(states'[i], events'[i], states'[i + 1])
    {
    }
    forall i: nat, n | i < |events'|
      ensures Reads(events'[i], states', 0, i, n)
    {
      if i < |events| {
        assert Reads(events[i], states, 0, i, n);
        ReadsLonger(events[i], states, b, i, n);
      } else {
        assert states'[k] == states[k];
      }
    }
  }

  lemma ReadsLonger(e: Event, states: seq<Store>, b: Store, i: nat, n: string)
    requires Reads(e, states, 0, i, n)
    ensures Reads(e, states + [b], 0, i, n)
  {
    forall copy | Version(states, 0, i, n, copy)
      ensures Version(states + [b], 0, i, n, copy)
    {
      var k: nat :| k <= i && k < |states| && n in states[k] && states[k][n] == copy;
      assert (states + [b])[k] == states[k];
    }
  }

  /** An active revision with the names is carried by each of them. */
  lemma SingleCarries(m: Meta, route: string)
    ensures Carries(Single(m), route, "r") <==> route in Labeler.Names(m.routes) && m.state == ACTIVE
  {
    hide Labeler.Names;
  }

  lemma SingleInv(m: Meta)
    ensures Inv(Single(m)) <==> Labeler.Consistent(m)
  {
    hide Labeler.Consistent;
    assert Metas(Single(m))["r"] == m;
  }

  /** A collector that listed the revision in reserve deletes it although a route has been
      added since. */
  lemma OutdatedListingDeletesRouted() returns (states: seq<Store>, events: seq<Event>)
    ensures Run(states, events) && |states| == 3 && Inv(states[0]) && events[1].Collect?
    ensures Carries(states[1], "x", "r") && "r" !in states[2]
  {
    hide Step, Run, Inv, Carries, Labeler.Names, Labeler.PatchedFrom, Single;
    var m := Meta(None, RESERVE, None);
    var routed := Labeler.PatchedFrom(m, m, "x", true, false, 1);
    assert ACTIVE[0] != RESERVE[0];
    SingleInv(m);
    Labeler.PatchedFromNames(m, m, "x", true, false, 1);
    Labeler.PatchedFromState(m, m, "x", false, 1);
    SingleCarries(routed, "x");
    RunStart(Single(m));
    AddStep(m, m, "x", 1);
    RunMore([Single(m)], [], Adding("x", 1, m), Single(routed), 0);
    states, events := [Single(m)] + [Single(routed)], [] + [Adding("x", 1, m)];
    CollectStep(m, routed, 2);
    RunMore(states, events, Collecting(2, m), map[], 0);
    states, events := states + [map[]], events + [Collecting(2, m)];
  }

  /** A route added from a copy that is older than the finalization of another leaves the
      revision routed in reserve, and then even an up-to-date collector deletes it. */
  lemma OutdatedCopyDeletesRouted() returns (states: seq<Store>, events: seq<Event>)
    ensures Run(states, events) && |states| == 4 && Inv(states[0]) && !Inv(states[2])
    ensures "r" in states[2] && Labeler.Names(states[2]["r"].meta.routes) == {"a", "b"}
    ensures events[2].Collect? && UpToDate(states[2], events[2]) && "r" !in states[3]
  {
    hide Step, Run, Inv, Labeler.Names, Labeler.PatchedFrom, Metasync.Lists;
    var m := Meta(Some("a"), ACTIVE, None);
    var idle := Labeler.Patched(m, "a", true, true, 1);
    var broken := Labeler.PatchedFrom(m, idle, "b", true, false, 2);
    BrokenLabel(m, idle, broken);
    SingleInv(m);
    SingleInv(broken);
    RunStart(Single(m));
    var e0, e1, e2 := Finalize("a", 1, Single(m), Single(m)), Adding("b", 2, m), Collecting(3, broken);
    FinalizeStep(m, "a", 1);
    RunMore([Single(m)], [], e0, Single(idle), 0);
    states, events := [Single(m)] + [Single(idle)], [] + [e0];
    AddStep(m, idle, "b", 2);
    RunMore(states, events, e1, Single(broken), 0);
    states, events := states + [Single(broken)], events + [e1];
    CollectStep(broken, broken, 3);
    RunMore(states, events, e2, map[], 2);
    states, events := states + [map[]], events + [e2];
  }

  lemma BrokenLabel(m: Meta, idle: Meta, broken: Meta)
    requires m == Meta(Some("a"), ACTIVE, None)
    requires idle == Labeler.Patched(m, "a", true, true, 1)
    requires broken == Labeler.PatchedFrom(m, idle, "b", true, false, 2)
    ensures Labeler.Names(broken.routes) == {"a", "b"} && broken.state == RESERVE
    ensures Labeler.Consistent(m) && !Labeler.Consistent(broken) && Metasync.Lists(m, "a", true)
  {
    hide Labeler.Names, Labeler.PatchedFrom;
    assert ACTIVE[0] != RESERVE[0];
    Labeler.OneName("a");
    Labeler.PatchedFromState(m, m, "a", true, 1);
    Labeler.PatchedFromNames(m, idle, "b", true, false, 2);
    Labeler.PatchedFromState(m, idle, "b", false, 2);
    Labeler.NamesEmpty(broken.routes);
  }

  /** Two routes added from the same copy: the second addition loses the first. */
  lemma OutdatedCopyLosesRoute() returns (states: seq<Store>, events: seq<Event>)
    ensures Run(states, events) && |states| == 3 && Inv(states[0]) && events[1].Sync? && events[1].route == "b"
    ensures Carries(states[1], "a", "r") && Carries(states[2], "b", "r") && !Carries(states[2], "a", "r")
  {
    hide Step, Run, Inv, Carries, Labeler.Names, Labeler.PatchedFrom, Single;
    var m := Meta(None, RESERVE, None);
    var first := Labeler.PatchedFrom(m, m, "a", true, false, 1);
    var second := Labeler.PatchedFrom(m, first, "b", true, false, 2);
    assert ACTIVE[0] != RESERVE[0];
    SingleInv(m);
    Labeler.PatchedFromNames(m, m, "a", true, false, 1);
    Labeler.PatchedFromState(m, m, "a", false, 1);
    Labeler.PatchedFromNames(m, first, "b", true, false, 2);
    Labeler.PatchedFromState(m, first, "b", false, 2);
    Labeler.NoNames();
    SingleCarries(first, "a");
    SingleCarries(second, "a");
    SingleCarries(second, "b");
    RunStart(Single(m));
    AddStep(m, m, "a", 1);
    RunMore([Single(m)], [], Adding("a", 1, m), Single(first), 0);
    states, events := [Single(m)] + [Single(first)], [] + [Adding("a", 1, m)];
    AddStep(m, first, "b", 2);
    RunMore(states, events, Adding("b", 2, m), Single(second), 0);
    states, events := states + [Single(second)], events + [Adding("b", 2, m)];
  }
}
