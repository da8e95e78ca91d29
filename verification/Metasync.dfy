/** Syncing a route's metadata to its traffic targets, through one accessor for revisions
    and one for configurations. */
module Metasync {
  import opened Common
  import opened Revisions
  import opened Labeler

  /** The metadata of the objects behind an accessor, by name. */
  type Objects = map<string, Meta>

  /** What the lister's cache gives during one sync: the copies that are listed, and the
      copy of each object that its patch is made from, read later.  Either may be older than
      what is stored, and may still have deleted objects or lack new ones. */
  datatype View = View(listed: Objects, copies: Objects)

  function Current(objs: Objects): View { View(objs, objs) }

  // ----- what a sync means, on values

  /** What list returns: revisions are listed by their active label, configurations all. */
  predicate Lists(m: Meta, route: string, addRoutingState: bool) {
    (addRoutingState ==> m.state == ACTIVE) && route in Names(m.routes)
  }

  /** The objects clearMetaForNotListed goes through. */
  function ToClear(v: View, route: string, addRoutingState: bool, names: set<string>): set<string> {
    set n | n in v.listed && n !in names && Lists(v.listed[n], route, addRoutingState)
  }

  /** The stored objects once the given ones are patched, each from its copy. */
  function PatchEach(
    objs: Objects, copies: Objects, todo: set<string>,
    route: string, addRoutingState: bool, remove: bool, now: int): Objects
  {
    map n | n in objs ::
      if n in todo && n in copies then PatchedFrom(copies[n], objs[n], route, addRoutingState, remove, now) else objs[n]
  }

  /** An error-free sync; only a ready or failed route clears what it no longer lists. */
  function SyncedFrom(
    objs: Objects, v: View, route: string, addRoutingState: bool, resolved: bool, names: set<string>, now: int): Objects
  {
    var todo := if resolved then ToClear(v, route, addRoutingState, names) else {};
    var kept := PatchEach(objs, v.copies, todo, route, addRoutingState, true, now);
    PatchEach(kept, v.copies, names, route, addRoutingState, false, now)
  }

  /** The same with a current view. */
  function Synced(
    objs: Objects, route: string, addRoutingState: bool, resolved: bool, names: set<string>, now: int): Objects
  {
    SyncedFrom(objs, Current(objs), route, addRoutingState, resolved, names, now)
  }

  /** A sync that stopped on an error has done some of the patches and no others. */
  ghost predicate Partly(before: Objects, after: Objects, full: Objects) {
    && before.Keys == after.Keys == full.Keys
    && forall n :: n in before ==> after[n] == before[n] || after[n] == full[n]
  }

  /** No object is seen to be in want of a patch. */
  predicate Settled(v: View, route: string, addRoutingState: bool, resolved: bool, names: set<string>, now: int) {
    && (forall n :: n in names && n in v.copies ==>
          MakeMetadataPatch(v.copies[n], route, addRoutingState, false, now) == None)
    && (resolved ==> ToClear(v, route, addRoutingState, names) == {})
  }

  ghost predicate AllConsistent(objs: Objects) { forall n :: n in objs ==> Consistent(objs[n]) }

  /** The revisions (or configurations) carrying the route are exactly the listed ones,
      and the names of other routes are where they were. */
  ghost predicate RoutesExactly(before: Objects, after: Objects, route: string, names: set<string>) {
    && before.Keys == after.Keys
    && (forall n :: n in after ==> (route in Names(after[n].routes) <==> n in names))
    && (forall n, other :: n in after && other != route && other != "" ==>
          (other in Names(after[n].routes) <==> other in Names(before[n].routes)))
  }

  /** What a resolved sync leaves, in any store: the listed objects carry the route, and so
      does a revision that carried it without the active label, which the listing misses. */
  lemma SyncedOne(objs: Objects, route: string, addRoutingState: bool, names: set<string>, now: int, n: string)
    requires RouteName(route) && n in objs
    ensures n in Synced(objs, route, addRoutingState, true, names, now)
    ensures var after := Synced(objs, route, addRoutingState, true, names, now)[n];
        && (route in Names(after.routes) <==>
              n in names || (addRoutingState && objs[n].state != ACTIVE && route in Names(objs[n].routes)))
        && forall other :: other != route && other != "" ==>
             (other in Names(after.routes) <==> other in Names(objs[n].routes))
  {
    hide Names, PatchedFrom;
    var before := Names(objs[n].routes);
    PatchedNames(objs[n], route, addRoutingState, n !in names, now);
    forall other | other != route && other != ""
      ensures other in Without(before, route) <==> other in before
    {
      if other in before {
        assert other in before - {route};
      }
    }
  }

  lemma SyncedKeys(
    objs: Objects, route: string, addRoutingState: bool, resolved: bool, names: set<string>, now: int)
    ensures Synced(objs, route, addRoutingState, resolved, names, now).Keys == objs.Keys
  {
  }

  /** The revision carries the route, and listing by the active label would not find it. */
  predicate Overlooked(m: Meta, route: string, addRoutingState: bool) {
    addRoutingState && m.state != ACTIVE && route in Names(m.routes)
  }

  /** A ready or failed route's error-free sync leaves exactly the listed objects carrying
      it, if and only if no object outside the list is overlooked. */
  lemma SyncedExactly(objs: Objects, route: string, addRoutingState: bool, names: set<string>, now: int)
    requires RouteName(route)
    ensures RoutesExactly(objs, Synced(objs, route, addRoutingState, true, names, now), route, names)
       <==> forall n :: n in objs && n !in names ==> !Overlooked(objs[n], route, addRoutingState)
  {
    hide Names, Patched, Synced, Lists;
    var after := Synced(objs, route, addRoutingState, true, names, now);
    SyncedKeys(objs, route, addRoutingState, true, names, now);
    forall n | n in objs
      ensures route in Names(after[n].routes) <==> n in names || Overlooked(objs[n], route, addRoutingState)
      ensures forall other :: other != route && other != "" ==>
                (other in Names(after[n].routes) <==> other in Names(objs[n].routes))
    {
      SyncedOne(objs, route, addRoutingState, names, now, n);
    }
  }

  /** A revision with route a in reserve, and nothing listed, shows it: a stays on it. */
  lemma OverlookedKeepsRoute(now: int)
    ensures var objs := map["r" := Meta(Some("a"), RESERVE, None)];
      && Names(Synced(objs, "a", true, true, {}, now)["r"].routes) == {"a"}
      && !RoutesExactly(objs, Synced(objs, "a", true, true, {}, now), "a", {})
  {
    var objs := map["r" := Meta(Some("a"), RESERVE, None)];
    assert ACTIVE[0] != RESERVE[0];
    OneName("a");
    assert Synced(objs, "a", true, true, {}, now)["r"] == objs["r"];
  }

  /** In a consistent store nothing is overlooked. */
  lemma ConsistentSyncedExactly(objs: Objects, route: string, addRoutingState: bool, names: set<string>, now: int)
    requires RouteName(route) && (addRoutingState ==> AllConsistent(objs))
    ensures RoutesExactly(objs, Synced(objs, route, addRoutingState, true, names, now), route, names)
  {
    hide Names, Synced, RoutesExactly;
    forall n | n in objs
      ensures !Overlooked(objs[n], route, addRoutingState)
    {
      NamesEmpty(objs[n].routes);
    }
    SyncedExactly(objs, route, addRoutingState, names, now);
  }

  /** While the route is not resolved, a sync only adds. */
  lemma UnresolvedOnlyAdds(objs: Objects, route: string, addRoutingState: bool, names: set<string>, now: int, n: string)
    requires RouteName(route) && n in objs
    ensures Names(Synced(objs, route, addRoutingState, false, names, now)[n].routes)
         == Names(objs[n].routes) + (if n in names then {route} else {})
  {
    PatchedNames(objs[n], route, addRoutingState, false, now);
  }

  /** After an error-free sync the next one, at any time, has nothing to patch. */
  lemma SyncedSettles(
    objs: Objects, route: string, addRoutingState: bool, resolved: bool, names: set<string>, now: int, later: int)
    requires RouteName(route)
    ensures var after := Synced(objs, route, addRoutingState, resolved, names, now);
      Settled(Current(after), route, addRoutingState, resolved, names, later)
  {
    hide Names, PatchedFrom, MakeMetadataPatch;
    var after := Synced(objs, route, addRoutingState, resolved, names, now);
    forall n | n in names && n in after
      ensures MakeMetadataPatch(after[n], route, addRoutingState, false, later) == None
    {
      PatchedTwice(objs[n], route, addRoutingState, false, now, later);
    }
    if resolved {
      forall n | n in after && n !in names
        ensures !Lists(after[n], route, addRoutingState)
      {
        PatchedNames(objs[n], route, addRoutingState, true, now);
      }
    }
  }

  /** The one patch a sync makes to an object, if any. */
  lemma SyncedFromOne(
    objs: Objects, v: View, route: string, addRoutingState: bool, resolved: bool, names: set<string>, now: int,
    n: string)
    requires n in objs
    ensures n in SyncedFrom(objs, v, route, addRoutingState, resolved, names, now)
    ensures SyncedFrom(objs, v, route, addRoutingState, resolved, names, now)[n] ==
            if n !in v.copies then objs[n]
            else if n in names then PatchedFrom(v.copies[n], objs[n], route, addRoutingState, false, now)
            else if resolved && n in v.listed && Lists(v.listed[n], route, addRoutingState)
            then PatchedFrom(v.copies[n], objs[n], route, addRoutingState, true, now)
            else objs[n]
  {
    hide Lists, PatchedFrom;
  }

  /** Which route names an object carries after a resolved sync seen through any view: a
      listed one carries the route unless its copy already did and the object no longer
      does; an unlisted one carries it if it did, unless it was listed and its copy had it. */
  lemma SyncedFromRoute(
    objs: Objects, v: View, route: string, addRoutingState: bool, names: set<string>, now: int, n: string)
    requires RouteName(route) && n in objs && n in v.copies
    ensures n in SyncedFrom(objs, v, route, addRoutingState, true, names, now)
    ensures var had, seen := route in Names(objs[n].routes), route in Names(v.copies[n].routes);
      route in Names(SyncedFrom(objs, v, route, addRoutingState, true, names, now)[n].routes) <==>
      if n in names then had || !seen
      else had && !(seen && n in v.listed && Lists(v.listed[n], route, addRoutingState))
  {
    hide Names, PatchedFrom, SyncedFrom, Lists;
    SyncedFromOne(objs, v, route, addRoutingState, true, names, now, n);
    PatchedFromNames(v.copies[n], objs[n], route, addRoutingState, n !in names, now);
  }

  /** Every patch a sync of revisions may make keeps them consistent. */
  ghost predicate SafeView(objs: Objects, v: View, route: string, names: set<string>) {
    forall n :: n in objs && n in v.copies ==>
      && (n in names ==> KeepsConsistent(v.copies[n], objs[n], route, false))
      && (n !in names && n in v.listed && Lists(v.listed[n], route, true) ==>
            KeepsConsistent(v.copies[n], objs[n], route, true))
  }

  lemma CurrentIsSafe(objs: Objects, route: string, names: set<string>)
    ensures SafeView(objs, Current(objs), route, names)
  {
    hide KeepsConsistent;
    forall n | n in objs
      ensures KeepsConsistent(objs[n], objs[n], route, false) && KeepsConsistent(objs[n], objs[n], route, true)
    {
      CurrentKeepsConsistent(objs[n], route, false);
      CurrentKeepsConsistent(objs[n], route, true);
    }
  }

  /** Every outcome of a sync of revisions, failed ones included, keeps them consistent if
      the view is safe, and a complete one only then. */
  lemma PartlySyncedConsistent(
    objs: Objects, v: View, after: Objects, route: string, resolved: bool, names: set<string>, now: int)
    requires RouteName(route) && AllConsistent(objs)
    requires Partly(objs, after, SyncedFrom(objs, v, route, true, resolved, names, now))
    ensures SafeView(objs, v, route, names) ==> AllConsistent(after)
    ensures resolved && after == SyncedFrom(objs, v, route, true, resolved, names, now) && AllConsistent(after) ==>
              SafeView(objs, v, route, names)
  {
    hide Consistent, PatchedFrom, KeepsConsistent, SyncedFrom, Lists;
    forall n | n in objs
      ensures SafeView(objs, v, route, names) ==> Consistent(after[n])
      ensures resolved && after == SyncedFrom(objs, v, route, true, resolved, names, now)
              && Consistent(after[n]) && n in v.copies ==>
        && (n in names ==> KeepsConsistent(v.copies[n], objs[n], route, false))
        && (n !in names && n in v.listed && Lists(v.listed[n], route, true) ==>
              KeepsConsistent(v.copies[n], objs[n], route, true))
    {
      SyncedFromOne(objs, v, route, true, resolved, names, now, n);
      if n in v.copies {
        PatchedFromConsistent(v.copies[n], objs[n], route, false, now);
        PatchedFromConsistent(v.copies[n], objs[n], route, true, now);
      }
    }
  }

  // ----- one accessor

  /** The patch of one object goes through: the lister has a copy, and if that needs a patch
      the API server has the object and does not refuse. */
  predicate GoesThrough(
    stored: set<string>, copies: Objects, refused: set<string>,
    route: string, addRoutingState: bool, remove: bool, now: int, n: string)
  {
    && n in copies
    && (MakeMetadataPatch(copies[n], route, addRoutingState, remove, now) != None ==> n in stored && n !in refused)
  }

  class Accessor {
    const addRoutingState: bool
    /** What the API server stores. */
    var objects: Objects
    /** The objects patch calls went out for. */
    var sent: seq<string>

    constructor (addRoutingState: bool, objects: Objects)
      ensures this.addRoutingState == addRoutingState && this.objects == objects && sent == []
    {
      this.addRoutingState, this.objects, sent := addRoutingState, objects, [];
    }

    /** setRoutingMeta: an error when the lister has no copy, or the API server does not have
        the object or refuses the patch. */
    method SetRoutingMeta(copies: Objects, route: string, name: string, remove: bool, now: int, refused: set<string>)
      returns (ok: bool)
      modifies this
      ensures ok <==> GoesThrough(old(objects).Keys, copies, refused, route, addRoutingState, remove, now, name)
      ensures ok <==> && name in copies
                      && (MakeMetadataPatch(copies[name], route, addRoutingState, remove, now) == None
                          || (name in old(objects) && name !in refused))
      ensures objects == if ok then PatchEach(old(objects), copies, {name}, route, addRoutingState, remove, now)
                         else old(objects)
      ensures old(sent) <= sent
      ensures sent != old(sent) <==>
                name in copies && MakeMetadataPatch(copies[name], route, addRoutingState, remove, now) != None
    {
      hide MakeMetadataPatch, ApplyPatch;
      if name !in copies {
        return false;
      }
      var patch := MakeMetadataPatch(copies[name], route, addRoutingState, remove, now);
      if patch.Some? {
        sent := sent + [name];
        assert |sent| == |old(sent)| + 1;
        if name in refused || name !in objects {
          return false;
        }
        objects := objects[name := ApplyPatch(objects[name], patch.value)];
      }
      ok := true;
    }

    /** The loop both callers run, in whatever order the set is ranged over. */
    method PatchAll(copies: Objects, todo: set<string>, route: string, remove: bool, now: int, refused: set<string>)
      returns (ok: bool)
      modifies this
      ensures Partly(old(objects), objects, PatchEach(old(objects), copies, todo, route, addRoutingState, remove, now))
      ensures ok ==> objects == PatchEach(old(objects), copies, todo, route, addRoutingState, remove, now)
      ensures ok <==> forall n :: n in todo ==>
                        GoesThrough(old(objects).Keys, copies, refused, route, addRoutingState, remove, now, n)
      ensures (forall n :: n in todo && n in copies ==>
                 MakeMetadataPatch(copies[n], route, addRoutingState, remove, now) == None) ==> sent == old(sent)
    {
      hide MakeMetadataPatch, PatchedFrom, GoesThrough;
      var rest := todo;
      assert PatchEach(objects, copies, {}, route, addRoutingState, remove, now) == objects;
      assert todo - rest == {};
      while rest != {}
        invariant rest <= todo
        invariant objects == PatchEach(old(objects), copies, todo - rest, route, addRoutingState, remove, now)
        invariant forall n :: n in todo - rest ==>
                    GoesThrough(old(objects).Keys, copies, refused, route, addRoutingState, remove, now, n)
        invariant (forall n :: n in todo && n in copies ==>
                     MakeMetadataPatch(copies[n], route, addRoutingState, remove, now) == None) ==> sent == old(sent)
      {
        var name :| name in rest;
        assert objects.Keys == old(objects).Keys;
        ok := SetRoutingMeta(copies, route, name, remove, now, refused);
        if !ok {
          return;
        }
        assert todo - (rest - {name}) == (todo - rest) + {name};
        rest := rest - {name};
      }
      assert todo - rest == todo;
      ok := true;
    }

    /** setMetaForListed. */
    method SetMetaForListed(v: View, route: string, names: set<string>, now: int, refused: set<string>)
      returns (ok: bool)
      modifies this
      ensures Partly(old(objects), objects,
                     PatchEach(old(objects), v.copies, names, route, addRoutingState, false, now))
      ensures ok ==> objects == PatchEach(old(objects), v.copies, names, route, addRoutingState, false, now)
      ensures ok <==> forall n :: n in names ==>
                        GoesThrough(old(objects).Keys, v.copies, refused, route, addRoutingState, false, now, n)
      ensures Settled(v, route, addRoutingState, false, names, now) ==> sent == old(sent)
    {
      hide MakeMetadataPatch, PatchedFrom, GoesThrough;
      ok := PatchAll(v.copies, names, route, false, now, refused);
    }

    /** clearMetaForNotListed, over a listing taken before the first patch. */
    method ClearMetaForNotListed(v: View, route: string, names: set<string>, now: int, refused: set<string>)
      returns (ok: bool)
      modifies this
      ensures var todo := ToClear(v, route, addRoutingState, names);
        && Partly(old(objects), objects, PatchEach(old(objects), v.copies, todo, route, addRoutingState, true, now))
        && (ok ==> objects == PatchEach(old(objects), v.copies, todo, route, addRoutingState, true, now))
        && (ok <==> forall n :: n in todo ==>
                      GoesThrough(old(objects).Keys, v.copies, refused, route, addRoutingState, true, now, n))
        && (todo == {} ==> sent == old(sent))
    {
      hide MakeMetadataPatch, PatchedFrom, GoesThrough, Lists;
      var oldList := set n | n in v.listed && Lists(v.listed[n], route, addRoutingState);
      assert oldList - names == ToClear(v, route, addRoutingState, names);
      ok := PatchAll(v.copies, oldList - names, route, true, now, refused);
    }
  }

  // ----- a route

  datatype Target = Target(revision: string, config: string, latest: bool)

  /** The listers' view: the owning configuration of every revision ("" when none) and the
      latest created revision of every configuration. */
  datatype Listers = Listers(owners: map<string, string>, latest: map<string, string>)

  /** The configuration a target stands for; "" for none, and for a revision not there (yet). */
  function TargetConfig(l: Listers, t: Target): string {
    if t.revision == "" then t.config
    else if t.revision !in l.owners then ""
    else if l.owners[t.revision] != "" then l.owners[t.revision]
    else t.config
  }

  predicate NamesConfig(l: Listers, t: Target, c: string) {
    c != "" && c == TargetConfig(l, t) && c in l.latest
  }

  /** A target names the revision itself, or asks for the latest one of its configuration. */
  predicate NamesRevision(l: Listers, t: Target, r: string) {
    && r != ""
    && (|| (r == t.revision && r in l.owners)
        || (t.latest && var c := TargetConfig(l, t); c != "" && c in l.latest && r == l.latest[c]))
  }

  /** What one traffic target stands for, case by case: a revision that is not there stands for
      nothing; one that is, for itself and its owner, or the target's own configuration if it
      has none; a configuration for itself if it is there, and for its latest created revision
      if the target asks for the latest. */
  lemma TargetExactly(l: Listers, t: Target, x: string)
    ensures t.revision != "" && t.revision !in l.owners ==> !NamesRevision(l, t, x) && !NamesConfig(l, t, x)
    ensures t.revision != "" && t.revision in l.owners ==>
              var c := if l.owners[t.revision] != "" then l.owners[t.revision] else t.config;
              && (NamesConfig(l, t, x) <==> x == c && c != "" && c in l.latest)
              && (NamesRevision(l, t, x) <==>
                    x == t.revision || (t.latest && c != "" && c in l.latest && x == l.latest[c] && x != ""))
    ensures t.revision == "" ==>
              && (NamesConfig(l, t, x) <==> x == t.config && x != "" && x in l.latest)
              && (NamesRevision(l, t, x) <==>
                    t.latest && t.config != "" && t.config in l.latest && x == l.latest[t.config] && x != "")
  {
  }

  /** The walk over status and spec traffic. */
  method ListTargets(l: Listers, traffic: seq<Target>) returns (revisions: set<string>, configs: set<string>)
    ensures forall r :: r in revisions <==> exists i :: 0 <= i < |traffic| && NamesRevision(l, traffic[i], r)
    ensures forall c :: c in configs <==> exists i :: 0 <= i < |traffic| && NamesConfig(l, traffic[i], c)
  {
    revisions, configs := {}, {};
    for k := 0 to |traffic|
      invariant forall r :: r in revisions <==> exists i :: 0 <= i < k && NamesRevision(l, traffic[i], r)
      invariant forall c :: c in configs <==> exists i :: 0 <= i < k && NamesConfig(l, traffic[i], c)
    {
      var tt := traffic[k];
      var configName := tt.config;
      if tt.revision != "" {
        if tt.revision !in l.owners {
          continue;
        }
        revisions := revisions + {tt.revision};
        if l.owners[tt.revision] != "" {
          configName := l.owners[tt.revision];
        }
      }
      if configName != "" {
        if configName !in l.latest {
          continue;
        }
        configs := configs + {configName};
        if l.latest[configName] != "" && tt.latest {
          revisions := revisions + {l.latest[configName]};
        }
      }
    }
  }

  /** Every patch of a sync goes through. */
  predicate SyncGoesThrough(
    stored: set<string>, v: View, refused: set<string>,
    route: string, addRoutingState: bool, resolved: bool, names: set<string>, now: int)
  {
    && (resolved ==> forall n :: n in ToClear(v, route, addRoutingState, names) ==>
          GoesThrough(stored, v.copies, refused, route, addRoutingState, true, now, n))
    && forall n :: n in names ==> GoesThrough(stored, v.copies, refused, route, addRoutingState, false, now, n)
  }

  /** syncRoutingMeta. */
  method SyncRoutingMeta(l: Listers, route: string, traffic: seq<Target>, resolved: bool, now: int,
                         racc: Accessor, rview: View, cacc: Accessor, cview: View, refused: set<string>)
    returns (ok: bool, revisions: set<string>, configs: set<string>)
    requires racc != cacc && racc.addRoutingState && !cacc.addRoutingState
    modifies racc, cacc
    ensures forall r :: r in revisions <==> exists i :: 0 <= i < |traffic| && NamesRevision(l, traffic[i], r)
    ensures forall c :: c in configs <==> exists i :: 0 <= i < |traffic| && NamesConfig(l, traffic[i], c)
    ensures Partly(old(racc.objects), racc.objects,
                   SyncedFrom(old(racc.objects), rview, route, true, resolved, revisions, now))
    ensures Partly(old(cacc.objects), cacc.objects,
                   SyncedFrom(old(cacc.objects), cview, route, false, resolved, configs, now))
    ensures ok ==> racc.objects == SyncedFrom(old(racc.objects), rview, route, true, resolved, revisions, now)
    ensures ok ==> cacc.objects == SyncedFrom(old(cacc.objects), cview, route, false, resolved, configs, now)
    ensures ok <==>
              && SyncGoesThrough(old(racc.objects).Keys, rview, refused, route, true, resolved, revisions, now)
              && SyncGoesThrough(old(cacc.objects).Keys, cview, refused, route, false, resolved, configs, now)
    ensures Settled(rview, route, true, resolved, revisions, now) ==> racc.sent == old(racc.sent)
    ensures Settled(cview, route, false, resolved, configs, now) ==> cacc.sent == old(cacc.sent)
  {
    hide MakeMetadataPatch, PatchedFrom, Lists, NamesRevision, NamesConfig, GoesThrough;
    revisions, configs := ListTargets(l, traffic);
    PatchNone(racc.objects, rview.copies, route, true, now);
    PatchNone(cacc.objects, cview.copies, route, false, now);
    if resolved {
      ok := racc.ClearMetaForNotListed(rview, route, revisions, now, refused);
      if !ok {
        return;
      }
      ok := cacc.ClearMetaForNotListed(cview, route, configs, now, refused);
      if !ok {
        return;
      }
    }
    ok := racc.SetMetaForListed(rview, route, revisions, now, refused);
    if !ok {
      return;
    }
    ok := cacc.SetMetaForListed(cview, route, configs, now, refused);
  }

  lemma PatchNone(objs: Objects, copies: Objects, route: string, addRoutingState: bool, now: int)
    ensures forall remove :: PatchEach(objs, copies, {}, route, addRoutingState, remove, now) == objs
  {
  }

  /** clearRoutingMeta when the route is finalized: configurations first, then revisions. */
  method FinalizeRoute(
    route: string, now: int, racc: Accessor, rview: View, cacc: Accessor, cview: View, refused: set<string>)
    returns (ok: bool)
    requires racc != cacc && racc.addRoutingState && !cacc.addRoutingState
    modifies racc, cacc
    ensures Partly(old(racc.objects), racc.objects, SyncedFrom(old(racc.objects), rview, route, true, true, {}, now))
    ensures Partly(old(cacc.objects), cacc.objects, SyncedFrom(old(cacc.objects), cview, route, false, true, {}, now))
    ensures ok ==> racc.objects == SyncedFrom(old(racc.objects), rview, route, true, true, {}, now)
    ensures ok ==> cacc.objects == SyncedFrom(old(cacc.objects), cview, route, false, true, {}, now)
    ensures ok <==>
              && SyncGoesThrough(old(racc.objects).Keys, rview, refused, route, true, true, {}, now)
              && SyncGoesThrough(old(cacc.objects).Keys, cview, refused, route, false, true, {}, now)
  {
    hide MakeMetadataPatch, PatchedFrom, Lists, GoesThrough;
    ok := cacc.ClearMetaForNotListed(cview, route, {}, now, refused);
    if ok {
      ok := racc.ClearMetaForNotListed(rview, route, {}, now, refused);
    }
  }
}
