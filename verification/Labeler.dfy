/** The route labeler: which routes a revision or configuration belongs to is kept in a
    comma-separated annotation, and every change is a JSON merge patch (section 2 of
    RFC 7396: null removes a member, an absent member stays). */
module Labeler {
  import opened Common
  import opened Revisions
  import opened Commas
  import Strs

  // ----- the annotation and the patch

  /** GetListAnnValue on the routes annotation. */
  function Names(routes: Option<string>): set<string> {
    if routes == None || routes.value == "" then {} else Strs.Elems(Split(routes.value))
  }

  /** One member of a merge patch. */
  datatype Change<+T> = Keep | Null | Set(value: T)

  datatype Patch = Patch(routes: Change<string>, state: Change<string>, modified: Change<int>)

  function Merge<T>(member: Option<T>, change: Change<T>): Option<T> {
    match change
    case Keep => member
    case Null => None
    case Set(v) => Some(v)
  }

  function ApplyPatch(m: Meta, p: Patch): Meta {
    Meta(
      Merge(m.routes, p.routes),
      (match p.state case Keep => m.state case Null => "" case Set(v) => v),
      Merge(m.modified, p.modified))
  }

  /** A Kubernetes object name: in particular not empty, and without commas. */
  predicate RouteName(route: string) { route != "" && CommaFree(route) }

  /** updateRouteAnnotation. */
  function UpdateRouteAnnotation(m: Meta, route: string, remove: bool): Change<string> {
    var names := Names(m.routes);
    if route in names && remove then
      if |names| == 1 then Null else Set(Join(Strs.Sorted(names - {route})))
    else if route !in names && !remove then
      if |names| == 0 then Set(route) else Set(Join(Strs.Sorted(names + {route})))
    else Keep
  }

  function WantState(m: Meta, routes: Change<string>): string {
    var hasRoute :=
      match routes
      case Keep => m.routes != None && m.routes.value != ""
      case Null => false
      case Set(_) => true;
    if hasRoute then ACTIVE else RESERVE
  }

  /** makeMetadataPatch with markRoutingState; None when nothing is to change. */
  function MakeMetadataPatch(m: Meta, route: string, addRoutingState: bool, remove: bool, now: int): Option<Patch> {
    var routes := UpdateRouteAnnotation(m, route, remove);
    var want := WantState(m, routes);
    if addRoutingState && m.state != want then Some(Patch(routes, Set(want), Set(now)))
    else if routes != Keep then Some(Patch(routes, Keep, Keep))
    else None
  }

  /** What setRoutingMeta leaves behind when the API server takes the patch.  The patch is
      made from the copy the lister gave and merged into the object as it is stored by then:
      nothing ties it to a version. */
  function PatchedFrom(copy: Meta, stored: Meta, route: string, addRoutingState: bool, remove: bool, now: int): Meta {
    var p := MakeMetadataPatch(copy, route, addRoutingState, remove, now);
    if p == None then stored else ApplyPatch(stored, p.value)
  }

  /** The same when the copy is current. */
  function Patched(m: Meta, route: string, addRoutingState: bool, remove: bool, now: int): Meta {
    PatchedFrom(m, m, route, addRoutingState, remove, now)
  }

  // ----- what one patch means, made from a current copy

  lemma NamesCommaFree(routes: Option<string>)
    ensures forall x :: x in Names(routes) ==> CommaFree(x)
  {
    if routes != None && routes.value != "" {
      SplitParts(routes.value);
    }
  }

  /** Joining a sorted listing and reading it back gives the set, unless the joined text
      is empty: then nothing is read back. */
  lemma NamesOfJoin(xs: set<string>)
    requires xs != {} && forall x :: x in xs ==> CommaFree(x)
    ensures Names(Some(Join(Strs.Sorted(xs)))) == if xs == {""} then {} else xs
    ensures Join(Strs.Sorted(xs)) == "" <==> xs == {""}
  {
    var ys := Strs.Sorted(xs);
    assert forall i :: 0 <= i < |ys| ==> ys[i] in Strs.Elems(ys);
    SplitJoin(ys);
    if Join(ys) == "" {
      assert ys == [""];
    }
    if xs == {""} {
      assert |ys| == 1;
    }
  }

  /** Names after removing one of them. */
  function Without(names: set<string>, route: string): set<string> {
    if route in names && names - {route} == {""} then {} else names - {route}
  }

  lemma PatchedRoutes(copy: Meta, stored: Meta, route: string, addRoutingState: bool, remove: bool, now: int)
    ensures PatchedFrom(copy, stored, route, addRoutingState, remove, now).routes
         == Merge(stored.routes, UpdateRouteAnnotation(copy, route, remove))
  {
    hide UpdateRouteAnnotation;
  }

  lemma RemovedNames(m: Meta, route: string)
    ensures Names(Merge(m.routes, UpdateRouteAnnotation(m, route, true))) == Without(Names(m.routes), route)
    ensures Names(m.routes) == {route} ==> Merge(m.routes, UpdateRouteAnnotation(m, route, true)) == None
  {
    hide Join, Names;
    var names := Names(m.routes);
    NamesCommaFree(m.routes);
    NoNames();
    if route in names && names != {route} {
      assert names == (names - {route}) + {route};
      assert |names| == |names - {route}| + 1;
      NamesOfJoin(names - {route});
    }
  }

  lemma NoNames()
    ensures Names(None) == {}
  {
  }

  lemma AddedNames(m: Meta, route: string)
    requires RouteName(route)
    ensures Names(Merge(m.routes, UpdateRouteAnnotation(m, route, false))) == Names(m.routes) + {route}
  {
    hide Join;
    var names := Names(m.routes);
    NamesCommaFree(m.routes);
    if names == {} {
      SplitOne(route);
      assert Strs.Elems([route]) == {route};
    } else if route !in names {
      NamesOfJoin(names + {route});
    }
  }

  /** The patch adds the route, or removes it and it alone, but for an empty name left over
      by a stray comma; removing the last name removes the annotation. */
  lemma PatchedNames(m: Meta, route: string, addRoutingState: bool, remove: bool, now: int)
    requires RouteName(route)
    ensures Names(Patched(m, route, addRoutingState, remove, now).routes)
         == if remove then Without(Names(m.routes), route) else Names(m.routes) + {route}
    ensures remove && Names(m.routes) == {route} ==>
              Patched(m, route, addRoutingState, remove, now).routes == None
  {
    hide Names, UpdateRouteAnnotation, PatchedFrom;
    PatchedRoutes(m, m, route, addRoutingState, remove, now);
    if remove {
      RemovedNames(m, route);
    } else {
      AddedNames(m, route);
    }
  }

  /** Removing a route removes that name and nothing else exactly when it is not about to
      leave just an empty name behind. */
  lemma RemovalIsExact(m: Meta, route: string, addRoutingState: bool, now: int)
    requires RouteName(route)
    ensures Names(Patched(m, route, addRoutingState, true, now).routes) == Names(m.routes) - {route}
       <==> !(route in Names(m.routes) && Names(m.routes) - {route} == {""})
  {
    PatchedNames(m, route, addRoutingState, true, now);
  }

  /** The annotation "a," shows it: taking away a leaves an empty annotation whose label
      still says active. */
  lemma StrayCommaStaysActive(now: int)
    ensures Patched(Meta(Some("a,"), ACTIVE, None), "a", true, true, now) == Meta(Some(""), ACTIVE, None)
  {
    var m := Meta(Some("a,"), ACTIVE, None);
    assert "a," == Join(["a", ""]);
    SplitJoin(["a", ""]);
    assert Names(m.routes) == {"a", ""};
    assert {"a", ""} - {"a"} == {""};
    NamesOfJoin({""});
  }

  /** A revision with a nonempty routes annotation is labelled active. */
  predicate Consistent(m: Meta) {
    m.routes != None && m.routes.value != "" ==> m.state == ACTIVE
  }

  /** Every patch made from a current copy establishes consistency, whatever was there
      before, and decides the state. */
  lemma PatchedConsistent(m: Meta, route: string, remove: bool, now: int)
    ensures Consistent(Patched(m, route, true, remove, now))
    ensures Patched(m, route, true, remove, now).state in {ACTIVE, RESERVE}
  {
  }

  /** The modified time is set exactly when the state changes, and configurations keep both. */
  lemma ModifiedMarksChange(m: Meta, route: string, addRoutingState: bool, remove: bool, now: int)
    ensures var after := Patched(m, route, addRoutingState, remove, now);
      && after.modified == (if after.state != m.state then Some(now) else m.modified)
      && (!addRoutingState ==> after.state == m.state)
  {
    hide UpdateRouteAnnotation;
  }

  lemma NamesEmpty(routes: Option<string>)
    ensures Names(routes) == {} <==> routes == None || routes.value == ""
  {
    if routes != None && routes.value != "" {
      assert Split(routes.value)[0] in Strs.Elems(Split(routes.value));
    }
  }

  /** After a patch a revision is active exactly when some route names it (or the stray
      comma was met). */
  lemma ActiveIffRouted(m: Meta, route: string, remove: bool, now: int)
    requires RouteName(route)
    ensures Patched(m, route, true, remove, now).state == ACTIVE
       <==> || Names(Patched(m, route, true, remove, now).routes) != {}
            || (remove && route in Names(m.routes) && Names(m.routes) - {route} == {""})
  {
    hide Join, Names;
    var after := Patched(m, route, true, remove, now);
    PatchedNames(m, route, true, remove, now);
    NamesEmpty(m.routes);
    NamesEmpty(after.routes);
    assert after.state == WantState(m, UpdateRouteAnnotation(m, route, remove));
    if remove && route in Names(m.routes) && |Names(m.routes)| == 1 {
      assert Names(m.routes) == {route} by {
        assert |Names(m.routes) - {route}| == 0;
      }
    }
    if Names(m.routes) == {route} {
      assert |{route}| == 1;
    }
  }

  /** A second patch of the same kind is nil, exactly unless the first left a revision
      with an empty annotation labelled active. */
  lemma PatchedTwice(m: Meta, route: string, addRoutingState: bool, remove: bool, now: int, later: int)
    requires RouteName(route)
    ensures var after := Patched(m, route, addRoutingState, remove, now);
      MakeMetadataPatch(after, route, addRoutingState, remove, later) == None <==>
      !(addRoutingState && remove && route in Names(m.routes) && Names(m.routes) - {route} == {""})
  {
    hide Names, Join;
    var after := Patched(m, route, addRoutingState, remove, now);
    PatchedNames(m, route, addRoutingState, remove, now);
    assert UpdateRouteAnnotation(after, route, remove) == Keep;
    if addRoutingState {
      PatchedState(m, route, remove, now);
      ActiveIffRouted(m, route, remove, now);
      NamesEmpty(after.routes);
    }
  }

  lemma PatchedState(m: Meta, route: string, remove: bool, now: int)
    ensures Patched(m, route, true, remove, now).state in {ACTIVE, RESERVE} && ACTIVE != RESERVE
  {
    assert ACTIVE[0] != RESERVE[0];
  }

  // ----- what one patch means, made from any copy

  /** The patch writes the routes annotation. */
  predicate Rewrites(copy: Meta, route: string, remove: bool) {
    route in Names(copy.routes) <==> remove
  }

  /** The names the copy is left with. */
  function NamesWith(copy: Meta, route: string, remove: bool): set<string> {
    if remove then Without(Names(copy.routes), route) else Names(copy.routes) + {route}
  }

  lemma RewritesMeaning(copy: Meta, stored: Meta, route: string, remove: bool)
    ensures var change := UpdateRouteAnnotation(copy, route, remove);
      && (change == Keep <==> !Rewrites(copy, route, remove))
      && (change != Keep ==> Merge(stored.routes, change) == Merge(copy.routes, change))
  {
    hide Names, Join;
  }

  /** A patch that writes the annotation leaves the names of its copy, whatever is stored;
      any other leaves what is stored. */
  lemma PatchedFromNames(copy: Meta, stored: Meta, route: string, addRoutingState: bool, remove: bool, now: int)
    requires RouteName(route)
    ensures Names(PatchedFrom(copy, stored, route, addRoutingState, remove, now).routes)
         == if Rewrites(copy, route, remove) then NamesWith(copy, route, remove) else Names(stored.routes)
  {
    hide Names, UpdateRouteAnnotation, PatchedFrom, Rewrites, Without, Merge;
    PatchedRoutes(copy, stored, route, addRoutingState, remove, now);
    RewritesMeaning(copy, stored, route, remove);
    if remove {
      RemovedNames(copy, route);
    } else {
      AddedNames(copy, route);
    }
    KeepKeeps(stored.routes);
  }

  lemma KeepKeeps<T>(member: Option<T>)
    ensures Merge(member, Keep) == member
  {
  }

  /** Another route's stored name survives the patch if and only if the copy carries it or
      the patch leaves the annotation alone. */
  lemma PatchedFromKeepsName(
    copy: Meta, stored: Meta, route: string, addRoutingState: bool, remove: bool, now: int, other: string)
    requires RouteName(route) && other != route && other != "" && other in Names(stored.routes)
    ensures other in Names(PatchedFrom(copy, stored, route, addRoutingState, remove, now).routes)
       <==> other in Names(copy.routes) || !Rewrites(copy, route, remove)
  {
    hide Names, PatchedFrom;
    PatchedFromNames(copy, stored, route, addRoutingState, remove, now);
    var names := Names(copy.routes);
    if other in names {
      assert other in names - {route};
    }
  }

  /** The state the patch wants: reserve only when it removes and no name is left. */
  function Wanted(copy: Meta, route: string, remove: bool): string {
    if remove && Names(copy.routes) - {route} == {} then RESERVE else ACTIVE
  }

  lemma WantedMeaning(copy: Meta, route: string, remove: bool)
    ensures WantState(copy, UpdateRouteAnnotation(copy, route, remove)) == Wanted(copy, route, remove)
  {
    hide Names, Join;
    var names := Names(copy.routes);
    NamesEmpty(copy.routes);
    if route in names {
      assert names == (names - {route}) + {route};
      assert |names| == |names - {route}| + 1;
    } else {
      assert names - {route} == names;
    }
  }

  /** State and time are written exactly when the copy's state is not the wanted one. */
  lemma PatchedFromState(copy: Meta, stored: Meta, route: string, remove: bool, now: int)
    ensures var after, want := PatchedFrom(copy, stored, route, true, remove, now), Wanted(copy, route, remove);
      && after.state == (if copy.state != want then want else stored.state)
      && after.modified == (if copy.state != want then Some(now) else stored.modified)
  {
    hide UpdateRouteAnnotation, WantState, Wanted;
    WantedMeaning(copy, route, remove);
  }

  /** When a patch made from any copy keeps a consistent revision consistent. */
  predicate KeepsConsistent(copy: Meta, stored: Meta, route: string, remove: bool) {
    if Rewrites(copy, route, remove)
    then NamesWith(copy, route, remove) == {} || (copy.state == ACTIVE ==> stored.state == ACTIVE)
    else remove && Names(copy.routes) == {} && copy.state != RESERVE ==> Names(stored.routes) == {}
  }

  /** A consistent revision stays consistent if and only if: where the patch writes names, the
      stored state is active if the copy's is; where it only moves the revision to reserve,
      nothing is stored that routes to it. */
  lemma PatchedFromConsistent(copy: Meta, stored: Meta, route: string, remove: bool, now: int)
    requires RouteName(route) && Consistent(stored)
    ensures Consistent(PatchedFrom(copy, stored, route, true, remove, now))
       <==> KeepsConsistent(copy, stored, route, remove)
  {
    hide Names, PatchedFrom;
    var after := PatchedFrom(copy, stored, route, true, remove, now);
    var names := Names(copy.routes);
    PatchedFromNames(copy, stored, route, true, remove, now);
    PatchedFromState(copy, stored, route, remove, now);
    NamesEmpty(after.routes);
    NamesEmpty(stored.routes);
    assert ACTIVE[0] != RESERVE[0];
    if route !in names {
      assert names - {route} == names;
    }
  }

  /** The patches the labeler makes: it adds, or removes from a revision it listed as active
      and carrying the route. */
  lemma AddKeepsConsistent(copy: Meta, stored: Meta, route: string)
    requires copy.state == ACTIVE ==> stored.state == ACTIVE
    ensures KeepsConsistent(copy, stored, route, false)
  {
  }

  lemma CurrentKeepsConsistent(m: Meta, route: string, remove: bool)
    ensures KeepsConsistent(m, m, route, remove)
  {
  }

  /** A copy that is active and carries a route keeps both, stored alike, through any patch
      by another route and any addition. */
  lemma CarriedStays(copy: Meta, stored: Meta, editor: string, remove: bool, now: int, route: string)
    requires RouteName(editor) && RouteName(route) && (editor == route ==> !remove)
    requires route in Names(copy.routes) && copy.state == ACTIVE
    requires route in Names(stored.routes) && stored.state == ACTIVE
    ensures var after := PatchedFrom(copy, stored, editor, true, remove, now);
      route in Names(after.routes) && after.state == ACTIVE
  {
    hide Names, PatchedFrom;
    PatchedFromState(copy, stored, editor, remove, now);
    assert route in Names(copy.routes) - {editor} || editor == route;
    if editor == route {
      PatchedFromNames(copy, stored, editor, true, remove, now);
    } else {
      PatchedFromKeepsName(copy, stored, editor, true, remove, now, route);
    }
  }

  // ----- what an outdated copy can do

  /** Adding b from a copy that was active with a, after the revision went to reserve: it is
      routed, by a again as well, and still labelled reserve. */
  lemma OutdatedCopyBreaksLabel(now: int)
    ensures var after := PatchedFrom(Meta(Some("a"), ACTIVE, None), Meta(None, RESERVE, None), "b", true, false, now);
      Names(after.routes) == {"a", "b"} && after.state == "reserve" && !Consistent(after)
  {
    var copy, stored := Meta(Some("a"), ACTIVE, None), Meta(None, RESERVE, None);
    OneName("a");
    PatchedFromNames(copy, stored, "b", true, false, now);
    PatchedFromState(copy, stored, "b", false, now);
    NamesEmpty(PatchedFrom(copy, stored, "b", true, false, now).routes);
    assert ACTIVE[0] != RESERVE[0];
  }

  /** Adding b from a copy in reserve, after a was added: a is lost. */
  lemma OutdatedCopyLosesRoute(now: int)
    ensures var after := PatchedFrom(Meta(None, RESERVE, None), Meta(Some("a"), ACTIVE, None), "b", true, false, now);
      Names(after.routes) == {"b"} && after.state == "active"
  {
    var copy, stored := Meta(None, RESERVE, None), Meta(Some("a"), ACTIVE, None);
    PatchedFromNames(copy, stored, "b", true, false, now);
    PatchedFromState(copy, stored, "b", false, now);
    assert ACTIVE[0] != RESERVE[0];
  }

  lemma OneName(name: string)
    requires RouteName(name)
    ensures Names(Some(name)) == {name}
  {
    SplitOne(name);
    assert Strs.Elems([name]) == {name};
  }
}
