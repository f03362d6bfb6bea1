/** The route checks on the menus of one application. */
module MenuRoutes {
  import opened Text
  import opened Routes
  import opened Menus

  predicate IsActiveRouteMenu(m: Menu) {
    (m.status == "" || m.status == "active") && m.kind != "action"
  }

  function RouteOf(scope: string, m: Menu): string {
    NormalizedMenuRoute(scope, m.route, m.code)
  }

  function Overview(scope: string): string {
    scope + "/overview"
  }

  /** The normalised route of every item. */
  function RoutesOf(scope: string, items: seq<Menu>): (paths: seq<string>)
    ensures |paths| == |items|
  {
    seq(|items|, i requires 0 <= i < |items| => RouteOf(scope, items[i]))
  }

  /** The paths of active menus are pairwise distinct and avoid `reserved`. */
  ghost predicate DistinctPaths(items: seq<Menu>, paths: seq<string>, reserved: set<string>)
    requires |paths| == |items|
  {
    && (forall i :: 0 <= i < |items| && IsActiveRouteMenu(items[i]) ==> paths[i] !in reserved)
    && forall i, j :: 0 <= i < j < |items| && IsActiveRouteMenu(items[i]) && IsActiveRouteMenu(items[j]) ==>
         paths[i] != paths[j]
  }

  /** Active menus have pairwise distinct routes that avoid the shell and the overview. */
  ghost predicate RoutesAccepted(applicationCode: string, items: seq<Menu>) {
    var scope := Scope(applicationCode);
    DistinctPaths(items, RoutesOf(scope, items), {scope, Overview(scope)})
  }

  /** `validateMenuRoutes`: true when it returns no error. */
  method ValidateMenuRoutes(applicationCode: string, items: seq<Menu>) returns (accepted: bool)
    ensures accepted <==> RoutesAccepted(applicationCode, items)
  {
    var scope := Scope(applicationCode);
    accepted := ClaimPaths(items, RoutesOf(scope, items), {scope, Overview(scope)});
  }

  /** The loop of `validateMenuRoutes`: each active item claims its path once. */
  method ClaimPaths(items: seq<Menu>, paths: seq<string>, reserved: set<string>) returns (accepted: bool)
    requires |paths| == |items|
    ensures accepted <==> DistinctPaths(items, paths, reserved)
  {
    var seen := reserved;
    for i := 0 to |items|
      invariant forall path :: path in seen <==>
                  path in reserved || exists j :: 0 <= j < i && IsActiveRouteMenu(items[j]) && paths[j] == path
      invariant DistinctPaths(items[..i], paths[..i], reserved)
    {
      if IsActiveRouteMenu(items[i]) {
        if paths[i] in seen {
          return false;
        }
        seen := seen + {paths[i]};
      }
    }
    assert items[..|items|] == items && paths[..|items|] == paths;
    return true;
  }

  // ----- the default route

  function DefaultCandidate(applicationCode: string, defaultRoute: string): string {
    var scope := Scope(applicationCode);
    var configured := TrimSpace(defaultRoute);
    if HasPrefix(configured, scope + "/") then configured
    else scope + "/" + TrimLeft(configured, IsSlash)
  }

  /**
   A configured default route is read like the route of a menu, unless it is the scope
   itself, which a menu may claim and a default route cannot name.
   */
  lemma DefaultIsReadLikeAMenu(applicationCode: string, defaultRoute: string, code: string)
    requires TrimSpace(defaultRoute) != ""
    ensures DefaultCandidate(applicationCode, defaultRoute) ==
              NormalizedMenuRoute(Scope(applicationCode), defaultRoute, code) <==>
            TrimSpace(defaultRoute) != Scope(applicationCode)
  {
    hide TrimSpace, NormalizedRouteSegment;
    var scope, configured := Scope(applicationCode), TrimSpace(defaultRoute);
    if configured == scope {
      assert !HasPrefix(configured, scope + "/") by { assert |scope + "/"| > |configured|; }
      assert |DefaultCandidate(applicationCode, defaultRoute)| > |scope|;
    }
  }

  /** An active menu that is not the parent of an active menu. */
  ghost predicate IsActiveLeaf(items: seq<Menu>, i: nat) {
    i < |items| && IsActiveRouteMenu(items[i]) &&
    forall j :: 0 <= j < |items| && IsActiveRouteMenu(items[j]) && items[j].parentId != "" ==>
      items[j].parentId != items[i].id
  }

  ghost predicate LeafAt(items: seq<Menu>, paths: seq<string>, path: string, i: nat)
    requires |paths| == |items|
  {
    IsActiveLeaf(items, i) && paths[i] == path
  }

  /** The default route leads to the active leaf at `i`. */
  ghost predicate LeadsToLeaf(applicationCode: string, defaultRoute: string, items: seq<Menu>, i: nat) {
    LeafAt(items, RoutesOf(Scope(applicationCode), items), DefaultCandidate(applicationCode, defaultRoute), i)
  }

  ghost predicate DefaultRouteAccepted(applicationCode: string, defaultRoute: string, items: seq<Menu>) {
    || TrimSpace(defaultRoute) == ""
    || DefaultCandidate(applicationCode, defaultRoute) == Overview(Scope(applicationCode))
    || exists i: nat :: LeadsToLeaf(applicationCode, defaultRoute, items, i)
  }

  /** `validateDefaultRoute`: true when it returns no error. */
  method ValidateDefaultRoute(applicationCode: string, defaultRoute: string, items: seq<Menu>) returns (accepted: bool)
    ensures accepted <==> DefaultRouteAccepted(applicationCode, defaultRoute, items)
  {
    if TrimSpace(defaultRoute) == "" {
      return true;
    }
    var scope := Scope(applicationCode);
    var candidate := DefaultCandidate(applicationCode, defaultRoute);
    var leafRoutes := LeafRoutes(items, RoutesOf(scope, items), Overview(scope));
    accepted := candidate in leafRoutes;
    if accepted && candidate != Overview(scope) {
      ghost var i: nat :| LeafAt(items, RoutesOf(scope, items), candidate, i);
      assert LeadsToLeaf(applicationCode, defaultRoute, items, i);
    }
  }

  /** The two loops of `validateDefaultRoute`: parents of active menus, then the paths of the rest. */
  method LeafRoutes(items: seq<Menu>, paths: seq<string>, overview: string) returns (leafRoutes: set<string>)
    requires |paths| == |items|
    ensures forall path :: path in leafRoutes <==> path == overview || exists i: nat :: LeafAt(items, paths, path, i)
  {
    var parents := {};
    for i := 0 to |items|
      invariant forall id :: id in parents <==>
                  id != "" && exists j :: 0 <= j < i && IsActiveRouteMenu(items[j]) && items[j].parentId == id
    {
      if IsActiveRouteMenu(items[i]) && items[i].parentId != "" {
        parents := parents + {items[i].parentId};
      }
    }
    leafRoutes := {overview};
    for i := 0 to |items|
      invariant forall path :: path in leafRoutes <==>
                  path == overview || exists j: nat :: j < i && LeafAt(items, paths, path, j)
    {
      if IsActiveRouteMenu(items[i]) && items[i].id !in parents {
        leafRoutes := leafRoutes + {paths[i]};
        assert LeafAt(items, paths, paths[i], i);
      }
    }
  }

  /**
   Under both route checks a non-empty default route leads either to the
   overview and to no menu, or to exactly one active leaf menu, whose path no
   other active menu has.
   */
  lemma DefaultRouteIsUnambiguous(applicationCode: string, defaultRoute: string, items: seq<Menu>)
    requires RoutesAccepted(applicationCode, items)
    requires DefaultRouteAccepted(applicationCode, defaultRoute, items) && TrimSpace(defaultRoute) != ""
    ensures var scope, path := Scope(applicationCode), DefaultCandidate(applicationCode, defaultRoute);
            var paths := RoutesOf(scope, items);
            if path == Overview(scope) then
              forall i :: 0 <= i < |items| && IsActiveRouteMenu(items[i]) ==> paths[i] != path
            else
              exists i: nat :: LeafAt(items, paths, path, i) &&
                forall j :: 0 <= j < |items| && IsActiveRouteMenu(items[j]) && paths[j] == path ==> j == i
  {
    var scope, path := Scope(applicationCode), DefaultCandidate(applicationCode, defaultRoute);
    var paths := RoutesOf(scope, items);
    assert DistinctPaths(items, paths, {scope, Overview(scope)});
    if path != Overview(scope) {
      var i: nat :| LeadsToLeaf(applicationCode, defaultRoute, items, i);
      assert LeafAt(items, paths, path, i);
    }
  }
}
