/**
 Serial runs of menu upserts and deletes: what they keep of the draft trees and
 routes, and exactly which accepted calls do not.
 */
module DraftRuns {
  import opened Text
  import opened Routes
  import opened Menus
  import opened MenuTree
  import opened MenuRoutes
  import opened DraftMenus

  // ----- one upsert

  /**
   The call names the application that the stored menu belongs to, or moves the
   menu to the top. Otherwise it was validated against another application's tree.
   */
  predicate WellAddressed(c: Catalog, v: Menu, expected: int) {
    v.parentId == "" || Target(c, v, expected) == v.applicationId
  }

  lemma UpsertKeepsCatalog(c: Catalog, v: Menu, expected: int, freshId: string, validUrl: string -> bool)
    requires CatalogValid(c) && UpsertAccepted(c, v, expected, freshId, validUrl)
    ensures CatalogValid(Upserted(c, v, expected, freshId))
  {
    hide MenuAccepted;
  }

  /** The drafts after an upsert: one menu put in its place, all other applications as before. */
  lemma UpsertedLive(c: Catalog, v: Menu, expected: int, freshId: string)
    requires CatalogValid(c) && Writable(c, v, expected, freshId)
    ensures var a, stored := Target(c, v, expected), StoredMenu(c, v, expected, freshId);
            && Live(Upserted(c, v, expected, freshId), a) == Live(c, a)[stored.id := stored]
            && forall b :: b != a ==> Live(Upserted(c, v, expected, freshId), b) == Live(c, b)
  {
    hide CodeTaken, CatalogValid;
    var a, stored := Target(c, v, expected), StoredMenu(c, v, expected, freshId);
    var after := Upserted(c, v, expected, freshId);
    assert after.rows == c.rows[stored.id := Row(stored, false)] && stored.applicationId == a;
    assert stored.id in c.rows ==> !c.rows[stored.id].deleted && c.rows[stored.id].menu.applicationId == a;
    hide Upserted, StoredMenu, Target, Writable;
    PutLive(c, after, stored, a);
    forall b | b != a
      ensures Live(after, b) == Live(c, b)
    {
      PutLive(c, after, stored, b);
    }
  }

  /** A row written for its own application shows up there and nowhere else. */
  lemma PutLive(c: Catalog, after: Catalog, stored: Menu, b: string)
    requires after.rows == c.rows[stored.id := Row(stored, false)]
    requires stored.id in c.rows ==> c.rows[stored.id].menu.applicationId == stored.applicationId
    ensures Live(after, b) == if b == stored.applicationId then Live(c, b)[stored.id := stored] else Live(c, b)
  {
    var was, now := Live(c, b), Live(after, b);
    forall x: string
      ensures x in now <==> x in was || (b == stored.applicationId && x == stored.id)
      ensures x in now ==> now[x] == if x == stored.id then stored else was[x]
    {
    }
  }

  lemma ForestIsClosed(parents: map<string, string>)
    requires Forest(parents) && "" !in parents
    ensures Closed(parents, parents.Keys)
  {
    forall id | id in parents
      ensures parents[id] == "" || parents[id] in parents
    {
      ForestParents(parents, id);
    }
  }

  lemma DanglingParent(parents: map<string, string>, id: string, p: string)
    requires p != "" && p != id && p !in parents && id != ""
    ensures !Forest(parents[id := p])
  {
    var updated := parents[id := p];
    forall n: nat
      ensures !Climbs(updated, id, n)
    {
      assert n > 0 ==> !Climbs(updated, p, n - 1);
    }
    assert !ReachesRoot(updated, id);
  }

  /** The tree that an accepted upsert leaves in the menu's own application. */
  lemma TargetForest(c: Catalog, v: Menu, expected: int, freshId: string, validUrl: string -> bool)
    requires CatalogValid(c) && LiveForests(c) && UpsertAccepted(c, v, expected, freshId, validUrl)
    ensures var stored, parents := StoredMenu(c, v, expected, freshId), Parents(Live(c, Target(c, v, expected)));
            Forest(parents[stored.id := v.parentId]) <==> WellAddressed(c, v, expected)
  {
    hide FieldsValid, ValidPageComponent, RoutesFit, Forest, ReachesRoot;
    var a, stored := Target(c, v, expected), StoredMenu(c, v, expected, freshId);
    var parents := Parents(Live(c, a));
    assert stored.id != "";
    if v.parentId == "" {
      Reparent(parents, {}, stored.id, "");
    } else if a != v.applicationId {
      DanglingParent(parents, stored.id, v.parentId);
    } else if expected == 0 {
      ForestIsClosed(parents);
      Reparent(parents, parents.Keys, stored.id, v.parentId);
    }
  }

  lemma PutParents(menus: map<string, Menu>, m: Menu)
    ensures Parents(menus[m.id := m]) == Parents(menus)[m.id := m.parentId]
  {
  }

  lemma StoredParent(c: Catalog, v: Menu, expected: int, freshId: string)
    ensures StoredMenu(c, v, expected, freshId).parentId == v.parentId
  {
  }

  /** An accepted upsert keeps every draft tree a forest exactly when it is well addressed. */
  lemma UpsertKeepsForests(c: Catalog, v: Menu, expected: int, freshId: string, validUrl: string -> bool)
    requires CatalogValid(c) && LiveForests(c) && UpsertAccepted(c, v, expected, freshId, validUrl)
    ensures LiveForests(Upserted(c, v, expected, freshId)) <==> WellAddressed(c, v, expected)
  {
    hide MenuAccepted, Writable, Forest, Upserted, StoredMenu, Target, Live, Parents, WellAddressed, CatalogValid;
    var after, a, stored := Upserted(c, v, expected, freshId), Target(c, v, expected),
        StoredMenu(c, v, expected, freshId);
    UpsertedLive(c, v, expected, freshId);
    TargetForest(c, v, expected, freshId, validUrl);
    PutParents(Live(c, a), stored);
    StoredParent(c, v, expected, freshId);
    assert Forest(Parents(Live(after, a))) <==> WellAddressed(c, v, expected);
    forall b | b != a
      ensures Forest(Parents(Live(after, b)))
    {
      assert Live(after, b) == Live(c, b);
    }
  }

  lemma DeleteKeepsCatalog(c: Catalog, id: string, expected: int)
    requires CatalogValid(c) && DeleteAccepted(c, id, expected)
    ensures CatalogValid(Deleted(c, id))
  {
  }

  lemma DeletedLive(c: Catalog, id: string, expected: int)
    requires Deletable(c, id, expected)
    ensures Live(Deleted(c, id), c.rows[id].menu.applicationId) == Live(c, c.rows[id].menu.applicationId) - {id}
    ensures forall b :: b != c.rows[id].menu.applicationId ==> Live(Deleted(c, id), b) == Live(c, b)
  {
  }

  lemma ParentsWithout(menus: map<string, Menu>, id: string)
    ensures Parents(menus - {id}) == Parents(menus) - {id}
  {
  }

  lemma DeleteKeepsForests(c: Catalog, id: string, expected: int)
    requires CatalogValid(c) && LiveForests(c) && DeleteAccepted(c, id, expected)
    ensures CatalogValid(Deleted(c, id)) && LiveForests(Deleted(c, id))
  {
    DeletedLive(c, id, expected);
    DeleteKeepsCatalog(c, id, expected);
    hide Forest, Deleted;
    var after, a := Deleted(c, id), c.rows[id].menu.applicationId;
    var live := Live(c, a);
    ParentsWithout(live, id);
    assert forall x :: x in Parents(live) && x != id ==> Parents(live)[x] != id;
    hide CatalogValid;
    RemoveLeaf(Parents(live), id);
    hide Live, Parents, DeleteAccepted;
    forall b
      ensures Forest(Parents(Live(after, b)))
    {
      if b != a {
        assert Live(after, b) == Live(c, b);
      }
    }
  }

  // ----- routes

  ghost predicate AllRoutesDistinct(c: Catalog) {
    forall a :: a in c.codes ==> RoutesDistinct(c.codes[a], Live(c, a))
  }

  /**
   Two ways for a create to slip past the route check: it is validated with the
   status that was sent but stored as active, and the draft whose identifier it
   names is left out of the check but stays.
   */
  ghost predicate Clashes(c: Catalog, v: Menu, expected: int) {
    expected == 0 && v.kind != "action" && v.applicationId in c.codes &&
    var scope, live := Scope(c.codes[v.applicationId]), Live(c, v.applicationId);
    var path := RouteOf(scope, v);
    || (v.status != "" && v.status != "active" && PathTaken(scope, live, path))
    || (v.id in live && IsActiveRouteMenu(live[v.id]) && RouteOf(scope, live[v.id]) == path)
  }

  lemma PathsAfterPut(menus: map<string, Menu>, paths: map<string, string>, reserved: set<string>, m: Menu,
                      path: string)
    requires paths.Keys == menus.Keys && PathsDistinct(menus, paths, reserved) && m.id !in menus
    ensures PathsDistinct(menus[m.id := m], paths[m.id := path], reserved) <==>
              (IsActiveRouteMenu(m) ==>
                 path !in reserved && forall id :: id in menus && IsActiveRouteMenu(menus[id]) ==> paths[id] != path)
  {
    var after, all := menus[m.id := m], paths[m.id := path];
    forall id | id in menus && IsActiveRouteMenu(menus[id]) && IsActiveRouteMenu(m)
      ensures PathsDistinct(after, all, reserved) ==> paths[id] != path
    {
      assert all[id] == paths[id] && all[m.id] == path;
    }
    assert IsActiveRouteMenu(m) && PathsDistinct(after, all, reserved) ==> all[m.id] !in reserved;
  }

  lemma RoutesAfterPut(code: string, menus: map<string, Menu>, m: Menu)
    requires RoutesDistinct(code, menus) && m.id !in menus
    ensures RoutesDistinct(code, menus[m.id := m]) <==>
              (IsActiveRouteMenu(m) ==> !PathTaken(Scope(code), menus, RouteOf(Scope(code), m)))
  {
    hide RouteOf, Scope;
    var scope := Scope(code);
    PathsAfterPut(menus, Paths(scope, menus), Reserved(scope), m, RouteOf(scope, m));
    assert Paths(scope, menus[m.id := m]) == Paths(scope, menus)[m.id := RouteOf(scope, m)];
  }

  lemma PathTakenSplit(scope: string, live: map<string, Menu>, id: string, path: string)
    ensures PathTaken(scope, live, path) <==>
              PathTaken(scope, live - {id}, path) ||
              (id in live && IsActiveRouteMenu(live[id]) && RouteOf(scope, live[id]) == path)
  {
    hide RouteOf, Scope;
    var others := live - {id};
    forall x | x in live && x != id
      ensures x in others && Paths(scope, others)[x] == Paths(scope, live)[x]
    {
    }
    if id in live && IsActiveRouteMenu(live[id]) && RouteOf(scope, live[id]) == path {
      assert Paths(scope, live)[id] == path;
    }
    if exists x :: x in live && IsActiveRouteMenu(live[x]) && Paths(scope, live)[x] == path {
      var x :| x in live && IsActiveRouteMenu(live[x]) && Paths(scope, live)[x] == path;
      if x != id {
        assert x in others && Paths(scope, others)[x] == path;
      }
    }
  }

  /** The route of a menu does not depend on what an upsert fills in. */
  lemma StoredRoute(c: Catalog, v: Menu, expected: int, freshId: string, scope: string)
    ensures RouteOf(scope, StoredMenu(c, v, expected, freshId)) == RouteOf(scope, v)
    ensures IsActiveRouteMenu(StoredMenu(c, v, expected, freshId)) <==>
              if expected == 0 then v.kind != "action" else IsActiveRouteMenu(v)
  {
  }

  /**
   An accepted upsert in the menu's own application keeps the active routes
   distinct exactly when it does not clash.
   */
  lemma UpsertKeepsRoutes(c: Catalog, v: Menu, expected: int, freshId: string, validUrl: string -> bool)
    requires CatalogValid(c) && UpsertAccepted(c, v, expected, freshId, validUrl)
    requires Target(c, v, expected) == v.applicationId && AllRoutesDistinct(c)
    ensures AllRoutesDistinct(Upserted(c, v, expected, freshId)) <==> !Clashes(c, v, expected)
  {
    hide FieldsValid, ValidPageComponent, TreeFits, RouteOf, Scope, RoutesDistinct, PathTaken, StoredMenu;
    var after, a, stored := Upserted(c, v, expected, freshId), v.applicationId, StoredMenu(c, v, expected, freshId);
    var code, live := c.codes[a], Live(c, a);
    UpsertedLive(c, v, expected, freshId);
    StoredRoute(c, v, expected, freshId, Scope(code));
    StoredIds(c, v, expected, freshId);
    PathTakenSplit(Scope(code), live, v.id, RouteOf(Scope(code), v));
    if expected == 0 {
      RoutesAfterPut(code, live, stored);
    } else {
      RoutesAfterPut(code, live - {v.id}, stored);
      assert (live - {v.id})[stored.id := stored] == live[stored.id := stored];
    }
    assert RoutesDistinct(code, Live(after, a)) <==> !Clashes(c, v, expected);
    forall b | b in c.codes && b != a
      ensures RoutesDistinct(c.codes[b], Live(after, b))
    {
    }
  }

  lemma FewerRoutes(code: string, menus: map<string, Menu>, id: string)
    requires RoutesDistinct(code, menus)
    ensures RoutesDistinct(code, menus - {id})
  {
    hide RouteOf, Scope;
    var scope, after := Scope(code), menus - {id};
    assert forall x :: x in after ==> Paths(scope, after)[x] == Paths(scope, menus)[x];
  }

  lemma DeleteKeepsRoutes(c: Catalog, id: string, expected: int)
    requires CatalogValid(c) && AllRoutesDistinct(c) && DeleteAccepted(c, id, expected)
    ensures AllRoutesDistinct(Deleted(c, id))
  {
    DeletedLive(c, id, expected);
    hide RoutesDistinct, Live, CatalogValid;
    forall b | b in c.codes
      ensures RoutesDistinct(c.codes[b], Live(Deleted(c, id), b))
    {
      FewerRoutes(c.codes[b], Live(c, b), id);
    }
  }

  // ----- runs

  ghost function Run(c: Catalog, ops: seq<Op>, validUrl: string -> bool): Catalog
    decreases |ops|
  {
    if ops == [] then c else Run(Step(c, ops[0], validUrl), ops[1..], validUrl)
  }

  ghost predicate OpAddressed(c: Catalog, op: Op) {
    op.Upsert? ==> WellAddressed(c, Normalized(op.v), op.expected)
  }

  ghost predicate OpWithoutClash(c: Catalog, op: Op) {
    op.Upsert? ==>
      var v := Normalized(op.v);
      Target(c, v, op.expected) == v.applicationId && !Clashes(c, v, op.expected)
  }

  /** Each upsert of the run is well addressed when its turn comes. */
  ghost predicate RunAddressed(c: Catalog, ops: seq<Op>, validUrl: string -> bool)
    decreases |ops|
  {
    ops != [] ==>
      OpAddressed(c, ops[0]) &&
      RunAddressed(Step(c, ops[0], validUrl), ops[1..], validUrl)
  }

  /** Each upsert of the run is in the menu's own application and does not clash. */
  ghost predicate RunWithoutClash(c: Catalog, ops: seq<Op>, validUrl: string -> bool)
    decreases |ops|
  {
    ops != [] ==>
      OpWithoutClash(c, ops[0]) &&
      RunWithoutClash(Step(c, ops[0], validUrl), ops[1..], validUrl)
  }

  /** Every serial run of well-addressed calls keeps the drafts of every application a forest. */
  lemma {:induction false} RunKeepsForests(c: Catalog, ops: seq<Op>, validUrl: string -> bool)
    requires CatalogValid(c) && LiveForests(c) && RunAddressed(c, ops, validUrl)
    ensures CatalogValid(Run(c, ops, validUrl)) && LiveForests(Run(c, ops, validUrl))
    decreases |ops|
  {
    hide CatalogValid, LiveForests, UpsertAccepted, DeleteAccepted, Upserted, Deleted, WellAddressed, Normalized;
    if ops != [] {
      match ops[0] {
        case Upsert(v, expected, freshId) =>
          if UpsertAccepted(c, Normalized(v), expected, freshId, validUrl) {
            UpsertKeepsCatalog(c, Normalized(v), expected, freshId, validUrl);
            UpsertKeepsForests(c, Normalized(v), expected, freshId, validUrl);
          }
        case Delete(id, expected) =>
          if DeleteAccepted(c, id, expected) {
            DeleteKeepsForests(c, id, expected);
          }
      }
      RunKeepsForests(Step(c, ops[0], validUrl), ops[1..], validUrl);
    }
  }

  /** Every serial run without clashes also keeps the active routes of every application distinct. */
  lemma {:induction false} RunKeepsRoutes(c: Catalog, ops: seq<Op>, validUrl: string -> bool)
    requires CatalogValid(c) && LiveForests(c) && AllRoutesDistinct(c) && RunWithoutClash(c, ops, validUrl)
    ensures AllRoutesDistinct(Run(c, ops, validUrl)) && LiveForests(Run(c, ops, validUrl))
    decreases |ops|
  {
    hide CatalogValid, LiveForests, AllRoutesDistinct, UpsertAccepted, DeleteAccepted, Upserted, Deleted, Normalized,
         Clashes, Target;
    if ops != [] {
      match ops[0] {
        case Upsert(v, expected, freshId) =>
          if UpsertAccepted(c, Normalized(v), expected, freshId, validUrl) {
            UpsertKeepsCatalog(c, Normalized(v), expected, freshId, validUrl);
            UpsertKeepsForests(c, Normalized(v), expected, freshId, validUrl);
            UpsertKeepsRoutes(c, Normalized(v), expected, freshId, validUrl);
          }
        case Delete(id, expected) =>
          if DeleteAccepted(c, id, expected) {
            DeleteKeepsForests(c, id, expected);
            DeleteKeepsRoutes(c, id, expected);
          }
      }
      RunKeepsRoutes(Step(c, ops[0], validUrl), ops[1..], validUrl);
    }
  }

  // ----- parents

  /** All the checks on a menu below another one, apart from the type of its parent. */
  ghost predicate OtherwiseAccepted(c: Catalog, v: Menu, expected: int, validUrl: string -> bool) {
    && FieldsValid(v, expected, validUrl) && v.applicationId in c.codes
    && (v.kind == "page" ==> ValidPageComponent(c.codes[v.applicationId], v.component))
    && v.parentId != "" && v.parentId in Live(c, v.applicationId)
    && TreeFits(Live(c, v.applicationId), v)
    && RoutesFit(c.codes[v.applicationId], Live(c, v.applicationId) - {v.id}, v)
  }

  /** With all other checks met, a menu of any type is accepted below a live menu exactly when that one is a page. */
  lemma ParentMustBePageIff(c: Catalog, v: Menu, expected: int, validUrl: string -> bool)
    requires OtherwiseAccepted(c, v, expected, validUrl)
    ensures MenuAccepted(c, v, expected, validUrl) <==> Live(c, v.applicationId)[v.parentId].kind == "page"
  {
    hide FieldsValid, ValidPageComponent, TreeFits, RoutesFit, Live;
  }
}
