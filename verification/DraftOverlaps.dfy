/**
 Writes whose checks were made on older drafts: exactly when such a write keeps the
 trees and the routes, whatever has happened since the check.
 */
module DraftOverlaps {
  import opened Text
  import opened Routes
  import opened Menus
  import opened MenuTree
  import opened MenuRoutes
  import opened DraftMenus
  import opened DraftRuns

  // ----- upserts

  lemma WrittenMenu(c: Catalog, v: Menu, expected: int, freshId: string)
    requires CatalogValid(c) && Writable(c, v, expected, freshId)
    ensures var stored := StoredMenu(c, v, expected, freshId);
            stored.id != "" && stored.parentId == v.parentId && stored.id == if expected == 0 then freshId else v.id
  {
    hide CodeTaken;
  }

  /**
   A write keeps every tree a forest exactly when, at the time of the write, the walk
   from the sent parent reaches the root without meeting the menu itself. For a create
   that means that the parent is still there.
   */
  lemma WriteKeepsForestsIff(c: Catalog, v: Menu, expected: int, freshId: string)
    requires CatalogValid(c) && LiveForests(c) && Writable(c, v, expected, freshId)
    ensures LiveForests(Upserted(c, v, expected, freshId)) <==>
      ReachesAvoiding(Parents(Live(c, Target(c, v, expected))), v.parentId, if expected == 0 then freshId else v.id)
  {
    hide Writable, Forest, ReachesAvoiding, Upserted, StoredMenu, Target, Live, Parents, CatalogValid;
    var after, a, stored := Upserted(c, v, expected, freshId), Target(c, v, expected),
        StoredMenu(c, v, expected, freshId);
    UpsertedLive(c, v, expected, freshId);
    WrittenMenu(c, v, expected, freshId);
    PutParents(Live(c, a), stored);
    MoveKeepsForestIff(Parents(Live(c, a)), stored.id, v.parentId);
    forall b | b != a
      ensures Forest(Parents(Live(after, b)))
    {
      assert Live(after, b) == Live(c, b);
    }
  }

  /** A create whose parent was deleted after the check leaves a menu without a parent. */
  lemma CreateBelowDeleted(c: Catalog, id: string, version: int, v: Menu, freshId: string)
    requires CatalogValid(c) && LiveForests(c) && DeleteAccepted(c, id, version)
    requires Writable(Deleted(c, id), v, 0, freshId) && v.parentId == id
    requires v.applicationId == c.rows[id].menu.applicationId
    ensures !LiveForests(Upserted(Deleted(c, id), v, 0, freshId))
  {
    hide CodeTaken, Forest, HasChildren, ReachesAvoiding;
    var after := Deleted(c, id);
    DeleteKeepsForests(c, id, version);
    DeletedLive(c, id, version);
    WriteKeepsForestsIff(after, v, 0, freshId);
    GoneIsNotReached(Parents(Live(after, v.applicationId)), id, freshId);
  }

  lemma GoneIsNotReached(parents: map<string, string>, from: string, avoid: string)
    requires from != "" && from !in parents
    ensures !ReachesAvoiding(parents, from, avoid)
  {
  }

  /** A write keeps the active routes distinct exactly when its own path is free at the time of the write. */
  lemma WriteKeepsRoutesIff(c: Catalog, v: Menu, expected: int, freshId: string)
    requires CatalogValid(c) && Writable(c, v, expected, freshId) && AllRoutesDistinct(c)
    requires Target(c, v, expected) in c.codes
    ensures var a, stored := Target(c, v, expected), StoredMenu(c, v, expected, freshId);
            AllRoutesDistinct(Upserted(c, v, expected, freshId)) <==>
              (IsActiveRouteMenu(stored) ==>
                 !PathTaken(Scope(c.codes[a]), Live(c, a) - {stored.id}, RouteOf(Scope(c.codes[a]), stored)))
  {
    hide Writable, RouteOf, Scope, RoutesDistinct, PathTaken, StoredMenu, Target, Live, CatalogValid, IsActiveRouteMenu;
    var after, a, stored := Upserted(c, v, expected, freshId), Target(c, v, expected),
        StoredMenu(c, v, expected, freshId);
    var code, others := c.codes[a], Live(c, a) - {stored.id};
    UpsertedLive(c, v, expected, freshId);
    assert RoutesDistinct(code, Live(c, a));
    FewerRoutes(code, Live(c, a), stored.id);
    RoutesAfterPut(code, others, stored);
    assert others[stored.id := stored] == Live(c, a)[stored.id := stored];
    forall b | b in c.codes && b != a
      ensures RoutesDistinct(c.codes[b], Live(after, b))
    {
    }
  }

  // ----- deletes

  /**
   A delete that goes through keeps every tree a forest exactly when the menu has no child at the
   time of the delete.
   */
  lemma RemovalKeepsForestsIff(c: Catalog, id: string, expected: int)
    requires CatalogValid(c) && LiveForests(c) && Deletable(c, id, expected)
    ensures LiveForests(Deleted(c, id)) <==> !HasChildren(c, id)
  {
    var after, a := Deleted(c, id), c.rows[id].menu.applicationId;
    var live := Live(c, a);
    DeletedLive(c, id, expected);
    ParentsWithout(live, id);
    OwnChildOnly(c, id);
    hide Parents, Forest, Deleted, Live, Deletable, HasChildren;
    RemoveKeepsForestIff(Parents(live), id);
    forall b | b != a
      ensures Forest(Parents(Live(after, b)))
    {
      assert Live(after, b) == Live(c, b);
    }
  }

  /** In a forest no menu is its own parent, so a child is another menu. */
  lemma OwnChildOnly(c: Catalog, id: string)
    requires CatalogValid(c) && LiveForests(c) && IsLiveRow(c, id)
    ensures var parents := Parents(Live(c, c.rows[id].menu.applicationId));
            "" !in parents && id != "" &&
                (HasChildren(c, id) <==> exists x :: x in parents && x != id && parents[x] == id)
  {
    hide Forest;
    var parents := Parents(Live(c, c.rows[id].menu.applicationId));
    assert id in parents;
    assert parents[id] != id by {
      if parents[id] == id {
        SelfParent(parents, id);
      }
    }
    forall x | x in parents
      ensures parents[x] == c.rows[x].menu.parentId
    {
    }
  }

  lemma SelfParent(parents: map<string, string>, id: string)
    requires id in parents && parents[id] == id && id != ""
    ensures !Forest(parents)
  {
    forall n: nat
      ensures !Climbs(parents, id, n)
    {
      SelfParentClimbs(parents, id, n);
    }
    assert !ReachesRoot(parents, id);
  }

  lemma {:induction false} SelfParentClimbs(parents: map<string, string>, id: string, n: nat)
    requires id in parents && parents[id] == id && id != ""
    ensures !Climbs(parents, id, n)
    decreases n
  {
    if n > 0 {
      SelfParentClimbs(parents, id, n - 1);
    }
  }
}
