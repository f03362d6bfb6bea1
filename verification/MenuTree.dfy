/**
 Menu trees: parent maps, what it means to be a forest, and the service's cycle
 check, `validateMenuTree`.
 */
module MenuTree {
  import opened Menus

  // ----- climbing parent links

  /** At most `n` steps up known parents lead from `from` to the empty parent. */
  predicate Climbs(parents: map<string, string>, from: string, n: nat)
    decreases n
  {
    from == "" || (n > 0 && from in parents && Climbs(parents, parents[from], n - 1))
  }

  ghost predicate ReachesRoot(parents: map<string, string>, from: string) {
    exists n: nat :: Climbs(parents, from, n)
  }

  /** Every item's chain of parents ends at the root through known items. */
  ghost predicate Forest(parents: map<string, string>) {
    forall id :: id in parents ==> ReachesRoot(parents, id)
  }

  /** As `Climbs`, without visiting `avoid`. */
  predicate ClimbsAvoiding(parents: map<string, string>, from: string, avoid: string, n: nat)
    decreases n
  {
    from == "" ||
    (n > 0 && from != avoid && from in parents && ClimbsAvoiding(parents, parents[from], avoid, n - 1))
  }

  ghost predicate ReachesAvoiding(parents: map<string, string>, from: string, avoid: string) {
    exists n: nat :: ClimbsAvoiding(parents, from, avoid, n)
  }

  lemma {:induction false} ClimbsMore(parents: map<string, string>, from: string, n: nat, m: nat)
    requires Climbs(parents, from, n) && n <= m
    ensures Climbs(parents, from, m)
    decreases n
  {
    if from != "" {
      ClimbsMore(parents, parents[from], n - 1, m - 1);
    }
  }

  lemma ReachesStep(parents: map<string, string>, from: string)
    requires from in parents && from != ""
    ensures ReachesRoot(parents, from) <==> ReachesRoot(parents, parents[from])
  {
    if ReachesRoot(parents, from) {
      var n: nat :| Climbs(parents, from, n);
      assert Climbs(parents, parents[from], n - 1);
    }
    if ReachesRoot(parents, parents[from]) {
      var n: nat :| Climbs(parents, parents[from], n);
      assert Climbs(parents, from, n + 1);
    }
  }

  /** In a forest a parent is the root or a known item. */
  lemma ForestParents(parents: map<string, string>, id: string)
    requires Forest(parents) && id in parents && id != ""
    ensures parents[id] == "" || parents[id] in parents
  {
    var n: nat :| Climbs(parents, id, n);
    assert Climbs(parents, parents[id], n - 1);
  }

  // ----- edits that keep a forest a forest

  /** A set of items that holds the parent of each of its members. */
  ghost predicate Closed(parents: map<string, string>, inner: set<string>) {
    forall c :: c in inner ==> c in parents && c != "" && (parents[c] == "" || parents[c] in inner)
  }

  lemma {:induction false} ClosedClimbs(parents: map<string, string>, inner: set<string>, s: string, p: string,
                                        from: string, n: nat)
    requires Closed(parents, inner) && s !in inner && (from == "" || from in inner)
    requires Climbs(parents, from, n)
    ensures Climbs(parents[s := p], from, n)
    decreases n
  {
    if from != "" {
      ClosedClimbs(parents, inner, s, p, parents[from], n - 1);
    }
  }

  lemma {:induction false} ReparentClimbs(parents: map<string, string>, inner: set<string>, s: string, p: string,
                                          from: string, n: nat)
    requires Closed(parents, inner) && s !in inner && s != "" && (p == "" || p in inner)
    requires ReachesRoot(parents, p) && Climbs(parents, from, n)
    ensures ReachesRoot(parents[s := p], from)
    decreases n
  {
    var updated := parents[s := p];
    if from == "" {
      assert Climbs(updated, "", 0);
    } else if from == s {
      var k: nat :| Climbs(parents, p, k);
      ClosedClimbs(parents, inner, s, p, p, k);
      assert Climbs(updated, updated[s], k);
      ReachesStep(updated, s);
    } else {
      ReparentClimbs(parents, inner, s, p, parents[from], n - 1);
      ReachesStep(updated, from);
    }
  }

  /**
   Moving or adding `s` under a parent `p` that lies in a parent-closed set
   without `s` keeps a forest a forest, whatever hangs below `s`.
   */
  lemma Reparent(parents: map<string, string>, inner: set<string>, s: string, p: string)
    requires Forest(parents) && Closed(parents, inner)
    requires s !in inner && s != "" && (p == "" || p in inner)
    ensures Forest(parents[s := p])
  {
    assert Climbs(parents, "", 0);
    assert ReachesRoot(parents, p);
    var updated := parents[s := p];
    forall id | id in updated
      ensures ReachesRoot(updated, id)
    {
      if id == s {
        var k: nat :| Climbs(parents, p, k);
        ReparentClimbs(parents, inner, s, p, p, k);
        ReachesStep(updated, s);
      } else {
        var n: nat :| Climbs(parents, id, n);
        ReparentClimbs(parents, inner, s, p, id, n);
      }
    }
  }

  lemma {:induction false} RemoveClimbs(parents: map<string, string>, leaf: string, from: string, n: nat)
    requires Climbs(parents, from, n) && from != leaf
    requires forall id :: id in parents && id != leaf ==> parents[id] != leaf
    ensures Climbs(parents - {leaf}, from, n)
    decreases n
  {
    if from != "" {
      RemoveClimbs(parents, leaf, parents[from], n - 1);
    }
  }

  /** Removing an item that is nobody's parent keeps a forest a forest. */
  lemma RemoveLeaf(parents: map<string, string>, leaf: string)
    requires Forest(parents) && leaf != ""
    requires forall id :: id in parents && id != leaf ==> parents[id] != leaf
    ensures Forest(parents - {leaf})
  {
    forall id | id in parents - {leaf}
      ensures ReachesRoot(parents - {leaf}, id)
    {
      var n: nat :| Climbs(parents, id, n);
      RemoveClimbs(parents, leaf, id, n);
    }
  }

  // ----- lists of menus

  /** The parent of each item with an identifier; a later item replaces an earlier one. */
  function ParentsById(items: seq<Menu>): map<string, string> {
    if items == [] then map[]
    else
      var last := items[|items| - 1];
      var rest := ParentsById(items[..|items| - 1]);
      if last.id != "" then rest[last.id := last.parentId] else rest
  }

  ghost predicate UniqueIds(items: seq<Menu>) {
    forall i, j :: 0 <= i < j < |items| && items[i].id != "" ==> items[i].id != items[j].id
  }

  lemma {:induction false} ParentsByIdKeys(items: seq<Menu>)
    ensures "" !in ParentsById(items)
    ensures forall id :: id in ParentsById(items) ==> exists i :: 0 <= i < |items| && items[i].id == id
    ensures forall i :: 0 <= i < |items| && items[i].id != "" ==> items[i].id in ParentsById(items)
  {
    if items != [] {
      var front := items[..|items| - 1];
      ParentsByIdKeys(front);
      forall id | id in ParentsById(items)
        ensures exists i :: 0 <= i < |items| && items[i].id == id
      {
        if id == items[|items| - 1].id {
        } else {
          var i :| 0 <= i < |front| && front[i].id == id;
          assert items[i].id == id;
        }
      }
      forall i | 0 <= i < |items| && items[i].id != ""
        ensures items[i].id in ParentsById(items)
      {
        assert i < |items| - 1 ==> front[i] == items[i];
      }
    }
  }

  lemma {:induction false} ParentsByIdUnique(items: seq<Menu>)
    requires UniqueIds(items)
    ensures forall i :: 0 <= i < |items| && items[i].id != "" ==>
              items[i].id in ParentsById(items) && ParentsById(items)[items[i].id] == items[i].parentId
  {
    if items != [] {
      var front := items[..|items| - 1];
      ParentsByIdUnique(front);
      forall i | 0 <= i < |items| && items[i].id != ""
        ensures items[i].id in ParentsById(items) && ParentsById(items)[items[i].id] == items[i].parentId
      {
        assert i < |items| - 1 ==> front[i] == items[i];
      }
    }
  }

  lemma ParentsByIdLast(items: seq<Menu>, m: Menu)
    ensures ParentsById(items + [m]) ==
              if m.id != "" then ParentsById(items)[m.id := m.parentId] else ParentsById(items)
  {
    assert (items + [m])[..|items|] == items;
  }

  // ----- the cycle check

  /** What the check accepts: each parent chain reaches the root without passing its own item. */
  ghost predicate TreeAccepted(items: seq<Menu>) {
    forall i :: 0 <= i < |items| ==> ReachesAvoiding(ParentsById(items), items[i].parentId, items[i].id)
  }

  /** `validateMenuTree`: true when it returns no error. */
  method ValidateMenuTree(items: seq<Menu>) returns (accepted: bool)
    ensures accepted <==> TreeAccepted(items)
  {
    var byId: map<string, string> := map[];
    for i := 0 to |items|
      invariant byId == ParentsById(items[..i])
    {
      assert items[..i + 1][..i] == items[..i];
      if items[i].id != "" {
        byId := byId[items[i].id := items[i].parentId];
      }
    }
    assert items[..|items|] == items;
    ParentsByIdKeys(items);
    for i := 0 to |items|
      invariant forall j :: 0 <= j < i ==> ReachesAvoiding(byId, items[j].parentId, items[j].id)
    {
      var reached := WalkParents(byId, items[i].parentId, items[i].id);
      if !reached {
        return false;
      }
    }
    return true;
  }

  /** The inner walk: it stops because `seen` grows inside the known identifiers. */
  method WalkParents(byId: map<string, string>, start: string, own: string) returns (reached: bool)
    ensures reached <==> ReachesAvoiding(byId, start, own)
  {
    var seen := {own};
    var parent := start;
    ghost var steps: nat := 0;
    while parent != ""
      invariant own in seen
      invariant forall n: nat :: ClimbsAvoiding(byId, parent, own, n) ==> ClimbsAvoiding(byId, start, own, n + steps)
      invariant ReachesAvoiding(byId, start, own) ==> ReachesAvoiding(byId, parent, own)
      invariant forall x :: x in seen && x != own ==> LeadsTo(byId, x, parent, own)
      decreases byId.Keys - seen
    {
      if parent in seen {
        RefusedAt(byId, parent, own, seen);
        return false;
      }
      if parent !in byId {
        return false;
      }
      forall x | x in seen && x != own
        ensures LeadsTo(byId, x, byId[parent], own)
      {
        LeadsFurther(byId, x, parent, own);
      }
      AvoidingStep(byId, parent, own);
      ghost var next := byId[parent];
      assert forall n: nat :: ClimbsAvoiding(byId, next, own, n) ==> ClimbsAvoiding(byId, parent, own, n + 1);
      assert LeadsTo(byId, parent, next, own);
      seen := seen + {parent};
      steps := steps + 1;
      parent := byId[parent];
    }
    assert ClimbsAvoiding(byId, "", own, 0);
    assert ClimbsAvoiding(byId, start, own, 0 + steps);
    return true;
  }

  lemma RefusedAt(parents: map<string, string>, parent: string, own: string, seen: set<string>)
    requires parent != "" && parent in seen
    requires forall x :: x in seen && x != own ==> LeadsTo(parents, x, parent, own)
    ensures !ReachesAvoiding(parents, parent, own)
  {
    if parent != own {
      LeadsToItself(parents, parent, own);
    }
  }

  /** Climbing from `x` to the root passes `y` strictly later. */
  ghost predicate LeadsTo(parents: map<string, string>, x: string, y: string, avoid: string) {
    forall n: nat :: ClimbsAvoiding(parents, x, avoid, n) ==> n > 0 && ClimbsAvoiding(parents, y, avoid, n - 1)
  }

  lemma {:induction false} ClimbsAvoidingMore(parents: map<string, string>, from: string, avoid: string, n: nat)
    requires ClimbsAvoiding(parents, from, avoid, n)
    ensures ClimbsAvoiding(parents, from, avoid, n + 1)
    decreases n
  {
    if from != "" {
      ClimbsAvoidingMore(parents, parents[from], avoid, n - 1);
    }
  }

  lemma LeadsFurther(parents: map<string, string>, x: string, y: string, avoid: string)
    requires LeadsTo(parents, x, y, avoid) && y != "" && y in parents
    ensures LeadsTo(parents, x, parents[y], avoid)
  {
    forall n: nat | ClimbsAvoiding(parents, x, avoid, n)
      ensures n > 0 && ClimbsAvoiding(parents, parents[y], avoid, n - 1)
    {
      assert ClimbsAvoiding(parents, y, avoid, n - 1);
      ClimbsAvoidingMore(parents, parents[y], avoid, n - 2);
    }
  }

  lemma {:induction false} LeadsToItselfAt(parents: map<string, string>, x: string, avoid: string, n: nat)
    requires LeadsTo(parents, x, x, avoid)
    ensures !ClimbsAvoiding(parents, x, avoid, n)
  {
    if n > 0 {
      LeadsToItselfAt(parents, x, avoid, n - 1);
    }
  }

  lemma LeadsToItself(parents: map<string, string>, x: string, avoid: string)
    requires LeadsTo(parents, x, x, avoid)
    ensures !ReachesAvoiding(parents, x, avoid)
  {
    forall n: nat
      ensures !ClimbsAvoiding(parents, x, avoid, n)
    {
      LeadsToItselfAt(parents, x, avoid, n);
    }
  }

  lemma AvoidingStep(parents: map<string, string>, from: string, avoid: string)
    requires from != "" && from != avoid && from in parents
    ensures ReachesAvoiding(parents, from, avoid) ==> ReachesAvoiding(parents, parents[from], avoid)
  {
    if ReachesAvoiding(parents, from, avoid) {
      var n: nat :| ClimbsAvoiding(parents, from, avoid, n);
      assert ClimbsAvoiding(parents, parents[from], avoid, n - 1);
    }
  }

  // ----- acceptance is exactly "forest" when identifiers are unique

  lemma {:induction false} ClimbsDropsAvoid(parents: map<string, string>, from: string, avoid: string, n: nat)
    requires Climbs(parents, from, n) && !Climbs(parents, avoid, n)
    ensures ClimbsAvoiding(parents, from, avoid, n)
    decreases n
  {
    if from != "" {
      if Climbs(parents, avoid, n - 1) {
        ClimbsMore(parents, avoid, n - 1, n);
      }
      ClimbsDropsAvoid(parents, parents[from], avoid, n - 1);
    }
  }

  lemma {:induction false} AvoidingClimbs(parents: map<string, string>, from: string, avoid: string, n: nat)
    requires ClimbsAvoiding(parents, from, avoid, n)
    ensures Climbs(parents, from, n)
    decreases n
  {
    if from != "" {
      AvoidingClimbs(parents, parents[from], avoid, n - 1);
    }
  }

  /** A chain that reaches the root never passes the item it starts from. */
  lemma {:induction false} ShortestAvoids(parents: map<string, string>, id: string, n: nat)
    requires id != "" && id in parents && Climbs(parents, id, n)
    ensures ReachesAvoiding(parents, parents[id], id)
    decreases n
  {
    if Climbs(parents, id, n - 1) {
      ShortestAvoids(parents, id, n - 1);
    } else {
      ClimbsDropsAvoid(parents, parents[id], id, n - 1);
    }
  }

  /** An item without an identifier cannot be passed by anyone's chain. */
  lemma {:induction false} ClimbsAvoidsEmpty(parents: map<string, string>, from: string, n: nat)
    requires Climbs(parents, from, n)
    ensures ClimbsAvoiding(parents, from, "", n)
    decreases n
  {
    if from != "" {
      ClimbsAvoidsEmpty(parents, parents[from], n - 1);
    }
  }

  lemma AcceptedAt(items: seq<Menu>, i: nat)
    requires UniqueIds(items) && i < |items|
    ensures ReachesAvoiding(ParentsById(items), items[i].parentId, items[i].id)
       <==> ReachesRoot(ParentsById(items), items[i].parentId)
  {
    var parents, v := ParentsById(items), items[i];
    ParentsByIdUnique(items);
    if ReachesAvoiding(parents, v.parentId, v.id) {
      var n: nat :| ClimbsAvoiding(parents, v.parentId, v.id, n);
      AvoidingClimbs(parents, v.parentId, v.id, n);
    }
    if ReachesRoot(parents, v.parentId) {
      var n: nat :| Climbs(parents, v.parentId, n);
      if v.id == "" {
        ClimbsAvoidsEmpty(parents, v.parentId, n);
      } else {
        assert Climbs(parents, v.id, n + 1);
        ShortestAvoids(parents, v.id, n + 1);
      }
    }
  }

  // ----- one item moved, from whatever state its check was made on

  /** A chain that avoids `id` does not depend on the parent of `id`. */
  lemma {:induction false} AvoidingIgnores(parents: map<string, string>, id: string, p: string, from: string, n: nat)
    ensures ClimbsAvoiding(parents[id := p], from, id, n) <==> ClimbsAvoiding(parents, from, id, n)
    decreases n
  {
    if n > 0 && from != "" && from != id && from in parents {
      AvoidingIgnores(parents, id, p, parents[from], n - 1);
    }
  }

  lemma {:induction false} MovedReaches(parents: map<string, string>, id: string, p: string, from: string, n: nat)
    requires Climbs(parents, from, n) && ReachesRoot(parents[id := p], id)
    ensures ReachesRoot(parents[id := p], from)
    decreases n
  {
    if from == "" {
      assert Climbs(parents[id := p], from, 0);
    } else if from != id {
      MovedReaches(parents, id, p, parents[from], n - 1);
      ReachesStep(parents[id := p], from);
    }
  }

  /** Putting `id` under `p` keeps a forest a forest exactly when the chain of `p` reaches the root without `id`. */
  lemma MoveKeepsForestIff(parents: map<string, string>, id: string, p: string)
    requires Forest(parents) && id != ""
    ensures Forest(parents[id := p]) <==> ReachesAvoiding(parents, p, id)
  {
    var moved := parents[id := p];
    if Forest(moved) {
      var n: nat :| Climbs(moved, id, n);
      ShortestAvoids(moved, id, n);
      var k: nat :| ClimbsAvoiding(moved, p, id, k);
      AvoidingIgnores(parents, id, p, p, k);
    }
    if ReachesAvoiding(parents, p, id) {
      var k: nat :| ClimbsAvoiding(parents, p, id, k);
      AvoidingIgnores(parents, id, p, p, k);
      AvoidingClimbs(moved, p, id, k);
      assert Climbs(moved, id, k + 1);
      forall from | from in moved
        ensures ReachesRoot(moved, from)
      {
        if from != id {
          var n: nat :| Climbs(parents, from, n);
          MovedReaches(parents, id, p, from, n);
        }
      }
    }
  }

  /** Removing an item keeps a forest a forest exactly when the item is nobody's parent. */
  lemma RemoveKeepsForestIff(parents: map<string, string>, id: string)
    requires Forest(parents) && id != "" && "" !in parents
    ensures Forest(parents - {id}) <==> forall x :: x in parents && x != id ==> parents[x] != id
  {
    if forall x :: x in parents && x != id ==> parents[x] != id {
      RemoveLeaf(parents, id);
    } else {
      var x :| x in parents && x != id && parents[x] == id;
      if Forest(parents - {id}) {
        ForestParents(parents - {id}, x);
      }
    }
  }

  /**
   With unique identifiers the check accepts exactly the lists in which every
   item's parent chain reaches the empty parent through known items, that is,
   the identified items form a forest and an item without identifier (a menu
   about to be created) hangs below it.
   */
  lemma TreeAcceptedIffForest(items: seq<Menu>)
    requires UniqueIds(items)
    ensures TreeAccepted(items) <==> forall i :: 0 <= i < |items| ==> ReachesRoot(ParentsById(items), items[i].parentId)
    ensures TreeAccepted(items) <==>
              Forest(ParentsById(items)) &&
              forall i :: 0 <= i < |items| && items[i].id == "" ==> ReachesRoot(ParentsById(items), items[i].parentId)
  {
    var parents := ParentsById(items);
    forall i | 0 <= i < |items|
      ensures ReachesAvoiding(parents, items[i].parentId, items[i].id) <==> ReachesRoot(parents, items[i].parentId)
      ensures items[i].id != "" ==>
                items[i].id in parents &&
                    (ReachesRoot(parents, items[i].id) <==> ReachesRoot(parents, items[i].parentId))
    {
      AcceptedAt(items, i);
      ParentsByIdUnique(items);
      if items[i].id != "" {
        ReachesStep(parents, items[i].id);
      }
    }
    ParentsByIdKeys(items);
  }

  /** The form in which the service uses the check: identified items and then the sent menu. */
  lemma AcceptedWithLast(items: seq<Menu>, m: Menu)
    requires UniqueIds(items + [m]) && forall i :: 0 <= i < |items| ==> items[i].id != ""
    ensures var parents := if m.id == "" then ParentsById(items) else ParentsById(items)[m.id := m.parentId];
            TreeAccepted(items + [m]) <==> Forest(parents) && (m.id == "" ==> ReachesRoot(parents, m.parentId))
  {
    hide TreeAccepted, ParentsById, Forest, ReachesRoot;
    var next := items + [m];
    TreeAcceptedIffForest(next);
    ParentsByIdLast(items, m);
    assert next[|items|] == m;
  }

  function Item(id: string, parentId: string): Menu {
    Menu(id, "", parentId, "", "", "", "", "", "", "", "", "", "", "", 0, true, 1)
  }

  /**
   Without unique identifiers the check refuses more than cycles: here every
   chain reaches the root, but one of them through a second item of the same
   identifier.
   */
  lemma RepeatedIdIsRefused()
    ensures var items := [Item("a", "b"), Item("a", ""), Item("b", "a")];
            !TreeAccepted(items) && forall i :: 0 <= i < |items| ==> ReachesRoot(ParentsById(items), items[i].parentId)
  {
    var items := [Item("a", "b"), Item("a", ""), Item("b", "a")];
    var parents := ParentsById(items);
    assert items[..2][..1] == [items[0]] && items[..2] == [items[0], items[1]];
    assert ParentsById([items[0]]) == map["a" := "b"] by { assert [items[0]][..0] == []; }
    assert ParentsById(items[..2]) == map["a" := ""];
    assert parents == map["a" := "", "b" := "a"];
    assert Climbs(parents, "", 0) && Climbs(parents, "a", 1) && Climbs(parents, "b", 2);
    forall n: nat
      ensures !ClimbsAvoiding(parents, "b", "a", n)
    {
      assert n > 0 ==> !ClimbsAvoiding(parents, "a", "a", n - 1);
    }
    assert !ReachesAvoiding(parents, items[0].parentId, items[0].id);
  }
}
