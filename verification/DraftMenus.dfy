/**
 The menu drafts of the application service: validation of one menu against its
 application's live drafts, upsert with optimistic locking, and soft delete.
 */
module DraftMenus {
  import opened Wrappers
  import opened Text
  import opened Routes
  import opened Menus
  import opened MenuTree
  import opened MenuRoutes

  /** A draft row; `deleted` stands for a set deletion time. */
  datatype Row = Row(menu: Menu, deleted: bool)

  /** Codes of applications by identifier, and all draft rows, live or deleted, by identifier. */
  datatype Catalog = Catalog(codes: map<string, string>, rows: map<string, Row>)

  datatype ServiceError = Invalid | NotFound | Conflict | Stale | Internal

  predicate IsLiveIn(r: Row, applicationId: string) {
    !r.deleted && r.menu.applicationId == applicationId
  }

  predicate IsLiveRow(c: Catalog, id: string) {
    id in c.rows && !c.rows[id].deleted
  }

  /** The live drafts of an application, by identifier. */
  function Live(c: Catalog, applicationId: string): map<string, Menu> {
    map id | id in c.rows && IsLiveIn(c.rows[id], applicationId) :: c.rows[id].menu
  }

  function Parents(menus: map<string, Menu>): map<string, string> {
    map id | id in menus :: menus[id].parentId
  }

  /** What the database guarantees: primary keys, and one row per application and code. */
  ghost predicate CatalogValid(c: Catalog) {
    && (forall id :: id in c.rows ==> id != "" && c.rows[id].menu.id == id)
    && forall x, y :: x in c.rows && y in c.rows && x != y ==>
         c.rows[x].menu.applicationId != c.rows[y].menu.applicationId || c.rows[x].menu.code != c.rows[y].menu.code
  }

  ghost predicate LiveForests(c: Catalog) {
    forall a :: Forest(Parents(Live(c, a)))
  }

  // ----- validation of one menu

  function Normalized(v: Menu): Menu {
    var scope := ToLower(TrimSpace(v.permissionScope));
    v.(applicationId := TrimSpace(v.applicationId), id := TrimSpace(v.id), parentId := TrimSpace(v.parentId),
       code := TrimSpace(v.code), kind := TrimSpace(v.kind), name := TrimSpace(v.name), i18nKey := TrimSpace(v.i18nKey),
       route := TrimSpace(v.route), component := TrimSpace(v.component), externalUrl := TrimSpace(v.externalUrl),
       permissionCode := ToLower(TrimSpace(v.permissionCode)), permissionScope := if scope == "" then "tenant"
           else scope)
  }

  lemma TrimTwice(s: string)
    ensures TrimSpace(TrimSpace(s)) == TrimSpace(s)
  {
    TrimFixpoint(TrimSpace(s), IsSpace);
  }

  lemma LowerTwice(s: string)
    ensures ToLower(TrimSpace(ToLower(TrimSpace(s)))) == ToLower(TrimSpace(s))
  {
    var t := ToLower(TrimSpace(s));
    TrimFixpoint(t, IsSpace);
    hide TrimSpace;
    assert forall c: char :: LowerChar(LowerChar(c)) == LowerChar(c);
    assert ToLower(t) == t;
  }

  /** Normalising is stable, so a stored menu that is sent back is stored as it is. */
  lemma NormalizedTwice(v: Menu)
    ensures Normalized(Normalized(v)) == Normalized(v)
  {
    hide TrimSpace, ToLower;
    TrimTwice(v.applicationId);
    TrimTwice(v.id);
    TrimTwice(v.parentId);
    TrimTwice(v.code);
    TrimTwice(v.kind);
    TrimTwice(v.name);
    TrimTwice(v.i18nKey);
    TrimTwice(v.route);
    TrimTwice(v.component);
    TrimTwice(v.externalUrl);
    LowerTwice(v.permissionCode);
    LowerTwice(v.permissionScope);
    TenantIsStable();
    match v { case Menu(_, _, _, _, _, _, _, _, _, _, _, _, _, _, _, _, _) => }
  }

  lemma TenantIsStable()
    ensures ToLower(TrimSpace("tenant")) == "tenant"
  {
    TrimFixpoint("tenant", IsSpace);
    hide TrimSpace;
    assert ToLower("tenant") == "tenant";
  }

  /** The checks that look at the menu alone; `validUrl` stands for URL parsing. */
  predicate FieldsValid(v: Menu, expected: int, validUrl: string -> bool) {
    && v.applicationId != "" && v.name != "" && IsCode(v.code)
    && (expected > 0 ==> v.id != "")
    && v.kind in {"directory", "page", "action", "external"}
    && (v.permissionScope == "tenant" || v.permissionScope == "platform")
    && (v.kind == "page" ==> v.route != "" && v.component != "")
    && (v.kind == "external" ==> v.externalUrl != "" && validUrl(v.externalUrl))
    && (v.kind == "action" ==> v.parentId != "" && v.permissionCode != "" &&
                               v.route == "" && v.component == "" && v.externalUrl == "")
  }

  /** `[a-z][a-z0-9_-]{0,127}`. */
  predicate IsComponentName(s: string) {
    1 <= |s| <= 128 && IsLetter(s[0]) && forall i :: 0 <= i < |s| ==> IsAlnum(s[i]) || s[i] == '_' || s[i] == '-'
  }

  /** From two characters on, component names are the codes without a dot. */
  lemma NamesAreCodes(s: string)
    requires |s| > 1
    ensures IsComponentName(s) <==> IsCode(s) && forall i :: 0 <= i < |s| ==> s[i] != '.'
  {
  }

  function NameLength(s: string): (k: nat)
    ensures k <= |s|
  {
    if s == "" || s[0] == '.' then 0 else 1 + NameLength(s[1..])
  }

  /** Component names joined by dots. */
  predicate IsComponentSuffix(s: string)
    decreases |s|
  {
    var k := NameLength(s);
    IsComponentName(s[..k]) && (k == |s| || IsComponentSuffix(s[k + 1..]))
  }

  predicate ValidPageComponent(applicationCode: string, component: string) {
    var prefix := TrimSpace(applicationCode) + ".";
    var name := TrimSpace(component);
    prefix != "." && HasPrefix(name, prefix) && IsComponentSuffix(name[|prefix|..])
  }

  function JoinDots(names: seq<string>): string
    decreases |names|
  {
    if names == [] then "" else if |names| == 1 then names[0] else names[0] + "." + JoinDots(names[1..])
  }

  ghost predicate AreNames(names: seq<string>) {
    names != [] && forall i :: 0 <= i < |names| ==> IsComponentName(names[i])
  }

  lemma {:induction false} NameEnds(name: string, rest: string)
    requires forall i :: 0 <= i < |name| ==> name[i] != '.'
    requires rest == "" || rest[0] == '.'
    ensures NameLength(name + rest) == |name|
    decreases |name|
  {
    if name == "" {
      assert name + rest == rest;
    } else {
      assert (name + rest)[1..] == name[1..] + rest;
      NameEnds(name[1..], rest);
    }
  }

  lemma {:induction false} NamesAreSuffix(names: seq<string>)
    requires AreNames(names)
    ensures IsComponentSuffix(JoinDots(names))
    decreases |names|
  {
    var s, name := JoinDots(names), names[0];
    assert forall i :: 0 <= i < |name| ==> name[i] != '.';
    if |names| == 1 {
      NameEnds(name, "");
      assert name + "" == name && s[..|name|] == name;
    } else {
      NamesAreSuffix(names[1..]);
      var rest := "." + JoinDots(names[1..]);
      assert s == name + rest;
      NameEnds(name, rest);
      assert s[..|name|] == name && s[|name| + 1..] == JoinDots(names[1..]);
    }
  }

  lemma {:induction false} SuffixHasNames(s: string)
    requires IsComponentSuffix(s)
    ensures exists names :: AreNames(names) && JoinDots(names) == s
    decreases |s|
  {
    var k := NameLength(s);
    NameStops(s);
    if k == |s| {
      assert AreNames([s]) && JoinDots([s]) == s by { assert s[..k] == s; }
    } else {
      SuffixHasNames(s[k + 1..]);
      var rest :| AreNames(rest) && JoinDots(rest) == s[k + 1..];
      var names := [s[..k]] + rest;
      assert names[1..] == rest && s == s[..k] + "." + s[k + 1..];
      assert AreNames(names) && JoinDots(names) == s;
    }
  }

  lemma NameStops(s: string)
    ensures NameLength(s) < |s| ==> s[NameLength(s)] == '.'
  {
  }

  /** The component of a page is the application's code followed by component names, all joined by dots. */
  lemma PageComponentMeans(applicationCode: string, component: string)
    ensures ValidPageComponent(applicationCode, component) <==>
      TrimSpace(applicationCode) != "" &&
      exists names :: AreNames(names) && TrimSpace(component) == TrimSpace(applicationCode) + "." + JoinDots(names)
  {
    hide TrimSpace, IsComponentSuffix, AreNames, JoinDots;
    var code, name := TrimSpace(applicationCode), TrimSpace(component);
    var prefix := code + ".";
    if HasPrefix(name, prefix) && IsComponentSuffix(name[|prefix|..]) {
      SuffixHasNames(name[|prefix|..]);
      assert name == prefix + name[|prefix|..];
    }
    forall names | AreNames(names) && name == code + "." + JoinDots(names)
      ensures HasPrefix(name, prefix) && IsComponentSuffix(name[|prefix|..])
    {
      NamesAreSuffix(names);
      assert name[|prefix|..] == JoinDots(names);
    }
  }

  /**
   A menu below another one needs a page as its parent. The service sets the flag
   meant for actions whenever it meets the parent, whatever the type of the child.
   */
  ghost predicate ParentFits(live: map<string, Menu>, v: Menu) {
    if v.parentId == "" then v.kind != "action" else v.parentId in live && live[v.parentId].kind == "page"
  }

  /** The tree with `v` in place of the draft that it names, or beside it when it names none. */
  ghost predicate TreeFits(live: map<string, Menu>, v: Menu) {
    var parents := Parents(live);
    if v.id == "" then Forest(parents) && ReachesRoot(parents, v.parentId)
    else Forest(parents[v.id := v.parentId])
  }

  /** Active menus have pairwise distinct paths, none of them reserved. */
  ghost predicate PathsDistinct(menus: map<string, Menu>, paths: map<string, string>, reserved: set<string>)
    requires paths.Keys == menus.Keys
  {
    && (forall id :: id in menus && IsActiveRouteMenu(menus[id]) ==> paths[id] !in reserved)
    && forall x, y :: x in menus && y in menus && x != y &&
                      IsActiveRouteMenu(menus[x]) && IsActiveRouteMenu(menus[y]) ==>
         paths[x] != paths[y]
  }

  function Paths(scope: string, menus: map<string, Menu>): (paths: map<string, string>)
    ensures paths.Keys == menus.Keys
  {
    map id | id in menus :: RouteOf(scope, menus[id])
  }

  function Reserved(scope: string): set<string> {
    {scope, Overview(scope)}
  }

  ghost predicate RoutesDistinct(applicationCode: string, menus: map<string, Menu>) {
    var scope := Scope(applicationCode);
    PathsDistinct(menus, Paths(scope, menus), Reserved(scope))
  }

  /** An active menu of `menus` has this path, or it is reserved. */
  ghost predicate PathTaken(scope: string, menus: map<string, Menu>, path: string) {
    || path in Reserved(scope)
    || exists id :: id in menus && IsActiveRouteMenu(menus[id]) && Paths(scope, menus)[id] == path
  }

  ghost predicate RoutesFit(applicationCode: string, others: map<string, Menu>, v: Menu) {
    var scope := Scope(applicationCode);
    RoutesDistinct(applicationCode, others) && (IsActiveRouteMenu(v) ==> !PathTaken(scope, others, RouteOf(scope, v)))
  }

  /** What `validateMenu` accepts, `v` being normalised. */
  ghost predicate MenuAccepted(c: Catalog, v: Menu, expected: int, validUrl: string -> bool) {
    && FieldsValid(v, expected, validUrl)
    && v.applicationId in c.codes
    && (v.kind == "page" ==> ValidPageComponent(c.codes[v.applicationId], v.component))
    && ParentFits(Live(c, v.applicationId), v)
    && TreeFits(Live(c, v.applicationId), v)
    && RoutesFit(c.codes[v.applicationId], Live(c, v.applicationId) - {v.id}, v)
  }

  // ----- lists and maps of drafts

  /** `items` lists exactly these menus, each once. */
  ghost predicate Lists(items: seq<Menu>, menus: map<string, Menu>) {
    && (forall i :: 0 <= i < |items| ==> items[i].id in menus && menus[items[i].id] == items[i])
    && (forall i, j :: 0 <= i < j < |items| ==> items[i].id != items[j].id)
    && forall id :: id in menus ==> HasId(items, id)
  }

  ghost predicate HasId(items: seq<Menu>, id: string) {
    exists j :: 0 <= j < |items| && items[j].id == id
  }

  lemma HasIdLast(items: seq<Menu>, m: Menu, id: string)
    ensures HasId(items + [m], id) <==> HasId(items, id) || m.id == id
  {
    var all := items + [m];
    assert all[|items|] == m && forall j :: 0 <= j < |items| ==> all[j] == items[j];
  }

  function Without(items: seq<Menu>, id: string): seq<Menu> {
    if items == [] then []
    else
      var front, last := Without(items[..|items| - 1], id), items[|items| - 1];
      if last.id != id then front + [last] else front
  }

  lemma WithoutLast(items: seq<Menu>, m: Menu, id: string)
    ensures Without(items + [m], id) == if m.id != id then Without(items, id) + [m] else Without(items, id)
  {
    assert (items + [m])[..|items|] == items;
  }

  lemma {:induction false} WithoutLists(items: seq<Menu>, menus: map<string, Menu>, id: string)
    requires Lists(items, menus)
    ensures Lists(Without(items, id), menus - {id})
  {
    if items == [] {
    } else {
      var front, last := items[..|items| - 1], items[|items| - 1];
      var fewer := menus - {last.id};
      forall x | x in fewer
        ensures HasId(front, x)
      {
        var i :| 0 <= i < |items| && items[i].id == x;
        assert front[i].id == x;
      }
      WithoutLists(front, fewer, id);
      if last.id == id {
        assert fewer - {id} == menus - {id};
      } else {
        ListsAppend(Without(front, id), fewer - {id}, menus - {id}, last);
      }
    }
  }

  lemma ListsAppend(items: seq<Menu>, fewer: map<string, Menu>, menus: map<string, Menu>, m: Menu)
    requires Lists(items, fewer) && m.id in menus && menus[m.id] == m && fewer == menus - {m.id}
    ensures Lists(items + [m], menus)
  {
    hide HasId;
    var all := items + [m];
    assert all[|items|] == m && forall j :: 0 <= j < |items| ==> all[j] == items[j];
    forall x | x in menus
      ensures HasId(all, x)
    {
      HasIdLast(items, m, x);
      assert x != m.id ==> x in fewer;
    }
  }

  lemma ListedTree(items: seq<Menu>, live: map<string, Menu>, v: Menu)
    requires "" !in live && Lists(items, live - {v.id})
    ensures TreeAccepted(items + [v]) <==> TreeFits(live, v)
  {
    hide TreeAccepted, ParentsById, Forest, ReachesRoot;
    ParentsByIdUnique(items);
    ParentsByIdKeys(items);
    AcceptedWithLast(items, v);
    var others := Parents(live - {v.id});
    assert ParentsById(items) == others;
    if v.id == "" {
      assert live - {v.id} == live;
    } else {
      assert others[v.id := v.parentId] == Parents(live)[v.id := v.parentId];
    }
  }

  lemma ListedRoutes(items: seq<Menu>, others: map<string, Menu>, applicationCode: string, v: Menu)
    requires Lists(items, others)
    ensures RoutesAccepted(applicationCode, items + [v]) <==> RoutesFit(applicationCode, others, v)
  {
    hide RouteOf, Scope;
    var scope := Scope(applicationCode);
    ListedPaths(items, RoutesOf(scope, items), others, Paths(scope, others), Reserved(scope), v, RouteOf(scope, v));
    var next := items + [v];
    assert RoutesOf(scope, next) == RoutesOf(scope, items) + [RouteOf(scope, v)];
  }

  lemma ListedPaths(items: seq<Menu>, listed: seq<string>, others: map<string, Menu>, paths: map<string, string>,
                    reserved: set<string>, v: Menu, path: string)
    requires Lists(items, others) && paths.Keys == others.Keys && |listed| == |items|
    requires forall i :: 0 <= i < |items| ==> listed[i] == paths[items[i].id]
    ensures DistinctPaths(items + [v], listed + [path], reserved) <==>
              PathsDistinct(others, paths, reserved) &&
              (IsActiveRouteMenu(v) ==>
                 path !in reserved && forall id :: id in others && IsActiveRouteMenu(others[id]) ==> paths[id] != path)
  {
    hide IsActiveRouteMenu;
    var next, all := items + [v], listed + [path];
    assert next[|items|] == v && all[|items|] == path;
    assert forall i :: 0 <= i < |items| ==> next[i] == items[i] && all[i] == listed[i];
    if DistinctPaths(next, all, reserved) {
      ListedPathsApart(items, listed, others, paths, reserved, v, path);
    }
  }

  lemma ListedPathsApart(items: seq<Menu>, listed: seq<string>, others: map<string, Menu>, paths: map<string, string>,
                         reserved: set<string>, v: Menu, path: string)
    requires Lists(items, others) && paths.Keys == others.Keys && |listed| == |items|
    requires forall i :: 0 <= i < |items| ==> listed[i] == paths[items[i].id]
    requires DistinctPaths(items + [v], listed + [path], reserved)
    ensures PathsDistinct(others, paths, reserved)
    ensures forall id :: id in others && IsActiveRouteMenu(others[id]) ==> !IsActiveRouteMenu(v) || paths[id] != path
  {
    hide IsActiveRouteMenu;
    var next, all := items + [v], listed + [path];
    assert next[|items|] == v && all[|items|] == path;
    forall x | x in others && IsActiveRouteMenu(others[x])
      ensures paths[x] !in reserved && (IsActiveRouteMenu(v) ==> paths[x] != path)
      ensures forall y :: y in others && x != y && IsActiveRouteMenu(others[y]) ==> paths[x] != paths[y]
    {
      assert HasId(items, x);
      var i :| 0 <= i < |items| && items[i].id == x;
      assert next[i] == items[i] && all[i] == paths[x];
      forall y | y in others && x != y && IsActiveRouteMenu(others[y])
        ensures paths[x] != paths[y]
      {
        assert HasId(items, y);
        var j :| 0 <= j < |items| && items[j].id == y;
        assert next[j] == items[j] && all[j] == paths[y];
      }
    }
  }

  // ----- the two operations as transitions

  /** Another row of the application has the code; deleted rows count too. */
  ghost predicate CodeTaken(c: Catalog, applicationId: string, code: string, id: string) {
    exists x :: x in c.rows && x != id && c.rows[x].menu.applicationId == applicationId && c.rows[x].menu.code == code
  }

  /** The application whose tree an upsert edits. */
  function Target(c: Catalog, v: Menu, expected: int): string {
    if expected != 0 && v.id in c.rows then c.rows[v.id].menu.applicationId else v.applicationId
  }

  function StoredMenu(c: Catalog, v: Menu, expected: int, freshId: string): Menu {
    if expected == 0 then v.(id := freshId, version := 1, status := "active")
    else v.(applicationId := Target(c, v, expected), version := expected + 1)
  }

  /** The write goes through: the identifier is new, or the stored version is the expected one, and the code is free. */
  ghost predicate Writable(c: Catalog, v: Menu, expected: int, freshId: string) {
    && (if expected == 0 then freshId != "" && freshId !in c.rows
        else IsLiveRow(c, v.id) && c.rows[v.id].menu.version == expected)
    && !CodeTaken(c, Target(c, v, expected), v.code, if expected == 0 then freshId else v.id)
  }

  /** `UpsertMenu` succeeds; `freshId` is the identifier that it draws. */
  ghost predicate UpsertAccepted(c: Catalog, v: Menu, expected: int, freshId: string, validUrl: string -> bool) {
    MenuAccepted(c, v, expected, validUrl) && Writable(c, v, expected, freshId)
  }

  function Upserted(c: Catalog, v: Menu, expected: int, freshId: string): Catalog {
    var stored := StoredMenu(c, v, expected, freshId);
    c.(rows := c.rows[stored.id := Row(stored, false)])
  }

  ghost predicate HasChildren(c: Catalog, id: string)
    requires id in c.rows
  {
    exists x :: x in Live(c, c.rows[id].menu.applicationId) && c.rows[x].menu.parentId == id
  }

  /** The delete goes through: the menu is live and the stored version is the expected one. */
  predicate Deletable(c: Catalog, id: string, expected: int) {
    expected >= 1 && IsLiveRow(c, id) && c.rows[id].menu.version == expected
  }

  ghost predicate DeleteAccepted(c: Catalog, id: string, expected: int) {
    Deletable(c, id, expected) && !HasChildren(c, id)
  }

  function Deleted(c: Catalog, id: string): Catalog
    requires id in c.rows
  {
    var menu := c.rows[id].menu;
    c.(rows := c.rows[id := Row(menu.(status := "deleted", version := menu.version + 1), true)])
  }

  datatype Op = Upsert(v: Menu, expected: int, freshId: string) | Delete(id: string, expected: int)

  /** One serial call; a refused call changes nothing. */
  ghost function Step(c: Catalog, op: Op, validUrl: string -> bool): Catalog {
    match op
    case Upsert(v, expected, freshId) =>
      if UpsertAccepted(c, Normalized(v), expected, freshId, validUrl) then
        Upserted(c, Normalized(v), expected, freshId)
      else c
    case Delete(id, expected) =>
      if DeleteAccepted(c, id, expected) then Deleted(c, id) else c
  }

  // ----- what is stored of what is sent

  /**
   The sent menu as a row holds it: texts trimmed, the permission in lower case, for tenants when
   no scope was sent.
   */
  function AsStored(sent: Menu, id: string, applicationId: string, status: string, version: int): Menu {
    var scope := TrimSpace(sent.permissionScope);
    Menu(id, applicationId, TrimSpace(sent.parentId), TrimSpace(sent.code), TrimSpace(sent.kind), TrimSpace(sent.name),
         TrimSpace(sent.i18nKey), TrimSpace(sent.route), TrimSpace(sent.component), sent.icon,
         TrimSpace(sent.externalUrl), ToLower(TrimSpace(sent.permissionCode)),
         if |scope| == 0 then "tenant" else ToLower(scope), status, sent.sortOrder, sent.visible, version)
  }

  /** A create stores an active menu at version 1. */
  lemma CreateStores(c: Catalog, sent: Menu, freshId: string)
    ensures StoredMenu(c, Normalized(sent), 0, freshId) ==
      AsStored(sent, freshId, TrimSpace(sent.applicationId), "active", 1)
  {
    hide TrimSpace;
  }

  /** An update keeps the identifier and the application, and stores the status that was sent and the next version. */
  lemma UpdateStores(c: Catalog, sent: Menu, expected: int, freshId: string)
    requires expected != 0 && TrimSpace(sent.id) in c.rows
    ensures var id := TrimSpace(sent.id);
            StoredMenu(c, Normalized(sent), expected, freshId) ==
              AsStored(sent, id, c.rows[id].menu.applicationId, sent.status, expected + 1)
  {
    hide TrimSpace;
  }

  /** An upsert writes that row and no other. */
  lemma UpsertWrites(c: Catalog, sent: Menu, expected: int, freshId: string, validUrl: string -> bool)
    requires CatalogValid(c) && UpsertAccepted(c, Normalized(sent), expected, freshId, validUrl)
    ensures var after, id := Upserted(c, Normalized(sent), expected, freshId),
                             if expected == 0 then freshId else TrimSpace(sent.id);
            && (expected != 0 ==> id in c.rows) && after.codes == c.codes
            && after.rows == c.rows[id := Row(
                 if expected == 0 then AsStored(sent, id, TrimSpace(sent.applicationId), "active", 1)
                 else AsStored(sent, id, c.rows[id].menu.applicationId, sent.status, expected + 1), false)]
  {
    NormalizedId(sent);
    hide TrimSpace, Normalized, MenuAccepted, CodeTaken, AsStored;
    CreateStores(c, sent, freshId);
    if expected != 0 {
      UpdateStores(c, sent, expected, freshId);
    }
    StoredIds(c, Normalized(sent), expected, freshId);
  }

  lemma NormalizedId(sent: Menu)
    ensures Normalized(sent).id == TrimSpace(sent.id)
  {
    hide TrimSpace;
  }

  lemma StoredIds(c: Catalog, v: Menu, expected: int, freshId: string)
    ensures StoredMenu(c, v, expected, freshId).id == if expected == 0 then freshId else v.id
  {
  }

  /** A delete marks the row, raises its version and keeps everything else. */
  lemma DeleteWrites(c: Catalog, id: string)
    requires id in c.rows
    ensures var was, after := c.rows[id].menu, Deleted(c, id);
            && after.codes == c.codes && after.rows.Keys == c.rows.Keys
            && (forall x :: x in c.rows && x != id ==> after.rows[x] == c.rows[x])
            && after.rows[id].deleted && after.rows[id].menu.version == was.version + 1
            && after.rows[id].menu.status == "deleted"
            && after.rows[id].menu.(status := was.status, version := was.version) == was
  {
  }

  class MenuService {
    const validUrl: string -> bool
    var catalog: Catalog

    constructor (catalog: Catalog, validUrl: string -> bool)
      ensures this.catalog == catalog && this.validUrl == validUrl
    {
      this.catalog, this.validUrl := catalog, validUrl;
    }

    /** The live drafts of an application, in some order. */
    method ListDraftMenus(applicationId: string) returns (items: seq<Menu>)
      requires CatalogValid(catalog)
      ensures Lists(items, Live(catalog, applicationId))
    {
      var live := Live(catalog, applicationId);
      items := [];
      var rest := live.Keys;
      while rest != {}
        invariant rest <= live.Keys
        invariant Lists(items, live - rest)
      {
        var id :| id in rest;
        assert (live - (rest - {id})) - {id} == live - rest;
        ListsAppend(items, live - rest, live - (rest - {id}), live[id]);
        rest := rest - {id};
        items := items + [live[id]];
      }
      assert live - rest == live;
    }

    /** `validateMenu` on normalised input. */
    method ValidateMenu(v: Menu, expected: int) returns (error: Option<ServiceError>)
      requires CatalogValid(catalog)
      ensures error.None? <==> MenuAccepted(catalog, v, expected, validUrl)
    {
      hide IsCode, ValidPageComponent, RoutesAccepted, TreeAccepted, RoutesFit, TreeFits, RouteOf;
      if !FieldsValid(v, expected, validUrl) {
        return Some(Invalid);
      }
      if v.applicationId !in catalog.codes {
        return Some(NotFound);
      }
      var code := catalog.codes[v.applicationId];
      if v.kind == "page" && !ValidPageComponent(code, v.component) {
        return Some(Invalid);
      }
      var items := ListDraftMenus(v.applicationId);
      ghost var live := Live(catalog, v.applicationId);
      var parentFits, next := ScanDrafts(items, v, live);
      if !parentFits {
        return Some(Invalid);
      }
      ListedTree(next, live, v);
      ListedRoutes(next, live - {v.id}, code, v);
      var treeAccepted := ValidateMenuTree(next + [v]);
      if !treeAccepted {
        return Some(Conflict);
      }
      var routesAccepted := ValidateMenuRoutes(code, next + [v]);
      if !routesAccepted {
        return Some(Conflict);
      }
      return None;
    }

    /** The loop of `validateMenu`: look for the parent and drop the draft that `v` replaces. */
    method ScanDrafts(items: seq<Menu>, v: Menu, ghost live: map<string, Menu>)
      returns (parentFits: bool, next: seq<Menu>)
      requires Lists(items, live) && "" !in live
      ensures parentFits <==> ParentFits(live, v)
      ensures Lists(next, live - {v.id})
    {
      var foundParent, validActionParent := v.parentId == "", v.kind != "action";
      next := [];
      for i := 0 to |items|
        invariant foundParent <==> v.parentId == "" || HasId(items[..i], v.parentId)
        invariant validActionParent <==>
                    if HasId(items[..i], v.parentId) then v.parentId in live && live[v.parentId].kind == "page"
                        else v.kind != "action"
        invariant next == Without(items[..i], v.id)
      {
        var item := items[i];
        assert items[..i + 1] == items[..i] + [item];
        HasIdLast(items[..i], item, v.parentId);
        WithoutLast(items[..i], item, v.id);
        if item.id == v.parentId {
          foundParent, validActionParent := true, item.kind == "page";
        }
        if item.id != v.id {
          next := next + [item];
        }
      }
      assert items[..|items|] == items;
      WithoutLists(items, live, v.id);
      parentFits := foundParent && validActionParent;
    }

    method CodeIsTaken(applicationId: string, code: string, id: string) returns (taken: bool)
      ensures taken <==> CodeTaken(catalog, applicationId, code, id)
    {
      taken := exists x :: x in catalog.rows && x != id &&
                           catalog.rows[x].menu.applicationId == applicationId && catalog.rows[x].menu.code == code;
    }

    /** `UpsertMenu`. */
    method UpsertMenu(menu: Menu, expected: int, freshId: string) returns (r: Result<Menu, ServiceError>)
      requires CatalogValid(catalog) && freshId != "" && freshId !in catalog.rows
      modifies this
      ensures r.Ok? <==> UpsertAccepted(old(catalog), Normalized(menu), expected, freshId, validUrl)
      ensures r.Err? ==> catalog == old(catalog)
      ensures catalog == Step(old(catalog), Upsert(menu, expected, freshId), validUrl)
      ensures r.Ok? ==>
                && catalog == Upserted(old(catalog), Normalized(menu), expected, freshId)
                && r.value == StoredMenu(old(catalog), Normalized(menu), expected, freshId)
      ensures r.Ok? && expected == 0 ==>
                r.value == AsStored(menu, freshId, TrimSpace(menu.applicationId), "active", 1)
      ensures r.Ok? && expected != 0 ==>
                var id := TrimSpace(menu.id);
                id in old(catalog).rows &&
                r.value == AsStored(menu, id, old(catalog).rows[id].menu.applicationId, menu.status, expected + 1)
    {
      hide Normalized, MenuAccepted, AsStored;
      var v := Normalized(menu);
      NormalizedId(menu);
      CreateStores(catalog, menu, freshId);
      if expected != 0 && v.id in catalog.rows {
        UpdateStores(catalog, menu, expected, freshId);
      }
      var error := ValidateMenu(v, expected);
      if error.Some? {
        return Err(error.value);
      }
      if expected != 0 {
        if v.id !in catalog.rows || catalog.rows[v.id].deleted {
          return Err(NotFound);
        }
        if catalog.rows[v.id].menu.version != expected {
          return Err(Stale);
        }
      }
      var taken := CodeIsTaken(Target(catalog, v, expected), v.code, if expected == 0 then freshId else v.id);
      if taken {
        return Err(Internal);
      }
      var stored := StoredMenu(catalog, v, expected, freshId);
      catalog := Upserted(catalog, v, expected, freshId);
      return Ok(stored);
    }

    /** `DeleteMenu`. */
    method DeleteMenu(id: string, expected: int) returns (error: Option<ServiceError>)
      requires CatalogValid(catalog)
      modifies this
      ensures error.None? <==> DeleteAccepted(old(catalog), id, expected)
      ensures error.Some? ==> catalog == old(catalog)
      ensures error.None? ==> catalog == Deleted(old(catalog), id)
      ensures catalog == Step(old(catalog), Delete(id, expected), validUrl)
    {
      if expected < 1 {
        return Some(Invalid);
      }
      if id !in catalog.rows || catalog.rows[id].deleted {
        return Some(NotFound);
      }
      var items := ListDraftMenus(catalog.rows[id].menu.applicationId);
      for i := 0 to |items|
        invariant forall j :: 0 <= j < i ==> items[j].parentId != id
      {
        if items[i].parentId == id {
          return Some(Conflict);
        }
      }
      if catalog.rows[id].menu.version != expected {
        return Some(Stale);
      }
      catalog := Deleted(catalog, id);
      return None;
    }
  }
}
