/**
 The application service as the bootstrap client sees it. The contract is that of
 the client's API: what is sent is stored, a new row gets a fresh identifier and
 version 1, and an update stores version expected + 1. Any call may be refused;
 a refused call changes nothing. What a service does beyond the contract is its kind.
 */
module BootstrapServer {
  import opened Wrappers
  import opened Text
  import opened Menus
  import opened MenuTree
  import opened Manifests
  import DraftMenus

  datatype Application = Application(
    id: string,
    code: string,
    name: string,
    description: string,
    icon: string,
    defaultRoute: string,
    sortOrder: int,
    status: string,
    metadata: map<string, string>,
    publishedRelease: int,
    version: int
  )

  datatype Grant = Grant(tenantId: string, applicationId: string, status: string, version: int)

  /** Drafts of one application by code. */
  type Drafts = map<string, Menu>

  /**
   Whether an update keeps the status that was sent, whether text is trimmed before
   it is stored, and whether versions and the menu tree are checked. The client's own
   double is (true, false, false); the service is (true, true, true) behind its gRPC
   adapter and (false, true, true) behind its HTTP adapter, whose request body for a
   menu has no status.
   */
  datatype Kind = Kind(keepsStatus: bool, trims: bool, strict: bool)

  /**
   Applications by code, drafts by application identifier, grants by tenant and
   application identifier, and the menus of each application's latest release, with
   the kind of the service, which no call changes.
   */
  datatype Db = Db(
    kind: Kind,
    applications: map<string, Application>,
    menus: map<string, Drafts>,
    grants: map<string, map<string, Grant>>,
    releases: map<string, Drafts>
  )

  /**
   `Invalid` is the client's own verdict on the manifest; `Refused` stands for any
   refusal that depends on more than this model (transport, field checks).
   */
  datatype ApiError = Invalid | Stale | Conflict | ParentMissing | CycleFound | Refused

  datatype Call =
    | ApplicationCreated(code: string)
    | ApplicationUpdated(code: string)
    | MenuCreated(applicationId: string, code: string)
    | MenuUpdated(applicationId: string, code: string)
    | MenusPublished(applicationId: string)
    | GrantApplied(tenantId: string, applicationId: string)

  /** A mutating call that took effect, and the state it left. */
  datatype Event = Event(call: Call, after: Db)

  /** A state with the calls that led to it. */
  datatype Moment = Moment(db: Db, trace: seq<Event>)

  function After(m: Moment, e: Event): Moment { Moment(e.after, m.trace + [e]) }

  // ----- what the service stores of what is sent

  function KeptText(s: string, kind: Kind): string {
    if kind.trims then TrimSpace(s) else s
  }

  /** A sent menu as it is stored; identifiers are the service's own. */
  function Kept(m: Menu, kind: Kind): Menu {
    if kind.trims then DraftMenus.Normalized(m).(applicationId := m.applicationId, id := m.id,
        parentId := m.parentId) else m
  }

  /** A declared menu with the text that the service stores. */
  function EffectiveMenu(s: MenuSpec, kind: Kind): MenuSpec {
    s.(code := KeptText(s.code, kind), name := KeptText(s.name, kind), i18nKey := KeptText(s.i18nKey, kind),
       route := KeptText(s.route, kind), component := KeptText(s.component, kind),
           externalUrl := KeptText(s.externalUrl, kind))
  }

  function Effectives(specs: seq<MenuSpec>, kind: Kind): (r: seq<MenuSpec>)
    ensures |r| == |specs| && forall i :: 0 <= i < |r| ==> r[i] == EffectiveMenu(specs[i], kind)
  {
    seq(|specs|, i requires 0 <= i < |specs| => EffectiveMenu(specs[i], kind))
  }

  /** A declared application with the text that the service stores; a valid code is in lower case already. */
  function Effective(spec: ApplicationSpec, kind: Kind): ApplicationSpec {
    spec.(code := KeptText(spec.code, kind), name := KeptText(spec.name, kind), menus := Effectives(spec.menus, kind))
  }

  lemma KeptTextTwice(s: string, kind: Kind)
    ensures KeptText(KeptText(s, kind), kind) == KeptText(s, kind)
  {
    TrimFixpoint(TrimSpace(s), IsSpace);
  }

  function DraftsOf(db: Db, applicationId: string): Drafts {
    if applicationId in db.menus then db.menus[applicationId] else map[]
  }

  function GrantsOf(db: Db, tenantId: string): map<string, Grant> {
    if tenantId in db.grants then db.grants[tenantId] else map[]
  }

  // ----- what the database guarantees

  ghost predicate DraftsValid(applicationId: string, drafts: Drafts) {
    && "" !in drafts
    && (forall c :: c in drafts ==>
         drafts[c].code == c && drafts[c].applicationId == applicationId && drafts[c].version >= 1)
    && UniqueDraftIds(drafts)
  }

  ghost predicate UniqueDraftIds(drafts: Drafts) {
    (forall c :: c in drafts ==> drafts[c].id != "") &&
    forall c, d :: c in drafts && d in drafts && drafts[c].id == drafts[d].id ==> c == d
  }

  ghost predicate ApplicationsValid(applications: map<string, Application>) {
    (forall c :: c in applications ==> applications[c].code == c && applications[c].publishedRelease >= 0) &&
    forall c, d :: c in applications && d in applications && applications[c].id == applications[d].id ==> c == d
  }

  /** Everything stored has been through the service's trimming. */
  ghost predicate AllKept(db: Db) {
    && (forall c :: c in db.applications ==>
         KeptText(c, db.kind) == c && KeptText(db.applications[c].name, db.kind) == db.applications[c].name)
    && forall a, c :: a in db.menus && c in db.menus[a] ==> Kept(db.menus[a][c], db.kind) == db.menus[a][c]
  }

  ghost predicate DbValid(db: Db) {
    && ApplicationsValid(db.applications) && AllKept(db)
    && (forall a :: a in db.menus ==> DraftsValid(a, db.menus[a]))
    && forall t, a :: t in db.grants && a in db.grants[t] ==> db.grants[t][a].applicationId == a
  }

  // ----- draft trees

  function ParentsOf(drafts: Drafts): map<string, string>
    requires UniqueDraftIds(drafts)
  {
    map c | c in drafts :: drafts[c].id := drafts[c].parentId
  }

  ghost predicate DraftForest(drafts: Drafts) {
    UniqueDraftIds(drafts) && Forest(ParentsOf(drafts))
  }

  ghost predicate AllForests(db: Db) {
    forall a :: a in db.menus ==> DraftForest(db.menus[a])
  }

  ghost predicate ParentKnown(drafts: Drafts, parentId: string) {
    parentId == "" || exists c :: c in drafts && drafts[c].id == parentId
  }

  /** The server's cycle check on an upsert: a new menu (no identifier yet) or a moved one. */
  ghost predicate TreeAdmits(drafts: Drafts, menu: Menu, expected: int)
    requires UniqueDraftIds(drafts)
  {
    var parents := ParentsOf(drafts);
    if expected == 0 then Forest(parents) && ReachesRoot(parents, menu.parentId)
    else Forest(parents[menu.id := menu.parentId])
  }

  /** `items` lists the drafts that do not have the identifier `id`, each once. */
  ghost predicate ListsOthers(items: seq<Menu>, drafts: Drafts, id: string) {
    && (forall i :: 0 <= i < |items| ==>
         items[i].code in drafts && drafts[items[i].code] == items[i] && items[i].id != id)
    && (forall i, j :: 0 <= i < j < |items| ==> items[i].code != items[j].code)
    && forall c :: c in drafts && drafts[c].id != id ==> exists i :: 0 <= i < |items| && items[i] == drafts[c]
  }

  /** `TreeAdmits` is what `validateMenuTree` decides on the other drafts followed by the sent menu. */
  lemma TreeAdmitsIffAccepted(drafts: Drafts, items: seq<Menu>, menu: Menu, expected: int)
    requires UniqueDraftIds(drafts) && ListsOthers(items, drafts, menu.id)
    requires if expected == 0 then menu.id == "" else exists c :: c in drafts && drafts[c].id == menu.id
    ensures TreeAccepted(items + [menu]) <==> TreeAdmits(drafts, menu, expected)
  {
    hide ParentsById, ParentsOf, Forest, ReachesRoot, TreeAccepted, ListsOthers;
    NextIsUnique(drafts, items, menu);
    AcceptedWithLast(items, menu);
    ListedParents(drafts, items, menu.id);
    ParentsOfAt(drafts);
    hide UniqueDraftIds, UniqueIds;
    var parents := ParentsOf(drafts);
    if expected == 0 {
      assert parents - {menu.id} == parents;
    } else {
      assert (parents - {menu.id})[menu.id := menu.parentId] == parents[menu.id := menu.parentId];
    }
  }

  lemma ParentsOfAt(drafts: Drafts)
    requires UniqueDraftIds(drafts)
    ensures forall c :: c in drafts ==>
              drafts[c].id in ParentsOf(drafts) && ParentsOf(drafts)[drafts[c].id] == drafts[c].parentId
    ensures forall id :: id in ParentsOf(drafts) ==> id != "" && exists c :: c in drafts && drafts[c].id == id
  {
  }

  lemma NextIsUnique(drafts: Drafts, items: seq<Menu>, menu: Menu)
    requires UniqueDraftIds(drafts) && ListsOthers(items, drafts, menu.id)
    ensures UniqueIds(items + [menu]) && UniqueIds(items)
    ensures forall i :: 0 <= i < |items| ==> items[i].id != ""
  {
    forall i, j | 0 <= i < j < |items|
      ensures items[i].id != items[j].id
    {
      assert items[i].code != items[j].code;
    }
  }

  lemma ListedParents(drafts: Drafts, items: seq<Menu>, id: string)
    requires UniqueDraftIds(drafts) && ListsOthers(items, drafts, id) && UniqueIds(items)
    ensures ParentsById(items) == ParentsOf(drafts) - {id}
  {
    hide ParentsById, ParentsOf, ListsOthers;
    var listed, others := ParentsById(items), ParentsOf(drafts) - {id};
    forall x: string
      ensures x in listed <==> x in others
      ensures x in listed ==> listed[x] == others[x]
    {
      ListedParentAt(drafts, items, id, x);
    }
  }

  lemma ListedParentAt(drafts: Drafts, items: seq<Menu>, id: string, x: string)
    requires UniqueDraftIds(drafts) && ListsOthers(items, drafts, id) && UniqueIds(items)
    ensures x in ParentsById(items) <==> x in ParentsOf(drafts) && x != id
    ensures x in ParentsById(items) ==> ParentsById(items)[x] == ParentsOf(drafts)[x]
  {
    hide ParentsById, ParentsOf;
    ParentsByIdUnique(items);
    ParentsByIdKeys(items);
    ParentsOfAt(drafts);
    forall i | 0 <= i < |items| && items[i].id == x
      ensures x in ParentsOf(drafts) && x != id && ParentsOf(drafts)[x] == items[i].parentId
    {
      assert items[i].code in drafts && drafts[items[i].code] == items[i];
    }
    forall c | c in drafts && drafts[c].id == x && x != id
      ensures exists i :: 0 <= i < |items| && items[i].id == x
    {
      var i :| 0 <= i < |items| && items[i] == drafts[c];
    }
  }

  // ----- identifiers

  method FreshId(used: set<string>) returns (id: string)
    ensures id !in used && id != ""
  {
    var longest: nat, rest := 0, used;
    while rest != {}
      invariant rest <= used && forall s :: s in used - rest ==> |s| <= longest
    {
      var s :| s in rest;
      longest := if |s| > longest then |s| else longest;
      rest := rest - {s};
    }
    assert used - rest == used;
    id := seq(longest + 1, _ => 'x');
  }

  /** The values of a map in some order, as Go's iteration gives them. */
  method Values<K(==), V>(m: map<K, V>) returns (values: seq<V>)
    ensures forall v :: v in values <==> exists k :: k in m && m[k] == v
  {
    values := [];
    var rest := m.Keys;
    while rest != {}
      invariant rest <= m.Keys
      invariant forall v :: v in values <==> exists k :: k in m.Keys - rest && m[k] == v
    {
      var k :| k in rest;
      ghost var before := values;
      values := values + [m[k]];
      assert forall v :: v in values <==> v in before || v == m[k];
      assert forall x :: x in m.Keys - (rest - {k}) <==> x in m.Keys - rest || x == k;
      rest := rest - {k};
    }
  }

  // ----- state changes

  function WithApplication(db: Db, app: Application): Db {
    db.(applications := db.applications[app.code := app])
  }

  function WithMenu(db: Db, menu: Menu): Db {
    db.(menus := db.menus[menu.applicationId := DraftsOf(db, menu.applicationId)[menu.code := menu]])
  }

  function WithGrant(db: Db, g: Grant): Db {
    db.(grants := db.grants[g.tenantId := GrantsOf(db, g.tenantId)[g.applicationId := g]])
  }

  function Released(app: Application, version: int): Application {
    app.(publishedRelease := app.publishedRelease + 1, version := version + 1)
  }

  function WithRelease(db: Db, app: Application, version: int): Db {
    WithApplication(db, Released(app, version)).(releases := db.releases[app.id := DraftsOf(db, app.id)])
  }

  /** Storing an application under its code, with its old identifier or a new one. */
  lemma WithApplicationValid(db: Db, app: Application)
    requires DbValid(db) && app.publishedRelease >= 0 && KeptText(app.code, db.kind) == app.code
    requires KeptText(app.name, db.kind) == app.name
    requires if app.code in db.applications then db.applications[app.code].id == app.id
             else forall c :: c in db.applications ==> db.applications[c].id != app.id
    ensures DbValid(WithApplication(db, app))
  {
    hide DraftsValid, KeptText, Kept;
  }

  lemma StoredApplication(db: Db, code: string)
    requires DbValid(db) && code in db.applications
    ensures db.applications[code].publishedRelease >= 0 && db.applications[code].code == code
    ensures KeptText(code, db.kind) == code
    ensures KeptText(db.applications[code].name, db.kind) == db.applications[code].name
  {
    hide DraftsValid, KeptText, Kept;
  }

  lemma ApplicationIds(db: Db)
    requires DbValid(db)
    ensures forall c, d :: c in db.applications && d in db.applications &&
                           db.applications[c].id == db.applications[d].id ==>
                             c == d
  {
    hide AllKept, DraftsValid;
  }

  lemma WithReleaseValid(db: Db, code: string, version: int)
    requires DbValid(db) && code in db.applications
    ensures DbValid(WithRelease(db, db.applications[code], version))
  {
    hide DraftsValid, KeptText, Kept;
    StoredApplication(db, code);
    WithApplicationValid(db, Released(db.applications[code], version));
  }

  lemma StoredDrafts(db: Db, applicationId: string)
    requires DbValid(db)
    ensures DraftsValid(applicationId, DraftsOf(db, applicationId))
    ensures forall c :: c in DraftsOf(db, applicationId) ==>
      Kept(DraftsOf(db, applicationId)[c], db.kind) == DraftsOf(db, applicationId)[c]
    ensures UniqueDraftIds(DraftsOf(db, applicationId)) && forall c :: c in DraftsOf(db, applicationId) ==>
      DraftsOf(db, applicationId)[c].version >= 1
  {
    hide KeptText, Kept;
  }

  lemma WithMenuValid(db: Db, menu: Menu)
    requires DbValid(db) && menu.code != "" && menu.id != "" && menu.version >= 1 && Kept(menu, db.kind) == menu
    requires var drafts := DraftsOf(db, menu.applicationId);
             if menu.code in drafts then drafts[menu.code].id == menu.id
             else forall c :: c in drafts ==> drafts[c].id != menu.id
    ensures DbValid(WithMenu(db, menu))
  {
    hide KeptText, Kept;
    assert DraftsValid(menu.applicationId, DraftsOf(db, menu.applicationId)[menu.code := menu]);
  }

  /** What is stored is stored as it is when it is sent again, whatever its identifier, version and status. */
  lemma KeptTwice(m: Menu, kind: Kind, id: string, version: int, status: string)
    ensures Kept(Kept(m, kind).(id := id, version := version, status := status), kind) ==
      Kept(m, kind).(id := id, version := version, status := status)
    ensures Kept(m, kind).id == m.id && Kept(m, kind).parentId == m.parentId
    ensures Kept(m, kind).applicationId == m.applicationId
    ensures Kept(m, kind).status == m.status
  {
    if kind.trims {
      DraftMenus.NormalizedTwice(m);
      var n := DraftMenus.Normalized(m);
      var k := Kept(m, kind).(id := id, version := version, status := status);
      NormalizedText(n, k);
      hide DraftMenus.Normalized;
      match n { case Menu(_, _, _, _, _, _, _, _, _, _, _, _, _, _, _, _, _) => }
    }
  }

  /** Normalising a menu does not depend on its identifiers, version and status. */
  lemma NormalizedText(n: Menu, k: Menu)
    requires k == n.(applicationId := k.applicationId, id := k.id, parentId := k.parentId, version := k.version,
      status := k.status)
    ensures var a, b := DraftMenus.Normalized(n), DraftMenus.Normalized(k);
            b == a.(applicationId := b.applicationId, id := b.id, parentId := b.parentId, version := k.version,
                status := k.status)
  {
    hide TrimSpace, ToLower;
  }

  /** What an update of an application stores. */
  function Filled(app: Application, spec: ApplicationSpec): Application {
    app.(name := spec.name, description := spec.description, icon := spec.icon, defaultRoute := spec.defaultRoute,
         sortOrder := spec.sortOrder, metadata := spec.metadata)
  }

  /** The version that a grant call must name. */
  function GrantVersion(db: Db, tenantId: string, applicationId: string): int {
    if applicationId in GrantsOf(db, tenantId) then GrantsOf(db, tenantId)[applicationId].version else 0
  }

  /** What a granting call stores: an active grant, version expected + 1 and at least 1. */
  function Activated(tenantId: string, applicationId: string, expected: int): Grant {
    Grant(tenantId, applicationId, "active", if expected + 1 > 1 then expected + 1 else 1)
  }

  /** An upsert names what it means to write: a free code, or the stored menu of that code. */
  ghost predicate Addresses(drafts: Drafts, menu: Menu, code: string, expected: int) {
    if expected == 0 then code !in drafts else code in drafts && drafts[code].id == menu.id
  }

  /** No draft has this identifier, and none has it as its parent. */
  ghost predicate Unused(drafts: Drafts, id: string) {
    forall c :: c in drafts ==> drafts[c].id != id && drafts[c].parentId != id
  }

  /** How an upsert ends: why it was refused, or what it stored. */
  ghost predicate UpsertOutcome(db: Db, menu: Menu, expected: int, r: Result<Menu, ApiError>)
    requires DbValid(db)
  {
    var drafts, kept := DraftsOf(db, menu.applicationId), Kept(menu, db.kind);
    && (r == Err(ParentMissing) ==> !ParentKnown(drafts, menu.parentId))
    && (r == Err(CycleFound) ==> !TreeAdmits(drafts, menu, expected))
    && (r == Err(Conflict) ==> !Addresses(drafts, menu, kept.code, expected))
    && (r == Err(Stale) ==> expected != 0 && kept.code in drafts && drafts[kept.code].version != expected)
    && (r.Ok? ==>
          && Addresses(drafts, menu, kept.code, expected)
          && (db.kind.strict ==>
                (expected != 0 ==> drafts[kept.code].version == expected) &&
                ParentKnown(drafts, menu.parentId) && TreeAdmits(drafts, menu, expected))
          && (if expected == 0 then
                r.value == kept.(id := r.value.id, version := 1) && r.value.id != "" && Unused(drafts, r.value.id)
              else
                r.value == kept.(version := expected + 1, status := if db.kind.keepsStatus then menu.status else "")))
  }

  lemma AdmitsById(drafts: Drafts, menu: Menu, kept: Menu, expected: int)
    requires UniqueDraftIds(drafts) && kept.id == menu.id && kept.parentId == menu.parentId
    ensures TreeAdmits(drafts, kept, expected) <==> TreeAdmits(drafts, menu, expected)
  {
  }

  class Server {
    var db: Db
    var trace: seq<Event>
    /** How many calls have been answered with `Refused`. */
    var refused: nat

    constructor (db: Db)
      ensures this.db == db && trace == [] && refused == 0
    {
      this.db, this.trace, this.refused := db, [], 0;
    }

    ghost function At(): Moment
      reads this
    {
      Moment(db, trace)
    }

    method ListApplications() returns (r: Result<seq<Application>, ApiError>)
      modifies this`refused
      ensures refused == old(refused) + if r.Err? then 1 else 0
      ensures r.Err? ==> r.error == Refused
      ensures r.Ok? ==> forall v :: v in r.value <==> exists c :: c in db.applications && db.applications[c] == v
    {
      if * {
        refused := refused + 1;
        return Err(Refused);
      }
      var values := Values(db.applications);
      return Ok(values);
    }

    method ListMenus(applicationId: string) returns (r: Result<seq<Menu>, ApiError>)
      modifies this`refused
      ensures refused == old(refused) + if r.Err? then 1 else 0
      ensures r.Err? ==> r.error == Refused
      ensures var drafts := DraftsOf(db, applicationId);
              r.Ok? ==> forall v :: v in r.value <==> exists c :: c in drafts && drafts[c] == v
    {
      if * {
        refused := refused + 1;
        return Err(Refused);
      }
      var values := Values(DraftsOf(db, applicationId));
      return Ok(values);
    }

    method ListGrants(tenantId: string) returns (r: Result<seq<Grant>, ApiError>)
      modifies this`refused
      ensures refused == old(refused) + if r.Err? then 1 else 0
      ensures r.Err? ==> r.error == Refused
      ensures var grants := GrantsOf(db, tenantId);
              r.Ok? ==> forall v :: v in r.value <==> exists a :: a in grants && grants[a] == v
    {
      if * {
        refused := refused + 1;
        return Err(Refused);
      }
      var values := Values(GrantsOf(db, tenantId));
      return Ok(values);
    }

    /** The new identifier has no rows of any sort. */
    method CreateApplication(spec: ApplicationSpec) returns (r: Result<Application, ApiError>)
      requires DbValid(db)
      modifies this`db, this`trace, this`refused
      ensures refused == old(refused) + if r == Err(Refused) then 1 else 0
      ensures DbValid(db)
      ensures r.Err? ==> At() == old(At())
      ensures r.Err? ==> r.error == Refused || r.error == Conflict
      ensures r == Err(Conflict) ==> Effective(spec, old(db).kind).code in old(db).applications
      ensures r.Ok? ==>
                var e := Effective(spec, old(db).kind);
                && e.code !in old(db).applications && r.value.id !in old(db).menus && r.value.id !in old(db).releases
                && r.value == Filled(r.value, e) && r.value.code == e.code && r.value.status == "draft"
                && r.value.version == 1 && r.value.publishedRelease == 0
                && (forall c :: c in old(db).applications ==> old(db).applications[c].id != r.value.id)
                && At() == After(old(At()), Event(ApplicationCreated(e.code), WithApplication(old(db), r.value)))
    {
      hide DbValid, KeptText, Effectives;
      var e := Effective(spec, db.kind);
      if e.code in db.applications {
        return Err(Conflict);
      }
      if * {
        refused := refused + 1;
        return Err(Refused);
      }
      var id := FreshId((set c | c in db.applications :: db.applications[c].id) + db.menus.Keys + db.releases.Keys);
      var app := Application(id, e.code, e.name, e.description, e.icon, e.defaultRoute, e.sortOrder, "draft",
          e.metadata, 0, 1);
      assert forall c :: c in db.applications ==> db.applications[c].id != id;
      KeptTextTwice(spec.code, db.kind);
      KeptTextTwice(spec.name, db.kind);
      WithApplicationValid(db, app);
      db := WithApplication(db, app);
      trace := trace + [Event(ApplicationCreated(e.code), db)];
      return Ok(app);
    }

    method UpdateApplication(current: Application, spec: ApplicationSpec) returns (r: Result<Application, ApiError>)
      requires DbValid(db)
      modifies this`db, this`trace, this`refused
      ensures refused == old(refused) + if r == Err(Refused) then 1 else 0
      ensures DbValid(db)
      ensures r.Err? ==> At() == old(At())
      ensures r.Err? ==> r.error == Refused || r.error == Conflict || r.error == Stale
      ensures current.code in old(db).applications && old(db).applications[current.code] == current ==>
                r != Err(Conflict) && r != Err(Stale)
      ensures r.Ok? ==>
                && current.code in old(db).applications
                && (old(db).kind.strict ==> old(db).applications[current.code].version == current.version)
                && r.value == Filled(old(db).applications[current.code],
                     Effective(spec, old(db).kind)).(status := "active", version := current.version + 1)
                && At() == After(old(At()), Event(ApplicationUpdated(current.code), WithApplication(old(db), r.value)))
    {
      hide DbValid, KeptText, Effectives;
      if current.code !in db.applications || db.applications[current.code].id != current.id {
        return Err(Conflict);
      }
      StoredApplication(db, current.code);
      var stored := db.applications[current.code];
      if db.kind.strict && stored.version != current.version {
        return Err(Stale);
      }
      if * {
        refused := refused + 1;
        return Err(Refused);
      }
      var app := Filled(stored, Effective(spec, db.kind)).(status := "active", version := current.version + 1);
      KeptTextTwice(spec.name, db.kind);
      WithApplicationValid(db, app);
      db := WithApplication(db, app);
      trace := trace + [Event(ApplicationUpdated(current.code), db)];
      return Ok(app);
    }

    method UpsertMenu(menu: Menu, expected: int) returns (r: Result<Menu, ApiError>)
      requires DbValid(db)
      modifies this`db, this`trace, this`refused
      ensures refused == old(refused) + if r == Err(Refused) then 1 else 0
      ensures DbValid(db)
      ensures r.Err? ==> At() == old(At()) && r.error != Invalid
      ensures UpsertOutcome(old(db), menu, expected, r)
      ensures r.Ok? ==>
                At() == After(old(At()), Event(if expected == 0 then MenuCreated(r.value.applicationId, r.value.code)
                                               else MenuUpdated(r.value.applicationId, r.value.code),
                                                   WithMenu(old(db), r.value)))
    {
      hide Kept, DraftsValid, DbValid, TreeAdmits, ParentKnown;
      var drafts, kept := DraftsOf(db, menu.applicationId), Kept(menu, db.kind);
      KeptTwice(menu, db.kind, "", 0, "");
      StoredDrafts(db, menu.applicationId);
      var error := CheckUpsert(drafts, menu, kept, expected);
      if error.Some? {
        refused := if error.value == Refused then refused + 1 else refused;
        return Err(error.value);
      }
      var stored: Menu;
      if expected == 0 {
        var id := FreshId((set c | c in drafts :: drafts[c].id) + (set c | c in drafts :: drafts[c].parentId));
        assert Unused(drafts, id);
        stored := kept.(id := id, version := 1);
      } else {
        stored := kept.(version := expected + 1, status := if db.kind.keepsStatus then kept.status else "");
      }
      KeptTwice(menu, db.kind, stored.id, stored.version, stored.status);
      assert stored == kept.(id := stored.id, version := stored.version, status := stored.status);
      WithMenuValid(db, stored);
      db := WithMenu(db, stored);
      trace := trace + [Event(if expected == 0 then MenuCreated(stored.applicationId, stored.code)
                              else MenuUpdated(stored.applicationId, stored.code), db)];
      return Ok(stored);
    }

    /** The reasons to refuse an upsert. A strict service checks versions and the tree; another one need not. */
    method CheckUpsert(drafts: Drafts, menu: Menu, kept: Menu, expected: int) returns (error: Option<ApiError>)
      requires DraftsValid(kept.applicationId, drafts) && kept == Kept(menu, db.kind) && kept.id == menu.id
      requires kept.parentId == menu.parentId
      ensures error != Some(Invalid)
      ensures error == Some(ParentMissing) ==> !ParentKnown(drafts, menu.parentId)
      ensures error == Some(CycleFound) ==> !TreeAdmits(drafts, menu, expected)
      ensures error == Some(Stale) ==> expected != 0 && kept.code in drafts && drafts[kept.code].version != expected
      ensures error == Some(Conflict) ==> !Addresses(drafts, menu, kept.code, expected)
      ensures error.None? ==> kept.code != "" && expected >= 0 && Addresses(drafts, menu, kept.code, expected)
      ensures error.None? && db.kind.strict ==>
                && (expected != 0 ==> drafts[kept.code].version == expected)
                && ParentKnown(drafts, menu.parentId) && TreeAdmits(drafts, menu, expected)
    {
      hide Kept, TreeAdmits;
      if if expected == 0 then kept.code in drafts else kept.code !in drafts || drafts[kept.code].id != menu.id {
        return Some(Conflict);
      }
      var refused: bool := *;
      if db.kind.strict {
        if expected != 0 && drafts[kept.code].version != expected {
          return Some(Stale);
        }
        if menu.parentId != "" && forall c :: c in drafts ==> drafts[c].id != menu.parentId {
          return Some(ParentMissing);
        }
        var admitted := AdmitsTree(drafts, kept, expected);
        AdmitsById(drafts, menu, kept, expected);
        if !admitted {
          return Some(CycleFound);
        }
      }
      return if refused || kept.code == "" || expected < 0 then Some(Refused) else None;
    }

    /** The tree check of the service, run on the drafts with the sent menu in place. */
    method AdmitsTree(drafts: Drafts, menu: Menu, expected: int) returns (admitted: bool)
      requires UniqueDraftIds(drafts)
      requires expected != 0 ==> menu.code in drafts && drafts[menu.code].id == menu.id
      requires DraftsCoded(drafts)
      ensures admitted <==> TreeAdmits(drafts, menu, expected)
    {
      var sent := if expected == 0 then menu.(id := "") else menu;
      var items := OtherDrafts(drafts, sent.id);
      admitted := ValidateMenuTree(items + [sent]);
      TreeAdmitsIffAccepted(drafts, items, sent, expected);
    }

    method OtherDrafts(drafts: Drafts, id: string) returns (items: seq<Menu>)
      requires DraftsCoded(drafts)
      ensures ListsOthers(items, drafts, id)
    {
      items := [];
      var rest := drafts.Keys;
      while rest != {}
        invariant rest <= drafts.Keys
        invariant forall i :: 0 <= i < |items| ==>
                    items[i].code in drafts.Keys - rest && drafts[items[i].code] == items[i] && items[i].id != id
        invariant forall i, j :: 0 <= i < j < |items| ==> items[i].code != items[j].code
        invariant forall c :: c in drafts.Keys - rest && drafts[c].id != id ==>
          exists i :: 0 <= i < |items| && items[i] == drafts[c]
      {
        var c :| c in rest;
        rest := rest - {c};
        if drafts[c].id != id {
          ghost var before := items;
          items := items + [drafts[c]];
          assert items[|before|] == drafts[c];
          assert forall i :: 0 <= i < |before| ==> items[i] == before[i];
        }
      }
    }

    method PublishMenus(applicationId: string, version: int) returns (r: Result<(), ApiError>)
      requires DbValid(db)
      modifies this`db, this`trace, this`refused
      ensures refused == old(refused) + if r == Err(Refused) then 1 else 0
      ensures DbValid(db)
      ensures r.Err? ==> At() == old(At())
      ensures r.Err? ==> r.error == Refused || r.error == Conflict || r.error == Stale
      ensures forall c :: c in old(db).applications && old(db).applications[c].id == applicationId ==>
                var app := old(db).applications[c];
                && (r == Err(Conflict) ==> DraftsOf(old(db), applicationId) == map[])
                && (r == Err(Stale) ==> app.version != version) &&
                     (r.Ok? && old(db).kind.strict ==> app.version == version)
                && (r.Ok? ==> At() == After(old(At()),
                     Event(MenusPublished(applicationId), WithRelease(old(db), app, version))))
                && (r.Ok? ==>
                      && db.applications ==
                           old(db).applications[c := app.(publishedRelease := app.publishedRelease + 1,
                               version := version + 1)]
                      && db.releases == old(db).releases[applicationId := DraftsOf(old(db), applicationId)]
                      && db.menus == old(db).menus && db.grants == old(db).grants)
    {
      hide KeptText, DbValid;
      ApplicationIds(db);
      if c :| c in db.applications && db.applications[c].id == applicationId {
        var app := db.applications[c];
        if db.kind.strict && app.version != version {
          return Err(Stale);
        }
        if DraftsOf(db, applicationId) == map[] {
          return Err(Conflict);
        }
        if * {
          refused := refused + 1;
          return Err(Refused);
        }
        WithReleaseValid(db, c, version);
        StoredApplication(db, c);
        db := WithRelease(db, app, version);
        trace := trace + [Event(MenusPublished(applicationId), db)];
        return Ok(());
      } else {
        return Err(Conflict);
      }
    }

    method Grant(tenantId: string, applicationId: string, expected: int) returns (r: Result<(), ApiError>)
      requires DbValid(db)
      modifies this`db, this`trace, this`refused
      ensures refused == old(refused) + if r == Err(Refused) then 1 else 0
      ensures DbValid(db)
      ensures r.Err? ==> At() == old(At()) && (r.error == Refused || r.error == Stale)
      ensures r == Err(Stale) ==> expected != GrantVersion(old(db), tenantId, applicationId)
      ensures r.Ok? && old(db).kind.strict ==> expected == GrantVersion(old(db), tenantId, applicationId)
      ensures r.Ok? ==>
                At() == After(old(At()), Event(GrantApplied(tenantId, applicationId),
                                               WithGrant(old(db), Activated(tenantId, applicationId, expected))))
      ensures r.Ok? ==>
                && tenantId in db.grants && applicationId in db.grants[tenantId]
                && var g := db.grants[tenantId][applicationId];
                   g.tenantId == tenantId && g.applicationId == applicationId && g.status == "active" &&
                   g.version == if expected < 0 then 1 else expected + 1
    {
      hide DraftsValid, KeptText, Kept;
      if db.kind.strict && expected != GrantVersion(db, tenantId, applicationId) {
        return Err(Stale);
      }
      if * {
        refused := refused + 1;
        return Err(Refused);
      }
      db := WithGrant(db, Activated(tenantId, applicationId, expected));
      trace := trace + [Event(GrantApplied(tenantId, applicationId), db)];
      return Ok(());
    }
  }

  /** Drafts are stored under their own code. */
  ghost predicate DraftsCoded(drafts: Drafts) {
    forall c :: c in drafts ==> drafts[c].code == c
  }
}
