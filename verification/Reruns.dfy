/** Manifests and states on which a second bootstrap run does not find what the first one should have left. */
module Reruns {
  import opened Wrappers
  import opened Text
  import opened Menus
  import opened MenuTree
  import opened Manifests
  import opened BootstrapServer
  import opened Tallies
  import opened Declared
  import opened MenuReconciliation
  import opened Reconciliation
  import DraftMenus

  /** One application with one menu; the texts are the parameters. */
  function Orders(name: string, menuName: string, route: string): Manifest {
    Manifest([ApplicationSpec("orders", name, "", "", "", 0, map[],
                              [MenuSpec("list", "", "directory", menuName, "", route, "", "", "", "", "", 0, None)])])
  }

  /** The application as declared and published, with one draft, and with the release `released`. */
  function Published(kind: Kind, draft: Menu, released: Drafts): Db {
    Db(kind, map["orders" := Application("1", "orders", "Orders", "", "", "", 0, "active", map[], 1, 3)],
       map["1" := map["list" := draft]], map[], map["1" := released])
  }

  function Draft(name: string): Menu {
    Menu("2", "1", "", "list", "directory", name, "", "", "", "", "", "", "tenant", "active", 0, true, 1)
  }

  lemma NothingToTrim(s: string)
    requires s == "" || (!IsSpace(s[0]) && !IsSpace(s[|s| - 1]))
    ensures TrimSpace(s) == s
  {
    TrimFixpoint(s, IsSpace);
  }

  lemma SpaceAfter(s: string)
    requires s != "" && !IsSpace(s[0]) && !IsSpace(s[|s| - 1])
    ensures TrimSpace(s + " ") == s
  {
    assert TrimLeft(s + " ", IsSpace) == s + " ";
    assert (s + " ")[..|s|] == s;
    assert TrimRight(s + " ", IsSpace) == TrimRight(s, IsSpace) == s;
  }

  lemma SpaceAround(s: string)
    requires s != "" && !IsSpace(s[0]) && !IsSpace(s[|s| - 1])
    ensures TrimSpace(" " + s + " ") == s
  {
    var t := " " + s + " ";
    assert t[1..] == s + " ";
    assert TrimLeft(t, IsSpace) == TrimLeft(s + " ", IsSpace);
    SpaceAfter(s);
  }

  lemma SampleText()
    ensures TrimSpace("") == "" && TrimSpace("orders") == "orders" && TrimSpace("list") == "list"
    ensures TrimSpace("directory") == "directory" && TrimSpace("Orders") == "Orders"
    ensures TrimSpace("Open orders") == "Open orders"
    ensures TrimSpace(" Orders ") == "Orders" && TrimSpace("list ") == "list"
  {
    hide TrimSpace;
    NothingToTrim("");
    NothingToTrim("orders");
    NothingToTrim("list");
    NothingToTrim("directory");
    NothingToTrim("Orders");
    NothingToTrim("Open orders");
    assert " Orders " == " " + "Orders" + " " && "list " == "list" + " ";
    SpaceAround("Orders");
    SpaceAfter("list");
  }

  lemma SampleCodes()
    ensures IsCode("orders") && IsCode("list")
  {
  }

  lemma SampleIsValid(name: string, menuName: string, route: string)
    requires TrimSpace(name) != "" && TrimSpace(menuName) != ""
    ensures ManifestValid(Orders(name, menuName, route))
  {
    SampleText();
    SampleCodes();
    hide TrimSpace, ToLower, IsCode;
    var a := Orders(name, menuName, route).applications[0];
    assert IsOrderOf(a.menus, a.menus);
  }

  lemma SampleKept(kind: Kind, name: string)
    requires TrimSpace(name) == name
    ensures Kept(Draft(name), kind) == Draft(name)
  {
    SampleText();
    NothingToTrim("tenant");
    NothingToTrim("1");
    NothingToTrim("2");
    hide TrimSpace;
    assert ToLower("tenant") == "tenant";
    assert ToLower("") == "";
  }

  lemma AllRoots(parents: map<string, string>)
    requires forall id :: id in parents ==> parents[id] == ""
    ensures Forest(parents)
  {
    forall id | id in parents
      ensures ReachesRoot(parents, id)
    {
      assert Climbs(parents, "", 0);
      assert Climbs(parents, id, 1);
    }
  }

  lemma SingleDraft(a: string, drafts: Drafts, d: Menu)
    requires drafts == map[d.code := d] && d.code != "" && d.id != "" && d.parentId == "" && d.applicationId == a
    requires d.version >= 1
    ensures DraftForest(drafts) && DraftsValid(a, drafts)
  {
    assert UniqueDraftIds(drafts);
    ParentsOfAt(drafts);
    AllRoots(ParentsOf(drafts));
  }

  lemma SingleApplication(db: Db, app: Application, drafts: Drafts)
    requires db.applications == map[app.code := app] && app.publishedRelease >= 0
    requires KeptText(app.code, db.kind) == app.code && KeptText(app.name, db.kind) == app.name
    requires db.menus == map[app.id := drafts] && db.grants == map[]
    requires DraftForest(drafts) && DraftsValid(app.id, drafts) && forall c :: c in drafts ==>
      Kept(drafts[c], db.kind) == drafts[c]
    ensures DbValid(db) && AllForests(db)
  {
    hide KeptText, Kept, DraftForest, DraftsValid;
  }

  lemma SampleState(kind: Kind, name: string, released: Drafts)
    requires TrimSpace(name) == name
    ensures var db := Published(kind, Draft(name), released);
            DbValid(db) && AllForests(db) && DraftsOf(db, "1") == map["list" := Draft(name)]
  {
    SampleText();
    SampleKept(kind, name);
    hide TrimSpace, ToLower, Kept, DraftsValid, DraftForest, DbValid, AllForests;
    var db, drafts := Published(kind, Draft(name), released), map["list" := Draft(name)];
    SingleDraft("1", drafts, Draft(name));
    SingleApplication(db, db.applications["orders"], drafts);
  }

  /** There is nothing to trim in it, unless in the name of the application or the route. */
  lemma SampleTrimmed(kind: Kind, name: string, menuName: string, route: string)
    requires TrimSpace(menuName) == menuName
    ensures ManifestTrimmed(Orders(name, menuName, route), kind) <==>
      !kind.trims || (TrimSpace(name) == name && TrimSpace(route) == route)
  {
    SampleText();
    hide TrimSpace, ToLower;
    var spec := Orders(name, menuName, route).applications[0];
    var s := spec.menus[0];
    TrimmedIff(spec, kind);
    assert AllTrimmed(spec.menus, kind) <==> EffectiveMenu(s, kind) == s;
  }

  lemma OtherName(a: string, drafts: Drafts, s: MenuSpec)
    requires s.code in drafts && drafts[s.code].name != s.name
    ensures !UpToDate(drafts, a, s)
  {
    hide TrimSpace, ToLower, KindOf;
  }

  /** What a run that succeeds tells about the next one. */
  lemma RunTells(from: Moment, to: Moment, m: Manifest, tenantIDs: seq<string>, result: Tally)
    requires RunDone(from, to, m, tenantIDs, result, None)
    ensures ManifestConverged(to.db, m, tenantIDs) ==> ManifestTrimmed(m, from.db.kind) && QuietAgain(from.db, m)
    ensures ManifestConverged(from.db, m, tenantIDs) ==> to == from && result == ZERO
  {
    hide DbValid, AllForests, ManifestValid, ManifestConverged, ManifestTrimmed, ManifestUpdatesNothing, AllStored,
         MirrorsIfDue, ForestsStay, TallyOf;
  }

  lemma RenameIsDue(kind: Kind, released: Drafts)
    ensures !ManifestUpdatesNothing(Published(kind, Draft("Orders"), released), Orders("Orders", "Open orders", ""))
  {
    hide TrimSpace, ToLower, UpToDate;
    var db, m := Published(kind, Draft("Orders"), released), Orders("Orders", "Open orders", "");
    var spec := m.applications[0];
    assert Draft("Orders").name[0] == 'O' && Draft("Orders").name[1] == 'r' && spec.menus[0].name[1] == 'p';
    OtherName("1", DraftsOf(db, "1"), spec.menus[0]);
    assert spec.menus[0] in spec.menus;
    assert !NoUpdatesDue(db, spec);
  }

  /**
   Over the HTTP adapter a renamed menu is updated by every run: no run that succeeds leaves the
   next one nothing to do.
   */
  lemma RenamedMenuIsUpdatedAgain(from: Moment, to: Moment, tenantIDs: seq<string>, result: Tally)
    requires from.db == Published(Kind(false, true, true), Draft("Orders"), map["list" := Draft("Orders")])
    ensures var m := Orders("Orders", "Open orders", "");
            && ManifestValid(m) && DbValid(from.db) && AllForests(from.db) && ManifestTrimmed(m, from.db.kind) &&
                 !QuietAgain(from.db, m)
            && (RunDone(from, to, m, tenantIDs, result, None) ==> !ManifestConverged(to.db, m, tenantIDs))
  {
    var m, kind := Orders("Orders", "Open orders", ""), Kind(false, true, true);
    SampleText();
    SampleIsValid("Orders", "Open orders", "");
    SampleState(kind, "Orders", map["list" := Draft("Orders")]);
    SampleTrimmed(kind, "Orders", "Open orders", "");
    RenameIsDue(kind, map["list" := Draft("Orders")]);
    hide TrimSpace, DbValid, AllForests, ManifestValid, ManifestConverged, ManifestTrimmed, ManifestUpdatesNothing,
         RunDone, Orders, Draft;
    if RunDone(from, to, m, tenantIDs, result, None) {
      RunTells(from, to, m, tenantIDs, result);
    }
  }

  // ----- such a run

  function Renamed(): Menu { Draft("Open orders").(version := 2, status := "") }

  /** The states after the update of the menu and after the publication. */
  function AfterUpdate(db: Db): Db { WithMenu(db, Renamed()) }

  function AfterPublication(db: Db): Db
    requires "orders" in db.applications
  {
    WithRelease(AfterUpdate(db), db.applications["orders"], 3)
  }

  function RenamingRun(from: Moment): Moment
    requires "orders" in from.db.applications
  {
    After(After(from, Event(MenuUpdated("1", "list"), AfterUpdate(from.db))),
        Event(MenusPublished("1"), AfterPublication(from.db)))
  }

  const RENAMING: Tally := Tally(0, 0, 0, 1, 1, 0)

  lemma RenamedIsKept(kind: Kind)
    ensures Kept(Renamed(), kind) == Renamed() && Renamed().code == "list" && Renamed().applicationId == "1"
    ensures DraftForest(map["list" := Renamed()]) && DraftsValid("1", map["list" := Renamed()])
  {
    SampleText();
    SampleKept(kind, "Open orders");
    KeptTwice(Draft("Open orders"), kind, "2", 2, "");
    hide TrimSpace, Kept, DraftsValid, DraftForest;
    assert Renamed() == Draft("Open orders").(id := "2", version := 2, status := "");
    SingleDraft("1", map["list" := Renamed()], Renamed());
  }

  /** Writing the only menu of the only application, and publishing it. */
  lemma SingleWritten(db: Db, app: Application, menu: Menu)
    requires db.applications == map[app.code := app] && db.grants == map[] && db.releases.Keys == {app.id}
    requires menu.applicationId == app.id && db.menus.Keys == {app.id} && db.menus[app.id].Keys == {menu.code}
    ensures var drafts, updated, after := map[menu.code := menu], WithMenu(db, menu),
      WithRelease(WithMenu(db, menu), app, app.version);
            && updated == db.(menus := map[app.id := drafts])
            && after.applications == map[app.code := Released(app, app.version)] && after.menus == map[app.id := drafts]
            && after.releases == map[app.id := drafts] && after.kind == db.kind && after.grants == map[]
  {
    assert DraftsOf(db, app.id)[menu.code := menu] == map[menu.code := menu];
    assert WithMenu(db, menu).menus == map[app.id := map[menu.code := menu]];
  }

  lemma SingleStates(db: Db, app: Application, menu: Menu)
    requires db.applications == map[app.code := app] && db.grants == map[] && db.releases.Keys == {app.id}
    requires app.publishedRelease >= 0
    requires menu.applicationId == app.id && db.menus.Keys == {app.id} && db.menus[app.id].Keys == {menu.code}
    requires KeptText(app.code, db.kind) == app.code && KeptText(app.name, db.kind) == app.name
    requires Kept(menu, db.kind) == menu
    requires DraftForest(map[menu.code := menu]) && DraftsValid(app.id, map[menu.code := menu])
    ensures var after := WithRelease(WithMenu(db, menu), app, app.version);
            AllForests(WithMenu(db, menu)) && DbValid(after) && AllForests(after)
  {
    hide KeptText, Kept, DraftForest, DraftsValid, DbValid, AllForests, WithMenu, WithRelease;
    SingleWritten(db, app, menu);
    SingleApplication(WithMenu(db, menu), app, map[menu.code := menu]);
    SingleApplication(WithRelease(WithMenu(db, menu), app, app.version), Released(app, app.version),
        map[menu.code := menu]);
  }

  lemma RenamingStates(db: Db, released: Drafts)
    requires db == Published(Kind(false, true, true), Draft("Orders"), released)
    ensures AllForests(AfterUpdate(db)) && DbValid(AfterPublication(db)) && AllForests(AfterPublication(db))
    ensures var after, drafts := AfterPublication(db), map["list" := Renamed()];
            && after.kind == db.kind && after.menus == map["1" := drafts] && after.releases == map["1" := drafts]
            && after.applications == map["orders" := Released(db.applications["orders"], 3)]
  {
    SampleText();
    RenamedIsKept(db.kind);
    hide TrimSpace, Kept, DraftsValid, DraftForest, DbValid, AllForests, Renamed, Draft, WithMenu, WithRelease,
         Released;
    SingleWritten(db, db.applications["orders"], Renamed());
    SingleStates(db, db.applications["orders"], Renamed());
  }

  lemma RenamingCounted(from: Moment)
    requires "orders" in from.db.applications
    ensures Counted(from, RenamingRun(from), RENAMING) && RenamingRun(from).db == AfterPublication(from.db)
  {
    var e, f := Event(MenuUpdated("1", "list"), AfterUpdate(from.db)),
        Event(MenusPublished("1"), AfterPublication(from.db));
    hide AfterUpdate, AfterPublication, Counted;
    assert RenamingRun(from) == After(After(from, e), f);
    CountedOne(from, e);
    CountedOne(After(from, e), f);
    CountedPlus(from, After(from, e), RenamingRun(from), One(e.call), One(f.call));
  }

  lemma RenamedIsReflected(drafts: Drafts)
    requires drafts == map["list" := Renamed()]
    ensures var menus := Orders("Orders", "Open orders", "").applications[0].menus;
            MenusReflected(drafts, "1", menus) && !MenusUpToDate(drafts, "1", menus)
  {
    var menus := Orders("Orders", "Open orders", "").applications[0].menus;
    SampleText();
    hide TrimSpace;
    assert ToLower("") == "";
    assert menus[0] in menus && drafts["list"].status == "";
  }

  /** A run with one application, which updates its menu without the status and publishes. */
  lemma SingleSucceeds(db0: Db, db: Db, m: Manifest, spec: ApplicationSpec, result: Tally)
    requires m.applications == [spec] && Trimmed(spec, db0.kind) && !db0.kind.keepsStatus && result.menusUpdated > 0
    requires !MenusSettled(db0, spec) && !NoUpdatesDue(db0, spec) && PublishDue(db0, spec)
    requires Settled(db, spec, []) && Reflected(db, spec) && !MenusSettled(db, spec) && Mirrored(db, spec.code)
    ensures RunSucceeded(db0, db, m, [], result) && !ManifestConverged(db0, m, [])
  {
    hide MenusSettled, NoUpdatesDue, PublishDue, Settled, Reflected, Mirrored, Effective, AllForests;
    assert Effective(spec, db0.kind) == spec;
    assert !Converged(db0, m.applications[0], Wanted([])) && !Converged(db, m.applications[0], Wanted([]));
    assert !NoUpdatesDue(db0, m.applications[0]);
  }

  /** The application after the publication, with the drafts that it published. */
  lemma SinglePublished(db: Db, app: Application, spec: ApplicationSpec, drafts: Drafts)
    requires db.applications == map[app.code := Released(app, app.version)] && app.code == spec.code
    requires app.publishedRelease >= 0
    requires ApplicationEqual(app, spec) && db.menus == map[app.id := drafts] && db.releases == map[app.id := drafts]
    requires MenusReflected(drafts, app.id, spec.menus) && !MenusUpToDate(drafts, app.id, spec.menus)
    ensures Settled(db, spec, []) && Reflected(db, spec) && !MenusSettled(db, spec) && Mirrored(db, spec.code)
  {
    hide MenusReflected, MenusUpToDate;
  }

  /** Before the run the menu is out of date. */
  lemma RenamingIsDue(kind: Kind, released: Drafts)
    ensures var db, spec := Published(kind, Draft("Orders"), released),
      Orders("Orders", "Open orders", "").applications[0];
            !MenusSettled(db, spec) && !NoUpdatesDue(db, spec) && PublishDue(db, spec) &&
                ApplicationEqual(db.applications["orders"], spec)
  {
    var db, m := Published(kind, Draft("Orders"), released), Orders("Orders", "Open orders", "");
    var spec := m.applications[0];
    RenameIsDue(kind, released);
    assert Draft("Orders").name[1] == 'r' && spec.menus[0].name[1] == 'p';
    OtherName("1", DraftsOf(db, "1"), spec.menus[0]);
    hide TrimSpace, UpToDate, Draft;
    assert spec.menus[0] in spec.menus;
  }

  /** Afterwards it is as declared but for its status, and published. */
  lemma RenamingSucceeds(db: Db, released: Drafts)
    requires db == Published(Kind(false, true, true), Draft("Orders"), released)
    ensures var m := Orders("Orders", "Open orders", "");
            RunSucceeded(db, AfterPublication(db), m, [], RENAMING) && !ManifestConverged(db, m, [])
  {
    var m, after := Orders("Orders", "Open orders", ""), AfterPublication(db);
    var spec := m.applications[0];
    SampleText();
    SampleTrimmed(db.kind, "Orders", "Open orders", "");
    RenamingIsDue(db.kind, released);
    RenamingStates(db, released);
    RenamedIsReflected(map["list" := Renamed()]);
    assert m.applications == [spec] &&
        Trimmed(spec, db.kind) by { assert ManifestTrimmed(m, db.kind) && m.applications[0] == spec; }
    hide TrimSpace, MenusSettled, NoUpdatesDue, PublishDue, AfterPublication, Renamed, Draft, MenusReflected,
         MenusUpToDate, ApplicationEqual, Trimmed, DbValid,
         AllForests;
    SinglePublished(after, db.applications["orders"], spec, map["list" := Renamed()]);
    SingleSucceeds(db, after, m, spec, RENAMING);
  }

  lemma RenamingKeepsForests(from: Moment)
    requires "orders" in from.db.applications && AllForests(AfterUpdate(from.db))
    requires AllForests(AfterPublication(from.db))
    ensures ForestsStay(from, RenamingRun(from))
  {
    hide AllForests, AfterPublication, AfterUpdate;
    var e := Event(MenuUpdated("1", "list"), AfterUpdate(from.db));
    TraceForestsNext(from.trace, e);
    TraceForestsNext(from.trace + [e], Event(MenusPublished("1"), AfterPublication(from.db)));
  }

  lemma SuccessIsRunDone(from: Moment, to: Moment, m: Manifest, tenantIDs: seq<string>, result: Tally)
    requires DbValid(to.db) && to.db.kind == from.db.kind && Counted(from, to, result) && ForestsStay(from, to)
    requires ManifestValid(m) && !ManifestConverged(from.db, m, tenantIDs)
    requires RunSucceeded(from.db, to.db, m, tenantIDs, result)
    ensures RunDone(from, to, m, tenantIDs, result, None)
  {
    hide DbValid, AllForests, ForestsStay, ManifestValid, ManifestConverged, RunSucceeded, Counted;
  }

  /** Such a run: from these states a run can update the menu, publish and succeed. */
  lemma RenamingRunSucceeds(from: Moment)
    requires from.db == Published(Kind(false, true, true), Draft("Orders"), map["list" := Draft("Orders")])
    ensures RunDone(from, RenamingRun(from), Orders("Orders", "Open orders", ""), [], RENAMING, None)
  {
    SampleText();
    SampleIsValid("Orders", "Open orders", "");
    RenamingStates(from.db, map["list" := Draft("Orders")]);
    RenamingCounted(from);
    RenamingSucceeds(from.db, map["list" := Draft("Orders")]);
    RenamingKeepsForests(from);
    hide TrimSpace, DbValid, AllForests, ForestsStay, ManifestValid, ManifestConverged, RunSucceeded, RunDone,
         AfterPublication, AfterUpdate, RenamingRun, Orders,
         Counted, Draft, Renamed, Released, Published;
    SuccessIsRunDone(from, RenamingRun(from), Orders("Orders", "Open orders", ""), [], RENAMING);
  }

  /**
   A valid manifest with a space around a name or a route never reads back as declared, whatever
   the state and the adapter.
   */
  lemma UntrimmedTextIsUpdatedAgain(from: Moment, to: Moment, tenantIDs: seq<string>, result: Tally, name: string,
                                    route: string)
    requires from.db.kind.trims && (name, route) in {(" Orders ", ""), ("Orders", "list ")}
    ensures var m := Orders(name, "Open orders", route);
            && ManifestValid(m) && !ManifestTrimmed(m, from.db.kind)
            && (RunDone(from, to, m, tenantIDs, result, None) ==> !ManifestConverged(to.db, m, tenantIDs))
  {
    SampleText();
    SampleIsValid(name, "Open orders", route);
    SampleTrimmed(from.db.kind, name, "Open orders", route);
    hide TrimSpace, ManifestValid, ManifestConverged, ManifestTrimmed, RunDone;
    var m := Orders(name, "Open orders", route);
    if RunDone(from, to, m, tenantIDs, result, None) {
      RunTells(from, to, m, tenantIDs, result);
    }
  }
}
