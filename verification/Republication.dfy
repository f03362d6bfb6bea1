/** What becomes of a release whose publication failed at the end of a bootstrap run. */
module Republication {
  import opened Wrappers
  import opened Text
  import opened Menus
  import opened MenuTree
  import opened Manifests
  import opened BootstrapServer
  import opened Tallies
  import opened Declared
  import opened MenuReconciliation
  import opened Reconciliation
  import opened Reruns

  /**
   The application and its menus have been reconciled and the publication was refused.
   The next run publishes exactly if the application was never published, or some text
   is trimmed, or a menu was updated over an adapter that loses statuses.
   */
  lemma FailedPublicationIsRetriedIff(from: Db, ensured: Moment, placed: Moment, spec: ApplicationSpec,
                                      app: Application,
                                      first: Tally, changed: bool, second: Tally)
    requires DbValid(from) && DbValid(placed.db) && Ensured(from, ensured.db, spec, app, first)
    requires MenusReconciled(ensured, placed, app.id, spec.menus, changed, second, None)
    ensures PublishDue(placed.db, spec) <==>
      || spec.code !in from.applications || from.applications[spec.code].publishedRelease == 0
      || KeptText(spec.code, from.kind) != spec.code || !AllTrimmed(spec.menus, from.kind)
      || !(from.kind.keepsStatus || NoUpdatesDue(from, spec))
  {
    hide MenusUpToDate, MenusReflected, NoneDue, ApplicationEqual, Counted, ForestsStay, Orderable, AllTrimmed,
         KeptText, Effectives, DbValid;
    EnsuredKeepsRows(from, ensured.db, spec, app, first);
    if spec.code in placed.db.applications {
      StoredApplication(placed.db, spec.code);
    }
  }

  // ----- one more menu

  /** The menu that a create stores for a declared menu at the top. */
  ghost predicate StoredFor(drafts: Drafts, a: string, more: MenuSpec, stored: Menu) {
    && stored == MenuFromSpec(a, "", more).(id := stored.id, version := 1)
    && stored.id != "" && Unused(drafts, stored.id)
  }

  /** A new declared menu at the top, written trimmed, beside menus whose parents have drafts. */
  ghost predicate OneMore(drafts: Drafts, specs: seq<MenuSpec>, more: MenuSpec, kind: Kind) {
    && more.code != "" && more.code !in drafts && more.parent == "" && EffectiveMenu(more, kind) == more
    && forall s :: s in specs ==> s.parent == "" || s.parent in drafts
  }

  lemma NewFields(a: string, more: MenuSpec)
    ensures var m := MenuFromSpec(a, "", more);
            m.code == more.code && m.applicationId == a && m.parentId == "" && m.status == "active" && m.id == ""
  {
  }

  lemma StoredIsKept(a: string, more: MenuSpec, stored: Menu, kind: Kind)
    requires EffectiveMenu(more, kind) == more && stored == MenuFromSpec(a, "", more).(id := stored.id, version := 1)
    ensures Kept(MenuFromSpec(a, "", more), kind) == MenuFromSpec(a, "", more) && Kept(stored, kind) == stored
    ensures stored.code == more.code && stored.applicationId == a && stored.parentId == "" && stored.status == "active"
  {
    KeptMenuFromSpec(a, "", more, kind);
    KeptTwice(MenuFromSpec(a, "", more), kind, stored.id, 1, "active");
    NewFields(a, more);
    hide MenuFromSpec, Kept, EffectiveMenu;
  }

  lemma StoredIsValid(db: Db, a: string, more: MenuSpec, stored: Menu)
    requires DbValid(db) && OneMore(DraftsOf(db, a), [], more, db.kind) && StoredFor(DraftsOf(db, a), a, more, stored)
    ensures DbValid(WithMenu(db, stored))
  {
    hide MenuFromSpec, Kept, EffectiveMenu, DbValid;
    StoredIsKept(a, more, stored, db.kind);
    WithMenuValid(db, stored);
  }

  lemma RootIsAdmitted(drafts: Drafts, m: Menu)
    requires DraftForest(drafts) && m.parentId == ""
    ensures ParentKnown(drafts, m.parentId) && TreeAdmits(drafts, m, 0)
  {
    hide ParentsOf, Forest, ReachesRoot;
    KnownParentReaches(drafts, "");
  }

  /** The API may answer its create like this. */
  lemma CreateIsAllowed(db: Db, a: string, more: MenuSpec, stored: Menu)
    requires DbValid(db) && AllForests(db) && OneMore(DraftsOf(db, a), [], more, db.kind)
    requires StoredFor(DraftsOf(db, a), a, more, stored)
    ensures UpsertOutcome(db, MenuFromSpec(a, "", more), 0, Ok(stored))
  {
    var sent := MenuFromSpec(a, "", more);
    NewFields(a, more);
    NoDraftsForest();
    hide MenuFromSpec, Kept, EffectiveMenu, DbValid, DraftForest, ParentKnown, TreeAdmits, Unused;
    StoredIsKept(a, more, stored, db.kind);
    RootIsAdmitted(DraftsOf(db, a), sent);
  }

  /** The drafts with the new one: the others are as they were. */
  lemma OneMoreDraft(drafts: Drafts, a: string, specs: seq<MenuSpec>, more: MenuSpec, stored: Menu, kind: Kind)
    requires OneMore(drafts, specs, more, kind) && StoredFor(drafts, a, more, stored) && MenusUpToDate(drafts, a, specs)
    requires "" !in drafts
    ensures var after := drafts[more.code := stored];
            MenusUpToDate(after, a, specs + [more]) && !UpToDate(drafts, a, more)
  {
    hide EffectiveMenu;
    NewFields(a, more);
    var after := drafts[more.code := stored];
    forall s | s in specs + [more]
      ensures UpToDate(after, a, s)
    {
      if s in specs {
        assert UpToDate(drafts, a, s);
        assert s.code != more.code && IdOf(after, s.parent) == IdOf(drafts, s.parent);
      } else {
        assert "" != more.code;
        StoredIsUpToDate(after, a, more, stored);
      }
    }
  }

  lemma StoredIsUpToDate(after: Drafts, a: string, more: MenuSpec, stored: Menu)
    requires more.code in after && after[more.code] == stored && more.parent == "" && "" !in after
    requires stored == MenuFromSpec(a, "", more).(id := stored.id, version := 1)
    ensures UpToDate(after, a, more)
  {
    hide KindOf, TrimSpace, ToLower;
  }

  // ----- the run that creates it, and the next one

  /** The menu has been created, and the publication is refused. */
  function Interrupted(from: Moment, a: string, stored: Menu): Moment {
    After(from, Event(MenuCreated(a, stored.code), WithMenu(from.db, stored)))
  }

  /** A converged and mirrored application of which the manifest now declares one more menu. */
  ghost predicate OneMoreDue(db: Db, spec: ApplicationSpec, tenants: seq<string>, more: MenuSpec, stored: Menu) {
    && DbValid(db) && AllForests(db) && Converged(db, spec, tenants) && Mirrored(db, spec.code)
    && var a := db.applications[spec.code].id;
       OneMore(DraftsOf(db, a), spec.menus, more, db.kind) && StoredFor(DraftsOf(db, a), a, more, stored)
  }

  function WithMore(spec: ApplicationSpec, more: MenuSpec): ApplicationSpec { spec.(menus := spec.menus + [more]) }

  lemma NothingToEnsure(db: Db, spec: ApplicationSpec, more: MenuSpec)
    requires DbValid(db) && spec.code in db.applications && ApplicationEqual(db.applications[spec.code], spec)
    ensures Ensured(db, db, WithMore(spec, more), db.applications[spec.code], ZERO)
  {
    hide DbValid, Effectives, KeptText;
    StoredApplication(db, spec.code);
  }

  lemma WithMenuDrafts(db: Db, menu: Menu)
    ensures var a, after := menu.applicationId, WithMenu(db, menu);
            OnlyDrafts(db, after, a) && DraftsOf(after, a) == DraftsOf(db, a)[menu.code := menu]
    ensures DraftForest(DraftsOf(db, menu.applicationId)[menu.code := menu]) && AllForests(db) ==>
      AllForests(WithMenu(db, menu))
  {
    hide DraftForest;
  }

  lemma RootKeepsForest(drafts: Drafts, a: string, more: MenuSpec, stored: Menu)
    requires DraftForest(drafts) && "" !in drafts && stored.parentId == "" && stored.id != "" && more.parent == ""
    requires more.code !in drafts && Unused(drafts, stored.id)
    ensures DraftForest(drafts[more.code := stored])
  {
    hide DraftForest;
    assert Codes([]) == {};
    PlaceKeepsForest(drafts, a, [], more, stored);
  }

  lemma InterruptedDb(db: Db, a: string, specs: seq<MenuSpec>, more: MenuSpec, stored: Menu)
    requires DbValid(db) && AllForests(db) && OneMore(DraftsOf(db, a), specs, more, db.kind)
    requires StoredFor(DraftsOf(db, a), a, more, stored)
    ensures var to := WithMenu(db, stored);
            && DbValid(to) && AllForests(to) && stored.code == more.code && stored.applicationId == a &&
                 OnlyDrafts(db, to, a)
            && DraftsOf(to, a) == DraftsOf(db, a)[more.code := stored]
  {
    StoredDrafts(db, a);
    assert "" !in DraftsOf(db, a);
    NoDraftsForest();
    hide MenuFromSpec, Kept, EffectiveMenu, DbValid, DraftForest, OnlyDrafts, WithMenu, DraftsValid;
    StoredIsKept(a, more, stored, db.kind);
    StoredIsValid(db, a, more, stored);
    assert DraftForest(DraftsOf(db, a));
    hide AllForests;
    RootKeepsForest(DraftsOf(db, a), a, more, stored);
    WithMenuDrafts(db, stored);
  }

  /** What is up to date is declared trimmed and needs no update. */
  lemma UpToDateIsTrimmed(db: Db, a: string, specs: seq<MenuSpec>)
    requires DbValid(db) && MenusUpToDate(DraftsOf(db, a), a, specs)
    ensures AllTrimmed(specs, db.kind) && MenusReflected(DraftsOf(db, a), a, Effectives(specs, db.kind))
  {
    hide EffectiveMenu, Kept, UpToDate, Reflects, DbValid;
    StoredDrafts(db, a);
    forall s | s in specs
      ensures EffectiveMenu(s, db.kind) == s && Reflects(DraftsOf(db, a), a, s)
    {
      UpToDateIffKept(DraftsOf(db, a), a, s, db.kind);
      UpToDateIffActive(DraftsOf(db, a), a, s);
    }
    assert Effectives(specs, db.kind) == specs;
  }

  lemma NoneDueIsUpToDate(drafts: Drafts, a: string, specs: seq<MenuSpec>, more: MenuSpec, kind: Kind)
    requires OneMore(drafts, specs, more, kind) && MenusUpToDate(drafts, a, specs)
    ensures NoneDue(drafts, a, specs + [more])
  {
    hide EffectiveMenu, UpToDate;
  }

  lemma InterruptedIsDone(db: Db, to: Db, a: string, specs: seq<MenuSpec>, more: MenuSpec, stored: Menu, result: Tally)
    requires DbValid(db) && DbValid(to) && MenusUpToDate(DraftsOf(db, a), a, specs) && OnlyDrafts(db, to, a)
    requires OneMore(DraftsOf(db, a), specs, more, db.kind) && StoredFor(DraftsOf(db, a), a, more, stored)
    requires result.menusUpdated == 0
    requires DraftsOf(to, a) == DraftsOf(db, a)[more.code := stored]
    ensures MenusDone(db, to, a, specs + [more], true, result)
    ensures MenusUpToDate(DraftsOf(to, a), a, specs + [more]) && !MenusUpToDate(DraftsOf(db, a), a, specs + [more])
  {
    var drafts, all := DraftsOf(db, a), specs + [more];
    StoredDrafts(db, a);
    assert "" !in drafts;
    KindOfOnlyDrafts(db, to, a);
    hide MenuFromSpec, Kept, EffectiveMenu, DbValid, UpToDate, OnlyDrafts, Effectives, AllTrimmed, NoneDue,
         MenusReflected, DraftsValid, UniqueDraftIds;
    OneMoreDraft(drafts, a, specs, more, stored, db.kind);
    NoneDueIsUpToDate(drafts, a, specs, more, db.kind);
    assert more in all;
    hide OneMore, StoredFor;
    UpToDateIsTrimmed(to, a, all);
  }

  /** The menus are reconciled by that one call. */
  lemma InterruptedMenus(from: Moment, a: string, specs: seq<MenuSpec>, more: MenuSpec, stored: Menu)
    requires DbValid(from.db) && AllForests(from.db) && MenusUpToDate(DraftsOf(from.db, a), a, specs)
    requires OneMore(DraftsOf(from.db, a), specs, more, from.db.kind)
    requires StoredFor(DraftsOf(from.db, a), a, more, stored)
    ensures var to := Interrupted(from, a, stored);
            && MenusReconciled(from, to, a, specs + [more], true, One(MenuCreated(a, more.code)), None)
            && MenusUpToDate(DraftsOf(to.db, a), a, specs + [more])
  {
    var to, e := Interrupted(from, a, stored), Event(MenuCreated(a, stored.code), WithMenu(from.db, stored));
    InterruptedDb(from.db, a, specs, more, stored);
    OneCounts(e.call);
    CountedOne(from, e);
    TraceForestsNext(from.trace, e);
    InterruptedIsDone(from.db, to.db, a, specs, more, stored, One(e.call));
    assert MenusOnly(One(e.call));
    hide DbValid, AllForests, WithMenu, OnlyDrafts, Counted, TraceForests, OneMore, StoredFor, MenusUpToDate, MenusDone,
         MenusReconciled;
    MenusSucceed(from, to, a, specs + [more], One(e.call));
  }

  lemma MenusSucceed(from: Moment, to: Moment, a: string, specs: seq<MenuSpec>, result: Tally)
    requires DbValid(to.db) && OnlyDrafts(from.db, to.db, a) && Counted(from, to, result) && MenusOnly(result)
    requires result != ZERO
    requires !MenusUpToDate(DraftsOf(from.db, a), a, specs) && MenusDone(from.db, to.db, a, specs, true, result) &&
      ForestsStay(from, to)
    ensures MenusReconciled(from, to, a, specs, true, result, None)
  {
    hide DbValid, OnlyDrafts, Counted, MenusOnly, MenusUpToDate, MenusDone, ForestsStay, AllForests, AllTrimmed,
         Orderable;
  }

  lemma KindOfOnlyDrafts(before: Db, after: Db, a: string)
    requires OnlyDrafts(before, after, a)
    ensures after.kind == before.kind && after.applications == before.applications && after.releases == before.releases
    ensures after.grants == before.grants
  {
  }

  /** The application is converged again, its release is the old one, and nothing makes it due. */
  lemma InterruptedVerdicts(db: Db, to: Db, spec: ApplicationSpec, tenants: seq<string>, more: MenuSpec, stored: Menu)
    requires OneMoreDue(db, spec, tenants, more, stored) && OnlyDrafts(db, to, db.applications[spec.code].id)
    requires var a := db.applications[spec.code].id;
             DraftsOf(to, a) == DraftsOf(db, a)[more.code := stored] &&
                 MenusUpToDate(DraftsOf(to, a), a, spec.menus + [more])
    ensures Converged(to, WithMore(spec, more), tenants) && !PublishDue(to, WithMore(spec, more))
    ensures !Mirrored(to, spec.code)
  {
    hide DbValid, AllForests, MenusUpToDate, StoredFor, EffectiveMenu;
    var a := db.applications[spec.code].id;
    assert more.code !in DraftsOf(db, a) && more.code in DraftsOf(to, a);
    assert forall t :: HasGrant(to, t, a) <==> HasGrant(db, t, a);
  }

  /**
   From every such state a run may create the menu, be refused the publication, and
   leave all up to date beside the old release. No run that succeeds after it makes a
   call, so the release stays as it is.
   */
  lemma FailedPublicationIsNotRetried(from: Moment, spec: ApplicationSpec, tenantIDs: seq<string>, more: MenuSpec,
                                      stored: Menu,
                                      m: Manifest, end: Moment, result: Tally)
    requires OneMoreDue(from.db, spec, Wanted(tenantIDs), more, stored) && m.applications == [WithMore(spec, more)]
    ensures var app := from.db.applications[spec.code];
            var to := Interrupted(from, app.id, stored);
            && Ensured(from.db, from.db, m.applications[0], app, ZERO)
            && UpsertOutcome(from.db, MenuFromSpec(app.id, "", more), 0, Ok(stored))
            && MenusReconciled(from, to, app.id, m.applications[0].menus, true, One(MenuCreated(app.id, more.code)),
                 None)
            && !PublishDue(to.db, m.applications[0]) && !Mirrored(to.db, spec.code)
            && (RunDone(to, end, m, tenantIDs, result, None) ==> result == ZERO && end == to)
  {
    hide DbValid, AllForests, ApplicationEqual, MenusUpToDate, Mirrored, StoredFor, OneMore, Unused, Ensured,
         UpsertOutcome,
         MenusReconciled, PublishDue, RunDone, OnlyDrafts, MenuFromSpec, WithMenu;
    var app := from.db.applications[spec.code];
    var to := Interrupted(from, app.id, stored);
    NothingToEnsure(from.db, spec, more);
    InterruptedDb(from.db, app.id, spec.menus, more, stored);
    InterruptedMenus(from, app.id, spec.menus, more, stored);
    OneMoreAlone(DraftsOf(from.db, app.id), spec.menus, more, from.db.kind);
    CreateIsAllowed(from.db, app.id, more, stored);
    InterruptedVerdicts(from.db, to.db, spec, Wanted(tenantIDs), more, stored);
    hide Interrupted, OneMoreDue, Converged;
    assert ManifestConverged(to.db, m, tenantIDs);
    if RunDone(to, end, m, tenantIDs, result, None) {
      RunTells(to, end, m, tenantIDs, result);
    }
  }

  lemma OneMoreAlone(drafts: Drafts, specs: seq<MenuSpec>, more: MenuSpec, kind: Kind)
    requires OneMore(drafts, specs, more, kind)
    ensures OneMore(drafts, [], more, kind)
  {
    hide EffectiveMenu;
  }

  // ----- a concrete one

  function More(): MenuSpec {
    MenuSpec("more", "", "directory", "Orders", "", "", "", "", "", "", "", 0, None)
  }

  function StoredMore(): Menu {
    Menu("3", "1", "", "more", "directory", "Orders", "", "", "", "", "", "", "tenant", "active", 0, true, 1)
  }

  lemma MoreText()
    ensures TrimSpace("more") == "more" && IsCode("more") && "more" != "list" && "more" != ""
  {
    NothingToTrim("more");
    assert "more"[0] != "list"[0];
  }

  lemma MoreIsStored(drafts: Drafts)
    requires drafts == map["list" := Draft("Orders")]
    ensures StoredFor(drafts, "1", More(), StoredMore())
  {
    SampleText();
    hide TrimSpace;
    assert ToLower("") == "";
    assert "3" != "2" && "3" != "";
  }

  lemma MoreIsNew(drafts: Drafts, kind: Kind)
    requires drafts == map["list" := Draft("Orders")]
    ensures OneMore(drafts, Orders("Orders", "Orders", "").applications[0].menus, More(), kind)
  {
    SampleText();
    MoreText();
    hide TrimSpace, Draft;
  }

  /** A valid menu at the top with a new code can be added to a valid application. */
  lemma AppendIsValid(spec: ApplicationSpec, more: MenuSpec)
    requires ApplicationSpecValid(spec) && MenuSpecValid(TrimSpace(spec.code), more) && more.parent == ""
    requires TrimSpace(more.code) !in TrimmedCodes(spec.menus)
    ensures ApplicationSpecValid(WithMore(spec, more))
  {
    hide TrimSpace, IsCode, MenuSpecValid;
    var both, n := spec.menus + [more], |spec.menus|;
    assert both[n] == more && forall i :: 0 <= i < n ==> both[i] == spec.menus[i];
    assert TrimmedCodes(both) == TrimmedCodes(spec.menus) + [TrimSpace(more.code)];
    forall i | 0 <= i < n
      ensures ParentValid(both, TrimmedCodes(both), both[i])
    {
      assert ParentValid(spec.menus, TrimmedCodes(spec.menus), spec.menus[i]);
      if both[i].parent != "" {
        var j: nat :| ParentAt(spec.menus, TrimmedCodes(spec.menus), spec.menus[i], j);
        assert ParentAt(both, TrimmedCodes(both), both[i], j);
      }
    }
    var order :| IsOrderOf(order, spec.menus);
    assert IsOrderOf(order + [more], both) by {
      assert forall i :: 0 <= i < |order| ==> (order + [more])[i] == order[i];
    }
  }

  lemma MoreIsAlone()
    ensures MenuSpecValid("orders", More()) && TrimSpace(More().code) == "more" && More().parent == ""
  {
    SampleText();
    MoreText();
    hide TrimSpace, IsCode;
    assert ToLower("") == "";
  }

  /** The manifest with one more menu is valid. */
  lemma MoreIsValid(spec: ApplicationSpec)
    requires spec == Orders("Orders", "Orders", "").applications[0]
    ensures ManifestValid(Manifest([WithMore(spec, More())]))
  {
    SampleText();
    SampleIsValid("Orders", "Orders", "");
    MoreIsAlone();
    MoreText();
    assert ApplicationSpecValid(spec) && TrimmedCodes(spec.menus) == ["list"] by {
      hide TrimSpace, ApplicationSpecValid;
      assert ApplicationSpecValid(Orders("Orders", "Orders", "").applications[0]);
    }
    hide TrimSpace, ApplicationSpecValid, More, MenuSpecValid;
    AppendIsValid(spec, More());
  }

  lemma SampleIsUpToDate(drafts: Drafts)
    requires drafts == map["list" := Draft("Orders")]
    ensures MenusUpToDate(drafts, "1", Orders("Orders", "Orders", "").applications[0].menus)
  {
    SampleText();
    hide TrimSpace;
    assert ToLower("") == "";
  }

  lemma SampleIsConverged(kind: Kind, drafts: Drafts)
    requires drafts == map["list" := Draft("Orders")]
    ensures var db, spec := Published(kind, Draft("Orders"), drafts), Orders("Orders", "Orders", "").applications[0];
            && Converged(db, spec, []) && Mirrored(db, spec.code) && spec.code in db.applications &&
                 db.applications[spec.code].id == "1"
  {
    var db, spec := Published(kind, Draft("Orders"), drafts), Orders("Orders", "Orders", "").applications[0];
    SampleIsUpToDate(drafts);
    hide TrimSpace, MenusUpToDate, Draft;
    assert DraftsOf(db, "1") == drafts && db.applications["orders"].id == "1";
  }

  /** A published application with one menu, and a valid manifest with another one, for every kind of service. */
  lemma MoreIsDue(kind: Kind)
    ensures var spec := Orders("Orders", "Orders", "").applications[0];
            && OneMoreDue(Published(kind, Draft("Orders"), map["list" := Draft("Orders")]), spec, [], More(),
                 StoredMore())
            && ManifestValid(Manifest([WithMore(spec, More())]))
  {
    var spec, drafts := Orders("Orders", "Orders", "").applications[0], map["list" := Draft("Orders")];
    SampleText();
    SampleState(kind, "Orders", drafts);
    SampleIsConverged(kind, drafts);
    MoreIsStored(drafts);
    MoreIsNew(drafts, kind);
    MoreIsValid(spec);
    hide TrimSpace, Converged, Mirrored, Draft, DbValid, AllForests, StoredFor, OneMore, ManifestValid, Orders,
         WithMore, More, StoredMore;
  }
}
