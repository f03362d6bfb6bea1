/**
 The manifest reconciler: it drives the application service towards a manifest
 and, run again, finds nothing to do.
 */
module Reconciliation {
  import opened Wrappers
  import opened Text
  import opened Menus
  import opened MenuTree
  import opened Manifests
  import opened BootstrapServer
  import opened Tallies
  import opened Declared
  import opened MenuReconciliation

  // ----- one application

  ghost predicate HasGrant(db: Db, tenantId: string, applicationId: string) {
    applicationId in GrantsOf(db, tenantId) && GrantsOf(db, tenantId)[applicationId].status == "active"
  }

  ghost predicate AllGranted(db: Db, tenants: seq<string>, applicationId: string) {
    forall t :: t in tenants ==> HasGrant(db, t, applicationId)
  }

  /** The application is as declared, published and granted; nothing is said about its menus. */
  ghost predicate Settled(db: Db, spec: ApplicationSpec, tenants: seq<string>) {
    spec.code in db.applications &&
    var app := db.applications[spec.code];
    ApplicationEqual(app, spec) && app.publishedRelease != 0 && AllGranted(db, tenants, app.id)
  }

  ghost predicate MenusSettled(db: Db, spec: ApplicationSpec) {
    spec.code in db.applications &&
    var app := db.applications[spec.code];
    MenusUpToDate(DraftsOf(db, app.id), app.id, spec.menus)
  }

  /** The drafts are as declared but for their status. */
  ghost predicate Reflected(db: Db, spec: ApplicationSpec) {
    spec.code in db.applications &&
    var app := db.applications[spec.code];
    MenusReflected(DraftsOf(db, app.id), app.id, spec.menus)
  }

  ghost predicate Converged(db: Db, spec: ApplicationSpec, tenants: seq<string>) {
    Settled(db, spec, tenants) && MenusSettled(db, spec)
  }

  /** Every declared menu that has a draft is up to date, below a parent that has one. */
  ghost predicate NoUpdatesDue(db: Db, spec: ApplicationSpec) {
    spec.code in db.applications ==>
      var app := db.applications[spec.code];
      NoneDue(DraftsOf(db, app.id), app.id, spec.menus)
  }

  /** The latest release holds the drafts as they are now. */
  ghost predicate Mirrored(db: Db, code: string) {
    code in db.applications &&
    var id := db.applications[code].id;
    id in db.releases && db.releases[id] == DraftsOf(db, id)
  }

  /** What makes the reconciler publish. */
  ghost predicate PublishDue(db: Db, spec: ApplicationSpec) {
    spec.code !in db.applications || db.applications[spec.code].publishedRelease == 0 || !MenusSettled(db, spec)
  }

  /** Two states agree on the part of the database that belongs to an application identifier. */
  ghost predicate SameRows(before: Db, after: Db, id: string) {
    && DraftsOf(after, id) == DraftsOf(before, id)
    && (id in after.releases <==> id in before.releases)
    && (id in after.releases ==> after.releases[id] == before.releases[id])
    && forall t :: SameGrant(before, after, t, id)
  }

  ghost predicate SameGrant(before: Db, after: Db, t: string, id: string) {
    && (id in GrantsOf(after, t) <==> id in GrantsOf(before, t))
    && (id in GrantsOf(after, t) ==> GrantsOf(after, t)[id] == GrantsOf(before, t)[id])
  }

  ghost predicate SameApplication(before: Db, after: Db, code: string) {
    && (code in after.applications <==> code in before.applications)
    && (code in after.applications ==> after.applications[code] == before.applications[code] &&
                                       SameRows(before, after, after.applications[code].id))
  }

  /** Only the application `code` and the rows under its identifier differ. */
  ghost predicate OnlyApplication(before: Db, after: Db, code: string) {
    && after.kind == before.kind
    && (forall c :: c != code ==> (c in after.applications <==> c in before.applications))
    && (forall c :: c != code && c in after.applications ==> after.applications[c] == before.applications[c])
    && (code in before.applications ==>
          code in after.applications && after.applications[code].id == before.applications[code].id)
    && forall a :: !OwnId(after, code, a) ==> SameRows(before, after, a)
  }

  ghost predicate OwnId(db: Db, code: string, a: string) {
    code in db.applications && db.applications[code].id == a
  }

  lemma OthersUntouched(before: Db, after: Db, code: string, other: string)
    requires OnlyApplication(before, after, code) && DbValid(after) && other != code
    ensures SameApplication(before, after, other)
  {
    hide SameRows, KeptText, Kept, DraftsValid;
  }

  lemma SameRowsTrans(a: Db, b: Db, c: Db, id: string)
    requires SameRows(a, b, id) && SameRows(b, c, id)
    ensures SameRows(a, c, id)
  {
    forall t
      ensures SameGrant(a, c, t, id)
    {
      assert SameGrant(a, b, t, id) && SameGrant(b, c, t, id);
    }
  }

  lemma OnlyApplicationTrans(a: Db, b: Db, c: Db, code: string)
    requires OnlyApplication(a, b, code) && OnlyApplication(b, c, code)
    ensures OnlyApplication(a, c, code)
  {
    hide SameRows;
    forall id | !OwnId(c, code, id)
      ensures SameRows(a, c, id)
    {
      assert !OwnId(b, code, id);
      SameRowsTrans(a, b, c, id);
    }
  }

  lemma SameApplicationTrans(a: Db, b: Db, c: Db, code: string)
    requires SameApplication(a, b, code) && SameApplication(b, c, code)
    ensures SameApplication(a, c, code)
  {
    hide SameRows;
    if code in a.applications {
      SameRowsTrans(a, b, c, a.applications[code].id);
    }
  }

  /** What is said about one application depends on its own rows only. */
  lemma SameVerdicts(before: Db, after: Db, spec: ApplicationSpec, tenants: seq<string>)
    requires SameApplication(before, after, spec.code)
    ensures SameVerdictsOn(before, after, spec, tenants)
  {
    hide ApplicationEqual, MenusUpToDate, MenusReflected, NoneDue;
    if spec.code in after.applications {
      var id := after.applications[spec.code].id;
      forall t
        ensures HasGrant(after, t, id) <==> HasGrant(before, t, id)
      {
        assert SameGrant(before, after, t, id);
      }
    }
  }

  ghost predicate SameVerdictsOn(before: Db, after: Db, spec: ApplicationSpec, tenants: seq<string>) {
    && (Settled(after, spec, tenants) <==> Settled(before, spec, tenants))
    && (MenusSettled(after, spec) <==> MenusSettled(before, spec))
    && (Reflected(after, spec) <==> Reflected(before, spec))
    && (NoUpdatesDue(after, spec) <==> NoUpdatesDue(before, spec))
    && (Mirrored(after, spec.code) <==> Mirrored(before, spec.code))
    && (PublishDue(after, spec) <==> PublishDue(before, spec))
  }

  /** One stretch of work on one application. */
  ghost predicate Worked(from: Moment, to: Moment, code: string, t: Tally) {
    DbValid(to.db) && OnlyApplication(from.db, to.db, code) && Counted(from, to, t) && ForestsStay(from, to)
  }

  lemma WorkedTrans(m0: Moment, m1: Moment, m2: Moment, code: string, a: Tally, b: Tally)
    requires Worked(m0, m1, code, a) && Worked(m1, m2, code, b)
    ensures Worked(m0, m2, code, Plus(a, b))
    ensures Plus(a, b) == ZERO <==> a == ZERO && b == ZERO
  {
    hide DbValid, OnlyApplication, AllForests, TraceForests, TallyOf;
    OnlyApplicationTrans(m0.db, m1.db, m2.db, code);
    CountedPlus(m0, m1, m2, a, b);
  }

  lemma WorkedNone(m: Moment, code: string)
    requires DbValid(m.db)
    ensures Worked(m, m, code, ZERO)
  {
    hide DbValid, AllForests, TraceForests, Counted;
    CountedNone(m);
  }

  lemma WithApplicationOnly(db: Db, app: Application)
    requires app.code in db.applications ==> db.applications[app.code].id == app.id
    ensures OnlyApplication(db, WithApplication(db, app), app.code)
  {
  }

  /** A single call that leaves the drafts alone. */
  lemma WorkedCall(m: Moment, e: Event, code: string)
    requires DbValid(e.after) && OnlyApplication(m.db, e.after, code) && e.after.menus == m.db.menus
    ensures Worked(m, After(m, e), code, One(e.call))
  {
    hide DbValid, OnlyApplication, Counted, One;
    CountedOne(m, e);
    if AllForests(m.db) {
      TraceForestsNext(m.trace, e);
    }
  }

  // ----- the four steps on one application

  /** The application exists and is as declared, trimmed. */
  ghost predicate Ensured(db0: Db, db: Db, spec: ApplicationSpec, app: Application, t: Tally) {
    var e := Effective(spec, db0.kind);
    && db.kind == db0.kind && db.menus == db0.menus && db.grants == db0.grants && db.releases == db0.releases
    && e.code in db.applications && db.applications[e.code] == app && app.code == e.code && ApplicationEqual(app, e)
    && (if spec.code in db0.applications then
          e.code == spec.code && app.id == db0.applications[spec.code].id &&
          app.publishedRelease == db0.applications[spec.code].publishedRelease
        else e.code !in db0.applications && app.publishedRelease == 0 && app.id !in db0.menus)
    && t == if spec.code in db0.applications then UpdatedIf(!ApplicationEqual(db0.applications[spec.code], spec))
            else ZERO.(applicationsCreated := 1, applicationsUpdated := 1)
  }

  function UpdatedIf(due: bool): Tally {
    ZERO.(applicationsUpdated := if due then 1 else 0)
  }

  ghost predicate PublishedIf(db0: Db, db: Db, app: Application, due: bool, t: Tally) {
    if due then db == WithRelease(db0, app, app.version) && t == ZERO.(menusPublished := 1)
    else db == db0 && t == ZERO
  }

  ghost predicate GrantsDone(db0: Db, db: Db, tenants: seq<string>, id: string, t: Tally) {
    && db.kind == db0.kind && db.applications == db0.applications && db.menus == db0.menus &&
         db.releases == db0.releases
    && AllGranted(db, tenants, id) && (t == ZERO <==> AllGranted(db0, tenants, id))
    && t.menusUpdated == 0 && t.menusPublished == 0
  }

  /** There is nothing to trim in the declared application. */
  predicate Trimmed(spec: ApplicationSpec, kind: Kind) {
    Effective(spec, kind) == spec
  }

  /** What a success on one application means. */
  ghost predicate Done(db0: Db, db: Db, spec: ApplicationSpec, tenants: seq<string>, result: Tally) {
    var e := Effective(spec, db0.kind);
    && (result == ZERO <==> Converged(db0, spec, tenants))
    && Settled(db, e, tenants) && Reflected(db, e)
    && (Converged(db, spec, tenants) <==> (db0.kind.keepsStatus || result.menusUpdated == 0) && Trimmed(spec, db0.kind))
    && (result.menusUpdated == 0 <==> NoUpdatesDue(db0, spec))
    && result.menusPublished == (if PublishDue(db0, spec) then 1 else 0)
    && MirrorsIfDue(db0, db, spec)
  }

  ghost predicate MirrorsIfDue(db0: Db, db: Db, spec: ApplicationSpec) {
    var code := Effective(spec, db0.kind).code;
    Mirrored(db, code) <==> PublishDue(db0, spec) || Mirrored(db0, code)
  }

  /** What `Apply` has done for one application when it goes on to the next, or gives up. */
  ghost predicate Applied(from: Moment, to: Moment, spec: ApplicationSpec, tenants: seq<string>, result: Tally,
                          error: Option<ApiError>) {
    && Worked(from, to, Effective(spec, from.db.kind).code, result)
    && (Converged(from.db, spec, tenants) ==> result == ZERO)
    && (error.None? ==> Done(from.db, to.db, spec, tenants, result))
    && Expected(error, from.db, spec)
  }

  /**
   Without interference no call is stale, none is in conflict over trimmed text, and over forests
   none is refused for the tree.
   */
  ghost predicate Expected(error: Option<ApiError>, db0: Db, spec: ApplicationSpec) {
    && error != Some(Stale) && error != Some(Invalid) && (error == Some(Conflict) ==> !Trimmed(spec, db0.kind))
    && (AllForests(db0) ==> error != Some(ParentMissing) && error != Some(CycleFound))
  }

  lemma WithReleaseOnly(db: Db, app: Application, version: int)
    requires app.code in db.applications && db.applications[app.code] == app
    ensures OnlyApplication(db, WithRelease(db, app, version), app.code)
    ensures WithRelease(db, app, version).menus == db.menus
  {
    assert Released(app, version).id == app.id;
  }

  lemma WithGrantOnly(db: Db, g: Grant, code: string)
    requires OwnId(db, code, g.applicationId)
    ensures OnlyApplication(db, WithGrant(db, g), code)
  {
  }

  lemma MenusReconciledWorked(m0: Moment, m1: Moment, code: string, a: string, specs: seq<MenuSpec>, changed: bool,
                              result: Tally, error: Option<ApiError>)
    requires MenusReconciled(m0, m1, a, specs, changed, result, error) && OwnId(m0.db, code, a)
    ensures Worked(m0, m1, code, result)
  {
    hide MenusUpToDate, Counted, DbValid, ForestsStay, Orderable, MenusDone, AllTrimmed;
  }

  /** The menus of an application before and after `Ensured`. */
  lemma EnsuredKeepsRows(db0: Db, db: Db, spec: ApplicationSpec, app: Application, t: Tally)
    requires Ensured(db0, db, spec, app, t)
    ensures DraftsOf(db, app.id) == DraftsOf(db0, app.id)
    ensures spec.code in db0.applications ==>
              (MenusSettled(db0, spec) <==> MenusUpToDate(DraftsOf(db, app.id), app.id, spec.menus))
    ensures spec.code !in db0.applications ==> DraftsOf(db, app.id) == map[]
    ensures NoUpdatesDue(db0, spec) <==> NoneDue(DraftsOf(db, app.id), app.id, spec.menus)
    ensures t == ZERO ==> spec.code in db0.applications && ApplicationEqual(db0.applications[spec.code], spec)
  {
    hide MenusUpToDate, ApplicationEqual, UpToDate;
  }

  /** An application that needs nothing passes the first three steps unchanged. */
  lemma ConvergedNeedsNothing(db0: Db, m1: Moment, m2: Moment, spec: ApplicationSpec, tenants: seq<string>,
                              app: Application,
                              t1: Tally, changed: bool, t2: Tally, error: Option<ApiError>)
    requires Converged(db0, spec, tenants) && Ensured(db0, m1.db, spec, app, t1)
    requires MenusReconciled(m1, m2, app.id, spec.menus, changed, t2, error)
    ensures t1 == ZERO && t2 == ZERO && !changed && app.publishedRelease != 0
    ensures AllGranted(m2.db, tenants, app.id)
  {
    hide MenusUpToDate, ApplicationEqual, Counted, DbValid, ForestsStay, Orderable, MenusDone, AllTrimmed;
    EnsuredKeepsRows(db0, m1.db, spec, app, t1);
    forall t | t in tenants
      ensures HasGrant(m2.db, t, app.id)
    {
      assert HasGrant(db0, t, app.id);
    }
  }

  /** The trimmed specs of an application are those of its trimmed form. */
  lemma TrimmedIff(spec: ApplicationSpec, kind: Kind)
    ensures Trimmed(spec, kind) <==>
      Effective(spec, kind).code == spec.code && Effective(spec, kind).name == spec.name && AllTrimmed(spec.menus, kind)
  {
    hide KeptText, EffectiveMenu;
    match spec { case ApplicationSpec(_, _, _, _, _, _, _, _) => }
    if AllTrimmed(spec.menus, kind) {
      assert Effectives(spec.menus, kind) == spec.menus;
    }
    if Effectives(spec.menus, kind) == spec.menus {
      forall s | s in spec.menus
        ensures EffectiveMenu(s, kind) == s
      {
        var i :| 0 <= i < |spec.menus| && spec.menus[i] == s;
        assert Effectives(spec.menus, kind)[i] == EffectiveMenu(s, kind);
      }
    }
  }

  /**
   The four steps on one application: the moments between them, what the client learned, and what
   each step counted.
   */
  datatype Course = Course(
    from: Moment, ensured: Moment, placed: Moment, released: Moment, to: Moment,
    app: Application, changed: bool,
    first: Tally, second: Tally, third: Tally, fourth: Tally
  ) {
    function Total(): Tally { Plus(Plus(Plus(first, second), third), fourth) }

    predicate Due() { changed || app.publishedRelease == 0 }

    predicate Adds() { Total() == ZERO <==> first == ZERO && second == ZERO && third == ZERO && fourth == ZERO }
  }

  /** The first three steps have succeeded. */
  ghost predicate Reached(c: Course, spec: ApplicationSpec) {
    && Ensured(c.from.db, c.ensured.db, spec, c.app, c.first) && c.app.publishedRelease >= 0
    && (AllForests(c.from.db) ==> AllForests(c.ensured.db))
    && MenusReconciled(c.ensured, c.placed, c.app.id, spec.menus, c.changed, c.second, None)
    && PublishedIf(c.placed.db, c.released.db, c.app, c.Due(), c.third)
  }

  /** The rows of the application after all four steps. */
  lemma RowsAfter(c: Course, spec: ApplicationSpec, tenants: seq<string>)
    requires Reached(c, spec) && GrantsDone(c.released.db, c.to.db, tenants, c.app.id, c.fourth)
    ensures var e, db, drafts := Effective(spec, c.from.db.kind), c.to.db, DraftsOf(c.placed.db, c.app.id);
            && db.kind == c.from.db.kind && e.code in db.applications && DraftsOf(db, c.app.id) == drafts
            && db.applications[e.code] == (if c.Due() then Released(c.app, c.app.version) else c.app)
            && c.app.code == e.code && ApplicationEqual(c.app, e) && c.released.db.grants == c.from.db.grants
            && (if c.Due() then c.app.id in db.releases && db.releases[c.app.id] == drafts
                 else db.releases == c.from.db.releases)
  {
    hide Effective, ApplicationEqual, MenusUpToDate, Counted, DbValid, ForestsStay, AllForests, MenusDone, Orderable,
         AllTrimmed, AllGranted, Released;
    assert Released(c.app, c.app.version).code == c.app.code by { ReleasedCode(c.app); }
  }

  lemma ReleasedCode(app: Application)
    ensures var r := Released(app, app.version);
            r.code == app.code && r.id == app.id && r.publishedRelease == app.publishedRelease + 1
    ensures forall e :: ApplicationEqual(Released(app, app.version), e) <==> ApplicationEqual(app, e)
  {
  }

  /** The application, its release and its grants after all four steps. */
  lemma SettledAfter(c: Course, spec: ApplicationSpec, tenants: seq<string>)
    requires Reached(c, spec) && GrantsDone(c.released.db, c.to.db, tenants, c.app.id, c.fourth)
    ensures var e, db, drafts := Effective(spec, c.from.db.kind), c.to.db, DraftsOf(c.placed.db, c.app.id);
            && db.kind == c.from.db.kind && Settled(db, e, tenants) && OwnId(db, e.code, c.app.id) &&
                 DraftsOf(db, c.app.id) == drafts
            && db.applications[e.code].name == e.name
            && (if c.Due() then c.app.id in db.releases && db.releases[c.app.id] == drafts
                 else db.releases == c.from.db.releases)
    ensures c.fourth == ZERO <==> AllGranted(c.from.db, tenants, c.app.id)
    ensures c.third.menusPublished == if c.Due() then 1 else 0
    ensures c.third == ZERO <==> !c.Due()
  {
    RowsAfter(c, spec, tenants);
    ReleasedCode(c.app);
    hide Effective, Ensured, MenusReconciled, Released;
    forall t
      ensures HasGrant(c.released.db, t, c.app.id) <==> HasGrant(c.from.db, t, c.app.id)
    {
    }
  }

  /** What the steps tell about the state at the start. */
  lemma VerdictsAtTheStart(c: Course, spec: ApplicationSpec, tenants: seq<string>)
    requires Reached(c, spec)
    ensures c.Due() <==> PublishDue(c.from.db, spec)
    ensures c.first == ZERO && c.second == ZERO && !c.Due() && AllGranted(c.from.db, tenants, c.app.id) <==>
      Converged(c.from.db, spec, tenants)
    ensures c.second.menusUpdated == 0 <==> NoUpdatesDue(c.from.db, spec)
    ensures c.second.menusPublished == 0
  {
    hide MenusUpToDate, MenusReflected, NoneDue, ApplicationEqual, Counted, AllForests, ForestsStay, Orderable,
         AllTrimmed, Effective, AllGranted, DbValid,
         NoUpdatesDue;
    EnsuredKeepsRows(c.from.db, c.ensured.db, spec, c.app, c.first);
  }

  /** What the steps leave. */
  lemma VerdictsAtTheEnd(c: Course, spec: ApplicationSpec, tenants: seq<string>)
    requires Reached(c, spec) && DbValid(c.to.db)
    requires GrantsDone(c.released.db, c.to.db, tenants, c.app.id, c.fourth)
    ensures var e := Effective(spec, c.from.db.kind);
            && Settled(c.to.db, e, tenants) && Reflected(c.to.db, e)
            && (Mirrored(c.to.db, e.code) <==> c.Due() || Mirrored(c.from.db, e.code))
    ensures Converged(c.to.db, spec, tenants) <==>
      (c.from.db.kind.keepsStatus || c.second.menusUpdated == 0) && Trimmed(spec, c.from.db.kind)
  {
    hide MenusUpToDate, MenusReflected, NoneDue, ApplicationEqual, Counted, AllForests, ForestsStay, Orderable,
         AllTrimmed, Effective, AllGranted, DbValid,
         GrantsDone, Converged, Trimmed, PublishedIf;
    EnsuredKeepsRows(c.from.db, c.ensured.db, spec, c.app, c.first);
    SettledAfter(c, spec, tenants);
    if !c.changed {
      CountedZero(c.ensured, c.placed);
    }
    EffectiveMenus(spec, c.from.db.kind);
    ConvergedAfter(c.from.db.kind, c.to.db, spec, tenants, c.app, c.second);
  }

  /** The verdicts after all four steps. */
  lemma FourSteps(c: Course, spec: ApplicationSpec, tenants: seq<string>)
    requires Reached(c, spec) && DbValid(c.to.db) && c.Adds()
    requires GrantsDone(c.released.db, c.to.db, tenants, c.app.id, c.fourth)
    ensures Done(c.from.db, c.to.db, spec, tenants, c.Total())
  {
    hide Converged, Settled, Reflected, Mirrored, PublishDue, AllForests, Effective, AllGranted, DbValid, GrantsDone,
         Trimmed, NoUpdatesDue, Ensured,
         MenusReconciled;
    VerdictsAtTheStart(c, spec, tenants);
    VerdictsAtTheEnd(c, spec, tenants);
    SettledAfter(c, spec, tenants);
    EnsuredOnly(c.from.db, c.ensured.db, spec, c.app, c.first);
    GrantsOnly(c.released.db, c.to.db, tenants, c.app.id, c.fourth);
  }

  lemma EnsuredOnly(db0: Db, db: Db, spec: ApplicationSpec, app: Application, t: Tally)
    requires Ensured(db0, db, spec, app, t)
    ensures t.menusUpdated == 0 && t.menusPublished == 0
  {
    hide Effective, ApplicationEqual;
  }

  lemma GrantsOnly(db3: Db, db4: Db, tenants: seq<string>, id: string, t: Tally)
    requires GrantsDone(db3, db4, tenants, id, t)
    ensures t.menusUpdated == 0 && t.menusPublished == 0
  {
  }

  lemma EffectiveMenus(spec: ApplicationSpec, kind: Kind)
    ensures Effective(spec, kind).menus == Effectives(spec.menus, kind)
  {
  }

  /**
   An application that is settled in its trimmed form is converged as declared exactly if nothing
   was trimmed or lost.
   */
  lemma ConvergedAfter(kind: Kind, db: Db, spec: ApplicationSpec, tenants: seq<string>, app: Application, t: Tally)
    requires DbValid(db) && db.kind == kind && Settled(db, Effective(spec, kind), tenants)
    requires OwnId(db, Effective(spec, kind).code, app.id)
    requires db.applications[Effective(spec, kind).code].name == Effective(spec, kind).name
    requires MenusUpToDate(DraftsOf(db, app.id), app.id, spec.menus) <==>
      (kind.keepsStatus || t.menusUpdated == 0) && AllTrimmed(spec.menus, kind)
    ensures Converged(db, spec, tenants) <==> (kind.keepsStatus || t.menusUpdated == 0) && Trimmed(spec, kind)
  {
    hide MenusUpToDate, AllTrimmed, AllGranted, DbValid, Trimmed, KeptText;
    TrimmedIff(spec, kind);
    if spec.code in db.applications {
      StoredApplication(db, spec.code);
    }
  }

  /** The client's copies of the tenants' grants are current. */
  ghost predicate Cached(cached: map<string, map<string, Grant>>, db: Db, tenants: seq<string>) {
    forall t :: t in tenants ==> t in cached && cached[t] == GrantsOf(db, t)
  }

  lemma CachedSame(cached: map<string, map<string, Grant>>, before: Db, after: Db, tenants: seq<string>)
    requires Cached(cached, before, tenants) && after.grants == before.grants
    ensures Cached(cached, after, tenants)
  {
  }

  lemma CachedNext(cached: map<string, map<string, Grant>>, before: Db, after: Db, tenants: seq<string>, t: string,
                   grants: map<string, Grant>)
    requires Cached(cached, before, tenants) && t in tenants
    requires || (after == before && grants == cached[t])
             || exists g :: after == WithGrant(before, g) && g.tenantId == t &&
                 grants == cached[t][g.applicationId := g]
    ensures Cached(cached[t := grants], after, tenants)
  {
  }

  lemma GrantsNone(db: Db, id: string)
    ensures GrantsDone(db, db, [], id, ZERO)
  {
  }

  lemma GrantsDoneFacts(db0: Db, db: Db, tenants: seq<string>, id: string, t: Tally)
    requires GrantsDone(db0, db, tenants, id, t)
    ensures t == ZERO <==> AllGranted(db0, tenants, id)
  {
  }

  lemma AllGrantedPrefix(db: Db, tenants: seq<string>, i: nat, id: string)
    requires i <= |tenants|
    ensures AllGranted(db, tenants, id) ==> AllGranted(db, tenants[..i], id)
  {
  }

  lemma GrantsNext(db0: Db, db1: Db, db2: Db, tenants: seq<string>, t: string, id: string, a: Tally, b: Tally)
    requires GrantsDone(db0, db1, tenants, id, a) && (a == ZERO ==> db1 == db0)
    requires b == ZERO ==> db2 == db1 && HasGrant(db1, t, id)
    requires b != ZERO ==> !HasGrant(db1, t, id)
    requires b != ZERO ==>
               exists g :: db2 == WithGrant(db1, g) && g.tenantId == t && g.applicationId == id && g.status == "active"
    requires b.menusUpdated == 0 && b.menusPublished == 0
    requires Plus(a, b) == ZERO <==> a == ZERO && b == ZERO
    ensures GrantsDone(db0, db2, tenants + [t], id, Plus(a, b))
    ensures db2.applications == db1.applications
  {
    assert forall u :: u in tenants + [t] <==> u in tenants || u == t;
    forall u | HasGrant(db1, u, id)
      ensures HasGrant(db2, u, id)
    {
    }
    assert HasGrant(db2, t, id);
  }

  /** Giving up after the first step. */
  lemma StoppedFirst(from: Moment, to: Moment, spec: ApplicationSpec, tenants: seq<string>, t: Tally, e: ApiError)
    requires Worked(from, to, Effective(spec, from.db.kind).code, t)
    requires spec.code in from.db.applications && ApplicationEqual(from.db.applications[spec.code], spec) ==> t == ZERO
    requires e == Refused || (e == Conflict && !Trimmed(spec, from.db.kind))
    ensures Applied(from, to, spec, tenants, t, Some(e))
  {
    hide Worked, ApplicationEqual, AllForests, Effective, Trimmed;
  }

  lemma EnsuredFacts(from: Moment, to: Moment, spec: ApplicationSpec, app: Application, t: Tally)
    requires Worked(from, to, Effective(spec, from.db.kind).code, t) && Ensured(from.db, to.db, spec, app, t)
    ensures DbValid(to.db) && OwnId(to.db, app.code, app.id) && app.publishedRelease >= 0
    ensures app.code == Effective(spec, from.db.kind).code
    ensures to.db.applications[app.code] == app
    ensures to.db.grants == from.db.grants && to.db.kind == from.db.kind && (AllForests(from.db) ==> AllForests(to.db))
  {
    hide Counted, TraceForests, ApplicationEqual, OnlyApplication, DraftsValid, Effective, AllForests, AllKept;
  }

  /** Giving up at the second or third step. */
  lemma StoppedLater(m0: Moment, m1: Moment, m2: Moment, spec: ApplicationSpec, tenants: seq<string>, app: Application,
                     t1: Tally, changed: bool, t2: Tally, error: Option<ApiError>)
    requires Worked(m0, m2, app.code, Plus(t1, t2)) && Ensured(m0.db, m1.db, spec, app, t1)
    requires AllForests(m0.db) ==> AllForests(m1.db)
    requires MenusReconciled(m1, m2, app.id, spec.menus, changed, t2, error) && Orderable(spec.menus)
    ensures error.Some? ==> Applied(m0, m2, spec, tenants, Plus(t1, t2), error)
    ensures Applied(m0, m2, spec, tenants, Plus(t1, t2), Some(Refused))
  {
    hide Worked, Converged, AllForests, Orderable, MenusUpToDate, Counted, DbValid, MenusDone, ForestsStay, AllTrimmed,
         Effective, Trimmed, ApplicationEqual;
    TrimmedIff(spec, m0.db.kind);
    if Converged(m0.db, spec, tenants) {
      ConvergedNeedsNothing(m0.db, m1, m2, spec, tenants, app, t1, changed, t2, error);
    }
  }

  /** Publishing right after the menus meets neither a stale version nor an empty draft. */
  lemma PublishFacts(m1: Moment, m2: Moment, specs: seq<MenuSpec>, app: Application, changed: bool, t2: Tally)
    requires MenusReconciled(m1, m2, app.id, specs, changed, t2, None) && specs != []
    requires app.code in m1.db.applications && m1.db.applications[app.code] == app
    ensures DbValid(m2.db) && app.code in m2.db.applications && m2.db.applications[app.code] == app
    ensures DraftsOf(m2.db, app.id) != map[] && m2.db.grants == m1.db.grants && OnlyDrafts(m1.db, m2.db, app.id)
  {
    hide MenusUpToDate, Counted, DbValid, ForestsStay, Reflects, EffectiveMenu, AllTrimmed;
    assert Effectives(specs, m1.db.kind)[0] in Effectives(specs, m1.db.kind);
    ReflectsStored(DraftsOf(m2.db, app.id), app.id, Effectives(specs, m1.db.kind)[0]);
  }

  /** The verdict once the grants have been tried. */
  lemma Finished(c: Course, spec: ApplicationSpec, tenants: seq<string>, error: Option<ApiError>)
    requires Reached(c, spec) && Worked(c.from, c.to, c.app.code, c.Total()) && c.Adds()
    requires AllGranted(c.released.db, tenants, c.app.id) ==> c.fourth == ZERO
    requires if error.None? then GrantsDone(c.released.db, c.to.db, tenants, c.app.id, c.fourth)
      else error == Some(Refused)
    ensures Applied(c.from, c.to, spec, tenants, c.Total(), error)
  {
    hide Converged, AllForests, AllGranted, MenusReconciled, GrantsDone, Done, Counted, OnlyApplication, ForestsStay,
         DbValid, Effective, ApplicationEqual, Trimmed,
         Plus;
    if Converged(c.from.db, spec, tenants) {
      ConvergedNeedsNothing(c.from.db, c.ensured, c.placed, spec, tenants, c.app, c.first, c.changed, c.second, None);
    }
    if error.None? {
      FourSteps(c, spec, tenants);
    }
  }

  // ----- the whole manifest

  /** Every application is as declared, published and granted, and its menus are up to date. */
  ghost predicate ManifestConverged(db: Db, m: Manifest, tenantIDs: seq<string>) {
    AllConverged(db, m.applications, Wanted(tenantIDs))
  }

  /** There is nothing to trim in the manifest. */
  ghost predicate ManifestTrimmed(m: Manifest, kind: Kind) {
    AllSpecsTrimmed(m.applications, kind)
  }

  /** Over all applications: every declared menu that has a draft is up to date, below a parent that has one. */
  ghost predicate ManifestUpdatesNothing(db: Db, m: Manifest) {
    AllNoUpdates(db, m.applications)
  }

  /** Trimmed codes are distinct, and no application is declared under another one's trimmed code. */
  ghost predicate DistinctApplications(apps: seq<ApplicationSpec>, kind: Kind) {
    forall i, j :: 0 <= i < |apps| && 0 <= j < |apps| && i != j ==>
      Effective(apps[i], kind).code != Effective(apps[j], kind).code && Effective(apps[i], kind).code != apps[j].code
  }

  /** Nothing about the application has changed, under either code. */
  ghost predicate Untouched(before: Db, after: Db, spec: ApplicationSpec) {
    SameApplication(before, after, spec.code) && SameApplication(before, after, Effective(spec, before.kind).code)
  }

  /** Where `Apply` stands after the first `i` applications. */
  ghost predicate AppliedUpTo(from: Moment, to: Moment, apps: seq<ApplicationSpec>, i: nat, tenants: seq<string>,
                              result: Tally)
    requires i <= |apps|
  {
    && DbValid(to.db) && to.db.kind == from.db.kind && Counted(from, to, result) && ForestsStay(from, to)
    && Verdicts(from.db, to.db, apps[..i], tenants, result)
    && (forall j :: i <= j < |apps| ==> Untouched(from.db, to.db, apps[j]))
  }

  ghost predicate AllStored(db: Db, done: seq<ApplicationSpec>, tenants: seq<string>, kind: Kind) {
    forall j :: 0 <= j < |done| ==>
        Settled(db, Effective(done[j], kind), tenants) && Reflected(db, Effective(done[j], kind))
  }

  ghost predicate AllConverged(db: Db, done: seq<ApplicationSpec>, tenants: seq<string>) {
    forall j :: 0 <= j < |done| ==> Converged(db, done[j], tenants)
  }

  ghost predicate AllSpecsTrimmed(done: seq<ApplicationSpec>, kind: Kind) {
    forall j :: 0 <= j < |done| ==> Trimmed(done[j], kind)
  }

  ghost predicate AllNoUpdates(db: Db, done: seq<ApplicationSpec>) {
    forall j :: 0 <= j < |done| ==> NoUpdatesDue(db, done[j])
  }

  /** The verdicts on the applications already handled. */
  ghost predicate Verdicts(db0: Db, db: Db, done: seq<ApplicationSpec>, tenants: seq<string>, result: Tally) {
    && AllStored(db, done, tenants, db0.kind)
    && (AllConverged(db, done, tenants) <==>
         (db0.kind.keepsStatus || result.menusUpdated == 0) && AllSpecsTrimmed(done, db0.kind))
    && (result.menusUpdated == 0 <==> AllNoUpdates(db0, done))
    && (result == ZERO <==> AllConverged(db0, done, tenants))
    && forall j :: 0 <= j < |done| ==> MirrorsIfDue(db0, db, done[j])
  }

  lemma AllAppend(db: Db, done: seq<ApplicationSpec>, spec: ApplicationSpec, tenants: seq<string>, kind: Kind)
    ensures AllStored(db, done + [spec], tenants, kind) <==>
      AllStored(db, done, tenants, kind) && Settled(db, Effective(spec, kind), tenants) &&
          Reflected(db, Effective(spec, kind))
    ensures AllConverged(db, done + [spec], tenants) <==>
      AllConverged(db, done, tenants) && Converged(db, spec, tenants)
    ensures AllSpecsTrimmed(done + [spec], kind) <==> AllSpecsTrimmed(done, kind) && Trimmed(spec, kind)
    ensures AllNoUpdates(db, done + [spec]) <==> AllNoUpdates(db, done) && NoUpdatesDue(db, spec)
  {
    hide Settled, Reflected, Converged, Trimmed, NoUpdatesDue, Effective;
    var all := done + [spec];
    assert all[|done|] == spec && forall j :: 0 <= j < |done| ==> all[j] == done[j];
  }

  lemma VerdictsFramed(db0: Db, db1: Db, db2: Db, done: seq<ApplicationSpec>, tenants: seq<string>, a: Tally)
    requires Verdicts(db0, db1, done, tenants, a)
    requires forall j :: 0 <= j < |done| ==>
      SameVerdictsOn(db1, db2, done[j], tenants) && SameVerdictsOn(db1, db2, Effective(done[j], db0.kind), tenants)
    ensures Verdicts(db0, db2, done, tenants, a)
  {
    hide Settled, MenusSettled, Reflected, Mirrored, PublishDue, NoUpdatesDue, Trimmed, Effective, AllForests;
  }

  lemma VerdictsNext(db0: Db, db: Db, done: seq<ApplicationSpec>, spec: ApplicationSpec, tenants: seq<string>, a: Tally,
                     b: Tally)
    requires Verdicts(db0, db, done, tenants, a)
    requires Settled(db, Effective(spec, db0.kind), tenants) && Reflected(db, Effective(spec, db0.kind))
    requires Converged(db, spec, tenants) <==> (db0.kind.keepsStatus || b.menusUpdated == 0) && Trimmed(spec, db0.kind)
    requires b.menusUpdated == 0 <==> NoUpdatesDue(db0, spec)
    requires b == ZERO <==> Converged(db0, spec, tenants)
    requires MirrorsIfDue(db0, db, spec)
    requires a.menusUpdated >= 0 && b.menusUpdated >= 0 && (Plus(a, b) == ZERO <==> a == ZERO && b == ZERO)
    ensures Verdicts(db0, db, done + [spec], tenants, Plus(a, b))
  {
    hide Settled, Reflected, MirrorsIfDue, Converged, Trimmed, NoUpdatesDue, AllStored, AllConverged, AllSpecsTrimmed,
         AllNoUpdates, Effective, AllForests;
    AllAppend(db, done, spec, tenants, db0.kind);
    AllAppend(db0, done, spec, tenants, db0.kind);
  }

  lemma AppliedUpToNone(m: Moment, apps: seq<ApplicationSpec>, tenants: seq<string>)
    requires DbValid(m.db)
    ensures AppliedUpTo(m, m, apps, 0, tenants, ZERO)
  {
    hide DbValid, Counted, AllForests, TraceForests, Converged, Settled, Reflected, Trimmed, NoUpdatesDue, Effective;
    CountedNone(m);
  }

  /** What a step says of the state at its start holds of the state at the start of the run. */
  lemma DoneFromTheStart(db0: Db, db1: Db, db2: Db, spec: ApplicationSpec, tenants: seq<string>, b: Tally)
    requires Untouched(db0, db1, spec) && db1.kind == db0.kind && Done(db1, db2, spec, tenants, b)
    ensures b == ZERO <==> Converged(db0, spec, tenants)
    ensures b.menusUpdated == 0 <==> NoUpdatesDue(db0, spec)
    ensures MirrorsIfDue(db0, db2, spec)
  {
    hide Settled, MenusSettled, Reflected, Mirrored, PublishDue, NoUpdatesDue, Trimmed, Effective, AllForests,
         SameApplication;
    SameVerdicts(db0, db1, spec, tenants);
    SameVerdicts(db0, db1, Effective(spec, db0.kind), tenants);
  }

  /** A step leaves the applications that come later as they were at the start of the run. */
  lemma StillUntouched(m0: Db, m1: Db, m2: Db, apps: seq<ApplicationSpec>, i: nat, tenants: seq<string>)
    requires i < |apps| && DistinctApplications(apps, m0.kind) && m1.kind == m0.kind && DbValid(m2)
    requires OnlyApplication(m1, m2, Effective(apps[i], m1.kind).code)
    requires forall j :: i <= j < |apps| ==> Untouched(m0, m1, apps[j])
    ensures forall j :: i + 1 <= j < |apps| ==> Untouched(m0, m2, apps[j])
  {
    hide DbValid, SameApplication, OnlyApplication, Effective, SameVerdictsOn, DistinctApplications;
    OthersFramed(m1, m2, apps, i, tenants);
    forall j | i + 1 <= j < |apps|
      ensures Untouched(m0, m2, apps[j])
    {
      assert Untouched(m0, m1, apps[j]) && Untouched(m1, m2, apps[j]);
      SameApplicationTrans(m0, m1, m2, apps[j].code);
      SameApplicationTrans(m0, m1, m2, Effective(apps[j], m0.kind).code);
    }
  }

  lemma AppliedNext(m0: Moment, m1: Moment, m2: Moment, apps: seq<ApplicationSpec>, i: nat, tenants: seq<string>,
                    a: Tally, b: Tally)
    requires i < |apps| && DistinctApplications(apps, m0.db.kind)
    requires AppliedUpTo(m0, m1, apps, i, tenants, a)
    requires Applied(m1, m2, apps[i], tenants, b, None)
    ensures AppliedUpTo(m0, m2, apps, i + 1, tenants, Plus(a, b))
  {
    hide DbValid, AllForests, TraceForests, OnlyApplication, Counted, Verdicts, Plus, Effective, SameVerdictsOn,
         DistinctApplications, Untouched, Done;
    CountedPlus(m0, m1, m2, a, b);
    KindStays(m1.db, m2.db, Effective(apps[i], m1.db.kind).code);
    StillUntouched(m0.db, m1.db, m2.db, apps, i, tenants);
    OthersFramed(m1.db, m2.db, apps, i, tenants);
    VerdictsFramed(m0.db, m1.db, m2.db, apps[..i], tenants, a);
    DoneFromTheStart(m0.db, m1.db, m2.db, apps[i], tenants, b);
    DoneParts(m1.db, m2.db, apps[i], tenants, b);
    VerdictsNext(m0.db, m2.db, apps[..i], apps[i], tenants, a, b);
    assert apps[..i + 1] == apps[..i] + [apps[i]];
  }

  lemma KindStays(before: Db, after: Db, code: string)
    requires OnlyApplication(before, after, code)
    ensures after.kind == before.kind
  {
  }

  lemma DoneParts(db0: Db, db: Db, spec: ApplicationSpec, tenants: seq<string>, result: Tally)
    requires Done(db0, db, spec, tenants, result)
    ensures Settled(db, Effective(spec, db0.kind), tenants) && Reflected(db, Effective(spec, db0.kind))
    ensures Converged(db, spec, tenants) <==>
      (db0.kind.keepsStatus || result.menusUpdated == 0) && Trimmed(spec, db0.kind)
  {
  }

  lemma OthersFramed(before: Db, after: Db, apps: seq<ApplicationSpec>, i: nat, tenants: seq<string>)
    requires i < |apps| && DistinctApplications(apps, before.kind)
    requires OnlyApplication(before, after, Effective(apps[i], before.kind).code)
    requires DbValid(after)
    ensures forall j :: 0 <= j < |apps| && j != i ==>
              && Untouched(before, after, apps[j])
              && SameVerdictsOn(before, after, apps[j], tenants) &&
                   SameVerdictsOn(before, after, Effective(apps[j], before.kind), tenants)
  {
    hide DbValid, SameVerdictsOn, SameApplication, OnlyApplication, Effective;
    forall j | 0 <= j < |apps| && j != i
      ensures Untouched(before, after, apps[j])
      ensures SameVerdictsOn(before, after, apps[j], tenants)
      ensures SameVerdictsOn(before, after, Effective(apps[j], before.kind), tenants)
    {
      OthersUntouched(before, after, Effective(apps[i], before.kind).code, apps[j].code);
      OthersUntouched(before, after, Effective(apps[i], before.kind).code, Effective(apps[j], before.kind).code);
      SameVerdicts(before, after, apps[j], tenants);
      SameVerdicts(before, after, Effective(apps[j], before.kind), tenants);
    }
  }

  /** What `Apply` promises about a state that it leaves, with or without an error. */
  ghost predicate RunDone(from: Moment, to: Moment, m: Manifest, tenantIDs: seq<string>, result: Tally,
                          error: Option<ApiError>) {
    // The counters are the numbers of calls made, and no call means no change.
    && DbValid(to.db) && to.db.kind == from.db.kind && Counted(from, to, result)
    // A converged state is left alone.
    && (ManifestConverged(from.db, m, tenantIDs) ==> result == ZERO)
    // Every intermediate draft tree is a forest.
    && ForestsStay(from, to)
    // No call is stale, none is in conflict over trimmed text, and over forests none is refused for the tree.
    && error != Some(Stale) && (error == Some(Conflict) ==> !ManifestTrimmed(m, from.db.kind)) &&
         (error == Some(Invalid) <==> !ManifestValid(m))
    && (AllForests(from.db) ==> error != Some(ParentMissing) && error != Some(CycleFound))
    && (error.None? ==> RunSucceeded(from.db, to.db, m, tenantIDs, result))
  }

  /** What a success means. */
  ghost predicate RunSucceeded(db0: Db, db: Db, m: Manifest, tenantIDs: seq<string>, result: Tally) {
    // It reports nothing exactly when there was nothing to do.
    && (result == ZERO <==> ManifestConverged(db0, m, tenantIDs))
    // Everything is stored as declared, trimmed, but for the status of menus.
    && AllStored(db, m.applications, Wanted(tenantIDs), db0.kind)
    // It is as declared, and the next run finds nothing to do, exactly if no status is lost and nothing is trimmed.
    && (ManifestConverged(db, m, tenantIDs) <==>
         (db0.kind.keepsStatus || result.menusUpdated == 0) && ManifestTrimmed(m, db0.kind))
    && (result.menusUpdated == 0 <==> ManifestUpdatesNothing(db0, m))
    // The latest release mirrors the drafts, unless it did not before and nothing made it due.
    && forall i :: 0 <= i < |m.applications| ==> MirrorsIfDue(db0, db, m.applications[i])
  }

  lemma SameTenants(db: Db, spec: ApplicationSpec, a: seq<string>, b: seq<string>)
    requires forall t :: t in a <==> t in b
    ensures Settled(db, spec, a) <==> Settled(db, spec, b)
    ensures Converged(db, spec, a) <==> Converged(db, spec, b)
  {
    hide ApplicationEqual, MenusSettled, HasGrant;
  }

  lemma AllSameTenants(db: Db, apps: seq<ApplicationSpec>, a: seq<string>, b: seq<string>, kind: Kind)
    requires forall t :: t in a <==> t in b
    ensures AllConverged(db, apps, a) <==> AllConverged(db, apps, b)
    ensures AllStored(db, apps, a, kind) <==> AllStored(db, apps, b, kind)
  {
    hide Settled, Converged, Reflected, Effective;
    forall j | 0 <= j < |apps|
      ensures Converged(db, apps[j], a) <==> Converged(db, apps[j], b)
      ensures Settled(db, Effective(apps[j], kind), a) <==> Settled(db, Effective(apps[j], kind), b)
    {
      SameTenants(db, apps[j], a, b);
      SameTenants(db, Effective(apps[j], kind), a, b);
    }
  }

  lemma NothingRun(m: Moment, manifest: Manifest, tenantIDs: seq<string>, e: ApiError)
    requires DbValid(m.db)
    requires (if e == Invalid then !ManifestValid(manifest) else e == Refused && ManifestValid(manifest))
    ensures RunDone(m, m, manifest, tenantIDs, ZERO, Some(e))
  {
    hide DbValid, Counted, AllForests, TraceForests, ManifestValid, ManifestConverged, ManifestTrimmed;
    CountedNone(m);
  }

  /** A valid manifest with nothing to trim, over trees that are forests. */
  ghost predicate Unobstructed(m: Manifest, db: Db) {
    ManifestValid(m) && ManifestTrimmed(m, db.kind) && AllForests(db)
  }

  lemma OnlyRefused(from: Moment, to: Moment, m: Manifest, tenantIDs: seq<string>, result: Tally, e: ApiError)
    requires RunDone(from, to, m, tenantIDs, result, Some(e))
    ensures Unobstructed(m, from.db) ==> e == Refused
  {
    hide DbValid, AllForests, ManifestValid, ManifestConverged, ManifestTrimmed, ForestsStay, Counted;
  }

  lemma RunStopped(m0: Moment, m1: Moment, to: Moment, m: Manifest, i: nat, tenantIDs: seq<string>,
                   tenants: seq<string>, a: Tally, b: Tally, e: ApiError)
    requires ManifestValid(m) && i < |m.applications| && forall t :: t in tenants <==> t in Wanted(tenantIDs)
    requires AppliedUpTo(m0, m1, m.applications, i, tenants, a)
    requires Applied(m1, to, m.applications[i], tenants, b, Some(e))
    ensures RunDone(m0, to, m, tenantIDs, Plus(a, b), Some(e))
  {
    hide DbValid, AllForests, TraceForests, ManifestValid, Settled, MenusSettled, SameApplication, OnlyApplication,
         Wanted, Trimmed, Effective, AllConverged, AllStored,
         AllNoUpdates, Counted, Plus, SameVerdictsOn;
    CountedPlus(m0, m1, to, a, b);
    KindStays(m1.db, to.db, Effective(m.applications[i], m1.db.kind).code);
    ConvergedFromTheStart(m0.db, m1.db, m.applications, i, tenants);
    AllSameTenants(m0.db, m.applications, tenants, Wanted(tenantIDs), m0.db.kind);
  }

  lemma ConvergedFromTheStart(db0: Db, db1: Db, apps: seq<ApplicationSpec>, i: nat, tenants: seq<string>)
    requires i < |apps| && Untouched(db0, db1, apps[i])
    ensures AllConverged(db0, apps, tenants) ==>
      AllConverged(db0, apps[..i], tenants) && Converged(db1, apps[i], tenants)
  {
    hide Settled, MenusSettled, SameApplication, Effective, Reflected, NoUpdatesDue, Mirrored, PublishDue;
    SameVerdicts(db0, db1, apps[i], tenants);
  }

  lemma RunCompleted(from: Moment, to: Moment, m: Manifest, tenantIDs: seq<string>, tenants: seq<string>, result: Tally)
    requires ManifestValid(m) && forall t :: t in tenants <==> t in Wanted(tenantIDs)
    requires AppliedUpTo(from, to, m.applications, |m.applications|, tenants, result)
    ensures RunDone(from, to, m, tenantIDs, result, None)
  {
    hide DbValid, AllForests, TraceForests, ManifestValid, Wanted, Counted, AllConverged, AllStored, AllSpecsTrimmed,
         AllNoUpdates, MirrorsIfDue;
    assert m.applications[..|m.applications|] == m.applications;
    AllSameTenants(from.db, m.applications, tenants, Wanted(tenantIDs), from.db.kind);
    AllSameTenants(to.db, m.applications, tenants, Wanted(tenantIDs), from.db.kind);
  }

  lemma TenantsWanted(tenantIDs: seq<string>, tenants: seq<string>)
    requires Deduplicated(TrimmedAll(tenantIDs), NotEmpty, tenants)
    ensures forall t :: t in tenants <==> t in Wanted(tenantIDs)
  {
    hide TrimSpace;
  }

  /** What validation grants for the application at `i`. */
  lemma SpecFacts(m: Manifest, i: nat, kind: Kind)
    requires ManifestValid(m) && i < |m.applications|
    ensures var spec := m.applications[i]; spec.menus != [] && SpecsReady(spec.menus, kind) && Orderable(spec.menus)
    ensures DistinctApplications(m.applications, kind)
  {
    hide TrimSpace, IsCode, DistinctCodes, Orderable, KeptText, EffectiveMenu;
    assert ApplicationSpecValid(m.applications[i]);
    SpecsAreReady(m.applications[i], kind);
    hide ApplicationSpecValid;
    forall j, k | 0 <= j < |m.applications| && 0 <= k < |m.applications| && j != k
      ensures Effective(m.applications[j], kind).code != Effective(m.applications[k], kind).code
      ensures Effective(m.applications[j], kind).code != m.applications[k].code
    {
      KeptCodesDiffer(m, j, k, kind);
    }
  }

  lemma KeptCodesDiffer(m: Manifest, j: nat, k: nat, kind: Kind)
    requires ManifestValid(m) && j < |m.applications| && k < |m.applications| && j != k
    ensures KeptText(m.applications[j].code, kind) != KeptText(m.applications[k].code, kind)
    ensures KeptText(m.applications[j].code, kind) != m.applications[k].code
  {
    KeptTextTwice(m.applications[j].code, kind);
    hide TrimSpace, ApplicationSpecValid;
    ValidManifestDistinct(m, j, k);
    var codes := ApplicationCodes(m.applications);
    assert codes[if j < k then j else k] != codes[if j < k then k else j];
  }

  lemma SpecsAreReady(a: ApplicationSpec, kind: Kind)
    requires ApplicationSpecValid(a)
    ensures a.menus != [] && SpecsReady(a.menus, kind) && Orderable(a.menus)
  {
    hide TrimSpace, IsCode, Orderable;
    ValidSpecDistinct(a);
    var codes := TrimmedCodes(a.menus);
    forall i | 0 <= i < |a.menus|
      ensures Effectives(a.menus, kind)[i].code == KeptText(a.menus[i].code, kind) != ""
    {
      TrimmedCodeNotEmpty(TrimSpace(a.code), a.menus[i]);
    }
    forall i, j | 0 <= i < j < |a.menus|
      ensures Effectives(a.menus, kind)[i].code != Effectives(a.menus, kind)[j].code
    {
      assert codes[i] != codes[j] && a.menus[i].code != a.menus[j].code;
    }
    forall s | s in a.menus
      ensures KeptText(s.parent, kind) == s.parent
    {
      var i :| 0 <= i < |a.menus| && a.menus[i] == s;
      assert ParentValid(a.menus, codes, s);
      ParentIsTrimmed(a.menus, codes, s, kind);
    }
  }

  lemma TrimmedCodeNotEmpty(applicationCode: string, m: MenuSpec)
    requires MenuSpecValid(applicationCode, m)
    ensures TrimSpace(m.code) != "" && m.code != ""
  {
    assert TrimSpace("") == "";
    hide TrimSpace;
  }

  lemma ParentIsTrimmed(menus: seq<MenuSpec>, codes: seq<string>, s: MenuSpec, kind: Kind)
    requires codes == TrimmedCodes(menus) && ParentValid(menus, codes, s)
    ensures KeptText(s.parent, kind) == s.parent
  {
    assert TrimSpace("") == "";
    if s.parent != "" {
      var i: nat :| ParentAt(menus, codes, s, i);
      TrimFixpoint(TrimSpace(menus[i].code), IsSpace);
    }
  }

  /** What the body of the loop of `Apply` needs from the loop invariant. */
  lemma AppliedUpToFacts(from: Moment, to: Moment, apps: seq<ApplicationSpec>, i: nat, tenants: seq<string>,
                         result: Tally)
    requires i < |apps| && AppliedUpTo(from, to, apps, i, tenants, result)
    ensures DbValid(to.db) && to.db.kind == from.db.kind
    ensures var code := apps[i].code;
            (code in to.db.applications <==> code in from.db.applications) &&
            (code in to.db.applications ==> to.db.applications[code] == from.db.applications[code])
  {
    hide DbValid, Counted, ForestsStay, Verdicts, SameRows, Effective;
    assert Untouched(from.db, to.db, apps[i]);
  }

  // ----- the service that loses statuses

  /** Over the HTTP adapter an update never brings a draft up to date, so the next run updates it again. */
  lemma UpdateOverHttpIsNotUpToDate(before: Db, after: Db, applicationId: string, spec: MenuSpec)
    requires MenuWritten(before, after, applicationId, IdOf(DraftsOf(before, applicationId), spec.parent), spec)
    requires spec.code in DraftsOf(before, applicationId) && !before.kind.keepsStatus
    ensures !UpToDate(DraftsOf(after, applicationId), applicationId, spec)
  {
    hide KindOf, TrimSpace, ToLower;
    UpToDateIffActive(DraftsOf(after, applicationId), applicationId, spec);
  }

  // ----- one upsert

  lemma StoredCoded(db: Db, applicationId: string)
    requires DbValid(db)
    ensures DraftsCoded(DraftsOf(db, applicationId))
  {
    hide AllKept;
  }

  /**
   What is sent is stored in its trimmed form, and a menu that is stored under its declared code
   is declared trimmed.
   */
  lemma SentTo(db: Db, applicationId: string, parentId: string, spec: MenuSpec)
    requires DbValid(db)
    ensures var drafts, e := DraftsOf(db, applicationId), EffectiveMenu(spec, db.kind);
            && DraftsValid(applicationId, drafts) && UniqueDraftIds(drafts)
            && (spec.code in drafts ==> e.code == spec.code && drafts[spec.code].version >= 1)
            && Kept(MenuFromSpec(applicationId, parentId, spec), db.kind) == MenuFromSpec(applicationId, parentId, e)
            && MenuFromSpec(applicationId, parentId, spec).id == ""
            && e.parent == spec.parent
  {
    hide MenuFromSpec, KeptText, DbValid;
    NotNumbered(applicationId, parentId, spec);
    KeptMenuFromSpec(applicationId, parentId, spec, db.kind);
    StoredDrafts(db, applicationId);
    if spec.code in DraftsOf(db, applicationId) {
      KeptCode(DraftsOf(db, applicationId)[spec.code], db.kind);
    }
  }

  lemma NotNumbered(applicationId: string, parentId: string, spec: MenuSpec)
    ensures MenuFromSpec(applicationId, parentId, spec).id == ""
  {
  }

  lemma KeptCode(m: Menu, kind: Kind)
    ensures Kept(m, kind).code == KeptText(m.code, kind)
  {
    hide TrimSpace, ToLower;
  }

  lemma KeptId(m: Menu, kind: Kind, id: string)
    ensures Kept(m.(id := id), kind) == Kept(m, kind).(id := id)
  {
    hide TrimSpace, ToLower;
  }

  /** The menu that the client sends for a spec, and the version it names. */
  ghost predicate Sent(db: Db, applicationId: string, parentId: string, spec: MenuSpec, desired: Menu, expected: int) {
    var drafts := DraftsOf(db, applicationId);
    && parentId == IdOf(drafts, spec.parent)
    && desired == MenuFromSpec(applicationId, parentId, spec).(id := if spec.code in drafts then drafts[spec.code].id
         else "")
    && expected == if spec.code in drafts then drafts[spec.code].version else 0
  }

  lemma SentAddress(db: Db, applicationId: string, parentId: string, spec: MenuSpec, desired: Menu, expected: int)
    requires DbValid(db) && Sent(db, applicationId, parentId, spec, desired, expected)
    ensures var drafts, e := DraftsOf(db, applicationId), EffectiveMenu(spec, db.kind);
            && desired.applicationId == applicationId && desired.parentId == parentId && desired.status == "active"
            && Kept(desired, db.kind) == MenuFromSpec(applicationId, parentId, e).(id := desired.id)
            && Kept(desired, db.kind).code == e.code
            && (Addresses(drafts, desired, e.code, expected) <==> (spec.code in drafts <==> e.code in drafts))
            && (spec.code in drafts ==>
                 e.code == spec.code && desired.id == drafts[e.code].id && expected == drafts[e.code].version >= 1)
  {
    hide Kept, EffectiveMenu, DbValid, KindOf, TrimSpace, ToLower;
    SentTo(db, applicationId, parentId, spec);
    KeptId(MenuFromSpec(applicationId, parentId, spec), db.kind, desired.id);
  }

  lemma UpsertRefused(db: Db, applicationId: string, parentId: string, spec: MenuSpec, desired: Menu, expected: int,
                      e: ApiError)
    requires DbValid(db) && Sent(db, applicationId, parentId, spec, desired, expected)
    requires UpsertOutcome(db, desired, expected, Err(e)) && e != Invalid
    ensures e in {ParentMissing, CycleFound, Conflict, Refused}
    ensures e == ParentMissing || e == CycleFound ==>
      !ServerReady(DraftsOf(db, applicationId), EffectiveMenu(spec, db.kind))
    ensures e == Conflict ==> EffectiveMenu(spec, db.kind) != spec
  {
    hide Kept, EffectiveMenu, DbValid, MenuFromSpec, Forest, ReachesRoot, ParentsOf;
    SentAddress(db, applicationId, parentId, spec, desired, expected);
    SentTo(db, applicationId, parentId, spec);
  }

  lemma UpsertAccepted(db: Db, applicationId: string, parentId: string, spec: MenuSpec, desired: Menu, expected: int,
                       stored: Menu)
    requires DbValid(db) && Sent(db, applicationId, parentId, spec, desired, expected)
    requires UpsertOutcome(db, desired, expected, Ok(stored))
    ensures var drafts, e, after := DraftsOf(db, applicationId), EffectiveMenu(spec, db.kind), WithMenu(db, stored);
            && stored.applicationId == applicationId && stored.code == e.code
            && (spec.code in drafts <==> e.code in drafts) && (expected == 0 <==> e.code !in drafts)
            && MenuWritten(db, after, applicationId, parentId, e)
            && stored.id == IdOf(DraftsOf(after, applicationId), e.code)
  {
    hide Kept, EffectiveMenu, DbValid, KindOf, TrimSpace, ToLower, TreeAdmits, ParentKnown;
    SentAddress(db, applicationId, parentId, spec, desired, expected);
    SentTo(db, applicationId, parentId, spec);
  }

  lemma SpecsHaveCodes(specs: seq<MenuSpec>, kind: Kind)
    requires DistinctCodes(Effectives(specs, kind))
    ensures DistinctCodes(specs)
    ensures forall s :: s in specs ==> EffectiveMenu(s, kind).code != ""
    ensures forall s, t :: s in specs && t in specs && s != t ==>
      EffectiveMenu(s, kind).code != EffectiveMenu(t, kind).code
  {
    hide EffectiveMenu, KeptText;
    var all := Effectives(specs, kind);
    forall i | 0 <= i < |specs|
      ensures specs[i].code != "" && EffectiveMenu(specs[i], kind).code != ""
    {
      assert all[i].code != "";
      EffectiveCode(specs[i], kind);
    }
    forall i, j | 0 <= i < j < |specs|
      ensures specs[i].code != specs[j].code && EffectiveMenu(specs[i], kind).code != EffectiveMenu(specs[j], kind).code
    {
      assert all[i].code != all[j].code;
      SameCodeSameKept(specs[i], specs[j], kind);
    }
  }

  /** The order holds the same specs. */
  lemma OrderIsReady(specs: seq<MenuSpec>, order: seq<MenuSpec>, kind: Kind)
    requires SpecsReady(specs, kind) && IsOrderOf(order, specs)
    ensures SpecsReady(order, kind) && forall s :: s in order <==> s in specs
  {
    hide EffectiveMenu, KeptText, ParentsFirst;
    SpecsHaveCodes(specs, kind);
    OrderKeepsCodes(specs, order);
    var all := Effectives(order, kind);
    forall i | 0 <= i < |order|
      ensures all[i].code != ""
    {
      assert order[i] in order;
    }
    forall i, j | 0 <= i < j < |order|
      ensures all[i].code != all[j].code
    {
      assert order[i] in order && order[j] in order && order[i].code != order[j].code;
    }
  }

  /** The client counts an update where it knew the menu. */
  lemma CallCounts(db: Db, a: string, stored: string, declared: string)
    ensures One(MenuCall(db, a, stored)) ==
      One(if stored in DraftsOf(db, a) then MenuUpdated(a, declared) else MenuCreated(a, declared))
  {
  }

  lemma UntrimmedSpec(specs: seq<MenuSpec>, s: MenuSpec, kind: Kind)
    requires s in specs
    ensures EffectiveMenu(s, kind) != s ==> !AllTrimmed(specs, kind)
  {
    hide EffectiveMenu;
  }

  // ----- one application, created or updated

  /**
   Field by field: every declared field is stored, the name as the service stores text, and the
   application is active.
   */
  predicate StoresDeclared(app: Application, spec: ApplicationSpec, kind: Kind) {
    && app.code == KeptText(spec.code, kind) && app.name == KeptText(spec.name, kind)
    && app.description == spec.description && app.icon == spec.icon && app.defaultRoute == spec.defaultRoute
    && app.sortOrder == spec.sortOrder && app.metadata == spec.metadata && app.status == "active"
  }

  /** An unknown application is created and updated; a known one is updated exactly if a field or the status differs. */
  predicate CountsDifference(known: Option<Application>, spec: ApplicationSpec, t: Tally) {
    match known
    case None => t == ZERO.(applicationsCreated := 1, applicationsUpdated := 1)
    case Some(was) =>
      t == ZERO.(applicationsUpdated :=
        if was.name == spec.name && was.description == spec.description && was.icon == spec.icon &&
           was.defaultRoute == spec.defaultRoute && was.sortOrder == spec.sortOrder &&
           was.metadata == spec.metadata && was.status == "active"
        then 0 else 1)
  }

  lemma EnsuredStores(db0: Db, db: Db, spec: ApplicationSpec, app: Application, t: Tally)
    requires Ensured(db0, db, spec, app, t)
    ensures StoresDeclared(app, spec, db0.kind)
    ensures CountsDifference(if spec.code in db0.applications then Some(db0.applications[spec.code]) else None, spec, t)
  {
    hide KeptText, Effectives;
  }

  /**
   An application is settled exactly if every declared field is stored, it is active and
   published, and all is granted.
   */
  lemma SettledMeans(db: Db, spec: ApplicationSpec, tenants: seq<string>)
    requires DbValid(db)
    ensures Settled(db, Effective(spec, db.kind), tenants) <==>
      && KeptText(spec.code, db.kind) in db.applications
      && var app := db.applications[KeptText(spec.code, db.kind)];
         && StoresDeclared(app, spec, db.kind) && app.publishedRelease > 0
         && forall t :: t in tenants ==>
              (t in db.grants && app.id in db.grants[t] && db.grants[t][app.id].status == "active")
  {
    hide KeptText, Effectives, DbValid;
    var code := KeptText(spec.code, db.kind);
    if code in db.applications {
      StoredApplication(db, code);
      forall t
        ensures HasGrant(db, t, db.applications[code].id) <==>
          t in db.grants && db.applications[code].id in db.grants[t] &&
              db.grants[t][db.applications[code].id].status == "active"
      {
      }
    }
  }

  /** After a run that succeeds every application of the manifest is stored as declared, published and granted. */
  lemma RunStoresDeclared(from: Moment, to: Moment, m: Manifest, tenantIDs: seq<string>, result: Tally, i: nat)
    requires RunDone(from, to, m, tenantIDs, result, None) && i < |m.applications|
    ensures var spec, kind := m.applications[i], from.db.kind;
            && KeptText(spec.code, kind) in to.db.applications
            && var app := to.db.applications[KeptText(spec.code, kind)];
               && StoresDeclared(app, spec, kind) && app.publishedRelease > 0
               && forall t :: t in TrimmedAll(tenantIDs) && t != "" ==>
                    (t in to.db.grants && app.id in to.db.grants[t] && to.db.grants[t][app.id].status == "active")
  {
    hide DbValid, AllForests, ManifestValid, ManifestConverged, ManifestTrimmed, ManifestUpdatesNothing, MirrorsIfDue,
         ForestsStay, Counted, Settled, Reflected, StoresDeclared, KeptText, TrimmedAll;
    SettledMeans(to.db, m.applications[i], Wanted(tenantIDs));
  }

  /** The application `current`, compared with its spec and updated if they differ. */
  ghost predicate Updated(db0: Db, db: Db, spec: ApplicationSpec, current: Application, app: Application, t: Tally) {
    var e := Effective(spec, db0.kind);
    && db.kind == db0.kind && db.menus == db0.menus && db.grants == db0.grants && db.releases == db0.releases
    && e.code in db.applications && db.applications[e.code] == app && app.code == e.code && ApplicationEqual(app, e)
    && app.id == current.id && app.publishedRelease == current.publishedRelease
    && t == UpdatedIf(!ApplicationEqual(current, spec))
  }

  lemma NotUpdated(db: Db, spec: ApplicationSpec, current: Application)
    requires current.code == Effective(spec, db.kind).code && current.code in db.applications
    requires db.applications[current.code] == current
    requires ApplicationEqual(current, spec) && KeptText(current.name, db.kind) == current.name
    ensures Updated(db, db, spec, current, current, ZERO)
  {
    hide KeptText, Effectives;
  }

  lemma CreationCounts(code: string)
    ensures One(ApplicationCreated(code)) == ZERO.(applicationsCreated := 1)
  {
  }

  lemma UpdateCounts(code: string)
    ensures One(ApplicationUpdated(code)) == UpdatedIf(true)
  {
  }

  lemma FilledUpdates(db: Db, spec: ApplicationSpec, current: Application, t: Tally)
    requires current.code == Effective(spec, db.kind).code && current.code in db.applications
    requires db.applications[current.code] == current
    requires !ApplicationEqual(current, spec) && t == UpdatedIf(true)
    ensures var app := Filled(current, Effective(spec, db.kind)).(status := "active", version := current.version + 1);
            app.code == current.code && app.id == current.id &&
                Updated(db, WithApplication(db, app), spec, current, app, t)
  {
    hide Effective;
  }

  lemma EnsuredKnown(db0: Db, db: Db, spec: ApplicationSpec, app: Application, t: Tally)
    requires spec.code in db0.applications && Effective(spec, db0.kind).code == spec.code
    requires Updated(db0, db, spec, db0.applications[spec.code], app, t)
    ensures Ensured(db0, db, spec, app, t)
  {
    hide Effective, ApplicationEqual;
  }

  lemma EnsuredNew(db0: Db, db1: Db, db: Db, spec: ApplicationSpec, created: Application, app: Application, b: Tally)
    requires spec.code !in db0.applications && Effective(spec, db0.kind).code !in db0.applications
    requires db1 == WithApplication(db0, created) && created.status == "draft"
    requires created.publishedRelease == 0 && created.id !in db0.menus && Updated(db1, db, spec, created, app, b)
    ensures Ensured(db0, db, spec, app, Plus(ZERO.(applicationsCreated := 1), b))
  {
    hide Effective;
    assert "draft"[0] != "active"[0];
    assert !ApplicationEqual(created, spec);
    hide ApplicationEqual;
  }

  lemma PublishedKeeps(before: Db, after: Db, app: Application, due: bool, t: Tally)
    requires PublishedIf(before, after, app, due, t) && app.code in before.applications
    requires before.applications[app.code] == app
    ensures OwnId(after, app.code, app.id)
  {
  }

  /** The condition on the start under which a run after a successful one finds nothing to do. */
  ghost predicate QuietAgain(db0: Db, m: Manifest) {
    (db0.kind.keepsStatus || ManifestUpdatesNothing(db0, m)) && ManifestTrimmed(m, db0.kind)
  }

  class Reconciler {
    const api: Server

    constructor (api: Server)
      ensures this.api == api
    {
      this.api := api;
    }

    /** The body of the loop of `reconcileMenus`. */
    method ReconcileMenu(applicationId: string, known: Option<Menu>, parentId: string, spec: MenuSpec)
      returns (outcome: MenuOutcome)
      requires DbValid(api.db) && spec.code != ""
      requires var drafts := DraftsOf(api.db, applicationId);
               known == if spec.code in drafts then Some(drafts[spec.code]) else None
      requires parentId == IdOf(DraftsOf(api.db, applicationId), spec.parent)
      modifies api
      ensures DbValid(api.db)
      ensures !outcome.Written? ==> api.At() == old(api.At())
      ensures api.refused >= old(api.refused) && (outcome == Failed(Refused) ==> api.refused > old(api.refused))
      ensures var drafts, e := DraftsOf(old(api.db), applicationId), EffectiveMenu(spec, old(api.db).kind);
              && (outcome.Written? ==>
                    && !UpToDate(drafts, applicationId, spec) && (spec.code in drafts <==> e.code in drafts)
                    && MenuWritten(old(api.db), api.db, applicationId, parentId, e)
                    && outcome.id == IdOf(DraftsOf(api.db, applicationId), e.code)
                    && api.At() == After(old(api.At()), Event(MenuCall(old(api.db), applicationId, e.code), api.db)))
              && (outcome.Unchanged? ==>
                   spec.code in drafts && UpToDate(drafts, applicationId, spec) && outcome.id == drafts[spec.code].id)
              && (outcome.Failed? ==> outcome.error in {ParentMissing, CycleFound, Conflict, Refused})
              && (outcome == Failed(ParentMissing) || outcome == Failed(CycleFound) ==> !ServerReady(drafts, e))
              && (outcome == Failed(Conflict) ==> e != spec)
    {
      hide MenuFromSpec, Kept, EffectiveMenu, MenuWritten, UpsertOutcome, ServerReady, DbValid;
      var desired, expected := MenuFromSpec(applicationId, parentId, spec), 0;
      if known.Some? {
        desired, expected := desired.(id := known.value.id), known.value.version;
        assert MenuEqual(known.value, desired) <==> MenuEqual(known.value, MenuFromSpec(applicationId, parentId, spec));
        if MenuEqual(known.value, desired) {
          return Unchanged(known.value.id);
        }
      }
      ghost var db := api.db;
      SentTo(db, applicationId, parentId, spec);
      var r := api.UpsertMenu(desired, expected);
      if r.Err? {
        UpsertRefused(db, applicationId, parentId, spec, desired, expected, r.error);
        return Failed(r.error);
      }
      UpsertAccepted(db, applicationId, parentId, spec, desired, expected, r.value);
      return Written(r.value.id);
    }

    /** The listing as a map by code. */
    method IndexMenus(listing: seq<Menu>, ghost drafts: Drafts) returns (byCode: Drafts)
      requires DraftsCoded(drafts) && forall v :: v in listing <==> exists c :: c in drafts && drafts[c] == v
      ensures byCode == drafts
    {
      byCode := map[];
      for i := 0 to |listing|
        invariant forall c :: c in byCode ==> c in drafts && byCode[c] == drafts[c]
        invariant forall j :: 0 <= j < i ==> listing[j].code in byCode
      {
        assert listing[i] in listing;
        byCode := byCode[listing[i].code := listing[i]];
      }
      forall c | c in drafts
        ensures c in byCode
      {
        assert drafts[c] in listing;
      }
    }

    /** `reconcileMenus`. */
    method ReconcileMenus(application: Application, specs: seq<MenuSpec>)
      returns (changed: bool, result: Tally, error: Option<ApiError>)
      requires DbValid(api.db) && SpecsReady(specs, api.db.kind)
      modifies api
      ensures api.refused >= old(api.refused) && (error == Some(Refused) ==> api.refused > old(api.refused))
      ensures MenusReconciled(old(api.At()), api.At(), application.id, specs, changed, result, error)
    {
      hide Reconciled, MenusReconciled, UpToDate, MenuWritten, Orderable, AllForests, ServerReady, ParentsFirst,
           SpecsReady, ComesNext, EffectiveMenu, DbValid,
        DraftsValid, AllTrimmed, Kept, Plus, KeptText, One, MenuCall, After, Counted, TraceForests,
        ForestsStay, IsOrderOf, Codes;
      changed, result, error := false, ZERO, None;
      var a := application.id;
      var existing := api.ListMenus(a);
      if existing.Err? {
        NothingDone(api.At(), a, specs, existing.error);
        return false, ZERO, Some(existing.error);
      }
      StoredCoded(api.db, a);
      var byCode := IndexMenus(existing.value, DraftsOf(api.db, a));
      hide DraftsCoded;
      var ordered := OrderedMenus(specs);
      if ordered.None? {
        NothingDone(api.At(), a, specs, Invalid);
        return false, ZERO, Some(Invalid);
      }
      var order := ordered.value;
      OrderIsReady(specs, order, api.db.kind);
      var ids: map<string, string> := map c | c in byCode :: byCode[c].id;
      ReconciledInit(api.At(), a, ids, byCode);
      ghost var from, refusals := api.At(), api.refused;
      for i := 0 to |order|
        invariant Reconciled(from, api.At(), a, Progress(order[..i], ids, byCode, changed, result))
        invariant api.refused >= refusals
      {
        var spec := order[i];
        var known := if spec.code in byCode then Some(byCode[spec.code]) else None;
        var parentId := if spec.parent in ids then ids[spec.parent] else "";
        ghost var before, g := api.At(), Progress(order[..i], ids, byCode, changed, result);
        NextSpec(specs, order, i, from.db.kind);
        ReconciledFacts(from, before, a, g, spec);
        var outcome := ReconcileMenu(a, known, parentId, spec);
        match outcome {
          case Failed(e) =>
            UntrimmedSpec(specs, spec, from.db.kind);
            ReconciledPart(from, before, a, g, specs, e);
            return changed, result, Some(e);
          case Unchanged(id) =>
            StepUnchanged(from, before, a, g, spec);
            ids := ids[spec.code := id];
          case Written(id) =>
            StepWritten(from, before, a, g, spec, api.db);
            CallCounts(before.db, a, EffectiveMenu(spec, from.db.kind).code, spec.code);
            ids := ids[spec.code := id];
            changed := true;
            result := Plus(result, One(if known.Some? then MenuUpdated(a, spec.code) else MenuCreated(a, spec.code)));
        }
      }
      assert order[..|order|] == order;
      ReconciledDone(from, api.At(), a, Progress(order, ids, byCode, changed, result), specs);
    }

    /** Create the application when its code is unknown, and update it when it differs. */
    method EnsureApplication(spec: ApplicationSpec, known: Option<Application>)
      returns (app: Application, result: Tally, error: Option<ApiError>)
      requires DbValid(api.db)
      requires known == if spec.code in api.db.applications then Some(api.db.applications[spec.code]) else None
      modifies api
      ensures api.refused >= old(api.refused) && (error == Some(Refused) ==> api.refused > old(api.refused))
      ensures Worked(old(api.At()), api.At(), Effective(spec, old(api.db).kind).code, result)
      ensures error.None? ==> Ensured(old(api.db), api.db, spec, app, result)
      ensures error.None? ==> StoresDeclared(app, spec, old(api.db).kind)
      ensures error.None? ==> CountsDifference(known, spec, result)
      ensures error.Some? ==> error == Some(Refused) || (error == Some(Conflict) && !Trimmed(spec, old(api.db).kind))
      ensures spec.code in old(api.db).applications && ApplicationEqual(old(api.db).applications[spec.code], spec) ==>
        result == ZERO
    {
      hide Worked, DbValid, OnlyApplication, ApplicationEqual, One, Filled, Updated, Ensured, KeptText, Effectives,
           Trimmed, StoresDeclared, CountsDifference, Plus;
      var from, code := api.At(), Effective(spec, api.db.kind).code;
      WorkedNone(from, code);
      TrimmedIff(spec, api.db.kind);
      if known.Some? {
        StoredApplication(api.db, spec.code);
        app, result, error := UpdateIfDifferent(spec, known.value);
        if error.None? {
          EnsuredKnown(from.db, api.db, spec, app, result);
          EnsuredStores(from.db, api.db, spec, app, result);
        }
      } else {
        var created := api.CreateApplication(spec);
        if created.Err? {
          app := *;
          return app, ZERO, Some(created.error);
        }
        ghost var at := api.At();
        var call := ApplicationCreated(code);
        OneCounts(call);
        CreationCounts(code);
        WithApplicationOnly(from.db, created.value);
        WorkedCall(from, Event(call, at.db), code);
        app, result, error := UpdateIfDifferent(spec, created.value);
        WorkedTrans(from, at, api.At(), code, One(call), result);
        if error.None? {
          EnsuredNew(from.db, at.db, api.db, spec, created.value, app, result);
          EnsuredStores(from.db, api.db, spec, app, Plus(One(call), result));
        }
        result := Plus(One(call), result);
      }
    }

    method UpdateIfDifferent(spec: ApplicationSpec, current: Application)
      returns (app: Application, result: Tally, error: Option<ApiError>)
      requires DbValid(api.db) && current.code == Effective(spec, api.db.kind).code
      requires current.code in api.db.applications && api.db.applications[current.code] == current
      modifies api
      ensures api.refused >= old(api.refused) && (error == Some(Refused) ==> api.refused > old(api.refused))
      ensures Worked(old(api.At()), api.At(), current.code, result)
      ensures error.None? ==> Updated(old(api.db), api.db, spec, current, app, result)
      ensures error.Some? ==> error == Some(Refused)
      ensures ApplicationEqual(current, spec) ==> result == ZERO
    {
      hide Worked, DbValid, OnlyApplication, ApplicationEqual, One, Filled, Effective, Updated;
      ghost var from := api.At();
      WorkedNone(from, current.code);
      StoredApplication(api.db, current.code);
      if ApplicationEqual(current, spec) {
        NotUpdated(from.db, spec, current);
        return current, ZERO, None;
      }
      var updated := api.UpdateApplication(current, spec);
      if updated.Err? {
        return current, ZERO, Some(updated.error);
      }
      var call := ApplicationUpdated(current.code);
      OneCounts(call);
      UpdateCounts(current.code);
      FilledUpdates(from.db, spec, current, One(call));
      WithApplicationOnly(from.db, updated.value);
      WorkedCall(from, Event(call, api.db), current.code);
      return updated.value, One(call), None;
    }

    /** The body of the loop over tenants; `known` is the client's copy of the tenant's grants. */
    method GrantTenant(tenantId: string, application: Application, known: map<string, Grant>)
      returns (grants: map<string, Grant>, result: Tally, error: Option<ApiError>)
      requires DbValid(api.db) && OwnId(api.db, application.code, application.id) && known == GrantsOf(api.db, tenantId)
      modifies api
      ensures api.refused >= old(api.refused) && (error == Some(Refused) ==> api.refused > old(api.refused))
      ensures Worked(old(api.At()), api.At(), application.code, result) && DbValid(api.db)
      ensures result == ZERO ==> api.At() == old(api.At()) && grants == known
      ensures error.Some? ==> error == Some(Refused) && result == ZERO &&
                              !HasGrant(old(api.db), tenantId, application.id)
      ensures result == ZERO <==> error.Some? || HasGrant(old(api.db), tenantId, application.id)
      ensures result != ZERO ==>
                exists g :: api.db == WithGrant(old(api.db), g) && g.tenantId == tenantId &&
                    g.applicationId == application.id &&
                            g.status == "active" && grants == known[g.applicationId := g]
      ensures result.menusUpdated == 0 && result.menusPublished == 0
    {
      hide Worked, DbValid, One, OnlyApplication;
      ghost var from := api.At();
      var id := application.id;
      WorkedNone(api.At(), application.code);
      var expected := if id in known then known[id].version else 0;
      if id in known && known[id].status == "active" {
        return known, ZERO, None;
      }
      var granted := api.Grant(tenantId, id, expected);
      if granted.Err? {
        return known, ZERO, Some(granted.error);
      }
      var call, g := GrantApplied(tenantId, id), Activated(tenantId, id, expected);
      OneCounts(call);
      WithGrantOnly(from.db, g, application.code);
      WorkedCall(from, Event(call, api.db), application.code);
      return known[id := g], One(call), None;
    }

    /** The loop over tenants; `cached` is the client's copy of their grants. */
    method GrantTenants(tenants: seq<string>, application: Application, cached: map<string, map<string, Grant>>)
      returns (grants: map<string, map<string, Grant>>, result: Tally, error: Option<ApiError>)
      requires DbValid(api.db) && OwnId(api.db, application.code, application.id)
      requires Cached(cached, api.db, tenants)
      modifies api
      ensures api.refused >= old(api.refused) && (error == Some(Refused) ==> api.refused > old(api.refused))
      ensures Worked(old(api.At()), api.At(), application.code, result)
      ensures Cached(grants, api.db, tenants)
      ensures error.None? ==> GrantsDone(old(api.db), api.db, tenants, application.id, result)
      ensures error.Some? ==> error == Some(Refused)
      ensures AllGranted(old(api.db), tenants, application.id) ==> result == ZERO
    {
      hide Worked, DbValid, AllGranted, HasGrant, GrantsDone, Plus, WithGrant;
      grants, result, error := cached, ZERO, None;
      ghost var from := api.At();
      var id := application.id;
      WorkedNone(api.At(), application.code);
      GrantsNone(api.db, id);
      for i := 0 to |tenants|
        invariant DbValid(api.db) && Worked(from, api.At(), application.code, result)
        invariant OwnId(api.db, application.code, id) && Cached(grants, api.db, tenants)
        invariant GrantsDone(from.db, api.db, tenants[..i], id, result)
        invariant result == ZERO ==> api.db == from.db
        invariant api.refused >= old(api.refused)
      {
        var tenantId := tenants[i];
        assert tenants[..i + 1] == tenants[..i] + [tenantId];
        ghost var at := api.At();
        var updated, one, failed := GrantTenant(tenantId, application, grants[tenantId]);
        WorkedTrans(from, at, api.At(), application.code, result, one);
        if failed.Some? {
          PlusZero(result);
          GrantsDoneFacts(from.db, at.db, tenants[..i], id, result);
          AllGrantedPrefix(from.db, tenants, i, id);
          return grants, result, failed;
        }
        GrantsNext(from.db, at.db, api.db, tenants[..i], tenantId, id, result, one);
        CachedNext(grants, at.db, api.db, tenants, tenantId, updated);
        grants, result := grants[tenantId := updated], Plus(result, one);
      }
      assert tenants[..|tenants|] == tenants;
      GrantsDoneFacts(from.db, api.db, tenants, id, result);
    }

    /** The body of the loop over applications in `Apply`. */
    method ApplyApplication(spec: ApplicationSpec, known: Option<Application>, tenants: seq<string>,
                            cached: map<string, map<string, Grant>>)
      returns (grants: map<string, map<string, Grant>>, result: Tally, error: Option<ApiError>)
      requires DbValid(api.db) && SpecsReady(spec.menus, api.db.kind) && Orderable(spec.menus) && spec.menus != []
      requires known == if spec.code in api.db.applications then Some(api.db.applications[spec.code]) else None
      requires Cached(cached, api.db, tenants)
      modifies api
      ensures api.refused >= old(api.refused) && (error == Some(Refused) ==> api.refused > old(api.refused))
      ensures Applied(old(api.At()), api.At(), spec, tenants, result, error)
      ensures error.None? ==> Cached(grants, api.db, tenants)
    {
      hide Worked, MenusReconciled, GrantsDone, Applied, DbValid, AllForests, AllGranted, Orderable, SpecsReady,
        ApplicationEqual, OnlyApplication, Cached, Plus, Ensured, Effective, OnlyDrafts, Trimmed, StoresDeclared,
        CountsDifference;
      grants := cached;
      ghost var from := api.At();
      var application, first, failed := EnsureApplication(spec, known);
      result, error := first, failed;
      ghost var ensured := api.At();
      if error.Some? {
        StoppedFirst(from, ensured, spec, tenants, result, error.value);
        return;
      }
      EnsuredFacts(from, ensured, spec, application, first);
      ghost var code := application.code;
      var menuChanged, second, menuError := ReconcileMenus(application, spec.menus);
      ghost var placed := api.At();
      MenusReconciledWorked(ensured, placed, code, application.id, spec.menus, menuChanged, second, menuError);
      WorkedTrans(from, ensured, placed, code, first, second);
      result := Plus(first, second);
      StoppedLater(from, ensured, placed, spec, tenants, application, first, menuChanged, second, menuError);
      if menuError.Some? {
        return grants, result, menuError;
      }
      var third := ZERO;
      PublishFacts(ensured, placed, spec.menus, application, menuChanged, second);
      if menuChanged || application.publishedRelease == 0 {
        var published := api.PublishMenus(application.id, application.version);
        if published.Err? {
          return grants, result, Some(published.error);
        }
        third := One(MenusPublished(application.id));
        WithReleaseOnly(placed.db, application, application.version);
        WorkedCall(placed, Event(MenusPublished(application.id), api.db), code);
      } else {
        WorkedNone(placed, code);
      }
      ghost var released := api.At();
      WorkedTrans(from, placed, released, code, result, third);
      result := Plus(result, third);
      CachedSame(cached, from.db, released.db, tenants);
      PublishedKeeps(placed.db, released.db, application, menuChanged || application.publishedRelease == 0, third);
      var updated, fourth, grantError := GrantTenants(tenants, application, cached);
      WorkedTrans(from, released, api.At(), code, result, fourth);
      grants, error, result := updated, grantError, Plus(result, fourth);
      Finished(Course(from, ensured, placed, released, api.At(), application, menuChanged, first, second, third,
          fourth), spec, tenants, error);
    }

    /** `normalizedTenantIDs`: trimmed, not empty, without repeats, by first occurrence. */
    method NormalizedTenantIDs(values: seq<string>) returns (result: seq<string>)
      ensures Deduplicated(TrimmedAll(values), NotEmpty, result)
    {
      hide TrimSpace;
      var trimmed := TrimmedAll(values);
      result := [];
      var seen: set<string> := {};
      for i := 0 to |trimmed|
        invariant Deduplicated(trimmed[..i], NotEmpty, result)
        invariant forall x :: x in seen <==> x in result
      {
        assert trimmed[..i + 1] == trimmed[..i] + [trimmed[i]];
        if trimmed[i] == "" || trimmed[i] in seen {
          DeduplicatedSkip(trimmed[..i], NotEmpty, result, trimmed[i]);
        } else {
          DeduplicatedAdd(trimmed[..i], NotEmpty, result, trimmed[i]);
          seen := seen + {trimmed[i]};
          result := result + [trimmed[i]];
        }
      }
      assert trimmed[..|trimmed|] == trimmed;
    }

    /** The listing of applications as a map by code. */
    method IndexApplications() returns (byCode: map<string, Application>, error: Option<ApiError>)
      requires DbValid(api.db)
      modifies api`refused
      ensures api.refused >= old(api.refused) && (error == Some(Refused) ==> api.refused > old(api.refused))
      ensures error.None? ==> byCode == api.db.applications
      ensures error.Some? ==> error == Some(Refused)
    {
      byCode, error := map[], None;
      var listed := api.ListApplications();
      if listed.Err? {
        return byCode, Some(listed.error);
      }
      for i := 0 to |listed.value|
        invariant forall c :: c in byCode ==> c in api.db.applications && byCode[c] == api.db.applications[c]
        invariant forall j :: 0 <= j < i ==> listed.value[j].code in byCode
      {
        assert listed.value[i] in listed.value;
        byCode := byCode[listed.value[i].code := listed.value[i]];
      }
      forall c | c in api.db.applications
        ensures c in byCode
      {
        assert api.db.applications[c] in listed.value;
      }
    }

    /** The grants of every tenant, by application identifier. */
    method IndexGrants(tenants: seq<string>) returns (grants: map<string, map<string, Grant>>, error: Option<ApiError>)
      requires DbValid(api.db)
      modifies api`refused
      ensures api.refused >= old(api.refused) && (error == Some(Refused) ==> api.refused > old(api.refused))
      ensures error.None? ==> Cached(grants, api.db, tenants)
      ensures error.Some? ==> error == Some(Refused)
    {
      grants, error := map[], None;
      for i := 0 to |tenants|
        invariant Cached(grants, api.db, tenants[..i]) && api.refused >= old(api.refused)
      {
        var listed := api.ListGrants(tenants[i]);
        if listed.Err? {
          return grants, Some(listed.error);
        }
        ghost var stored := GrantsOf(api.db, tenants[i]);
        var byApplication: map<string, Grant> := map[];
        for j := 0 to |listed.value|
          invariant forall a :: a in byApplication ==> a in stored && byApplication[a] == stored[a]
          invariant forall k :: 0 <= k < j ==> listed.value[k].applicationId in byApplication
        {
          assert listed.value[j] in listed.value;
          byApplication := byApplication[listed.value[j].applicationId := listed.value[j]];
        }
        forall a | a in stored
          ensures a in byApplication
        {
          assert stored[a] in listed.value;
        }
        assert byApplication == stored;
        grants := grants[tenants[i] := byApplication];
      }
      assert tenants[..|tenants|] == tenants;
    }

    /** `Apply`. */
    method Apply(m: Manifest, tenantIDs: seq<string>) returns (result: Tally, error: Option<ApiError>)
      requires DbValid(api.db)
      modifies api
      ensures api.refused >= old(api.refused) && (error == Some(Refused) ==> api.refused > old(api.refused))
      ensures RunDone(old(api.At()), api.At(), m, tenantIDs, result, error)
      ensures Unobstructed(m, old(api.db)) && api.refused == old(api.refused) ==> error.None?
    {
      hide RunDone, AppliedUpTo, Applied, DbValid, ManifestValid, Unobstructed, ApplicationSpecValid, Orderable,
           SpecsReady, Cached,
           Plus, Deduplicated, TrimSpace, Effective,
        DistinctApplications;
      result, error := ZERO, None;
      ghost var from := api.At();
      var valid := Validate(m);
      if !valid {
        NothingRun(from, m, tenantIDs, Invalid);
        OnlyRefused(from, from, m, tenantIDs, ZERO, Invalid);
        return result, Some(Invalid);
      }
      var byCode, listError := IndexApplications();
      if listError.Some? {
        NothingRun(from, m, tenantIDs, Refused);
        return result, listError;
      }
      var tenants := NormalizedTenantIDs(tenantIDs);
      TenantsWanted(tenantIDs, tenants);
      var grants, grantError := IndexGrants(tenants);
      if grantError.Some? {
        NothingRun(from, m, tenantIDs, Refused);
        return result, grantError;
      }
      AppliedUpToNone(from, m.applications, tenants);
      for i := 0 to |m.applications|
        invariant AppliedUpTo(from, api.At(), m.applications, i, tenants, result)
        invariant Cached(grants, api.db, tenants) && api.refused >= old(api.refused)
      {
        var spec := m.applications[i];
        ghost var at := api.At();
        SpecFacts(m, i, from.db.kind);
        AppliedUpToFacts(from, at, m.applications, i, tenants, result);
        var known := if spec.code in byCode then Some(byCode[spec.code]) else None;
        var updated, one, failed := ApplyApplication(spec, known, tenants, grants);
        if failed.Some? {
          RunStopped(from, at, api.At(), m, i, tenantIDs, tenants, result, one, failed.value);
          OnlyRefused(from, api.At(), m, tenantIDs, Plus(result, one), failed.value);
          return Plus(result, one), failed;
        }
        AppliedNext(from, at, api.At(), m.applications, i, tenants, result, one);
        grants, result := updated, Plus(result, one);
      }
      RunCompleted(from, api.At(), m, tenantIDs, tenants, result);
    }

    /**
     Running it again, without interference, after a run that succeeded: the second
     run makes no call exactly when the manifest holds nothing to trim, and the service
     keeps statuses or no draft was out of date when the first run started.
     */
    method ApplyTwice(m: Manifest, tenantIDs: seq<string>)
      returns (first: Tally, firstError: Option<ApiError>, second: Tally, secondError: Option<ApiError>,
          ghost settled: seq<Event>)
      requires DbValid(api.db)
      modifies api
      ensures firstError.None? && QuietAgain(old(api.db), m) ==> second == ZERO && api.trace == settled
      ensures firstError.None? && secondError.None? ==> (second == ZERO <==> QuietAgain(old(api.db), m))
    {
      hide ManifestConverged, ManifestTrimmed, ManifestUpdatesNothing, AllStored, MirrorsIfDue, AllForests,
           TraceForests, TallyOf, DbValid;
      first, firstError := Apply(m, tenantIDs);
      settled := api.trace;
      second, secondError := Apply(m, tenantIDs);
    }
  }
}
