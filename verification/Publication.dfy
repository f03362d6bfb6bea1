/**
 Publishing menus while everything else goes on: reading the application, reading
 the drafts and committing are separate steps, and no lease keeps two publishers
 apart.
 */
module Publication {
  import opened Wrappers
  import opened Text
  import opened Routes
  import opened Menus
  import opened MenuTree
  import opened MenuRoutes
  import opened Transactions

  datatype App = App(code: string, defaultRoute: string, published: int, version: int)

  /** Applications and drafts by application identifier; releases by application and number. */
  datatype Db = Db(apps: map<string, App>, drafts: map<string, seq<Menu>>, releases: map<(string, int), seq<Menu>>)

  /** A publisher between two of its steps, with the copies that it has read. */
  datatype Publisher =
    | AppRead(appId: string, app: App, appVersion: int)
    | MenusRead(appId: string, app: App, appVersion: int, menus: seq<Menu>)

  datatype State = State(db: Db, pending: map<nat, Publisher>)

  datatype Action =
    | CreateApp(id: string, code: string, defaultRoute: string)
    | UpdateApp(id: string, defaultRoute: string, expected: int)
    | EditDrafts(id: string, menus: seq<Menu>)
    | BeginPublish(pid: nat, id: string, appVersion: int)
    | ReadMenus(pid: nat)
    | Commit(pid: nat)

  // ----- statements and transactions

  /** `CreateRelease`: the release number is unique for its application. */
  function CreateRelease(db: Db, appId: string, number: int, menus: seq<Menu>): Result<Db, Failure> {
    if (appId, number) in db.releases then Err(Duplicate)
        else Ok(db.(releases := db.releases[(appId, number) := menus]))
  }

  /** `SetPublishedRelease`: compare and set on the version. */
  function SetPublishedRelease(db: Db, appId: string, number: int, expected: int): Result<Db, Failure> {
    if appId in db.apps && db.apps[appId].version == expected then
      Ok(db.(apps := db.apps[appId := db.apps[appId].(published := number, version := expected + 1)]))
    else Err(Stale)
  }

  function PublishBody(db: Db, p: Publisher): Result<Db, Failure>
    requires p.MenusRead?
  {
    var number := p.app.published + 1;
    match CreateRelease(db, p.appId, number, p.menus)
    case Err(e) => Err(e)
    case Ok(created) => SetPublishedRelease(created, p.appId, number, p.appVersion)
  }

  /** The checks of `publishMenusWithLease`, on the copies that it read. */
  ghost predicate Publishable(p: Publisher)
    requires p.MenusRead?
  {
    && p.menus != [] && TreeAccepted(p.menus) && RoutesAccepted(p.app.code, p.menus)
    && DefaultRouteAccepted(p.app.code, p.app.defaultRoute, p.menus)
  }

  ghost function Next(s: State, a: Action): State {
    match a
    case CreateApp(id, code, defaultRoute) =>
      if id in s.db.apps then s
      else s.(db := s.db.(apps := s.db.apps[id := App(code, defaultRoute, 0, 1)], drafts := s.db.drafts[id := []]))
    case UpdateApp(id, defaultRoute, expected) =>
      if id in s.db.apps && s.db.apps[id].version == expected then
        s.(db := s.db.(apps := s.db.apps[id := s.db.apps[id].(defaultRoute := defaultRoute, version := expected + 1)]))
      else s
    case EditDrafts(id, menus) =>
      if id in s.db.apps && Identified(menus) then s.(db := s.db.(drafts := s.db.drafts[id := menus])) else s
    case BeginPublish(pid, id, appVersion) =>
      if id in s.db.apps && pid !in s.pending then s.(pending := s.pending[pid := AppRead(id, s.db.apps[id],
          appVersion)]) else s
    case ReadMenus(pid) =>
      if pid in s.pending && s.pending[pid].AppRead? && s.pending[pid].appId in s.db.drafts then
        var p := s.pending[pid];
        s.(pending := s.pending[pid := MenusRead(p.appId, p.app, p.appVersion, s.db.drafts[p.appId])])
      else s
    case Commit(pid) =>
      if pid in s.pending && s.pending[pid].MenusRead? then State(Committed(s.db, s.pending[pid]), s.pending - {pid})
          else s
  }

  ghost function Committed(db: Db, p: Publisher): Db
    requires p.MenusRead?
  {
    if Publishable(p) then Within(db, d => PublishBody(d, p)) else db
  }

  ghost function Run(s: State, actions: seq<Action>): State
    decreases |actions|
  {
    if actions == [] then s else Run(Next(s, actions[0]), actions[1..])
  }

  function Init(): State {
    State(Db(map[], map[], map[]), map[])
  }

  // ----- what every step keeps

  /** Drafts have distinct identifiers: the primary key. */
  ghost predicate Identified(menus: seq<Menu>) {
    UniqueIds(menus) && forall i :: 0 <= i < |menus| ==> menus[i].id != ""
  }

  /** A release is a non-empty forest with distinct free routes. */
  ghost predicate ReleaseValid(code: string, menus: seq<Menu>) {
    menus != [] && Identified(menus) && Forest(ParentsById(menus)) && RoutesAccepted(code, menus)
  }

  /** The stored release numbers of an application are exactly 1 to its published release. */
  ghost predicate Numbered(db: Db, id: string) {
    id in db.apps && db.apps[id].published >= 0 &&
    forall n: int :: (id, n) in db.releases <==> 1 <= n <= db.apps[id].published
  }

  /** A copy read earlier: the code never changes, versions tell copies apart, and the number is not ahead. */
  ghost predicate CopyOf(copy: App, current: App) {
    && copy.code == current.code && 0 <= copy.published <= current.published && copy.version <= current.version
    && (copy.version == current.version ==> copy == current)
  }

  ghost predicate PublisherValid(db: Db, p: Publisher) {
    && p.appId in db.apps && CopyOf(p.app, db.apps[p.appId])
    && (p.MenusRead? ==> Identified(p.menus))
  }

  ghost predicate DbValid(db: Db) {
    && (forall id :: id in db.apps ==> Numbered(db, id))
    && (forall id :: id in db.drafts ==> Identified(db.drafts[id]))
    && forall k :: k in db.releases ==> k.0 in db.apps && ReleaseValid(db.apps[k.0].code, db.releases[k])
  }

  ghost predicate Inv(s: State) {
    DbValid(s.db) && forall pid :: pid in s.pending ==> PublisherValid(s.db, s.pending[pid])
  }

  lemma InitInv()
    ensures Inv(Init())
  {
  }

  /** The outcome of a commit: nothing, or one more release and the next number. */
  ghost predicate Published(before: Db, after: Db, p: Publisher)
    requires p.MenusRead?
  {
    && p.appId in before.apps && before.apps[p.appId].version == p.appVersion
    && (p.appId, p.app.published + 1) !in before.releases
    && after.apps == before.apps[p.appId := before.apps[p.appId].(published := p.app.published + 1,
         version := p.appVersion + 1)]
    && after.releases == before.releases[(p.appId, p.app.published + 1) := p.menus]
    && after.drafts == before.drafts
  }

  lemma CommitOutcome(db: Db, p: Publisher)
    requires p.MenusRead?
    ensures Committed(db, p) == db || (Published(db, Committed(db, p), p) && Publishable(p))
  {
    hide TreeAccepted, RoutesAccepted, DefaultRouteAccepted;
  }

  /**
   Exactly when a commit takes effect: nobody was faster, the application is still at
   the release that was read and at the version that was named, and the drafts that
   were read are not empty, are a forest, and pass both route checks.
   */
  lemma CommitsIff(db: Db, p: Publisher)
    requires DbValid(db) && p.MenusRead? && PublisherValid(db, p)
    ensures Committed(db, p) != db <==>
      && db.apps[p.appId].version == p.appVersion && db.apps[p.appId].published == p.app.published
      && |p.menus| > 0 && Forest(ParentsById(p.menus))
      && RoutesAccepted(p.app.code, p.menus) && DefaultRouteAccepted(p.app.code, p.app.defaultRoute, p.menus)
    ensures Committed(db, p) != db ==>
      var number := p.app.published + 1;
      && Committed(db, p).apps ==
           db.apps[p.appId := db.apps[p.appId].(published := number, version := p.appVersion + 1)]
      && Committed(db, p).releases == db.releases[(p.appId, number) := p.menus]
      && Committed(db, p).drafts == db.drafts
  {
    hide RoutesAccepted, DefaultRouteAccepted, Forest, TreeAccepted, ReleaseValid;
    TreeAcceptedIffForest(p.menus);
    CommitOutcome(db, p);
    assert Numbered(db, p.appId);
    var number := p.app.published + 1;
    assert (p.appId, number) in db.releases <==> 1 <= number <= db.apps[p.appId].published;
  }

  /** The drafts may become the release of this application. */
  ghost predicate DraftsPass(app: App, menus: seq<Menu>) {
    && menus != [] && Forest(ParentsById(menus)) && RoutesAccepted(app.code, menus)
    && DefaultRouteAccepted(app.code, app.defaultRoute, menus)
  }

  lemma PublishAtOnce(s: State, pid: nat, id: string)
    requires id in s.db.apps && id in s.db.drafts && pid !in s.pending
    ensures var p := MenusRead(id, s.db.apps[id], s.db.apps[id].version, s.db.drafts[id]);
            Run(s, [BeginPublish(pid, id, s.db.apps[id].version), ReadMenus(pid), Commit(pid)]) ==
              State(Committed(s.db, p), s.pending)
  {
    var version := s.db.apps[id].version;
    var p := MenusRead(id, s.db.apps[id], version, s.db.drafts[id]);
    var a, b, c := BeginPublish(pid, id, version), ReadMenus(pid), Commit(pid);
    var read := State(s.db, s.pending[pid := p]);
    hide Committed;
    BegunAndRead(s, pid, id, version);
    assert read.pending - {pid} == s.pending;
    assert Next(read, c) == State(Committed(s.db, p), s.pending);
    hide Next;
    assert Run(Next(read, c), []) == Next(read, c);
    RunHead(read, c, []);
    RunHead(Next(s, a), b, [c]);
    RunHead(s, a, [b, c]);
    assert [c] + [] == [c] && [b] + [c] == [b, c] && [a] + [b, c] == [a, b, c];
  }

  /** The next release of an application. */
  function Released(db: Db, id: string, menus: seq<Menu>): Db
    requires id in db.apps
  {
    var app := db.apps[id];
    Db(db.apps[id := app.(published := app.published + 1, version := app.version + 1)],
       db.drafts, db.releases[(id, app.published + 1) := menus])
  }

  lemma CurrentIsValid(db: Db, p: Publisher)
    requires DbValid(db) && p.MenusRead? && p.appId in db.apps && p.app == db.apps[p.appId] && Identified(p.menus)
    ensures PublisherValid(db, p)
  {
    hide Identified, ReleaseValid;
    assert Numbered(db, p.appId);
  }

  lemma CurrentCommitIff(db: Db, p: Publisher)
    requires DbValid(db) && p.MenusRead? && p.appId in db.apps && p.app == db.apps[p.appId]
    requires p.appVersion == p.app.version && Identified(p.menus)
    ensures Committed(db, p) == if DraftsPass(p.app, p.menus) then Released(db, p.appId, p.menus) else db
  {
    hide RoutesAccepted, DefaultRouteAccepted, Forest, DbValid, Identified, PublisherValid, Committed;
    CurrentIsValid(db, p);
    CommitsIff(db, p);
    if Committed(db, p) != db {
      match Committed(db, p) { case Db(_, _, _) => }
    }
  }

  /** Publishing without interference adds the drafts as the next release, exactly if they pass. */
  lemma SerialPublishIff(s: State, pid: nat, id: string)
    requires Inv(s) && id in s.db.apps && id in s.db.drafts && pid !in s.pending
    ensures var app, menus := s.db.apps[id], s.db.drafts[id];
            Run(s, [BeginPublish(pid, id, app.version), ReadMenus(pid), Commit(pid)]) ==
              if DraftsPass(app, menus) then State(Released(s.db, id, menus), s.pending) else s
  {
    var app, menus := s.db.apps[id], s.db.drafts[id];
    hide DraftsPass, Identified, Committed, Run, Released, Numbered, ReleaseValid, PublisherValid;
    PublishAtOnce(s, pid, id);
    CurrentCommitIff(s.db, MenusRead(id, app, app.version, menus));
  }

  /** A commit that takes effect extends the latest number by exactly one. */
  lemma PublishedIsNext(db: Db, after: Db, p: Publisher)
    requires DbValid(db) && p.MenusRead? && PublisherValid(db, p) && Published(db, after, p)
    ensures p.app.published == db.apps[p.appId].published
    ensures Numbered(after, p.appId)
  {
    hide ReleaseValid, Identified;
    assert Numbered(db, p.appId);
    assert !(1 <= p.app.published + 1 <= db.apps[p.appId].published);
    forall n: int
      ensures (p.appId, n) in after.releases <==> 1 <= n <= after.apps[p.appId].published
    {
      assert (p.appId, n) in db.releases <==> 1 <= n <= db.apps[p.appId].published;
    }
  }

  lemma PublishKeepsDb(db: Db, after: Db, p: Publisher)
    requires DbValid(db) && p.MenusRead? && PublisherValid(db, p) && Published(db, after, p) && Publishable(p)
    ensures DbValid(after)
  {
    hide RoutesAccepted, DefaultRouteAccepted, Forest, TreeAccepted;
    PublishedIsNext(db, after, p);
    TreeAcceptedIffForest(p.menus);
    assert ReleaseValid(p.app.code, p.menus);
    hide Identified, ReleaseValid;
    forall id | id in after.apps
      ensures Numbered(after, id)
    {
      if id != p.appId {
        assert Numbered(db, id);
        assert forall n: int :: (id, n) in after.releases <==> (id, n) in db.releases;
      }
    }
  }

  lemma CopiesSurvive(before: Db, after: Db, p: Publisher)
    requires PublisherValid(before, p) && AppsAdvance(before, after)
    ensures PublisherValid(after, p)
  {
  }

  /** Every application stays, keeps its code, and either is unchanged or has a higher version. */
  ghost predicate AppsAdvance(before: Db, after: Db) {
    forall id :: id in before.apps ==>
      id in after.apps && after.apps[id].code == before.apps[id].code &&
      after.apps[id].published >= before.apps[id].published &&
      (after.apps[id] == before.apps[id] || after.apps[id].version > before.apps[id].version)
  }

  /** No stored release changes or goes away. */
  ghost predicate ReleasesStay(before: Db, after: Db) {
    forall k :: k in before.releases ==> k in after.releases && after.releases[k] == before.releases[k]
  }

  lemma StepAdvances(s: State, a: Action)
    requires Inv(s)
    ensures AppsAdvance(s.db, Next(s, a).db) && ReleasesStay(s.db, Next(s, a).db)
  {
    hide Identified, ReleaseValid, Publishable, PublishBody;
    if a.Commit? && a.pid in s.pending && s.pending[a.pid].MenusRead? {
      var p := s.pending[a.pid];
      CommitOutcome(s.db, p);
      assert PublisherValid(s.db, p);
      if Committed(s.db, p) != s.db {
        PublishedIsNext(s.db, Committed(s.db, p), p);
      }
    }
  }

  lemma StepKeepsDb(s: State, a: Action)
    requires Inv(s)
    ensures DbValid(Next(s, a).db)
  {
    hide Identified, ReleaseValid, Publishable, PublishBody;
    match a
    case CreateApp(id, code, defaultRoute) =>
      if id !in s.db.apps {
        CreateKeepsDb(s.db, id, App(code, defaultRoute, 0, 1));
      }
    case UpdateApp(id, defaultRoute, expected) =>
      if id in s.db.apps {
        UpdateKeepsDb(s.db, id, s.db.apps[id].(defaultRoute := defaultRoute, version := expected + 1));
      }
    case EditDrafts(_, _) =>
      assert forall id :: id in s.db.apps ==>
          Numbered(s.db, id) && (Numbered(s.db, id) ==> Numbered(Next(s, a).db, id));
    case BeginPublish(_, _, _) =>
    case ReadMenus(_) =>
    case Commit(pid) =>
      if pid in s.pending && s.pending[pid].MenusRead? {
        var p := s.pending[pid];
        CommitOutcome(s.db, p);
        assert PublisherValid(s.db, p);
        if Committed(s.db, p) != s.db {
          PublishKeepsDb(s.db, Committed(s.db, p), p);
        }
      }
  }

  lemma CreateKeepsDb(db: Db, id: string, app: App)
    requires DbValid(db) && id !in db.apps && app.published == 0
    ensures DbValid(db.(apps := db.apps[id := app], drafts := db.drafts[id := []]))
  {
    hide ReleaseValid;
    var after := db.(apps := db.apps[id := app], drafts := db.drafts[id := []]);
    assert Identified([]);
    forall x | x in after.apps
      ensures Numbered(after, x)
    {
      if x != id {
        assert Numbered(db, x);
      }
    }
  }

  lemma UpdateKeepsDb(db: Db, id: string, app: App)
    requires DbValid(db) && id in db.apps && app.published == db.apps[id].published && app.code == db.apps[id].code
    ensures DbValid(db.(apps := db.apps[id := app]))
  {
    hide ReleaseValid, Identified;
    var after := db.(apps := db.apps[id := app]);
    forall x | x in after.apps
      ensures Numbered(after, x)
    {
      assert Numbered(db, x);
    }
  }

  /** Every step keeps the invariant, whatever the other publishers and editors have done in between. */
  lemma StepKeepsInv(s: State, a: Action)
    requires Inv(s)
    ensures Inv(Next(s, a))
  {
    hide DbValid, Numbered, Identified, Committed;
    var t := Next(s, a);
    StepKeepsDb(s, a);
    StepAdvances(s, a);
    forall pid | pid in t.pending
      ensures PublisherValid(t.db, t.pending[pid])
    {
      if pid in s.pending {
        CopiesSurvive(s.db, t.db, s.pending[pid]);
        if t.pending[pid] != s.pending[pid] {
          ReadFacts(s.db, s.pending[pid].appId);
        }
      } else {
        BeginFacts(s.db, t.pending[pid].appId);
      }
    }
  }

  lemma ReadFacts(db: Db, id: string)
    requires DbValid(db)
    ensures id in db.drafts ==> Identified(db.drafts[id])
  {
  }

  lemma BeginFacts(db: Db, id: string)
    requires DbValid(db)
    ensures id in db.apps ==> db.apps[id].published >= 0
  {
    assert id in db.apps ==> Numbered(db, id);
  }

  // ----- whole runs

  /**
   In every interleaving the stored release numbers of each application are exactly
   1 to its published release, and every stored release is a non-empty forest whose
   active menus have distinct routes that avoid the shell and the overview.
   */
  lemma {:induction false} EveryRunPublishesInOrder(s: State, actions: seq<Action>)
    requires Inv(s)
    ensures Inv(Run(s, actions))
    ensures var db := Run(s, actions).db;
            && (forall id :: id in db.apps ==> Numbered(db, id))
            && forall k :: k in db.releases ==> k.0 in db.apps && ReleaseValid(db.apps[k.0].code, db.releases[k])
    decreases |actions|
  {
    hide Next, Numbered, ReleaseValid, PublisherValid;
    if actions != [] {
      StepKeepsInv(s, actions[0]);
      EveryRunPublishesInOrder(Next(s, actions[0]), actions[1..]);
    }
  }

  /** So does every run from the empty database. */
  lemma EveryRunFromTheStart(actions: seq<Action>)
    ensures var db := Run(Init(), actions).db;
            && (forall id :: id in db.apps ==> Numbered(db, id))
            && forall k :: k in db.releases ==> k.0 in db.apps && ReleaseValid(db.apps[k.0].code, db.releases[k])
  {
    hide Numbered, ReleaseValid, Run;
    assert Inv(Init()) by { InitInv(); }
    EveryRunPublishesInOrder(Init(), actions);
  }

  lemma AdvanceTrans(a: Db, b: Db, c: Db)
    requires AppsAdvance(a, b) && AppsAdvance(b, c) && ReleasesStay(a, b) && ReleasesStay(b, c)
    ensures AppsAdvance(a, c) && ReleasesStay(a, c)
  {
  }

  /** From any point of a run on, published releases only grow and stored releases never change. */
  lemma {:induction false} ReleasesAreImmutable(s: State, actions: seq<Action>)
    requires Inv(s)
    ensures AppsAdvance(s.db, Run(s, actions).db) && ReleasesStay(s.db, Run(s, actions).db)
    decreases |actions|
  {
    hide Next, Inv;
    if actions != [] {
      StepKeepsInv(s, actions[0]);
      StepAdvances(s, actions[0]);
      ReleasesAreImmutable(Next(s, actions[0]), actions[1..]);
      AdvanceTrans(s.db, Next(s, actions[0]).db, Run(s, actions).db);
    }
  }

  /** A publisher that read before another one committed can only be refused, now or later. */
  lemma LateCommitIsRefused(s: State, pid: nat, actions: seq<Action>)
    requires Inv(s) && pid in s.pending && s.pending[pid].appId in s.db.apps
    requires s.pending[pid].app.published < s.db.apps[s.pending[pid].appId].published
    ensures var t := Run(s, actions);
            pid in t.pending && t.pending[pid].MenusRead? && t.pending[pid].app == s.pending[pid].app &&
            t.pending[pid].appId == s.pending[pid].appId ==>
              Committed(t.db, t.pending[pid]) == t.db
  {
    hide Publishable, PublishBody, Run;
    var t, p := Run(s, actions), s.pending[pid];
    EveryRunPublishesInOrder(s, actions);
    ReleasesAreImmutable(s, actions);
    if pid in t.pending && t.pending[pid].MenusRead? && t.pending[pid].app == p.app && t.pending[pid].appId == p.appId {
      CommitOutcome(t.db, t.pending[pid]);
      assert PublisherValid(t.db, t.pending[pid]);
      if Committed(t.db, t.pending[pid]) != t.db {
        PublishedIsNext(t.db, Committed(t.db, t.pending[pid]), t.pending[pid]);
      }
    }
  }

  // ----- the default route

  /**
   If the commit of this publisher takes effect, the default route then in force leads somewhere
   in the new release.
   */
  ghost predicate CommitIsSafe(s: State, pid: nat) {
    pid in s.pending && s.pending[pid].MenusRead? && Committed(s.db, s.pending[pid]) != s.db ==>
      var p, after := s.pending[pid], Committed(s.db, s.pending[pid]);
      p.appId in after.apps && DefaultRouteAccepted(after.apps[p.appId].code, after.apps[p.appId].defaultRoute, p.menus)
  }

  /** The version that the caller named is not newer than the copy that the call read. */
  lemma KnownVersionIsSafe(s: State, pid: nat)
    requires Inv(s) && (pid in s.pending ==> s.pending[pid].appVersion <= s.pending[pid].app.version)
    ensures CommitIsSafe(s, pid)
  {
    hide RoutesAccepted, DefaultRouteAccepted, TreeAccepted, PublishBody, Committed;
    if pid in s.pending && s.pending[pid].MenusRead? {
      CommitOutcome(s.db, s.pending[pid]);
      assert PublisherValid(s.db, s.pending[pid]);
    }
  }

  /** Nothing is begun or committed under this publisher's name. */
  ghost predicate LeavesAlone(actions: seq<Action>, pid: nat) {
    forall a :: a in actions ==> !(a.BeginPublish? && a.pid == pid) && !(a.Commit? && a.pid == pid)
  }

  lemma {:induction false} PendingIsKept(s: State, actions: seq<Action>, pid: nat)
    requires pid in s.pending && LeavesAlone(actions, pid)
    ensures var t := Run(s, actions);
            && pid in t.pending && t.pending[pid].appId == s.pending[pid].appId
            && t.pending[pid].app == s.pending[pid].app && t.pending[pid].appVersion == s.pending[pid].appVersion
    decreases |actions|
  {
    hide Committed;
    if actions != [] {
      assert actions[0] in actions;
      var next := Next(s, actions[0]);
      assert pid in next.pending && next.pending[pid].appId == s.pending[pid].appId;
      assert next.pending[pid].app == s.pending[pid].app && next.pending[pid].appVersion == s.pending[pid].appVersion;
      hide Next;
      assert forall a :: a in actions[1..] ==> a in actions;
      PendingIsKept(next, actions[1..], pid);
    }
  }

  /** Everything may happen between beginning to publish and committing, and the commit is safe. */
  ghost predicate AlwaysSafe(s: State, pid: nat, id: string, version: int) {
    forall actions :: LeavesAlone(actions, pid) ==>
        CommitIsSafe(Run(Next(s, BeginPublish(pid, id, version)), actions), pid)
  }

  /**
   Naming a version that the application had reached when the call read it makes every
   continuation safe; over publishable drafts, naming a newer one does not.
   */
  lemma PublishIsSafeIff(s: State, pid: nat, id: string, version: int)
    requires Inv(s) && id in s.db.apps && pid !in s.pending
    requires id in s.db.drafts && Publishable(MenusRead(id, s.db.apps[id], version, s.db.drafts[id]))
    ensures AlwaysSafe(s, pid, id, version) <==> version <= s.db.apps[id].version
  {
    if version <= s.db.apps[id].version {
      KnownVersionAlwaysSafe(s, pid, id, version);
    } else {
      var x := Dangling(s.db.apps[id].code, s.db.drafts[id]);
      NewerVersionDangles(s, pid, id, version, x);
    }
  }

  lemma KnownVersionAlwaysSafe(s: State, pid: nat, id: string, version: int)
    requires Inv(s) && id in s.db.apps && pid !in s.pending && version <= s.db.apps[id].version
    ensures AlwaysSafe(s, pid, id, version)
  {
    hide CommitIsSafe, Run, Inv;
    StepKeepsInv(s, BeginPublish(pid, id, version));
    var begun := Next(s, BeginPublish(pid, id, version));
    hide Next;
    forall actions | LeavesAlone(actions, pid)
      ensures CommitIsSafe(Run(begun, actions), pid)
    {
      PendingIsKept(begun, actions, pid);
      EveryRunPublishesInOrder(begun, actions);
      KnownVersionIsSafe(Run(begun, actions), pid);
    }
  }

  // ----- a default route that no menu has

  function Longest(paths: seq<string>): (n: nat)
    ensures forall i :: 0 <= i < |paths| ==> |paths[i]| <= n
  {
    if paths == [] then 0
    else
      var rest := Longest(paths[1..]);
      assert forall i :: 1 <= i < |paths| ==> paths[i] == paths[1..][i - 1];
      if |paths[0]| > rest then |paths[0]| else rest
  }

  /** A route longer than every path. */
  function Dangling(code: string, menus: seq<Menu>): string {
    seq(Longest(RoutesOf(Scope(code), menus)) + 10, _ => 'z')
  }

  lemma DanglingIsRefused(code: string, menus: seq<Menu>)
    ensures !DefaultRouteAccepted(code, Dangling(code, menus), menus)
  {
    hide RouteOf, NormalizedRouteSegment;
    var x, scope, paths := Dangling(code, menus), Scope(code), RoutesOf(Scope(code), menus);
    TrimFixpoint(x, IsSpace);
    assert x[0] == 'z' && (scope + "/")[0] == '/';
    assert TrimLeft(x, IsSlash) == x;
    assert DefaultCandidate(code, x) == scope + "/" + x;
    hide Dangling, RoutesOf;
    assert |scope + "/" + x| == |scope| + 1 + |x| && |Overview(scope)| == |scope| + 9;
    forall i: nat
      ensures !LeadsToLeaf(code, x, menus, i)
    {
      assert i < |menus| ==> |paths[i]| < |x|;
    }
  }

  /** Updates of the default route, one for each version up to the one that was named. */
  function Raises(id: string, x: string, version: int, count: nat): seq<Action>
    decreases count
  {
    if count == 0 then [] else [UpdateApp(id, x, version)] + Raises(id, x, version + 1, count - 1)
  }

  lemma {:induction false} RaisesOutcome(s: State, id: string, x: string, count: nat)
    requires id in s.db.apps && count > 0
    ensures var app := s.db.apps[id].(defaultRoute := x, version := s.db.apps[id].version + count);
            Run(s, Raises(id, x, s.db.apps[id].version, count)) == s.(db := s.db.(apps := s.db.apps[id := app]))
    ensures forall a :: a in Raises(id, x, s.db.apps[id].version, count) ==> a.UpdateApp?
    decreases count
  {
    var actions := Raises(id, x, s.db.apps[id].version, count);
    var once := Next(s, actions[0]);
    assert actions[1..] == Raises(id, x, s.db.apps[id].version + 1, count - 1);
    if count > 1 {
      RaisesOutcome(once, id, x, count - 1);
      assert once.db.apps[id := s.db.apps[id].(defaultRoute := x, version := s.db.apps[id].version + count)] ==
             s.db.apps[id := s.db.apps[id].(defaultRoute := x, version := s.db.apps[id].version + count)];
    } else {
      assert actions[1..] == [];
    }
  }

  /**
   The drafts are read, the default route is changed until the named version is reached, and the
   commit goes through.
   */
  lemma NewerVersionDangles(s: State, pid: nat, id: string, version: int, x: string)
    requires Inv(s) && id in s.db.apps && pid !in s.pending && version > s.db.apps[id].version
    requires id in s.db.drafts && Publishable(MenusRead(id, s.db.apps[id], version, s.db.drafts[id]))
    requires x == Dangling(s.db.apps[id].code, s.db.drafts[id])
    ensures !AlwaysSafe(s, pid, id, version)
  {
    hide Publishable, Dangling, Inv, Run, Next, Committed, RoutesOf;
    var app, menus := s.db.apps[id], s.db.drafts[id];
    var count := version - app.version;
    var raises := Raises(id, x, app.version, count);
    var actions := [ReadMenus(pid)] + raises;
    var begun := Next(s, BeginPublish(pid, id, version));
    var read := State(s.db, s.pending[pid := MenusRead(id, app, version, menus)]);
    BegunAndRead(s, pid, id, version);
    RaisesOutcome(read, id, x, count);
    RunHead(begun, ReadMenus(pid), raises);
    var raised := Run(begun, actions);
    assert LeavesAlone(actions, pid);
    DanglingIsRefused(app.code, menus);
    RaisedCommits(s, id, read.pending[pid], raised.db, x);
    assert !CommitIsSafe(raised, pid);
  }

  lemma BegunAndRead(s: State, pid: nat, id: string, version: int)
    requires id in s.db.apps && pid !in s.pending && id in s.db.drafts
    ensures Next(Next(s, BeginPublish(pid, id, version)), ReadMenus(pid)) ==
      State(s.db, s.pending[pid := MenusRead(id, s.db.apps[id], version, s.db.drafts[id])])
  {
    hide Committed;
  }

  lemma RunHead(s: State, a: Action, rest: seq<Action>)
    ensures Run(s, [a] + rest) == Run(Next(s, a), rest)
  {
    assert ([a] + rest)[1..] == rest;
  }

  /** The commit against the raised version takes effect. */
  lemma RaisedCommits(s: State, id: string, p: Publisher, raised: Db, x: string)
    requires Inv(s) && id in s.db.apps && p.MenusRead? && p.appId == id && p.app == s.db.apps[id] && Publishable(p)
    requires raised == s.db.(apps := s.db.apps[id := p.app.(defaultRoute := x, version := p.appVersion)])
    ensures var after := Committed(raised, p);
            && after != raised && id in after.apps
            && after.apps[id].code == p.app.code && after.apps[id].defaultRoute == x
  {
    hide Publishable;
    assert Numbered(s.db, id);
    assert (id, p.app.published + 1) !in s.db.releases;
    assert PublishBody(raised, p).Ok?;
  }

  function Inactive(): Menu {
    Menu("m", "a", "", "mm", "page", "n", "", "", "", "", "", "", "tenant", "off", 0, true, 1)
  }

  /** Publishing with a version newer than the one that was read: the read raced an update of the default route. */
  function RacingRun(): seq<Action> {
    [CreateApp("a", "aa", ""), EditDrafts("a", [Inactive()]), BeginPublish(1, "a", 2), ReadMenus(1),
        UpdateApp("a", "x", 1), Commit(1)]
  }

  /** That run publishes a release in which the default route in force leads nowhere. */
  lemma RacingReadLeavesDanglingDefault()
    ensures var db := Run(Init(), RacingRun()).db;
            && "a" in db.apps && db.apps["a"].published == 1 && ("a", 1) in db.releases
            && !DefaultRouteAccepted(db.apps["a"].code, db.apps["a"].defaultRoute, db.releases[("a", 1)])
  {
    hide RoutesAccepted, DefaultRouteAccepted, TreeAccepted;
    var menus := [Inactive()];
    var app := App("aa", "", 0, 1);
    var p := MenusRead("a", app, 2, menus);
    InactiveIsPublishable(p);
    assert Identified(menus);
    var s1 := Next(Init(), CreateApp("a", "aa", ""));
    var s2 := Next(s1, EditDrafts("a", menus));
    var s3 := Next(s2, BeginPublish(1, "a", 2));
    var s4 := Next(s3, ReadMenus(1));
    var s5 := Next(s4, UpdateApp("a", "x", 1));
    var s6 := Next(s5, Commit(1));
    assert s4.pending[1] == p;
    assert s5.db.apps["a"] == App("aa", "x", 0, 2);
    assert s6.db.apps["a"] == App("aa", "x", 1, 3) && s6.db.releases[("a", 1)] == menus;
    RunSix(Init(), RacingRun());
    RouteXDangles("aa", menus);
  }

  lemma RunSix(s: State, a: seq<Action>)
    requires |a| == 6
    ensures Run(s, a) == Next(Next(Next(Next(Next(Next(s, a[0]), a[1]), a[2]), a[3]), a[4]), a[5])
  {
    hide Next;
    assert Run(s, a) == Run(Next(s, a[0]), a[1..]);
    var b := a[1..];
    assert Run(Next(s, a[0]), b) == Run(Next(Next(s, a[0]), b[0]), b[1..]);
    var c := b[1..];
    var t := Next(Next(s, a[0]), a[1]);
    assert Run(t, c) == Run(Next(t, c[0]), c[1..]);
    var d := c[1..];
    assert Run(Next(t, c[0]), d) == Run(Next(Next(t, c[0]), d[0]), d[1..]);
    var e := d[1..];
    var u := Next(Next(t, a[2]), a[3]);
    assert Run(u, e) == Run(Next(u, e[0]), e[1..]);
    assert Run(Next(u, e[0]), e[1..]) == Run(Next(Next(u, e[0]), e[1..][0]), []);
  }

  lemma InactiveIsPublishable(p: Publisher)
    requires p.MenusRead? && p.menus == [Inactive()] && p.app.defaultRoute == ""
    ensures Publishable(p)
  {
    hide RouteOf, Scope, DefaultCandidate;
    assert TrimSpace("") == "";
    assert ClimbsAvoiding(ParentsById(p.menus), "", "m", 0);
    assert RoutesAccepted(p.app.code, p.menus);
  }

  lemma RouteXDangles(code: string, menus: seq<Menu>)
    requires menus == [Inactive()]
    ensures !DefaultRouteAccepted(code, "x", menus)
  {
    hide RouteOf, NormalizedRouteSegment;
    TrimFixpoint("x", IsSpace);
    assert TrimLeft("x", IsSlash) == "x";
    var scope := Scope(code);
    assert |scope + "/x"| == |scope| + 2 && |Overview(scope)| == |scope| + 9;
    forall i: nat
      ensures !LeadsToLeaf(code, "x", menus, i)
    {
      assert !IsActiveLeaf(menus, i);
    }
  }
}
