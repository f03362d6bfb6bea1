/** Reading published navigations, one at a time and in batches. */
module Navigation {
  import opened Wrappers
  import opened Text
  import opened Menus
  import Publication
  import Grants

  datatype Refusal = Invalid | Forbidden | NotFound

  /** The tables that the readers consult. */
  datatype Store = Store(apps: map<string, Publication.App>, releases: map<(string, int), seq<Menu>>,
                         grants: map<Grants.Key, Grants.Grant>)

  /** An application with its current release and the menus of that release. */
  datatype Published = Published(appId: string, app: Publication.App, menus: seq<Menu>)

  predicate HasOpenGrant(store: Store, tenant: string, appId: string, now: int) {
    (tenant, appId) in store.grants && Grants.Open(store.grants[(tenant, appId)], now)
  }

  /** `GetPublishedNavigation`, for a caller bound to a tenant or to none. */
  function Get(store: Store, scope: Option<string>, appId: string, now: int): Result<Published, Refusal> {
    if scope.Some? && !HasOpenGrant(store, scope.value, appId, now) then Err(Forbidden)
    else if appId !in store.apps then Err(NotFound)
    else
      var app := store.apps[appId];
      if app.published == 0 || (appId, app.published) !in store.releases then Err(NotFound)
      else Ok(Published(appId, app, store.releases[(appId, app.published)]))
  }

  /** The results of `Get` for the identifiers for which it succeeds, in their order. */
  function Successes(store: Store, scope: Option<string>, ids: seq<string>, now: int): seq<Published>
    decreases |ids|
  {
    if ids == [] then []
    else
      var front := Successes(store, scope, ids[..|ids| - 1], now);
      match Get(store, scope, ids[|ids| - 1], now)
      case Ok(one) => front + [one]
      case Err(_) => front
  }

  /** `BatchActiveGrants`: the applications among `ids` that the tenant holds an open grant for. */
  method BatchActiveGrants(store: Store, tenant: string, ids: seq<string>, now: int) returns (active: map<string, bool>)
    ensures forall id :: id in ids ==> ((id in active && active[id]) <==> HasOpenGrant(store, tenant, id, now))
  {
    hide Grants.Open;
    active := map[];
    for i := 0 to |ids|
      invariant forall id :: id in active ==> active[id] && HasOpenGrant(store, tenant, id, now)
      invariant forall id :: id in ids[..i] && HasOpenGrant(store, tenant, id, now) ==> id in active
    {
      if HasOpenGrant(store, tenant, ids[i], now) {
        active := active[ids[i] := true];
      }
      assert ids[..i + 1] == ids[..i] + [ids[i]];
    }
    assert ids[..|ids|] == ids;
  }

  /** What the service refuses as a list of identifiers. */
  predicate BadList(values: seq<string>) {
    |values| == 0 || |values| > 100 || "" in TrimmedAll(values)
  }

  /** `uniqueApplicationIDs`: trimmed, none empty, without repeats, by first occurrence. */
  method UniqueApplicationIDs(values: seq<string>) returns (r: Result<seq<string>, Refusal>)
    ensures r.Err? <==> BadList(values)
    ensures r.Err? ==> r.error == Invalid
    ensures r.Ok? ==> Deduplicated(TrimmedAll(values), NotEmpty, r.value)
  {
    hide TrimSpace;
    if |values| == 0 || |values| > 100 {
      return Err(Invalid);
    }
    ghost var trimmed := TrimmedAll(values);
    var ids: seq<string>, seen: set<string> := [], {};
    for i := 0 to |values|
      invariant "" !in trimmed[..i]
      invariant Deduplicated(trimmed[..i], NotEmpty, ids)
      invariant forall x :: x in seen <==> x in ids
    {
      var id := TrimSpace(values[i]);
      assert trimmed[..i + 1] == trimmed[..i] + [id];
      if id == "" {
        assert trimmed[i] == "";
        return Err(Invalid);
      }
      if id in seen {
        DeduplicatedSkip(trimmed[..i], NotEmpty, ids, id);
        continue;
      }
      DeduplicatedAdd(trimmed[..i], NotEmpty, ids, id);
      seen := seen + {id};
      ids := ids + [id];
    }
    assert trimmed[..|values|] == trimmed;
    return Ok(ids);
  }

  /** `ListPublishedNavigations` refines asking for each distinct trimmed identifier in turn. */
  method ListPublishedNavigations(store: Store, scope: Option<string>, values: seq<string>, now: int)
    returns (r: Result<seq<Published>, Refusal>)
    ensures r.Err? <==> BadList(values)
    ensures r.Ok? ==> exists ids ::
      Deduplicated(TrimmedAll(values), NotEmpty, ids) && r.value == Successes(store, scope, ids, now)
  {
    hide BadList, Deduplicated, HasOpenGrant;
    var unique := UniqueApplicationIDs(values);
    if unique.Err? {
      return Err(unique.error);
    }
    var ids := unique.value;
    var active: map<string, bool> := map[];
    if scope.Some? {
      active := BatchActiveGrants(store, scope.value, ids, now);
    }
    var items: seq<Published> := [];
    for i := 0 to |ids|
      invariant items == Successes(store, scope, ids[..i], now)
    {
      var appId := ids[i];
      assert ids[..i + 1][..i] == ids[..i] && ids[..i + 1][i] == appId && appId in ids;
      if scope.Some? && !(appId in active && active[appId]) {
        continue;
      }
      if appId !in store.apps {
        continue;
      }
      var app := store.apps[appId];
      if app.published == 0 {
        continue;
      }
      if (appId, app.published) !in store.releases {
        continue;
      }
      items := items + [Published(appId, app, store.releases[(appId, app.published)])];
    }
    assert ids[..|ids|] == ids;
    return Ok(items);
  }

  /** `x` stands somewhere before `y`. */
  ghost predicate Precedes(ids: seq<string>, x: string, y: string) {
    exists a, b :: 0 <= a < b < |ids| && ids[a] == x && ids[b] == y
  }

  lemma PrecedesGrows(ids: seq<string>, last: string, x: string, y: string)
    ensures Precedes(ids, x, y) ==> Precedes(ids + [last], x, y)
    ensures x in ids ==> Precedes(ids + [last], x, last)
  {
    var more := ids + [last];
    if Precedes(ids, x, y) {
      var a, b :| 0 <= a < b < |ids| && ids[a] == x && ids[b] == y;
      assert more[a] == x && more[b] == y;
    }
    if x in ids {
      var a :| 0 <= a < |ids| && ids[a] == x;
      assert more[a] == x && more[|ids|] == last;
    }
  }

  /** The successes come from the identifiers, in their order. */
  lemma {:induction false} SuccessesFrom(store: Store, scope: Option<string>, ids: seq<string>, now: int)
    ensures forall one :: one in Successes(store, scope, ids, now) <==>
      one.appId in ids && Get(store, scope, one.appId, now) == Ok(one)
    ensures forall i, j :: 0 <= i < j < |Successes(store, scope, ids, now)| ==>
      Precedes(ids, Successes(store, scope, ids, now)[i].appId, Successes(store, scope, ids, now)[j].appId)
    decreases |ids|
  {
    hide HasOpenGrant, Precedes;
    if ids != [] {
      var n := |ids| - 1;
      var front, all := Successes(store, scope, ids[..n], now), Successes(store, scope, ids, now);
      SuccessesFrom(store, scope, ids[..n], now);
      assert ids == ids[..n] + [ids[n]];
      forall i, j | 0 <= i < j < |all|
        ensures Precedes(ids, all[i].appId, all[j].appId)
      {
        assert front[i] in front;
        PrecedesGrows(ids[..n], ids[n], all[i].appId, all[j].appId);
      }
    }
  }

  /**
   The batch returns exactly what `Get` returns for the requested identifiers for
   which it succeeds: none missing, none twice, in the order in which they were
   first requested.
   */
  lemma BatchIsExact(store: Store, scope: Option<string>, values: seq<string>, ids: seq<string>, now: int)
    requires !BadList(values) && Deduplicated(TrimmedAll(values), NotEmpty, ids)
    ensures var all := Successes(store, scope, ids, now);
            && (forall one :: one in all <==>
                 one.appId in TrimmedAll(values) && Get(store, scope, one.appId, now) == Ok(one))
            && (forall i, j, k, l ::
                  (0 <= i < j < |all| && FirstAt(TrimmedAll(values), all[i].appId, k) &&
                      FirstAt(TrimmedAll(values), all[j].appId, l))
                  ==> k < l)
            && (forall i, j :: 0 <= i < j < |all| ==> all[i].appId != all[j].appId)
  {
    hide TrimmedAll, Get, Successes, FirstAt;
    SuccessesFrom(store, scope, ids, now);
    var all := Successes(store, scope, ids, now);
    forall i, j | 0 <= i < j < |all|
      ensures all[i].appId != all[j].appId
      ensures forall k, l :: FirstAt(TrimmedAll(values), all[i].appId, k) &&
                             FirstAt(TrimmedAll(values), all[j].appId, l) ==>
                               k < l
    {
      assert Precedes(ids, all[i].appId, all[j].appId);
    }
  }

  // ----- what is read is what was published

  function StoreOf(db: Publication.Db, grants: map<Grants.Key, Grants.Grant>): Store {
    Store(db.apps, db.releases, grants)
  }

  /** A caller without a tenant reads exactly the release that the last effective commit has added. */
  lemma ReadAfterCommit(db: Publication.Db, p: Publication.Publisher, grants: map<Grants.Key, Grants.Grant>, now: int)
    requires Publication.DbValid(db) && p.MenusRead? && Publication.PublisherValid(db, p)
    requires Publication.Committed(db, p) != db
    ensures var after := Publication.Committed(db, p);
            p.appId in after.apps &&
            Get(StoreOf(after, grants), None, p.appId, now) == Ok(Published(p.appId, after.apps[p.appId], p.menus))
  {
    hide Publication.Publishable, Publication.PublishBody, Publication.Numbered, Publication.ReleaseValid;
    Publication.CommitOutcome(db, p);
    assert Publication.Numbered(db, p.appId) && db.apps[p.appId].published >= 0 by {
      PublishedNumber(db, p.appId);
    }
    hide Publication.Committed;
    Publication.CommitsIff(db, p);
  }

  lemma PublishedNumber(db: Publication.Db, id: string)
    requires Publication.DbValid(db) && id in db.apps
    ensures Publication.Numbered(db, id) && db.apps[id].published >= 0
    ensures forall n: int :: (id, n) in db.releases <==> 1 <= n <= db.apps[id].published
  {
    hide Publication.ReleaseValid, Publication.Identified;
    assert Publication.Numbered(db, id);
  }

  /**
   In every reachable state such a read succeeds exactly if something was published, and returns
   the newest release.
   */
  lemma ReadsNewestRelease(actions: seq<Publication.Action>, grants: map<Grants.Key, Grants.Grant>, id: string,
                           now: int)
    ensures var db := Publication.Run(Publication.Init(), actions).db;
            NewestRelease(db, id, Get(StoreOf(db, grants), None, id, now))
  {
    var db := Publication.Run(Publication.Init(), actions).db;
    Publication.InitInv();
    Publication.EveryRunPublishesInOrder(Publication.Init(), actions);
    hide Publication.Run, Publication.DbValid, Publication.PublisherValid, NewestRelease;
    NewestIsRead(db, grants, id, now);
  }

  /** A read without a tenant, compared with the stored releases. */
  ghost predicate NewestRelease(db: Publication.Db, id: string, r: Result<Published, Refusal>) {
    && (r.Ok? <==> exists n :: (id, n) in db.releases)
    && (r.Err? ==> r.error == NotFound)
    && (r.Ok? ==> exists n :: (id, n) in db.releases && r.value.menus == db.releases[(id, n)] &&
                              forall k :: (id, k) in db.releases ==> k <= n)
  }

  lemma NewestIsRead(db: Publication.Db, grants: map<Grants.Key, Grants.Grant>, id: string, now: int)
    requires Publication.DbValid(db)
    ensures NewestRelease(db, id, Get(StoreOf(db, grants), None, id, now))
  {
    hide Publication.ReleaseValid, Publication.Identified, Publication.Numbered;
    if id in db.apps {
      PublishedNumber(db, id);
      var n := db.apps[id].published;
      assert n > 0 ==> (id, n) in db.releases;
    } else {
      assert forall k :: k in db.releases ==> k.0 in db.apps;
      assert forall n :: (id, n) in db.releases ==> (id, n).0 in db.apps;
    }
  }

  /** Until the next publication of the application takes effect, every run leaves what is read. */
  lemma ReadUntilNextPublication(s: Publication.State, actions: seq<Publication.Action>,
                                 grants: map<Grants.Key, Grants.Grant>, id: string, now: int)
    requires Publication.Inv(s) && id in s.db.apps && s.db.apps[id].published > 0
    ensures var db := Publication.Run(s, actions).db;
            id in db.apps &&
            (db.apps[id].published == s.db.apps[id].published ==>
               var before, after := Get(StoreOf(s.db, grants), None, id, now), Get(StoreOf(db, grants), None, id, now);
               before.Ok? && after.Ok? && after.value.menus == before.value.menus)
  {
    hide Publication.Run, Publication.PublisherValid, Publication.ReleaseValid, Publication.Identified,
         Publication.Numbered;
    Publication.ReleasesAreImmutable(s, actions);
    PublishedNumber(s.db, id);
    assert (id, s.db.apps[id].published) in s.db.releases;
  }

  /**
   A caller bound to a tenant reads the same if the tenant holds an active grant inside its
   window, and nothing otherwise.
   */
  lemma ScopedReadIff(store: Store, tenant: string, id: string, now: int)
    ensures Get(store, Some(tenant), id, now) ==
      if (tenant, id) in store.grants && store.grants[(tenant, id)].status == "active" &&
         store.grants[(tenant, id)].validFrom <= now &&
         (store.grants[(tenant, id)].validUntil.None? || now < store.grants[(tenant, id)].validUntil.value)
      then Get(store, None, id, now) else Err(Forbidden)
  {
  }

  /**
   The batch holds each requested application that was published and that the caller may read,
   with its newest release.
   */
  lemma BatchServesNewest(actions: seq<Publication.Action>, grants: map<Grants.Key, Grants.Grant>,
                          scope: Option<string>,
                          values: seq<string>, ids: seq<string>, now: int, id: string)
    requires !BadList(values) && Deduplicated(TrimmedAll(values), NotEmpty, ids)
    ensures var db := Publication.Run(Publication.Init(), actions).db;
            var all := Successes(StoreOf(db, grants), scope, ids, now);
            && ((exists one :: one in all && one.appId == id) <==>
                  id in TrimmedAll(values) && (exists n :: (id, n) in db.releases) &&
                  (scope.Some? ==> HasOpenGrant(StoreOf(db, grants), scope.value, id, now)))
            && forall one :: one in all && one.appId == id ==>
                 exists n :: (id, n) in db.releases && one.menus == db.releases[(id, n)] &&
                             forall k :: (id, k) in db.releases ==> k <= n
  {
    var db := Publication.Run(Publication.Init(), actions).db;
    var store := StoreOf(db, grants);
    var all := Successes(store, scope, ids, now);
    ReadsNewestRelease(actions, grants, id, now);
    BatchIsExact(store, scope, values, ids, now);
    var r := Get(store, scope, id, now);
    assert r == if scope.None? || HasOpenGrant(store, scope.value, id, now) then Get(store, None, id, now)
        else Err(Forbidden);
    assert r.Ok? ==> r.value.appId == id;
    hide Get, Successes, TrimmedAll, HasOpenGrant, Publication.Run, StoreOf, Deduplicated, FirstAt;
    if id in TrimmedAll(values) && r.Ok? {
      assert r.value in all;
    }
  }
}
