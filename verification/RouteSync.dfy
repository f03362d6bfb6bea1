/** What a service's announcement of its routes does to the route table. */
module RouteSync {
  import opened PolicyTables

  predicate IsActive(row: Route) { row.status == "active" && !row.deleted }

  function RowOf(r: RouteInput): Route {
    Route(r.protocol, r.verb, r.path, r.operation, r.description, r.service, r.sourceVersion, "active", false)
  }

  /** The announced routes by identifier, the last announcement winning. */
  function Announced(listed: seq<RouteInput>): (r: map<string, RouteInput>)
    ensures forall id :: id in r ==> r[id] in listed && r[id].id == id
    ensures forall x :: x in listed ==> x.id in r
    decreases |listed|
  {
    if listed == [] then map[]
    else
      var n := |listed| - 1;
      assert listed == listed[..n] + [listed[n]];
      Announced(listed[..n])[listed[n].id := listed[n]]
  }

  lemma AnnouncedNext(listed: seq<RouteInput>, i: nat)
    requires i < |listed|
    ensures Announced(listed[..i + 1]) == Announced(listed[..i])[listed[i].id := listed[i]]
  {
    assert listed[..i + 1][..i] == listed[..i] && listed[..i + 1][i] == listed[i];
  }

  lemma NothingAnnounced(listed: seq<RouteInput>)
    ensures Announced(listed[..0]) == map[]
  {
  }

  lemma AnnouncedBefore(listed: seq<RouteInput>, i: nat)
    requires i <= |listed|
    ensures forall id :: id in Announced(listed[..i]) ==> exists j :: 0 <= j < i && listed[j].id == id
  {
    forall id | id in Announced(listed[..i])
      ensures exists j :: 0 <= j < i && listed[j].id == id
    {
      var j :| 0 <= j < i && listed[..i][j] == Announced(listed[..i])[id];
      assert listed[j].id == id;
    }
  }

  /** The first statement: the active routes of one service and protocol become inactive. */
  function Deactivated(row: Route, service: string, protocol: string): Route {
    if IsActive(row) && row.service == service && row.protocol == protocol then row.(status := "inactive") else row
  }

  /** The first `listed` announcements are carried out. */
  ghost predicate Synced(before: map<string, Route>, after: map<string, Route>, service: string, protocol: string,
                         announced: map<string, RouteInput>)
  {
    && after.Keys == before.Keys + announced.Keys
    && forall id :: id in after ==>
         after[id] == if id in announced then RowOf(announced[id]) else Deactivated(before[id], service, protocol)
  }

  /** The announced identifier belongs to a deleted row. */
  predicate NamesDeleted(routes: map<string, Route>, r: RouteInput) {
    r.id in routes && routes[r.id].deleted
  }

  /** Some announcement names a deleted row. */
  ghost predicate Refused(routes: map<string, Route>, listed: seq<RouteInput>) {
    listed == [] || exists i :: 0 <= i < |listed| && NamesDeleted(routes, listed[i])
  }

  /** The first `i` announcements are carried out, and none of them named a deleted row. */
  ghost predicate SyncedUpTo(before: map<string, Route>, tx: map<string, Route>, listed: seq<RouteInput>, i: nat)
    requires 0 < |listed| && i <= |listed|
  {
    Synced(before, tx, listed[0].service, listed[0].protocol, Announced(listed[..i])) &&
    forall j :: 0 <= j < i ==> !NamesDeleted(before, listed[j])
  }

  lemma SyncStart(before: map<string, Route>, tx: map<string, Route>, listed: seq<RouteInput>)
    requires listed != [] && tx.Keys == before.Keys
    requires forall id :: id in before ==> tx[id] == Deactivated(before[id], listed[0].service, listed[0].protocol)
    ensures SyncedUpTo(before, tx, listed, 0)
  {
    NothingAnnounced(listed);
  }

  lemma SyncStep(before: map<string, Route>, tx: map<string, Route>, listed: seq<RouteInput>, i: nat)
    requires i < |listed| && SyncedUpTo(before, tx, listed, i)
    ensures listed[i].id in tx && tx[listed[i].id].deleted ==> Refused(before, listed)
    ensures !(listed[i].id in tx && tx[listed[i].id].deleted) ==>
      SyncedUpTo(before, tx[listed[i].id := RowOf(listed[i])], listed, i + 1)
  {
    hide Announced, Synced;
    var service, protocol, announced := listed[0].service, listed[0].protocol, Announced(listed[..i]);
    AnnouncedBefore(listed, i);
    AnnouncedNext(listed, i);
    SyncOne(before, tx, service, protocol, announced, listed[i]);
  }

  /** One announcement; the row that it meets is deleted only if it was so from the start. */
  lemma SyncOne(before: map<string, Route>, tx: map<string, Route>, service: string, protocol: string,
                announced: map<string, RouteInput>, r: RouteInput)
    requires Synced(before, tx, service, protocol, announced)
    ensures Synced(before, tx[r.id := RowOf(r)], service, protocol, announced[r.id := r])
    ensures r.id in tx && tx[r.id].deleted <==> NamesDeleted(before, r) && r.id !in announced
  {
  }

  lemma SyncEnd(before: map<string, Route>, tx: map<string, Route>, listed: seq<RouteInput>)
    requires listed != [] && SyncedUpTo(before, tx, listed, |listed|)
    ensures Synced(before, tx, listed[0].service, listed[0].protocol, Announced(listed)) && !Refused(before, listed)
  {
    assert listed[..|listed|] == listed;
  }

  /** No later announcement has the identifier. */
  ghost predicate IsLast(listed: seq<RouteInput>, i: nat) {
    i < |listed| && forall j :: i < j < |listed| ==> listed[j].id != listed[i].id
  }

  /** The last announcement of an identifier is the one that counts. */
  lemma {:induction false} LastCounts(listed: seq<RouteInput>, i: nat)
    requires IsLast(listed, i)
    ensures listed[i].id in Announced(listed) && Announced(listed)[listed[i].id] == listed[i]
    decreases |listed|
  {
    var n := |listed| - 1;
    assert listed == listed[..n] + [listed[n]];
    if i < n {
      LastCounts(listed[..n], i);
    }
  }

  /** An announced route is stored field by field as it was announced last. */
  lemma StoredAfterSync(before: map<string, Route>, after: map<string, Route>, listed: seq<RouteInput>, i: nat)
    requires IsLast(listed, i)
    requires Synced(before, after, listed[0].service, listed[0].protocol, Announced(listed))
    ensures var r := listed[i];
            r.id in after &&
            after[r.id] == Route(r.protocol, r.verb, r.path, r.operation, r.description, r.service, r.sourceVersion,
                                 "active", false)
  {
    LastCounts(listed, i);
    hide Announced;
  }

  /** A route that was not announced keeps everything but perhaps its status. */
  lemma KeptAfterSync(before: map<string, Route>, after: map<string, Route>, listed: seq<RouteInput>, id: string)
    requires listed != [] && Synced(before, after, listed[0].service, listed[0].protocol, Announced(listed))
    requires forall r :: r in listed ==> r.id != id
    ensures id in after <==> id in before
    ensures id in after && after[id] != before[id] ==>
              before[id].status == "active" && !before[id].deleted && after[id] == before[id].(status := "inactive")
  {
    assert id !in Announced(listed);
    hide Announced;
  }

  /**
   Exactly the announced routes are active, and of the others those that were active for another
   service or protocol.
   */
  lemma ActiveAfterSync(before: map<string, Route>, after: map<string, Route>, listed: seq<RouteInput>, id: string)
    requires listed != [] && Synced(before, after, listed[0].service, listed[0].protocol, Announced(listed))
    ensures id in after && IsActive(after[id]) <==>
      (exists r :: r in listed && r.id == id) ||
      (id in before && IsActive(before[id]) &&
          !(before[id].service == listed[0].service && before[id].protocol == listed[0].protocol))
  {
  }

  /**
   Where a route has the identifier that names its identity, no two live routes share an
   identity: the unique index holds.
   */
  ghost predicate NamedByIdentity(routes: map<string, Route>, name: (string, string, string, string) -> string) {
    forall id :: id in routes && !routes[id].deleted ==>
      id == name(routes[id].service, routes[id].protocol, routes[id].verb, routes[id].path)
  }

  lemma SyncKeepsIdentities(before: map<string, Route>, after: map<string, Route>, listed: seq<RouteInput>,
                            name: (string, string, string, string) -> string)
    requires listed != [] && Synced(before, after, listed[0].service, listed[0].protocol, Announced(listed))
    requires NamedByIdentity(before, name)
    requires forall r :: r in listed ==> r.id == name(r.service, r.protocol, r.verb, r.path)
    ensures NamedByIdentity(after, name)
    ensures forall i, j :: i in after && j in after && !after[i].deleted && !after[j].deleted &&
                           SameIdentity(after[i], after[j]) ==>
                             i == j
  {
  }

  predicate SameIdentity(a: Route, b: Route) {
    a.service == b.service && a.protocol == b.protocol && a.verb == b.verb && a.path == b.path
  }

  /** Announcing the same routes again changes nothing. */
  lemma SyncTwice(before: map<string, Route>, once: map<string, Route>, twice: map<string, Route>,
                  listed: seq<RouteInput>)
    requires listed != [] && Synced(before, once, listed[0].service, listed[0].protocol, Announced(listed))
    requires Synced(once, twice, listed[0].service, listed[0].protocol, Announced(listed))
    ensures twice == once
  {
    forall id | id in once
      ensures twice[id] == once[id]
    {
      if id !in Announced(listed) {
        DeactivatedTwice(before[id], listed[0].service, listed[0].protocol);
      }
    }
  }

  lemma DeactivatedTwice(row: Route, service: string, protocol: string)
    ensures Deactivated(Deactivated(row, service, protocol), service, protocol) == Deactivated(row, service, protocol)
  {
  }
}
