/**
 Granting applications to tenants while everything else goes on: every operation
 reads in one or two steps and commits in a later one, and the commit may fail at
 any of its statements.
 */
module Grants {
  import opened Wrappers
  import opened Text
  import opened Transactions
  import opened Replay

  /** A tenant and an application. */
  type Key = (string, string)

  /** `named` records the version that came with the current name. */
  datatype App = App(name: string, version: int, named: int)

  function Renamed(name: string, version: int): App { App(name, version, version) }

  datatype Grant = Grant(id: string, status: string, validFrom: int, validUntil: Option<int>,
                         source: string, entitlements: string, version: int)

  /** An outbox event; documents carry the two versions that their source version packs. */
  datatype Event =
    | GrantChanged(key: Key, grant: Grant)
    | DocumentUpserted(key: Key, title: string, appVersion: int, grantVersion: int)
    | DocumentDeleted(key: Key, appVersion: int, grantVersion: int)

  datatype Db = Db(apps: map<string, App>, grants: map<Key, Grant>, outbox: seq<Event>)

  /** What the caller of `Grant` sends, with the clock reading and the new identifier that the service adds. */
  datatype Request = Request(from: Option<int>, until: Option<int>, source: string, entitlements: string,
                             wellFormed: bool, expected: int, now: int, newId: string)

  /** An operation between two of its steps, with the copies that it has read. */
  datatype Pending =
    | GrantAppRead(key: Key, app: App, request: Request)
    | GrantRead(key: Key, app: App, request: Request, current: Option<Grant>)
    | RevokeGrantRead(key: Key, grant: Grant, expected: int)
    | RevokeRead(key: Key, grant: Grant, app: App, expected: int)
    | UpdateRead(appId: string, app: App, name: string, expected: int)

  datatype State = State(db: Db, pending: map<nat, Pending>)

  datatype Action =
    | CreateApp(id: string, name: string)
    | PublishApp(id: string, expected: int)
    | BeginGrant(pid: nat, tenantId: string, appId: string, request: Request)
    | ReadGrant(pid: nat)
    | BeginRevoke(pid: nat, tenantId: string, appId: string, expected: int)
    | ReadApp(pid: nat)
    | BeginUpdate(pid: nat, appId: string, name: string, expected: int)
    | Commit(pid: nat, budget: nat, now: int, tenants: seq<string>)

  // ----- statements

  /** Outbox inserts, one after the other; only the first `budget` of them succeed. */
  function AddEvents(db: Db, events: seq<Event>, budget: nat): Result<Db, Failure>
    decreases |events|
  {
    if events == [] then Ok(db)
    else if budget == 0 then Err(Refused)
    else AddEvents(db.(outbox := db.outbox + [events[0]]), events[1..], budget - 1)
  }

  /** The pair of tenant and application is unique. */
  function CreateGrant(db: Db, key: Key, grant: Grant): Result<Db, Failure> {
    if key in db.grants then Err(Duplicate) else Ok(db.(grants := db.grants[key := grant]))
  }

  /** Compare and set on the identifier and the version. */
  function UpdateGrant(db: Db, key: Key, grant: Grant, expected: int): Result<Db, Failure> {
    if key in db.grants && db.grants[key].id == grant.id && db.grants[key].version == expected then
      Ok(db.(grants := db.grants[key := grant.(version := expected + 1)]))
    else Err(Stale)
  }

  function UpdateApp(db: Db, id: string, name: string, expected: int): Result<Db, Failure> {
    if id in db.apps && db.apps[id].version == expected then
      Ok(db.(apps := db.apps[id := Renamed(name, expected + 1)]))
    else Err(Stale)
  }

  // ----- Grant

  function DefaultJson(text: string): string {
    if TrimSpace(text) == "" then "{}" else TrimSpace(text)
  }

  /** The start of the window: the one that was sent, or now. */
  function From(r: Request): int {
    if r.from.Some? then r.from.value else r.now
  }

  /** The checks of `Grant`, on what it read. */
  predicate GrantAccepted(r: Request, current: Option<Grant>) {
    && r.wellFormed
    && (r.until.Some? ==> From(r) < r.until.value)
    && (if current.None? then r.expected == 0 else r.expected >= 1)
  }

  /** The row that `Grant` writes: everything but the identifier comes from the request. */
  function Granted(r: Request, current: Option<Grant>): Grant {
    var id := if current.Some? then current.value.id else r.newId;
    var version := if current.Some? then r.expected + 1 else 1;
    Grant(id, "active", From(r), r.until, TrimSpace(r.source), DefaultJson(r.entitlements), version)
  }

  function GrantEvents(key: Key, app: App, grant: Grant): seq<Event> {
    [GrantChanged(key, grant), DocumentUpserted(key, app.name, app.version, grant.version)]
  }

  function GrantBody(db: Db, p: Pending, budget: nat): Result<Db, Failure>
    requires p.GrantRead?
  {
    var grant := Granted(p.request, p.current);
    if !GrantAccepted(p.request, p.current) then Err(Refused)
    else
      match (if p.current.None? then CreateGrant(db, p.key, grant)
          else UpdateGrant(db, p.key, grant, p.request.expected))
      case Err(e) => Err(e)
      case Ok(written) => AddEvents(written, GrantEvents(p.key, p.app, grant), budget)
  }

  // ----- Revoke

  function Revoked(grant: Grant, expected: int): Grant {
    grant.(status := "revoked", version := expected + 1)
  }

  function RevokeEvents(key: Key, app: App, grant: Grant): seq<Event> {
    [GrantChanged(key, grant), DocumentDeleted(key, app.version, grant.version)]
  }

  function RevokeBody(db: Db, p: Pending, budget: nat): Result<Db, Failure>
    requires p.RevokeRead?
  {
    var grant := Revoked(p.grant, p.expected);
    match UpdateGrant(db, p.key, grant, p.expected)
    case Err(e) => Err(e)
    case Ok(written) => AddEvents(written, RevokeEvents(p.key, p.app, grant), budget)
  }

  // ----- UpdateApplication

  /** Active, and inside its window. */
  predicate Open(grant: Grant, now: int) {
    grant.status == "active" && grant.validFrom <= now && (grant.validUntil.Some? ==> now < grant.validUntil.value)
  }

  /** `ListActiveGrantsByApplication`: each tenant with an open grant, once. */
  ghost predicate Lists(tenants: seq<string>, db: Db, appId: string, now: int) {
    && Distinct(tenants)
    && (forall t :: t in tenants ==> (t, appId) in db.grants && Open(db.grants[(t, appId)], now))
    && forall k :: k in db.grants && k.1 == appId && Open(db.grants[k], now) ==> k.0 in tenants
  }

  function UpdateEvents(db: Db, appId: string, app: App, tenants: seq<string>): seq<Event>
    requires forall t :: t in tenants ==> (t, appId) in db.grants
  {
    seq(|tenants|, i requires 0 <= i < |tenants| =>
      DocumentUpserted((tenants[i], appId), app.name, app.version, db.grants[(tenants[i], appId)].version))
  }

  ghost function UpdateBody(db: Db, p: Pending, budget: nat, now: int, tenants: seq<string>): Result<Db, Failure>
    requires p.UpdateRead?
  {
    match UpdateApp(db, p.appId, p.name, p.expected)
    case Err(e) => Err(e)
    case Ok(written) =>
      if Lists(tenants, written, p.appId, now) then
        AddEvents(written, UpdateEvents(written, p.appId, Renamed(p.name, p.expected + 1), tenants), budget)
      else Err(Refused)
  }

  // ----- the machine

  predicate Ready(p: Pending) {
    p.GrantRead? || p.RevokeRead? || p.UpdateRead?
  }

  ghost function Committed(db: Db, p: Pending, budget: nat, now: int, tenants: seq<string>): Db
    requires Ready(p)
  {
    Within(db, (d: Db) => match p
                          case GrantRead(_, _, _, _) => GrantBody(d, p, budget)
                          case RevokeRead(_, _, _, _) => RevokeBody(d, p, budget)
                          case UpdateRead(_, _, _, _) => UpdateBody(d, p, budget, now, tenants)
                          case _ => Err(Refused))
  }

  ghost function NextDb(s: State, a: Action): Db {
    match a
    case CreateApp(id, name) => if id in s.db.apps then s.db else s.db.(apps := s.db.apps[id := Renamed(name, 1)])
    case PublishApp(id, expected) =>
      if id in s.db.apps && s.db.apps[id].version == expected then
        s.db.(apps := s.db.apps[id := s.db.apps[id].(version := expected + 1)])
      else s.db
    case Commit(pid, budget, now, tenants) =>
      if pid in s.pending && Ready(s.pending[pid]) then Committed(s.db, s.pending[pid], budget, now, tenants) else s.db
    case _ => s.db
  }

  function NextPending(s: State, a: Action): map<nat, Pending> {
    match a
    case BeginGrant(pid, tenantId, appId, request) =>
      var key := (TrimSpace(tenantId), TrimSpace(appId));
      if pid in s.pending || key.0 == "" || key.1 == "" || key.1 !in s.db.apps then s.pending
      else s.pending[pid := GrantAppRead(key, s.db.apps[key.1], request)]
    case ReadGrant(pid) =>
      if pid in s.pending && s.pending[pid].GrantAppRead? then
        var p := s.pending[pid];
        s.pending[pid := GrantRead(p.key, p.app, p.request, if p.key in s.db.grants then Some(s.db.grants[p.key])
            else None)]
      else s.pending
    case BeginRevoke(pid, tenantId, appId, expected) =>
      var key := (tenantId, appId);
      if pid in s.pending || key !in s.db.grants then s.pending
      else s.pending[pid := RevokeGrantRead(key, s.db.grants[key], expected)]
    case ReadApp(pid) =>
      if pid in s.pending && s.pending[pid].RevokeGrantRead? && s.pending[pid].key.1 in s.db.apps then
        var p := s.pending[pid];
        s.pending[pid := RevokeRead(p.key, p.grant, s.db.apps[p.key.1], p.expected)]
      else s.pending
    case BeginUpdate(pid, appId, name, expected) =>
      if pid in s.pending || appId !in s.db.apps || expected < 1 then s.pending
      else s.pending[pid := UpdateRead(appId, s.db.apps[appId], name, expected)]
    case Commit(pid, _, _, _) =>
      if pid in s.pending && Ready(s.pending[pid]) then s.pending - {pid} else s.pending
    case _ => s.pending
  }

  ghost function Next(s: State, a: Action): State {
    State(NextDb(s, a), NextPending(s, a))
  }

  ghost function Run(s: State, actions: seq<Action>): State
    decreases |actions|
  {
    if actions == [] then s else Run(Next(s, actions[0]), actions[1..])
  }

  function Init(): State {
    State(Db(map[], map[], []), map[])
  }

  // ----- the events of one grant

  /** The rows that the grant-changed events of one grant carry, oldest first. */
  function Changes(outbox: seq<Event>, key: Key): seq<Grant>
    decreases |outbox|
  {
    if outbox == [] then []
    else
      var e := outbox[|outbox| - 1];
      Changes(outbox[..|outbox| - 1], key) + if e.GrantChanged? && e.key == key then [e.grant] else []
  }

  /** Versions 1, 2, … without gap or repeat, one identifier, and the last event carries the stored row. */
  ghost predicate Recorded(db: Db, key: Key) {
    var h := Changes(db.outbox, key);
    && (h == [] <==> key !in db.grants)
    && (h != [] ==> h[|h| - 1] == db.grants[key])
    && forall i :: 0 <= i < |h| ==> h[i].version == i + 1 && h[i].id == db.grants[key].id
  }

  ghost predicate Inv(db: Db) {
    forall key: Key :: Recorded(db, key)
  }

  lemma InitInv()
    ensures Inv(Init().db)
  {
  }

  /** Adding one event. */
  lemma ChangesAdd(outbox: seq<Event>, e: Event, key: Key)
    ensures Changes(outbox + [e], key) == Changes(outbox, key) + if e.GrantChanged? && e.key == key then [e.grant]
      else []
  {
    assert (outbox + [e])[..|outbox|] == outbox;
  }

  lemma {:induction false} ChangesSkip(outbox: seq<Event>, events: seq<Event>, key: Key)
    requires forall e :: e in events ==> !e.GrantChanged? || e.key != key
    ensures Changes(outbox + events, key) == Changes(outbox, key)
    decreases |events|
  {
    if events == [] {
      assert outbox + events == outbox;
    } else {
      var last := events[|events| - 1];
      ChangesSkip(outbox, events[..|events| - 1], key);
      assert outbox + events == outbox + events[..|events| - 1] + [last];
      ChangesAdd(outbox + events[..|events| - 1], last, key);
    }
  }

  /** The inserts of one transaction succeed together or fail together. */
  lemma {:induction false} AddEventsOutcome(db: Db, events: seq<Event>, budget: nat)
    ensures AddEvents(db, events, budget) == if |events| <= budget then Ok(db.(outbox := db.outbox + events))
      else Err(Refused)
    decreases |events|
  {
    if events == [] {
      assert db.outbox + events == db.outbox;
      match db { case Db(_, _, _) => }
    } else if budget > 0 {
      AddEventsOutcome(db.(outbox := db.outbox + [events[0]]), events[1..], budget - 1);
      assert db.outbox + [events[0]] + events[1..] == db.outbox + events;
    }
  }

  // ----- what a commit does

  /** Exactly when a `Grant` commits: its checks pass, nobody was faster, and both events are written. */
  predicate GrantTakesEffect(db: Db, p: Pending, budget: nat)
    requires p.GrantRead?
  {
    && GrantAccepted(p.request, p.current) && budget >= 2
    && (if p.current.None? then p.key !in db.grants
        else p.key in db.grants && db.grants[p.key].id == p.current.value.id &&
             db.grants[p.key].version == p.request.expected)
  }

  predicate RevokeTakesEffect(db: Db, p: Pending, budget: nat)
    requires p.RevokeRead?
  {
    budget >= 2 && p.key in db.grants && db.grants[p.key].id == p.grant.id && db.grants[p.key].version == p.expected
  }

  ghost predicate UpdateTakesEffect(db: Db, p: Pending, budget: nat, now: int, tenants: seq<string>)
    requires p.UpdateRead?
  {
    && p.appId in db.apps && db.apps[p.appId].version == p.expected
    && Lists(tenants, db, p.appId, now) && |tenants| <= budget
  }

  /** The row and the events of a `Grant` are committed together or not at all. */
  lemma GrantOutcome(db: Db, p: Pending, budget: nat, now: int, tenants: seq<string>)
    requires p.GrantRead?
    ensures var grant := Granted(p.request, p.current);
            Committed(db, p, budget, now, tenants) ==
              if GrantTakesEffect(db, p, budget) then
                Db(db.apps, db.grants[p.key := grant], db.outbox + GrantEvents(p.key, p.app, grant))
              else db
  {
    hide TrimSpace, DefaultJson, From;
    var grant := Granted(p.request, p.current);
    match grant { case Grant(_, _, _, _, _, _, _) => }
    var written := db.(grants := db.grants[p.key := grant]);
    AddEventsOutcome(written, GrantEvents(p.key, p.app, grant), budget);
  }

  /**
   Exactly when a first grant is stored, and what it is: the entitlements are well
   formed, the caller expected none, the window has some time in it, and both events
   are written.
   */
  lemma FirstGrantIff(db: Db, p: Pending, budget: nat, now: int, tenants: seq<string>)
    requires p.GrantRead? && p.current.None? && p.key !in db.grants
    ensures var r, after := p.request, Committed(db, p, budget, now, tenants);
            var start := if r.from.Some? then r.from.value else r.now;
            && (p.key in after.grants <==>
                  r.wellFormed && r.expected == 0 && budget >= 2 && (r.until.Some? ==> start < r.until.value))
            && (p.key in after.grants ==>
                  && after.grants[p.key] == Grant(r.newId, "active", start, r.until, TrimSpace(r.source),
                                                  StoredJson(r.entitlements), 1)
                  && after.grants == db.grants[p.key := after.grants[p.key]] && after.apps == db.apps
                  && after.outbox == db.outbox + [GrantChanged(p.key, after.grants[p.key]),
                                                  DocumentUpserted(p.key, p.app.name, p.app.version, 1)])
            && (p.key !in after.grants ==> after == db)
  {
    hide TrimSpace, DefaultJson, Committed;
    GrantOutcome(db, p, budget, now, tenants);
    StoredJsonIs(p.request.entitlements);
  }

  /** Missing entitlements are stored as an empty JSON object. */
  function StoredJson(text: string): string {
    var trimmed := TrimSpace(text);
    if |trimmed| > 0 then trimmed else ['{', '}']
  }

  lemma StoredJsonIs(text: string)
    ensures DefaultJson(text) == StoredJson(text)
  {
    hide TrimSpace;
  }

  /** The same for a renewal: it keeps the identifier, names the stored version and is stored with the next one. */
  lemma RenewalIff(db: Db, p: Pending, budget: nat, now: int, tenants: seq<string>)
    requires p.GrantRead? && p.current.Some? && p.key in db.grants && db.grants[p.key].id == p.current.value.id
    requires db.grants[p.key].version >= 1
    ensures var r, was, after := p.request, db.grants[p.key], Committed(db, p, budget, now, tenants);
            var start := if r.from.Some? then r.from.value else r.now;
            if r.wellFormed && r.expected == was.version && budget >= 2 &&
                (r.until.Some? ==> start < r.until.value) then
              && p.key in after.grants
              && after.grants[p.key] == Grant(was.id, "active", start, r.until, TrimSpace(r.source),
                                              StoredJson(r.entitlements), was.version + 1)
              && after.grants == db.grants[p.key := after.grants[p.key]] && after.apps == db.apps
              && after.outbox == db.outbox + [GrantChanged(p.key, after.grants[p.key]),
                                              DocumentUpserted(p.key, p.app.name, p.app.version, was.version + 1)]
            else after == db
  {
    hide TrimSpace, DefaultJson, Committed;
    GrantOutcome(db, p, budget, now, tenants);
    StoredJsonIs(p.request.entitlements);
  }

  lemma RevokeOutcome(db: Db, p: Pending, budget: nat, now: int, tenants: seq<string>)
    requires p.RevokeRead?
    ensures var grant := Revoked(p.grant, p.expected);
            Committed(db, p, budget, now, tenants) ==
              if RevokeTakesEffect(db, p, budget) then
                Db(db.apps, db.grants[p.key := grant], db.outbox + RevokeEvents(p.key, p.app, grant))
              else db
  {
    var grant := Revoked(p.grant, p.expected);
    match grant { case Grant(_, _, _, _, _, _, _) => }
    var written := db.(grants := db.grants[p.key := grant]);
    AddEventsOutcome(written, RevokeEvents(p.key, p.app, grant), budget);
  }

  /** Exactly when a revocation commits: the grant is at the version that was named, and both events are written. */
  lemma RevocationIff(db: Db, p: Pending, budget: nat, now: int, tenants: seq<string>)
    requires p.RevokeRead?
    ensures Committed(db, p, budget, now, tenants) ==
      if p.key in db.grants && db.grants[p.key].id == p.grant.id && db.grants[p.key].version == p.expected &&
          budget >= 2 then
        var grant := p.grant.(status := "revoked", version := p.expected + 1);
        Db(db.apps, db.grants[p.key := grant],
           db.outbox + [GrantChanged(p.key, grant), DocumentDeleted(p.key, p.app.version, p.expected + 1)])
      else db
  {
    hide Committed;
    RevokeOutcome(db, p, budget, now, tenants);
  }

  lemma UpdateOutcome(db: Db, p: Pending, budget: nat, now: int, tenants: seq<string>)
    requires p.UpdateRead?
    ensures var app := Renamed(p.name, p.expected + 1);
            UpdateTakesEffect(db, p, budget, now, tenants) ==>
              Committed(db, p, budget, now, tenants) ==
                Db(db.apps[p.appId := app], db.grants, db.outbox + UpdateEvents(db, p.appId, app, tenants))
    ensures !UpdateTakesEffect(db, p, budget, now, tenants) ==> Committed(db, p, budget, now, tenants) == db
  {
    hide Distinct;
    if p.appId in db.apps && db.apps[p.appId].version == p.expected {
      var app := Renamed(p.name, p.expected + 1);
      var written := db.(apps := db.apps[p.appId := app]);
      assert Lists(tenants, written, p.appId, now) <==> Lists(tenants, db, p.appId, now);
      if Lists(tenants, db, p.appId, now) {
        assert UpdateEvents(written, p.appId, app, tenants) == UpdateEvents(db, p.appId, app, tenants);
        AddEventsOutcome(written, UpdateEvents(written, p.appId, app, tenants), budget);
        assert |UpdateEvents(written, p.appId, app, tenants)| == |tenants|;
      }
    }
  }

  /** An accepted grant is open exactly from its start to its end, which leaves it some time; a revoked one never is. */
  lemma GrantOpensItsWindow(r: Request, current: Option<Grant>, now: int)
    requires GrantAccepted(r, current)
    ensures var start := if r.from.Some? then r.from.value else r.now;
            && (Open(Granted(r, current), now) <==> start <= now && (r.until.Some? ==> now < r.until.value))
            && Open(Granted(r, current), start)
            && !Open(Revoked(Granted(r, current), r.expected), now)
  {
    hide TrimSpace, DefaultJson;
  }

  /** Renewing with what is stored changes only the version. */
  lemma RenewalRoundTrip(g: Grant, now: int, newId: string)
    requires g.status == "active" && g.version >= 1
    requires TrimSpace(g.source) == g.source && TrimSpace(g.entitlements) == g.entitlements && g.entitlements != ""
    ensures var r := Request(Some(g.validFrom), g.validUntil, g.source, g.entitlements, true, g.version, now, newId);
            Granted(r, Some(g)) == g.(version := g.version + 1)
  {
    hide TrimSpace;
    match g { case Grant(_, _, _, _, _, _, _) => }
  }

  // ----- what every step keeps

  lemma WriteAddsChange(outbox: seq<Event>, change: Event, document: Event, k: Key)
    requires change.GrantChanged? && !document.GrantChanged?
    ensures Changes(outbox + [change, document], k) == Changes(outbox, k) + if change.key == k then [change.grant]
      else []
  {
    ChangesAdd(outbox, change, k);
    ChangesAdd(outbox + [change], document, k);
    assert outbox + [change, document] == outbox + [change] + [document];
  }

  lemma WriteKeepsRecorded(db: Db, key: Key, grant: Grant, document: Event, k: Key)
    requires Recorded(db, key) && Recorded(db, k) && !document.GrantChanged?
    requires grant.version == if key in db.grants then db.grants[key].version + 1 else 1
    requires key in db.grants ==> grant.id == db.grants[key].id
    ensures Recorded(Db(db.apps, db.grants[key := grant], db.outbox + [GrantChanged(key, grant), document]), k)
  {
    hide Changes;
    WriteAddsChange(db.outbox, GrantChanged(key, grant), document, k);
  }

  lemma UpdateKeepsRecorded(db: Db, appId: string, app: App, tenants: seq<string>, now: int, k: Key)
    requires Lists(tenants, db, appId, now) && Recorded(db, k)
    ensures Recorded(Db(db.apps[appId := app], db.grants, db.outbox + UpdateEvents(db, appId, app, tenants)), k)
  {
    hide Distinct, Open, Changes;
    ChangesSkip(db.outbox, UpdateEvents(db, appId, app, tenants), k);
  }

  /** Every step keeps the record of every grant, whatever happened between its reads and its commit. */
  lemma StepKeepsInv(s: State, a: Action)
    requires Inv(s.db)
    ensures Inv(NextDb(s, a))
  {
    hide Changes, Lists, Committed, Granted, UpdateEvents;
    var t := NextDb(s, a);
    if a.Commit? && a.pid in s.pending && Ready(s.pending[a.pid]) {
      var p := s.pending[a.pid];
      forall k: Key
        ensures Recorded(t, k)
      {
        assert Recorded(s.db, k);
        match p
        case GrantRead(key, app, request, current) =>
          GrantOutcome(s.db, p, a.budget, a.now, a.tenants);
          if GrantTakesEffect(s.db, p, a.budget) {
            GrantedFacts(request, current);
            assert Recorded(s.db, key);
            var grant := Granted(request, current);
            WriteKeepsRecorded(s.db, key, grant, DocumentUpserted(key, app.name, app.version, grant.version), k);
          }
        case RevokeRead(key, grant, app, expected) =>
          RevokeOutcome(s.db, p, a.budget, a.now, a.tenants);
          if RevokeTakesEffect(s.db, p, a.budget) {
            assert Recorded(s.db, key);
            WriteKeepsRecorded(s.db, key, Revoked(grant, expected), DocumentDeleted(key, app.version, expected + 1), k);
          }
        case UpdateRead(appId, _, name, expected) =>
          UpdateOutcome(s.db, p, a.budget, a.now, a.tenants);
          if UpdateTakesEffect(s.db, p, a.budget, a.now, a.tenants) {
            UpdateKeepsRecorded(s.db, appId, Renamed(name, expected + 1), a.tenants, a.now, k);
          }
      }
    } else {
      assert t.outbox == s.db.outbox && t.grants == s.db.grants;
      assert forall k: Key :: Recorded(s.db, k) ==> Recorded(t, k);
    }
  }

  lemma GrantedFacts(r: Request, current: Option<Grant>)
    ensures var g := Granted(r, current);
            && g.status == "active" && g.version == (if current.Some? then r.expected + 1 else 1)
            && g.id == (if current.Some? then current.value.id else r.newId)
  {
    hide TrimSpace, DefaultJson, From;
  }

  // ----- whole runs

  lemma {:induction false} EveryRunRecords(s: State, actions: seq<Action>)
    requires Inv(s.db)
    ensures Inv(Run(s, actions).db)
    decreases |actions|
  {
    hide NextDb, NextPending, Inv;
    if actions != [] {
      StepKeepsInv(s, actions[0]);
      EveryRunRecords(Next(s, actions[0]), actions[1..]);
    }
  }

  function ByVersion(rows: seq<Grant>): seq<Versioned<Grant>> {
    seq(|rows|, i requires 0 <= i < |rows| => Versioned(rows[i].version, rows[i]))
  }

  /**
   In every interleaving, the grant-changed events of a grant carry versions 1, 2, …
   and rebuild its row, with its status, window, source, entitlements and version,
   in whatever order and however often they are delivered.
   */
  lemma EventsRebuildRow(s: State, actions: seq<Action>, key: Key, delivered: seq<Versioned<Grant>>)
    requires Inv(s.db)
    requires Delivers(ByVersion(Changes(Run(s, actions).db.outbox, key)), delivered)
    ensures var db := Run(s, actions).db;
            && (forall i :: 0 <= i < |Changes(db.outbox, key)| ==> Changes(db.outbox, key)[i].version == i + 1)
            && (key in db.grants ==> Replayed(delivered) == Some(Versioned(|Changes(db.outbox, key)|, db.grants[key])))
            && (key !in db.grants ==> Replayed(delivered).None?)
  {
    hide Changes, Run, Delivers;
    EveryRunRecords(s, actions);
    var db := Run(s, actions).db;
    assert Recorded(db, key);
    AnyDeliveryAgrees(ByVersion(Changes(db.outbox, key)), delivered);
  }

  /** Grants stay, keep their identifier, and either are unchanged or have a higher version. */
  ghost predicate GrantsAdvance(before: Db, after: Db) {
    forall k: Key :: k in before.grants ==>
      k in after.grants && after.grants[k].id == before.grants[k].id &&
      (after.grants[k] == before.grants[k] || after.grants[k].version > before.grants[k].version)
  }

  lemma StepAdvances(s: State, a: Action)
    requires Inv(s.db)
    ensures GrantsAdvance(s.db, NextDb(s, a))
  {
    hide Changes, Lists, Committed, Granted, UpdateEvents, Recorded;
    if a.Commit? && a.pid in s.pending && Ready(s.pending[a.pid]) {
      var p := s.pending[a.pid];
      match p
      case GrantRead(_, _, request, current) =>
        GrantOutcome(s.db, p, a.budget, a.now, a.tenants);
        GrantedFacts(request, current);
      case RevokeRead(_, _, _, _) =>
        RevokeOutcome(s.db, p, a.budget, a.now, a.tenants);
      case UpdateRead(_, _, _, _) =>
        UpdateOutcome(s.db, p, a.budget, a.now, a.tenants);
    }
  }

  lemma {:induction false} RunAdvances(s: State, actions: seq<Action>)
    requires Inv(s.db)
    ensures GrantsAdvance(s.db, Run(s, actions).db)
    decreases |actions|
  {
    hide NextDb, NextPending, Inv;
    if actions != [] {
      StepKeepsInv(s, actions[0]);
      StepAdvances(s, actions[0]);
      RunAdvances(Next(s, actions[0]), actions[1..]);
    }
  }

  /** The version that a pending operation needs the stored grant to have; 0 when it must not exist. */
  function Needs(p: Pending): int
    requires p.GrantRead? || p.RevokeRead?
  {
    if p.RevokeRead? then p.expected else p.request.expected
  }

  /**
   The first committer wins: once the grant has moved past the version that a pending
   create, renewal or revocation needs, that operation leaves neither a row nor an
   event, at once or after any further run.
   */
  lemma LateCommitLeavesNothing(s: State, actions: seq<Action>, p: Pending, budget: nat, now: int, tenants: seq<string>)
    requires Inv(s.db) && (p.GrantRead? || p.RevokeRead?)
    requires p.key in s.db.grants && s.db.grants[p.key].version > Needs(p)
    ensures Committed(Run(s, actions).db, p, budget, now, tenants) == Run(s, actions).db
  {
    hide Run, Committed, Inv, Granted;
    RunAdvances(s, actions);
    var db := Run(s, actions).db;
    if p.GrantRead? {
      GrantOutcome(db, p, budget, now, tenants);
    } else {
      RevokeOutcome(db, p, budget, now, tenants);
    }
  }

  // ----- reachable states

  /** A key as `Grant` normalises it, of an application that exists. */
  predicate KeyKnown(db: Db, key: Key) {
    TrimSpace(key.0) == key.0 != "" && TrimSpace(key.1) == key.1 != "" && key.1 in db.apps
  }

  /** So are the keys of all stored grants and of all grants under way. */
  ghost predicate KeysKnown(s: State) {
    && (forall key: Key :: key in s.db.grants ==> KeyKnown(s.db, key))
    && forall pid :: pid in s.pending && (s.pending[pid].GrantAppRead? || s.pending[pid].GrantRead?) ==>
         KeyKnown(s.db, s.pending[pid].key)
  }

  /** Applications stay. */
  lemma AppsStay(s: State, a: Action)
    ensures forall id :: id in s.db.apps ==> id in NextDb(s, a).apps
  {
    hide Lists, Committed, UpdateEvents, Granted, Revoked;
    if a.Commit? && a.pid in s.pending && Ready(s.pending[a.pid]) {
      var p := s.pending[a.pid];
      match p
      case GrantRead(_, _, _, _) => GrantOutcome(s.db, p, a.budget, a.now, a.tenants);
      case RevokeRead(_, _, _, _) => RevokeOutcome(s.db, p, a.budget, a.now, a.tenants);
      case UpdateRead(_, _, _, _) => UpdateOutcome(s.db, p, a.budget, a.now, a.tenants);
    }
  }

  /** A new grant has the key of a grant under way. */
  lemma NewKeys(s: State, a: Action, key: Key)
    requires key in NextDb(s, a).grants && key !in s.db.grants
    ensures a.Commit? && a.pid in s.pending && s.pending[a.pid].GrantRead? && s.pending[a.pid].key == key
  {
    hide Lists, Committed, UpdateEvents, Granted, Revoked;
    if a.Commit? && a.pid in s.pending && Ready(s.pending[a.pid]) {
      var p := s.pending[a.pid];
      match p
      case GrantRead(_, _, _, _) => GrantOutcome(s.db, p, a.budget, a.now, a.tenants);
      case RevokeRead(_, _, _, _) => RevokeOutcome(s.db, p, a.budget, a.now, a.tenants);
      case UpdateRead(_, _, _, _) => UpdateOutcome(s.db, p, a.budget, a.now, a.tenants);
    }
  }

  lemma StepKeepsKeys(s: State, a: Action)
    requires KeysKnown(s)
    ensures KeysKnown(Next(s, a))
  {
    hide NextDb, KeyKnown;
    AppsStay(s, a);
    var t := Next(s, a);
    forall key: Key | KeyKnown(s.db, key)
      ensures KeyKnown(t.db, key)
    {
      KeyStaysKnown(s.db, t.db, key);
    }
    forall key: Key | key in t.db.grants
      ensures KeyKnown(t.db, key)
    {
      if key !in s.db.grants {
        NewKeys(s, a, key);
      }
    }
    if a.BeginGrant? {
      BegunKeyIsKnown(s, a);
    }
  }

  lemma KeyStaysKnown(before: Db, after: Db, key: Key)
    requires KeyKnown(before, key) && forall id :: id in before.apps ==> id in after.apps
    ensures KeyKnown(after, key)
  {
    hide TrimSpace;
  }

  lemma BegunKeyIsKnown(s: State, a: Action)
    requires a.BeginGrant?
    ensures NextPending(s, a) != s.pending ==>
              a.pid in NextPending(s, a) && NextPending(s, a)[a.pid].GrantAppRead? &&
                  KeyKnown(s.db, NextPending(s, a)[a.pid].key)
  {
    TrimFixpoint(TrimSpace(a.tenantId), IsSpace);
    TrimFixpoint(TrimSpace(a.appId), IsSpace);
    hide TrimSpace;
  }

  lemma {:induction false} RunKeepsKeys(s: State, actions: seq<Action>)
    requires KeysKnown(s)
    ensures KeysKnown(Run(s, actions))
    decreases |actions|
  {
    hide NextDb, NextPending, KeysKnown;
    if actions != [] {
      StepKeepsKeys(s, actions[0]);
      RunKeepsKeys(Next(s, actions[0]), actions[1..]);
    }
  }

  /** Every state that a run from the empty database reaches. */
  ghost predicate Reachable(s: State) {
    exists actions :: Run(Init(), actions) == s
  }

  /** Its grants are recorded, under known keys. */
  lemma ReachableIsKept(s: State)
    requires Reachable(s)
    ensures Inv(s.db) && KeysKnown(s)
  {
    var actions :| Run(Init(), actions) == s;
    InitInv();
    hide Run, Inv, KeysKnown;
    EveryRunRecords(Init(), actions);
    assert KeysKnown(Init()) by { NoKeysYet(); }
    RunKeepsKeys(Init(), actions);
  }

  lemma NoKeysYet()
    ensures KeysKnown(Init())
  {
  }

  // ----- what a revocation writes back

  /**
   If this revocation takes effect now, it changes the status and the version of the stored grant
   and nothing else.
   */
  ghost predicate RevokesAsStored(s: State, pid: nat) {
    pid in s.pending && s.pending[pid].RevokeRead? ==>
      var p := s.pending[pid];
      forall budget, now, tenants :: RevokeTakesEffect(s.db, p, budget) ==>
        Committed(s.db, p, budget, now, tenants).grants == s.db.grants[p.key := Revoked(s.db.grants[p.key], p.expected)]
  }

  /** Nothing is committed under this number. */
  ghost predicate LeavesAlone(actions: seq<Action>, pid: nat) {
    forall a :: a in actions ==> !(a.Commit? && a.pid == pid)
  }

  /** Everything may happen between beginning to revoke and committing, and the commit writes back what is stored. */
  ghost predicate AlwaysRevokesAsStored(s: State, pid: nat, key: Key, expected: int) {
    forall actions :: LeavesAlone(actions, pid) ==>
      RevokesAsStored(Run(Next(s, BeginRevoke(pid, key.0, key.1, expected)), actions), pid)
  }

  /**
   A revocation writes back the terms that it read. In every continuation these are
   the stored terms, exactly if the caller named a version that the grant had reached
   when the call read it.
   */
  lemma RevokeKeepsTermsIff(s: State, pid: nat, key: Key, expected: int)
    requires Reachable(s) && key in s.db.grants && pid !in s.pending
    ensures AlwaysRevokesAsStored(s, pid, key, expected) <==> expected <= s.db.grants[key].version
  {
    hide Inv, Run, NextDb, NextPending, RevokesAsStored;
    ReachableIsKept(s);
    if expected <= s.db.grants[key].version {
      KnownVersionRevokesAsStored(s, pid, key, expected);
    } else {
      NewerVersionUndoesRenewal(s, pid, key, expected);
    }
  }

  // ----- a version that the grant had reached

  /** The revocation as it was begun, before or after its second read. */
  ghost predicate StillRevokes(s: State, pid: nat, key: Key, grant: Grant, expected: int) {
    pid in s.pending &&
    match s.pending[pid]
    case RevokeGrantRead(k, g, e) => k == key && g == grant && e == expected
    case RevokeRead(k, g, _, e) => k == key && g == grant && e == expected
    case _ => false
  }

  lemma {:induction false} RevocationIsKept(s: State, actions: seq<Action>, pid: nat, key: Key, grant: Grant,
                                            expected: int)
    requires StillRevokes(s, pid, key, grant, expected) && LeavesAlone(actions, pid)
    ensures StillRevokes(Run(s, actions), pid, key, grant, expected)
    decreases |actions|
  {
    hide NextDb;
    if actions != [] {
      assert actions[0] in actions && forall a :: a in actions[1..] ==> a in actions;
      assert StillRevokes(Next(s, actions[0]), pid, key, grant, expected);
      RevocationIsKept(Next(s, actions[0]), actions[1..], pid, key, grant, expected);
    }
  }

  lemma KnownVersionRevokesAsStored(s: State, pid: nat, key: Key, expected: int)
    requires Inv(s.db) && key in s.db.grants && pid !in s.pending && expected <= s.db.grants[key].version
    ensures AlwaysRevokesAsStored(s, pid, key, expected)
  {
    var begun := Next(s, BeginRevoke(pid, key.0, key.1, expected));
    assert begun.db == s.db && StillRevokes(begun, pid, key, s.db.grants[key], expected);
    hide Inv, Run, NextDb, NextPending, Committed;
    forall actions | LeavesAlone(actions, pid)
      ensures RevokesAsStored(Run(begun, actions), pid)
    {
      RevocationIsKept(begun, actions, pid, key, s.db.grants[key], expected);
      RunAdvances(begun, actions);
      var t := Run(begun, actions);
      if t.pending[pid].RevokeRead? {
        forall budget, now, tenants | RevokeTakesEffect(t.db, t.pending[pid], budget)
          ensures Committed(t.db, t.pending[pid], budget, now, tenants).grants
               == t.db.grants[key := Revoked(t.db.grants[key], expected)]
        {
          RevokeOutcome(t.db, t.pending[pid], budget, now, tenants);
        }
      }
    }
  }

  // ----- a newer version

  /** A number that no operation under way has. */
  lemma FreeNumber(numbers: set<nat>) returns (n: nat)
    ensures n !in numbers
  {
    n := 0;
    var rest := numbers;
    while rest != {}
      invariant rest <= numbers && forall x :: x in numbers && x !in rest ==> x < n
    {
      var x :| x in rest;
      n := if x < n then n else x + 1;
      rest := rest - {x};
    }
  }

  /** A renewal from this version, under number `k`, from the first read to the commit. */
  function Renewal(k: nat, key: Key, source: string, version: int): (r: seq<Action>)
    ensures |r| == 3
  {
    [BeginGrant(k, key.0, key.1, RenewalRequest(source, version)), ReadGrant(k), Commit(k, 2, 0, [])]
  }

  function RenewalRequest(source: string, version: int): Request {
    Request(None, None, source, "", true, version, 0, "")
  }

  function Renewals(k: nat, key: Key, source: string, version: int, count: nat): seq<Action>
    decreases count
  {
    if count == 0 then [] else Renewal(k, key, source, version) + Renewals(k, key, source, version + 1, count - 1)
  }

  lemma RunThree(s: State, a: seq<Action>, rest: seq<Action>)
    requires |a| == 3
    ensures Run(s, a + rest) == Run(Next(Next(Next(s, a[0]), a[1]), a[2]), rest)
  {
    hide Next;
    var all := a + rest;
    assert all[1..][1..][1..] == rest;
    assert Run(s, all) == Run(Next(s, a[0]), all[1..]);
    assert Run(Next(s, a[0]), all[1..]) == Run(Next(Next(s, a[0]), a[1]), all[1..][1..]);
  }

  /** The stored grant after renewals from another source. */
  ghost predicate RenewedTo(s: State, t: State, key: Key, source: string, version: int) {
    && t.pending == s.pending && t.db.apps == s.db.apps && key in s.db.grants && key in t.db.grants
    && t.db.grants[key].id == s.db.grants[key].id && t.db.grants[key].version == version &&
         t.db.grants[key].source == source
  }

  lemma RenewalOutcome(s: State, k: nat, key: Key, source: string)
    requires key in s.db.grants && KeyKnown(s.db, key) && k !in s.pending && s.db.grants[key].version >= 1
    requires TrimSpace(source) == source
    ensures var version := s.db.grants[key].version;
            var a := Renewal(k, key, source, version);
            RenewedTo(s, Next(Next(Next(s, a[0]), a[1]), a[2]), key, source, version + 1)
  {
    hide TrimSpace, Committed, DefaultJson;
    var version := s.db.grants[key].version;
    var a := Renewal(k, key, source, version);
    var t := Next(Next(s, a[0]), a[1]);
    var p := GrantRead(key, s.db.apps[key.1], RenewalRequest(source, version), Some(s.db.grants[key]));
    assert t == State(s.db, s.pending[k := p]);
    GrantOutcome(s.db, p, 2, 0, []);
    assert s.pending[k := p] - {k} == s.pending;
  }

  lemma {:induction false} RenewalsOutcome(s: State, k: nat, key: Key, source: string, count: nat)
    requires key in s.db.grants && KeyKnown(s.db, key) && k !in s.pending && s.db.grants[key].version >= 1
    requires TrimSpace(source) == source
    requires count > 0
    ensures var version := s.db.grants[key].version;
            RenewedTo(s, Run(s, Renewals(k, key, source, version, count)), key, source, version + count)
    decreases count
  {
    hide NextDb, NextPending, TrimSpace, Renewal;
    var version := s.db.grants[key].version;
    var a, rest := Renewal(k, key, source, version), Renewals(k, key, source, version + 1, count - 1);
    var t := Next(Next(Next(s, a[0]), a[1]), a[2]);
    RenewalOutcome(s, k, key, source);
    RunThree(s, a, rest);
    if count > 1 {
      RenewalsOutcome(t, k, key, source, count - 1);
    }
  }

  lemma {:induction false} RenewalsLeaveAlone(k: nat, key: Key, source: string, version: int, count: nat, pid: nat)
    requires k != pid
    ensures LeavesAlone(Renewals(k, key, source, version, count), pid)
    decreases count
  {
    if count > 0 {
      RenewalsLeaveAlone(k, key, source, version + 1, count - 1, pid);
    }
  }

  /** The two reads of a revocation, one right after the other. */
  lemma RevokeReads(s: State, pid: nat, key: Key, expected: int)
    requires key in s.db.grants && key.1 in s.db.apps && pid !in s.pending
    ensures var p := RevokeRead(key, s.db.grants[key], s.db.apps[key.1], expected);
            Next(Next(s, BeginRevoke(pid, key.0, key.1, expected)), ReadApp(pid)) == State(s.db, s.pending[pid := p])
  {
    var begun := Next(s, BeginRevoke(pid, key.0, key.1, expected));
    assert begun.pending == s.pending[pid := RevokeGrantRead(key, s.db.grants[key], expected)];
    assert key == (key.0, key.1);
  }

  /** A grant from another source is not written back as stored. */
  lemma OtherSourceIsUndone(t: State, pid: nat, p: Pending)
    requires pid in t.pending && t.pending[pid] == p && p.RevokeRead? && RevokeTakesEffect(t.db, p, 2)
    requires t.db.grants[p.key].source != p.grant.source
    ensures !RevokesAsStored(t, pid)
  {
    hide Committed;
    RevokeOutcome(t.db, p, 2, 0, []);
    assert Committed(t.db, p, 2, 0, []).grants[p.key].source != Revoked(t.db.grants[p.key], p.expected).source;
  }

  lemma RecordedVersion(db: Db, key: Key)
    requires Recorded(db, key) && key in db.grants
    ensures db.grants[key].version >= 1
  {
    hide Changes;
  }

  lemma OtherSource(source: string) returns (other: string)
    ensures other != source && TrimSpace(other) == other
  {
    other := if source == "a" then "b" else "a";
    TrimFixpoint(other, IsSpace);
  }

  /** Renewals from another source, up to the version that was named. */
  lemma RenewalsAreUndone(s: State, pid: nat, p: Pending) returns (renewals: seq<Action>)
    requires pid in s.pending && s.pending[pid] == p && p.RevokeRead? && p.key in s.db.grants
    requires p.grant == s.db.grants[p.key]
    requires KeyKnown(s.db, p.key) && 1 <= p.grant.version < p.expected
    ensures LeavesAlone(renewals, pid) && !RevokesAsStored(Run(s, renewals), pid)
  {
    var source := OtherSource(p.grant.source);
    var k := FreeNumber(s.pending.Keys);
    hide RevokesAsStored, Renewals, Run, KeyKnown, TrimSpace, LeavesAlone;
    renewals := Renewals(k, p.key, source, p.grant.version, p.expected - p.grant.version);
    RenewalsOutcome(s, k, p.key, source, p.expected - p.grant.version);
    RenewalsLeaveAlone(k, p.key, source, p.grant.version, p.expected - p.grant.version, pid);
    OtherSourceIsUndone(Run(s, renewals), pid, p);
  }

  /** They commit between the reads and the commit, which undoes them. */
  lemma NewerVersionUndoesRenewal(s: State, pid: nat, key: Key, expected: int)
    requires Inv(s.db) && KeysKnown(s) && key in s.db.grants && pid !in s.pending && expected > s.db.grants[key].version
    ensures !AlwaysRevokesAsStored(s, pid, key, expected)
  {
    RecordedVersion(s.db, key);
    assert KeyKnown(s.db, key);
    RevokeReads(s, pid, key, expected);
    hide NextDb, NextPending, Inv, RevokesAsStored;
    var begun := Next(s, BeginRevoke(pid, key.0, key.1, expected));
    var read := Next(begun, ReadApp(pid));
    var renewals := RenewalsAreUndone(read, pid, read.pending[pid]);
    var actions := [ReadApp(pid)] + renewals;
    assert actions[1..] == renewals && Run(begun, actions) == Run(read, renewals);
    assert LeavesAlone(actions, pid);
  }

  // ----- a grant without interference

  /** A commit of the operation that was begun last. */
  lemma CommitAlone(s: State, pid: nat, p: Pending, budget: nat, now: int, tenants: seq<string>)
    requires pid !in s.pending && Ready(p)
    ensures Next(State(s.db, s.pending[pid := p]), Commit(pid, budget, now, tenants)) ==
              State(Committed(s.db, p, budget, now, tenants), s.pending)
  {
    hide Committed;
    assert s.pending[pid := p] - {pid} == s.pending;
  }

  lemma GrantAtOnce(s: State, pid: nat, tenantId: string, appId: string, r: Request, budget: nat)
    requires TrimSpace(tenantId) != "" && TrimSpace(appId) != "" && TrimSpace(appId) in s.db.apps && pid !in s.pending
    ensures var key := (TrimSpace(tenantId), TrimSpace(appId));
            var current := if key in s.db.grants then Some(s.db.grants[key]) else None;
            Run(s, [BeginGrant(pid, tenantId, appId, r), ReadGrant(pid), Commit(pid, budget, r.now, [])]) ==
              State(Committed(s.db, GrantRead(key, s.db.apps[key.1], r, current), budget, r.now, []), s.pending)
  {
    hide TrimSpace, Committed;
    var key := (TrimSpace(tenantId), TrimSpace(appId));
    var current := if key in s.db.grants then Some(s.db.grants[key]) else None;
    var p := GrantRead(key, s.db.apps[key.1], r, current);
    var a := [BeginGrant(pid, tenantId, appId, r), ReadGrant(pid), Commit(pid, budget, r.now, [])];
    assert Next(Next(s, a[0]), a[1]) == State(s.db, s.pending[pid := p]);
    CommitAlone(s, pid, p, budget, r.now, []);
    hide Next;
    RunThree(s, a, []);
    assert a + [] == a;
  }

  /** A tenant without a grant of an existing application gets one exactly if the request is in order. */
  lemma SerialFirstGrantIff(s: State, pid: nat, tenantId: string, appId: string, r: Request, budget: nat)
    requires pid !in s.pending
    requires var key := (TrimSpace(tenantId), TrimSpace(appId));
             key.0 != "" && key.1 != "" && key.1 in s.db.apps && key !in s.db.grants
    ensures var key := (TrimSpace(tenantId), TrimSpace(appId));
            var after := Run(s, [BeginGrant(pid, tenantId, appId, r), ReadGrant(pid),
                Commit(pid, budget, r.now, [])]).db;
            var start := if r.from.Some? then r.from.value else r.now;
            && (key in after.grants <==>
                  r.wellFormed && r.expected == 0 && budget >= 2 && (r.until.Some? ==> start < r.until.value))
            && (key in after.grants ==> after.grants[key].status == "active" && after.grants[key].version == 1 &&
                                        Open(after.grants[key], start))
            && (key !in after.grants ==> after == s.db)
  {
    GrantAtOnce(s, pid, tenantId, appId, r, budget);
    hide TrimSpace, Run, Committed;
    var key := (TrimSpace(tenantId), TrimSpace(appId));
    FirstGrantIff(s.db, GrantRead(key, s.db.apps[key.1], r, None), budget, r.now, []);
  }

  // ----- the life of a grant

  /** An update without interference, whose document events all go out. */
  lemma UpdateAtOnce(s: State, pid: nat, id: string, name: string, budget: nat, now: int, tenants: seq<string>)
    requires id in s.db.apps && s.db.apps[id].version >= 1 && pid !in s.pending
    requires Lists(tenants, s.db, id, now) && |tenants| <= budget
    ensures var app := s.db.apps[id];
            var after := App(name, app.version + 1, app.version + 1);
            Run(s, [BeginUpdate(pid, id, name, app.version), Commit(pid, budget, now, tenants)]) ==
              State(Db(s.db.apps[id := after], s.db.grants, s.db.outbox + UpdateEvents(s.db, id, after, tenants)),
                  s.pending)
  {
    hide Committed, Lists;
    var app := s.db.apps[id];
    var p := UpdateRead(id, app, name, app.version);
    var a := [BeginUpdate(pid, id, name, app.version), Commit(pid, budget, now, tenants)];
    assert Next(s, a[0]) == State(s.db, s.pending[pid := p]);
    CommitAlone(s, pid, p, budget, now, tenants);
    hide Next;
    UpdateOutcome(s.db, p, budget, now, tenants);
    RunTwo(s, a);
  }

  lemma RunTwo(s: State, a: seq<Action>)
    requires |a| == 2
    ensures Run(s, a) == Next(Next(s, a[0]), a[1])
  {
    hide Next;
    assert a[1..][1..] == [];
    assert Run(s, a) == Run(Next(s, a[0]), a[1..]);
  }

  /** A revocation without interference. */
  lemma RevokeAtOnce(s: State, pid: nat, key: Key)
    requires key in s.db.grants && key.1 in s.db.apps && pid !in s.pending
    ensures var was, app := s.db.grants[key], s.db.apps[key.1];
            var grant := was.(status := "revoked", version := was.version + 1);
            Run(s, [BeginRevoke(pid, key.0, key.1, was.version), ReadApp(pid), Commit(pid, 2, 0, [])]) ==
              State(Db(s.db.apps, s.db.grants[key := grant],
                       s.db.outbox + [GrantChanged(key, grant), DocumentDeleted(key, app.version, was.version + 1)]),
                    s.pending)
  {
    hide Committed;
    var was, app := s.db.grants[key], s.db.apps[key.1];
    var p := RevokeRead(key, was, app, was.version);
    var a := [BeginRevoke(pid, key.0, key.1, was.version), ReadApp(pid), Commit(pid, 2, 0, [])];
    RevokeReads(s, pid, key, was.version);
    CommitAlone(s, pid, p, 2, 0, []);
    hide Next;
    RunThree(s, a, []);
    assert a + [] == a;
    RevocationIff(s.db, p, 2, 0, []);
  }

  /** A first grant without interference. */
  lemma FirstGrantAtOnce(s: State, pid: nat, key: Key, r: Request)
    requires KeyKnown(s.db, key) && key !in s.db.grants && pid !in s.pending
    requires r.wellFormed && r.expected == 0 && (r.until.Some? ==> From(r) < r.until.value)
    ensures var app := s.db.apps[key.1];
            var grant := Grant(r.newId, "active", From(r), r.until, TrimSpace(r.source), StoredJson(r.entitlements), 1);
            Run(s, [BeginGrant(pid, key.0, key.1, r), ReadGrant(pid), Commit(pid, 2, r.now, [])]) ==
              State(Db(s.db.apps, s.db.grants[key := grant],
                       s.db.outbox + [GrantChanged(key, grant), DocumentUpserted(key, app.name, app.version, 1)]),
                    s.pending)
  {
    GrantAtOnce(s, pid, key.0, key.1, r, 2);
    hide TrimSpace, Run, Committed, StoredJson;
    assert key == (key.0, key.1);
    FirstGrantIff(s.db, GrantRead(key, s.db.apps[key.1], r, None), 2, r.now, []);
  }

  lemma RunJoins(s: State, a: seq<Action>, b: seq<Action>)
    ensures Run(s, a + b) == Run(Run(s, a), b)
    decreases |a|
  {
    hide Next;
    if a == [] {
      assert a + b == b;
    } else {
      assert (a + b)[1..] == a[1..] + b;
      RunJoins(Next(s, a[0]), a[1..], b);
    }
  }

  /** Create an application, grant it, publish it, rename it, and revoke the grant. */
  function Life(key: Key, name: string, r: Request, newName: string): seq<Action> {
    [CreateApp(key.1, name)] +
    [BeginGrant(0, key.0, key.1, r), ReadGrant(0), Commit(0, 2, r.now, [])] +
    [PublishApp(key.1, 1)] +
    [BeginUpdate(0, key.1, newName, 2), Commit(0, 1, From(r), [key.0])] +
    [BeginRevoke(0, key.0, key.1, 1), ReadApp(0), Commit(0, 2, 0, [])]
  }

  lemma LifeBegins(key: Key, name: string, r: Request)
    requires KeyKnown(Db(map[key.1 := App(name, 1, 1)], map[], []), key)
    requires r.wellFormed && r.expected == 0 && (r.until.Some? ==> From(r) < r.until.value)
    ensures var grant := Grant(r.newId, "active", From(r), r.until, TrimSpace(r.source), StoredJson(r.entitlements), 1);
            Run(Init(), [CreateApp(key.1, name)] +
                        [BeginGrant(0, key.0, key.1, r), ReadGrant(0),
                            Commit(0, 2, r.now, [])] + [PublishApp(key.1, 1)]) ==
              State(Db(map[key.1 := App(name, 2, 1)], map[key := grant],
                       [GrantChanged(key, grant), DocumentUpserted(key, name, 1, 1)]), map[])
  {
    hide TrimSpace, StoredJson, From, KeyKnown;
    var grant := Grant(r.newId, "active", From(r), r.until, TrimSpace(r.source), StoredJson(r.entitlements), 1);
    var a := [CreateApp(key.1, name)];
    var b := [BeginGrant(0, key.0, key.1, r), ReadGrant(0), Commit(0, 2, r.now, [])];
    var c := [PublishApp(key.1, 1)];
    var created := State(Db(map[key.1 := App(name, 1, 1)], map[], []), map[]);
    var events := [GrantChanged(key, grant), DocumentUpserted(key, name, 1, 1)];
    var granted := State(Db(map[key.1 := App(name, 1, 1)], map[key := grant], events), map[]);
    RunOne(Init(), a[0]);
    assert Next(Init(), a[0]) == created;
    RunOne(granted, c[0]);
    assert Next(granted, c[0]).db.apps == map[key.1 := App(name, 2, 1)];
    assert Next(granted, c[0]) == State(Db(map[key.1 := App(name, 2, 1)], map[key := grant], events), map[]);
    hide Next, Run;
    FirstGrantAtOnce(created, 0, key, r);
    assert [] + events == events;
    RunJoins(Init(), a + b, c);
    RunJoins(Init(), a, b);
  }

  lemma LifeEnds(key: Key, name: string, grant: Grant, newName: string, events: seq<Event>)
    requires Open(grant, grant.validFrom) && grant.version == 1
    ensures var s := State(Db(map[key.1 := App(name, 2, 1)], map[key := grant], events), map[]);
            var revoked := grant.(status := "revoked", version := 2);
            Run(s, [BeginUpdate(0, key.1, newName, 2), Commit(0, 1, grant.validFrom, [key.0])] +
                   [BeginRevoke(0, key.0, key.1, 1), ReadApp(0), Commit(0, 2, 0, [])]) ==
              State(Db(map[key.1 := App(newName, 3, 3)], map[key := revoked],
                       events + [DocumentUpserted(key, newName, 3, 1)] +
                       [GrantChanged(key, revoked), DocumentDeleted(key, 3, 2)]), map[])
  {
    hide Open, Run, Lists;
    var s := State(Db(map[key.1 := App(name, 2, 1)], map[key := grant], events), map[]);
    var d := [BeginUpdate(0, key.1, newName, 2), Commit(0, 1, grant.validFrom, [key.0])];
    var e := [BeginRevoke(0, key.0, key.1, 1), ReadApp(0), Commit(0, 2, 0, [])];
    OnlyTenant(s.db, key, grant.validFrom);
    UpdateAtOnce(s, 0, key.1, newName, 1, grant.validFrom, [key.0]);
    var renamed := State(Db(map[key.1 := App(newName, 3, 3)], map[key := grant],
                            events + [DocumentUpserted(key, newName, 3, 1)]), map[]);
    assert key == (key.0, key.1);
    assert UpdateEvents(s.db, key.1, App(newName, 3, 3), [key.0]) == [DocumentUpserted(key, newName, 3, 1)];
    assert s.db.apps[key.1 := App(newName, 3, 3)] == map[key.1 := App(newName, 3, 3)];
    assert Run(s, d) == renamed;
    hide UpdateEvents;
    RevokeAtOnce(renamed, 0, key);
    RunJoins(s, d, e);
  }

  /**
   From the empty database this leaves a renamed application at version 3, a revoked
   grant at version 2, and five events.
   */
  lemma LifeOfAGrant(key: Key, name: string, r: Request, newName: string)
    requires TrimSpace(key.0) == key.0 != "" && TrimSpace(key.1) == key.1 != ""
    requires r.wellFormed && r.expected == 0 && (r.until.Some? ==> From(r) < r.until.value)
    ensures var grant := Grant(r.newId, "active", From(r), r.until, TrimSpace(r.source), StoredJson(r.entitlements), 1);
            var revoked := grant.(status := "revoked", version := 2);
            Run(Init(), Life(key, name, r, newName)) ==
              State(Db(map[key.1 := App(newName, 3, 3)], map[key := revoked],
                       [GrantChanged(key, grant), DocumentUpserted(key, name, 1, 1)] +
                       [DocumentUpserted(key, newName, 3, 1)] +
                       [GrantChanged(key, revoked), DocumentDeleted(key, 3, 2)]), map[])
  {
    hide TrimSpace, StoredJson, From, Run;
    var grant := Grant(r.newId, "active", From(r), r.until, TrimSpace(r.source), StoredJson(r.entitlements), 1);
    var begin := [CreateApp(key.1, name)] + [BeginGrant(0, key.0, key.1, r), ReadGrant(0), Commit(0, 2, r.now, [])] +
                 [PublishApp(key.1, 1)];
    var end := [BeginUpdate(0, key.1, newName, 2), Commit(0, 1, From(r), [key.0])] +
               [BeginRevoke(0, key.0, key.1, 1), ReadApp(0), Commit(0, 2, 0, [])];
    LifeBegins(key, name, r);
    LifeEnds(key, name, grant, newName, [GrantChanged(key, grant), DocumentUpserted(key, name, 1, 1)]);
    RunJoins(Init(), begin, end);
    assert Life(key, name, r, newName) == begin + end;
  }

  lemma RunOne(s: State, a: Action)
    ensures Run(s, [a]) == Next(s, a)
  {
    hide Next;
    assert [a][1..] == [];
  }

  lemma OnlyTenant(db: Db, key: Key, now: int)
    requires db.grants.Keys == {key} && Open(db.grants[key], now)
    ensures Lists([key.0], db, key.1, now)
  {
    assert key == (key.0, key.1);
  }
}
