/**
 The search index that the outbox feeds: each document event carries one number
 that packs the version of the application and the version of the grant, and the
 index keeps, for each document, the event with the highest number.
 */
module Search {
  import opened Wrappers
  import opened Text
  import opened Replay
  import opened Grants

  // ----- the packed version

  const TWO31 := 0x8000_0000
  const TWO32 := 0x1_0000_0000
  const TWO63 := 0x8000_0000_0000_0000
  const TWO64 := 0x1_0000_0000_0000_0000

  /** The 64-bit two's complement value with the same low bits. */
  function Wrap64(n: int): (r: int)
    ensures -TWO63 <= r < TWO63 && (r - n) % TWO64 == 0
  {
    (n + TWO63) % TWO64 - TWO63
  }

  /** The bits of a 64-bit integer as a number, and back. */
  function Unsigned(n: int): (r: nat)
    ensures r < TWO64
  {
    n % TWO64
  }

  function Signed(u: nat): int {
    if u >= TWO63 then u - TWO64 else u
  }

  /** Bitwise or. */
  function BitOr(x: nat, y: nat): nat {
    if x == 0 then y else if y == 0 then x
    else 2 * BitOr(x / 2, y / 2) + if x % 2 == 1 || y % 2 == 1 then 1 else 0
  }

  /** Bitwise and. */
  function BitAnd(x: nat, y: nat): nat {
    if x == 0 || y == 0 then 0 else 2 * BitAnd(x / 2, y / 2) + (x % 2) * (y % 2)
  }

  function Pow2(k: nat): (r: nat)
    ensures r >= 1
  {
    if k == 0 then 1 else 2 * Pow2(k - 1)
  }

  /** `applicationVersion << 32 | grantVersion & 0xffffffff`. */
  function SourceVersion(appVersion: int, grantVersion: int): int {
    Signed(BitOr(Unsigned(appVersion * TWO32), BitAnd(Unsigned(grantVersion), TWO32 - 1)))
  }

  lemma {:induction false} OrShifted(a: nat, b: nat, k: nat)
    requires b < Pow2(k)
    ensures BitOr(a * Pow2(k), b) == a * Pow2(k) + b
  {
    if k > 0 && a > 0 && b > 0 {
      var x, m := a * Pow2(k), a * Pow2(k - 1);
      assert x == 2 * m;
      OrShifted(a, b / 2, k - 1);
    }
  }

  function Rest(x: nat, m: nat): nat
    requires m >= 1
  {
    x % m
  }

  lemma {:induction false} AndMask(x: nat, k: nat)
    ensures BitAnd(x, Pow2(k) - 1) == Rest(x, Pow2(k))
  {
    if k > 0 {
      var m := Pow2(k - 1);
      assert Pow2(k) == 2 * m;
      hide Rest, BitAnd, Pow2;
      AndMask(x / 2, k - 1);
      AndMaskStep(x, m);
    }
  }

  lemma AndMaskStep(x: nat, m: nat)
    requires m >= 1 && BitAnd(x / 2, m - 1) == Rest(x / 2, m)
    ensures BitAnd(x, 2 * m - 1) == Rest(x, 2 * m)
  {
    hide Rest;
    var y := 2 * m - 1;
    assert y / 2 == m - 1 && y % 2 == 1;
    if x > 0 {
      AndOdd(x, y);
    }
    RestDouble(x, m);
  }

  lemma RestDouble(x: nat, m: nat)
    requires m >= 1
    ensures Rest(x, 2 * m) == 2 * Rest(x / 2, m) + x % 2
  {
    ModDouble(x, m);
  }

  lemma AndOdd(x: nat, y: nat)
    requires x > 0 && y % 2 == 1
    ensures BitAnd(x, y) == 2 * BitAnd(x / 2, y / 2) + x % 2
  {
  }

  lemma ModDouble(x: nat, m: nat)
    requires m >= 1
    ensures x % (2 * m) == 2 * ((x / 2) % m) + x % 2
  {
    var q, r := (x / 2) / m, (x / 2) % m;
    assert x == 2 * (q * m + r) + x % 2;
    assert x == q * (2 * m) + (2 * r + x % 2);
    DivideOnce(x, 2 * m, q, 2 * r + x % 2);
  }

  lemma DivideOnce(x: nat, m: nat, q: nat, r: nat)
    requires m >= 1 && x == q * m + r && r < m
    ensures x % m == r
  {
    var t := x / m - q;
    assert t * m == r - x % m;
    if t != 0 {
      MultipleIsFar(t, m);
    }
  }

  lemma MultipleIsFar(t: int, m: int)
    requires t != 0 && m >= 1
    ensures t * m >= m || t * m <= -m
  {
    if t > 0 {
      MultipleGrows(t, m);
    } else {
      MultipleGrows(-t, m);
      assert (-t) * m == -(t * m);
    }
  }

  lemma {:induction false} MultipleGrows(t: nat, m: nat)
    requires t >= 1
    ensures t * m >= m
  {
    if t > 1 {
      MultipleGrows(t - 1, m);
      assert t * m == (t - 1) * m + m;
    }
  }

  lemma Pow2Is32()
    ensures Pow2(32) == TWO32
  {
    assert Pow2(8) == 256;
    assert Pow2(16) == 0x1_0000;
    assert Pow2(24) == 0x100_0000;
  }

  lemma LowHalf(g: int)
    ensures Rest(Unsigned(g), TWO32) == g % TWO32
  {
  }

  lemma HighHalf(a: int, low: nat)
    requires low < TWO32
    ensures Unsigned(a * TWO32) == (a % TWO32) * TWO32
    ensures Signed((a % TWO32) * TWO32 + low) == Wrap64(a * TWO32) + low
  {
    var high, q := a % TWO32, a / TWO32;
    assert a * TWO32 == q * TWO64 + high * TWO32;
    assert Wrap64(a * TWO32) == if high < TWO31 then high * TWO32 else high * TWO32 - TWO64;
  }

  /** The halves share no bit: the packed number is their sum, wrapped to 64 bits. */
  lemma SourceVersionIsSum(a: int, g: int)
    ensures SourceVersion(a, g) == Wrap64(a * TWO32) + g % TWO32
  {
    hide BitOr, BitAnd, Pow2, Rest, Unsigned, Signed, Wrap64;
    Pow2Is32();
    LowHalf(g);
    HighHalf(a, g % TWO32);
    AndMask(Unsigned(g), 32);
    OrShifted(a % TWO32, g % TWO32, 32);
  }

  predicate Before(a: int, g: int, b: int, h: int) {
    a < b || (a == b && g < h)
  }

  lemma PackedInRange(a: int, g: int)
    requires 0 <= a < TWO31 && 0 <= g < TWO32
    ensures SourceVersion(a, g) == a * TWO32 + g
  {
    hide SourceVersion;
    SourceVersionIsSum(a, g);
  }

  /** Inside the two ranges the packed number orders exactly like the pair, application first. */
  lemma PackedOrders(a: int, g: int, b: int, h: int)
    requires 0 <= a < TWO31 && 0 <= b < TWO31 && 0 <= g < TWO32 && 0 <= h < TWO32
    ensures SourceVersion(a, g) < SourceVersion(b, h) <==> Before(a, g, b, h)
    ensures SourceVersion(a, g) == SourceVersion(b, h) <==> a == b && g == h
  {
    hide SourceVersion;
    PackedInRange(a, g);
    PackedInRange(b, h);
  }

  /** One step past either range the order is lost. */
  lemma PackedOverflows(a: int)
    requires 0 <= a < TWO31
    ensures Before(TWO31 - 1, 1, TWO31, 1) && SourceVersion(TWO31, 1) < SourceVersion(TWO31 - 1, 1)
    ensures Before(a, TWO32 - 1, a, TWO32) && SourceVersion(a, TWO32) < SourceVersion(a, TWO32 - 1)
  {
    hide SourceVersion;
    PackedInRange(a, TWO32 - 1);
    SourceVersionIsSum(a, TWO32);
    SourceVersionIsSum(TWO31, 1);
    PackedInRange(TWO31 - 1, 1);
  }

  // ----- the document events of one grant

  /** The document events of one tenant and application, oldest first. */
  function Documents(outbox: seq<Event>, key: Key): (r: seq<Event>)
    ensures forall e :: e in r ==> !e.GrantChanged? && e.key == key
    decreases |outbox|
  {
    if outbox == [] then []
    else
      var e := outbox[|outbox| - 1];
      Documents(outbox[..|outbox| - 1], key) + if !e.GrantChanged? && e.key == key then [e] else []
  }

  /** Neither version goes back and one of them advances. */
  ghost predicate EventBefore(e: Event, f: Event)
    requires !e.GrantChanged? && !f.GrantChanged?
  {
    e.appVersion <= f.appVersion && e.grantVersion <= f.grantVersion &&
    Before(e.appVersion, e.grantVersion, f.appVersion, f.grantVersion)
  }

  ghost predicate InOrder(d: seq<Event>)
    requires forall e :: e in d ==> !e.GrantChanged?
  {
    forall i, j :: 0 <= i < j < |d| ==> EventBefore(d[i], d[j])
  }

  /** Version pairs are positive and ascend; the newest event is not ahead of the stored versions. */
  ghost predicate Ordered(db: Db, key: Key) {
    var d := Documents(db.outbox, key);
    && InOrder(d)
    && (forall e :: e in d ==> e.appVersion >= 1 && e.grantVersion >= 1)
    && (d == [] <==> key !in db.grants)
    && (d != [] ==> NotAhead(db, key, d[|d| - 1]))
  }

  ghost predicate NotAhead(db: Db, key: Key, e: Event)
    requires key in db.grants && !e.GrantChanged?
  {
    && key.1 in db.apps && e.appVersion <= db.apps[key.1].version && e.grantVersion == db.grants[key].version
    && (e.DocumentUpserted? <==> db.grants[key].status == "active")
    && (e.DocumentUpserted? && e.appVersion >= db.apps[key.1].named ==> e.title == db.apps[key.1].name)
  }

  ghost predicate AppsPositive(db: Db) {
    forall id :: id in db.apps ==> 1 <= db.apps[id].named <= db.apps[id].version
  }

  ghost predicate SearchInv(db: Db) {
    AppsPositive(db) && forall key: Key :: Ordered(db, key)
  }

  /** A copy of an application is not newer than the stored one, and has its name unless it is older than that name. */
  predicate WasRead(db: Db, id: string, app: App) {
    && id in db.apps && 1 <= app.version <= db.apps[id].version
    && (app.version >= db.apps[id].named ==> app.name == db.apps[id].name)
  }

  /** So are the copies that grants and revocations under way have read. */
  ghost predicate ReadsPast(s: State) {
    forall pid :: pid in s.pending &&
                  (s.pending[pid].GrantAppRead? || s.pending[pid].GrantRead? || s.pending[pid].RevokeRead?) ==>
      WasRead(s.db, s.pending[pid].key.1, s.pending[pid].app)
  }

  lemma StartIsSearchable()
    ensures SearchInv(Init().db) && ReadsPast(Init())
  {
  }

  lemma DocumentsAdd(outbox: seq<Event>, e: Event, key: Key)
    ensures Documents(outbox + [e], key) == Documents(outbox, key) + if !e.GrantChanged? && e.key == key then [e]
      else []
  {
    assert (outbox + [e])[..|outbox|] == outbox;
  }

  lemma WriteAddsDocument(outbox: seq<Event>, change: Event, document: Event, k: Key)
    requires change.GrantChanged? && !document.GrantChanged?
    ensures Documents(outbox + [change, document], k) == Documents(outbox, k) + if document.key == k then [document]
      else []
  {
    DocumentsAdd(outbox, change, k);
    DocumentsAdd(outbox + [change], document, k);
    assert outbox + [change, document] == outbox + [change] + [document];
  }

  function IndexIn(tenants: seq<string>, t: string): (i: nat)
    requires t in tenants
    ensures i < |tenants| && tenants[i] == t
    decreases |tenants|
  {
    var n := |tenants| - 1;
    if tenants[n] == t then n else
      assert tenants == tenants[..n] + [tenants[n]];
      IndexIn(tenants[..n], t)
  }

  /** The documents of `k` after events for these tenants: one more, or the same. */
  ghost predicate GetsItsEvent(outbox: seq<Event>, events: seq<Event>, tenants: seq<string>, appId: string, k: Key)
    requires |events| == |tenants|
  {
    Documents(outbox + events, k) ==
      if k.1 == appId && k.0 in tenants then Documents(outbox, k) + [events[IndexIn(tenants, k.0)]]
          else Documents(outbox, k)
  }

  /** With one event for each listed tenant, a grant gets one event or none. */
  lemma {:induction false} UpdateAddsDocument(outbox: seq<Event>, events: seq<Event>, tenants: seq<string>,
                                              appId: string, k: Key)
    requires Distinct(tenants) && |events| == |tenants|
    requires forall i :: 0 <= i < |events| ==> events[i].DocumentUpserted? && events[i].key == (tenants[i], appId)
    ensures GetsItsEvent(outbox, events, tenants, appId, k)
    decreases |events|
  {
    hide Documents;
    if events == [] {
      assert outbox + events == outbox;
    } else {
      var n := |events| - 1;
      UpdateAddsDocument(outbox, events[..n], tenants[..n], appId, k);
      assert outbox + events == outbox + events[..n] + [events[n]];
      DocumentsAdd(outbox + events[..n], events[n], k);
      assert tenants == tenants[..n] + [tenants[n]];
      assert tenants[n] !in tenants[..n];
    }
  }

  // ----- what a step keeps

  lemma AppendOrder(d: seq<Event>, e: Event)
    requires (forall x :: x in d ==> !x.GrantChanged?) && !e.GrantChanged? && InOrder(d)
    ensures InOrder(d + [e]) <==> d == [] || EventBefore(d[|d| - 1], e)
  {
    if d != [] {
      assert (d + [e])[|d| - 1] == d[|d| - 1] && (d + [e])[|d|] == e;
    }
  }

  lemma WriteKeepsOrdered(db: Db, key: Key, grant: Grant, e: Event, k: Key)
    requires Ordered(db, key) && Ordered(db, k) && !e.GrantChanged? && e.key == key && key.1 in db.apps
    requires 1 <= e.appVersion <= db.apps[key.1].version
    requires e.DocumentUpserted? && e.appVersion >= db.apps[key.1].named ==> e.title == db.apps[key.1].name
    requires var d := Documents(db.outbox, key); d == [] || d[|d| - 1].appVersion <= e.appVersion
    requires e.grantVersion == grant.version == if key in db.grants then db.grants[key].version + 1 else 1
    requires e.DocumentUpserted? <==> grant.status == "active"
    ensures Ordered(Db(db.apps, db.grants[key := grant], db.outbox + [GrantChanged(key, grant), e]), k)
  {
    hide Documents;
    var d := Documents(db.outbox, k);
    WriteAddsDocument(db.outbox, GrantChanged(key, grant), e, k);
    if k == key {
      assert d != [] ==> EventBefore(d[|d| - 1], e);
      AppendOrder(d, e);
    }
  }

  /** One event with the new name and version for an open grant of the application, none for any other. */
  lemma UpdateAddsOwnDocument(db: Db, appId: string, app: App, tenants: seq<string>, now: int, k: Key)
    requires Lists(tenants, db, appId, now)
    ensures Documents(db.outbox + UpdateEvents(db, appId, app, tenants), k) ==
      if k in db.grants && k.1 == appId && Open(db.grants[k], now) then
        Documents(db.outbox, k) + [DocumentUpserted(k, app.name, app.version, db.grants[k].version)]
      else Documents(db.outbox, k)
  {
    hide Documents, Open, Distinct;
    UpdateAddsDocument(db.outbox, UpdateEvents(db, appId, app, tenants), tenants, appId, k);
  }

  lemma UpdateKeepsOrdered(db: Db, appId: string, app: App, tenants: seq<string>, now: int, k: Key)
    requires Ordered(db, k) && appId in db.apps && app.version == app.named == db.apps[appId].version + 1
    requires Lists(tenants, db, appId, now)
    ensures Ordered(Db(db.apps[appId := app], db.grants, db.outbox + UpdateEvents(db, appId, app, tenants)), k)
    ensures k in db.grants && k.1 == appId && Open(db.grants[k], now) ==>
      var d := Documents(db.outbox + UpdateEvents(db, appId, app, tenants), k);
      d != [] && d[|d| - 1] == DocumentUpserted(k, app.name, app.version, db.grants[k].version)
  {
    hide Documents, UpdateEvents, Open, Distinct, InOrder, EventBefore;
    var d, after := Documents(db.outbox, k),
        Db(db.apps[appId := app], db.grants, db.outbox + UpdateEvents(db, appId, app, tenants));
    UpdateAddsOwnDocument(db, appId, app, tenants, now, k);
    if k in db.grants && k.1 == appId && Open(db.grants[k], now) {
      var e := DocumentUpserted(k, app.name, app.version, db.grants[k].version);
      OpenIsActive(db.grants[k], now);
      assert NotAhead(db, k, d[|d| - 1]) && NotAhead(after, k, e);
      NewerEvent(d[|d| - 1], e);
      AppendOrder(d, e);
    } else {
      assert d != [] ==> NotAhead(after, k, d[|d| - 1]);
    }
  }

  lemma OpenIsActive(grant: Grant, now: int)
    ensures Open(grant, now) ==> grant.status == "active"
  {
  }

  lemma NewerEvent(e: Event, f: Event)
    requires !e.GrantChanged? && !f.GrantChanged? && e.appVersion < f.appVersion && e.grantVersion <= f.grantVersion
    ensures EventBefore(e, f)
  {
  }

  /** The operation is a grant or a revocation that takes effect. */
  ghost predicate Writes(db: Db, p: Pending, budget: nat) {
    (p.GrantRead? && GrantTakesEffect(db, p, budget)) || (p.RevokeRead? && RevokeTakesEffect(db, p, budget))
  }

  /** No newer document event has overtaken what this operation read of the application. */
  ghost predicate InTime(db: Db, p: Pending)
    requires p.GrantRead? || p.RevokeRead?
  {
    var d := Documents(db.outbox, p.key);
    d == [] || d[|d| - 1].appVersion <= p.app.version
  }

  /** The step is not a commit that was overtaken. */
  ghost predicate NotOvertaken(s: State, a: Action) {
    a.Commit? && a.pid in s.pending && Writes(s.db, s.pending[a.pid], a.budget) ==> InTime(s.db, s.pending[a.pid])
  }

  lemma CommitKeepsOrdered(s: State, a: Action, k: Key)
    requires SearchInv(s.db) && ReadsPast(s) && NotOvertaken(s, a) && a.Commit? && a.pid in s.pending
    requires Ready(s.pending[a.pid])
    ensures Ordered(NextDb(s, a), k)
  {
    hide Documents, Lists, Committed, Granted, UpdateEvents, InOrder;
    var p := s.pending[a.pid];
    assert Ordered(s.db, k);
    match p
    case GrantRead(key, app, request, current) =>
      GrantOutcome(s.db, p, a.budget, a.now, a.tenants);
      GrantedFacts(request, current);
      if GrantTakesEffect(s.db, p, a.budget) {
        var grant := Granted(request, current);
        assert Ordered(s.db, key);
        WriteKeepsOrdered(s.db, key, grant, DocumentUpserted(key, app.name, app.version, grant.version), k);
      }
    case RevokeRead(key, grant, app, expected) =>
      RevokeOutcome(s.db, p, a.budget, a.now, a.tenants);
      if RevokeTakesEffect(s.db, p, a.budget) {
        assert Ordered(s.db, key);
        WriteKeepsOrdered(s.db, key, Revoked(grant, expected), DocumentDeleted(key, app.version, expected + 1), k);
      }
    case UpdateRead(appId, _, name, expected) =>
      UpdateOutcome(s.db, p, a.budget, a.now, a.tenants);
      if UpdateTakesEffect(s.db, p, a.budget, a.now, a.tenants) {
        UpdateKeepsOrdered(s.db, appId, Renamed(name, expected + 1), a.tenants, a.now, k);
      }
  }

  /** An application stays, or it moves to a higher version with its name or a name of that version. */
  ghost predicate AppsMove(before: Db, after: Db) {
    forall id :: id in before.apps ==>
      id in after.apps &&
      var a, b := before.apps[id], after.apps[id];
      b == a || (b.version > a.version && (b.named == b.version || (b.named == a.named && b.name == a.name)))
  }

  lemma StepMovesApps(s: State, a: Action)
    requires AppsPositive(s.db)
    ensures AppsMove(s.db, NextDb(s, a)) && AppsPositive(NextDb(s, a))
  {
    hide Lists, Committed, Granted, UpdateEvents;
    if a.Commit? && a.pid in s.pending && Ready(s.pending[a.pid]) {
      var p := s.pending[a.pid];
      match p
      case GrantRead(_, _, _, _) => GrantOutcome(s.db, p, a.budget, a.now, a.tenants);
      case RevokeRead(_, _, _, _) => RevokeOutcome(s.db, p, a.budget, a.now, a.tenants);
      case UpdateRead(_, _, _, _) => UpdateOutcome(s.db, p, a.budget, a.now, a.tenants);
    }
  }

  lemma StepKeepsReads(s: State, a: Action)
    requires AppsPositive(s.db) && ReadsPast(s)
    ensures ReadsPast(Next(s, a))
  {
    StepMovesApps(s, a);
    hide NextDb, TrimSpace;
    var t := Next(s, a);
    forall id, app | WasRead(s.db, id, app)
      ensures WasRead(t.db, id, app)
    {
    }
    if a.BeginGrant? || a.ReadApp? {
      OnlyCommitsWrite(s, a);
    }
  }

  /** A step that is not an overtaken commit keeps the order, and what grants and revocations under way have read. */
  lemma StepKeepsSearch(s: State, a: Action)
    requires SearchInv(s.db) && ReadsPast(s) && NotOvertaken(s, a)
    ensures SearchInv(NextDb(s, a)) && ReadsPast(Next(s, a))
  {
    StepMovesApps(s, a);
    StepKeepsReads(s, a);
    hide Documents, Lists, Committed, Granted, UpdateEvents, InOrder, ReadsPast, NotOvertaken;
    forall k: Key
      ensures Ordered(NextDb(s, a), k)
    {
      assert Ordered(s.db, k);
      if a.Commit? && a.pid in s.pending && Ready(s.pending[a.pid]) {
        CommitKeepsOrdered(s, a, k);
      }
    }
  }

  /**
   Exactly when a grant or a revocation that takes effect keeps the order, even over
   interleavings: no newer document event may have overtaken its read of the application.
   */
  lemma CommitOrderIff(db: Db, p: Pending, budget: nat, now: int, tenants: seq<string>)
    requires Writes(db, p, budget)
    requires var d := Documents(db.outbox, p.key);
             && InOrder(d) && (d == [] <==> p.key !in db.grants)
             && (d != [] ==> d[|d| - 1].grantVersion == db.grants[p.key].version)
    ensures InOrder(Documents(Committed(db, p, budget, now, tenants).outbox, p.key)) <==> InTime(db, p)
  {
    hide Documents, Committed, Granted, InOrder;
    var d := Documents(db.outbox, p.key);
    if p.GrantRead? {
      GrantOutcome(db, p, budget, now, tenants);
      GrantedFacts(p.request, p.current);
      var grant := Granted(p.request, p.current);
      var e := DocumentUpserted(p.key, p.app.name, p.app.version, grant.version);
      WriteAddsDocument(db.outbox, GrantChanged(p.key, grant), e, p.key);
      AppendOrder(d, e);
    } else {
      RevokeOutcome(db, p, budget, now, tenants);
      var e := DocumentDeleted(p.key, p.app.version, p.expected + 1);
      WriteAddsDocument(db.outbox, GrantChanged(p.key, Revoked(p.grant, p.expected)), e, p.key);
      AppendOrder(d, e);
    }
  }

  // ----- whole runs

  /** No grant or revocation that takes effect has been overtaken. */
  ghost predicate Unovertaken(s: State, actions: seq<Action>)
    decreases |actions|
  {
    actions == [] || (NotOvertaken(s, actions[0]) && Unovertaken(Next(s, actions[0]), actions[1..]))
  }

  lemma {:induction false} RunKeepsSearch(s: State, actions: seq<Action>)
    requires SearchInv(s.db) && ReadsPast(s) && Unovertaken(s, actions)
    ensures SearchInv(Run(s, actions).db) && ReadsPast(Run(s, actions))
    decreases |actions|
  {
    hide NextDb, NextPending, SearchInv, ReadsPast, NotOvertaken;
    if actions != [] {
      StepKeepsSearch(s, actions[0]);
      RunKeepsSearch(Next(s, actions[0]), actions[1..]);
    }
  }

  lemma {:induction false} DocumentsExtend(outbox: seq<Event>, more: seq<Event>, key: Key)
    ensures Documents(outbox, key) <= Documents(outbox + more, key)
    decreases |more|
  {
    if more == [] {
      assert outbox + more == outbox;
    } else {
      var n := |more| - 1;
      DocumentsExtend(outbox, more[..n], key);
      assert outbox + more == outbox + more[..n] + [more[n]];
      DocumentsAdd(outbox + more[..n], more[n], key);
    }
  }

  lemma StepExtends(s: State, a: Action)
    ensures s.db.outbox <= NextDb(s, a).outbox
  {
    hide Lists, Committed, Granted, UpdateEvents, Revoked;
    if a.Commit? && a.pid in s.pending && Ready(s.pending[a.pid]) {
      var p := s.pending[a.pid];
      match p
      case GrantRead(_, _, _, _) => GrantOutcome(s.db, p, a.budget, a.now, a.tenants);
      case RevokeRead(_, _, _, _) => RevokeOutcome(s.db, p, a.budget, a.now, a.tenants);
      case UpdateRead(_, _, _, _) => UpdateOutcome(s.db, p, a.budget, a.now, a.tenants);
    }
  }

  lemma {:induction false} RunExtends(s: State, actions: seq<Action>)
    ensures s.db.outbox <= Run(s, actions).db.outbox
    decreases |actions|
  {
    hide NextDb, NextPending;
    if actions != [] {
      StepExtends(s, actions[0]);
      RunExtends(Next(s, actions[0]), actions[1..]);
    }
  }

  /** An order that is broken stays broken. */
  lemma BrokenStaysBroken(s: State, actions: seq<Action>, key: Key)
    requires !InOrder(Documents(s.db.outbox, key))
    ensures !InOrder(Documents(Run(s, actions).db.outbox, key))
  {
    hide Documents, Run;
    RunExtends(s, actions);
    var before, after := s.db.outbox, Run(s, actions).db.outbox;
    assert after == before + after[|before|..];
    DocumentsExtend(before, after[|before|..], key);
    var d, e := Documents(before, key), Documents(after, key);
    assert forall i :: 0 <= i < |d| ==> d[i] == e[i];
  }

  lemma OvertakenBreaks(s: State, a: Action)
    requires SearchInv(s.db) && !NotOvertaken(s, a)
    ensures exists key :: !InOrder(Documents(NextDb(s, a).outbox, key))
  {
    hide Documents, InOrder, Committed, InTime;
    var p := s.pending[a.pid];
    assert Ordered(s.db, p.key);
    CommitOrderIff(s.db, p, a.budget, a.now, a.tenants);
    assert !InOrder(Documents(NextDb(s, a).outbox, p.key));
  }

  /**
   Over whole interleavings: the versions of every document ascend at the end of a run,
   and so at each of its points, exactly if no grant or revocation that took effect had
   been overtaken.
   */
  lemma {:induction false} RunOrderIff(s: State, actions: seq<Action>)
    requires SearchInv(s.db) && ReadsPast(s)
    ensures (forall key :: InOrder(Documents(Run(s, actions).db.outbox, key))) <==> Unovertaken(s, actions)
    decreases |actions|
  {
    hide NextDb, NextPending, ReadsPast, NotOvertaken, Documents, InOrder;
    if actions == [] {
      forall key
        ensures InOrder(Documents(s.db.outbox, key))
      {
        assert Ordered(s.db, key);
      }
    } else {
      hide SearchInv;
      var next := Next(s, actions[0]);
      assert Run(s, actions) == Run(next, actions[1..]);
      hide Run;
      if NotOvertaken(s, actions[0]) {
        StepKeepsSearch(s, actions[0]);
        RunOrderIff(next, actions[1..]);
      } else {
        OvertakenBreaks(s, actions[0]);
        var key :| !InOrder(Documents(next.db.outbox, key));
        BrokenStaysBroken(next, actions[1..], key);
      }
    }
  }

  /** What an event does to the index: a document with a title, or none. */
  function Indexed(e: Event): Option<string> {
    if e.DocumentUpserted? then Some(e.title) else None
  }

  /** The document events as the index receives them. */
  function Sent(d: seq<Event>): seq<Versioned<Option<string>>>
    requires forall e :: e in d ==> !e.GrantChanged?
  {
    seq(|d|, i requires 0 <= i < |d| => Versioned(SourceVersion(d[i].appVersion, d[i].grantVersion), Indexed(d[i])))
  }

  lemma SentAscends(db: Db, key: Key)
    requires Ordered(db, key) && key in db.grants
    requires db.apps[key.1].version < TWO31 && db.grants[key].version < TWO32
    ensures Ascending(Sent(Documents(db.outbox, key)))
  {
    hide Documents, SourceVersion;
    var d := Documents(db.outbox, key);
    forall i | 0 <= i < |d|
      ensures 0 <= d[i].appVersion < TWO31 && 0 <= d[i].grantVersion < TWO32
    {
      assert d[i] in d;
      assert i < |d| - 1 ==> EventBefore(d[i], d[|d| - 1]);
    }
    forall i, j | 0 <= i < j < |d|
      ensures Sent(d)[i].version < Sent(d)[j].version
    {
      assert EventBefore(d[i], d[j]);
      PackedOrders(d[i].appVersion, d[i].grantVersion, d[j].appVersion, d[j].grantVersion);
    }
  }

  /**
   In every such run that stays inside the two ranges, the source versions of a
   document ascend strictly, and however its events are delivered, the index shows
   the document exactly when the grant is active, and then with the application's
   name if the newest event is not older than that name.
   */
  lemma IndexFollowsGrants(s: State, actions: seq<Action>, key: Key, delivered: seq<Versioned<Option<string>>>)
    requires SearchInv(s.db) && ReadsPast(s) && Unovertaken(s, actions)
    requires InRanges(Run(s, actions).db, key)
    requires Delivers(Sent(Documents(Run(s, actions).db.outbox, key)), delivered)
    ensures Ascending(Sent(Documents(Run(s, actions).db.outbox, key)))
    ensures IndexShows(Run(s, actions).db, key, Replayed(delivered))
  {
    hide Documents, Run, Unovertaken, Delivers, SourceVersion, ReadsPast;
    RunKeepsSearch(s, actions);
    var db := Run(s, actions).db;
    assert Ordered(db, key);
    var d := Documents(db.outbox, key);
    if key in db.grants {
      SentAscends(db, key);
    }
    AnyDeliveryAgrees(Sent(d), delivered);
  }

  ghost predicate InRanges(db: Db, key: Key) {
    key in db.grants && key.1 in db.apps ==> db.apps[key.1].version < TWO31 && db.grants[key].version < TWO32
  }

  /** What the index keeps of a document agrees with the stored grant and application. */
  ghost predicate IndexShows(db: Db, key: Key, kept: Option<Versioned<Option<string>>>) {
    var d := Documents(db.outbox, key);
    && (key !in db.grants ==> kept.None?)
    && (key in db.grants ==>
          && d != [] && kept.Some? && key.1 in db.apps
          && (kept.value.payload.Some? <==> db.grants[key].status == "active")
          && (kept.value.payload.Some? && d[|d| - 1].appVersion >= db.apps[key.1].named ==>
                kept.value.payload.value == db.apps[key.1].name))
  }

  /**
   What becomes of the index when a revocation takes effect, however the events are
   delivered: it loses the document exactly if it did not hold it before or the
   revocation was in time.
   */
  lemma RevocationReachesIndexIff(db: Db, p: Pending, budget: nat, now: int, tenants: seq<string>,
                                  delivered: seq<Versioned<Option<string>>>)
    requires p.RevokeRead? && Ordered(db, p.key) && RevokeTakesEffect(db, p, budget)
    requires 0 <= p.app.version < TWO31 && db.apps[p.key.1].version < TWO31 && db.grants[p.key].version + 1 < TWO32
    requires Delivers(Sent(Documents(Committed(db, p, budget, now, tenants).outbox, p.key)), delivered)
    ensures Replayed(delivered).Some?
    ensures Replayed(delivered).value.payload.None? <==> db.grants[p.key].status != "active" || InTime(db, p)
    ensures var d := Documents(db.outbox, p.key);
            d != [] && (!InTime(db, p) ==> Replayed(delivered).value.payload == Indexed(d[|d| - 1]))
  {
    hide Documents, Committed, SourceVersion, Delivers;
    var d, e := Documents(db.outbox, p.key), DocumentDeleted(p.key, p.app.version, p.expected + 1);
    RevokeOutcome(db, p, budget, now, tenants);
    WriteAddsDocument(db.outbox, GrantChanged(p.key, Revoked(p.grant, p.expected)), e, p.key);
    SentAscends(db, p.key);
    var all, n := Sent(d + [e]), |d| - 1;
    assert all == Sent(d) + [all[|d|]];
    assert d[n] in d;
    PackedOrders(d[n].appVersion, d[n].grantVersion, e.appVersion, e.grantVersion);
    assert forall j :: 0 <= j < n ==> all[j] == Sent(d)[j] && all[j].version < all[n].version;
    assert InTime(db, p) <==> all[n].version < all[|d|].version;
    assert InTime(db, p) || all[|d|].version < all[n].version;
    HighestWins(all, delivered, if InTime(db, p) then |d| else n);
  }

  /** Renaming an application reaches the documents of all open grants, and only theirs. */
  lemma RenameReachesOpenGrants(db: Db, p: Pending, budget: nat, now: int, tenants: seq<string>, k: Key)
    requires SearchInv(db) && p.UpdateRead? && UpdateTakesEffect(db, p, budget, now, tenants)
    ensures var before, after := Documents(db.outbox, k), Documents(Committed(db, p, budget, now, tenants).outbox, k);
            if k in db.grants && k.1 == p.appId && Open(db.grants[k], now) then
              after == before + [DocumentUpserted(k, p.name, p.expected + 1, db.grants[k].version)]
            else after == before
  {
    hide Documents, Committed, Open, SearchInv, UpdateEvents, Lists;
    UpdateOutcome(db, p, budget, now, tenants);
    UpdateAddsOwnDocument(db, p.appId, Renamed(p.name, p.expected + 1), tenants, now, k);
  }

  // ----- serial runs

  /** The application that a grant or a revocation is about to commit against is the one that it read. */
  predicate CommitsCurrent(s: State, a: Action) {
    a.Commit? && a.pid in s.pending && (s.pending[a.pid].GrantRead? || s.pending[a.pid].RevokeRead?) ==>
      var p := s.pending[a.pid];
      p.key.1 in s.db.apps && s.db.apps[p.key.1] == p.app
  }

  /** No application moves between being read by a grant or a revocation and that operation's commit. */
  ghost predicate Quiet(s: State, actions: seq<Action>)
    decreases |actions|
  {
    actions == [] || (CommitsCurrent(s, actions[0]) && Quiet(Next(s, actions[0]), actions[1..]))
  }

  /** In a quiet run nothing is overtaken. */
  lemma {:induction false} QuietIsUnovertaken(s: State, actions: seq<Action>)
    requires SearchInv(s.db) && ReadsPast(s) && Quiet(s, actions)
    ensures Unovertaken(s, actions)
    decreases |actions|
  {
    hide NextDb, NextPending, ReadsPast, Documents, InOrder, GrantTakesEffect, RevokeTakesEffect;
    if actions != [] {
      assert NotOvertaken(s, actions[0]) by {
        if actions[0].Commit? && actions[0].pid in s.pending &&
            Writes(s.db, s.pending[actions[0].pid], actions[0].budget) {
          assert Ordered(s.db, s.pending[actions[0].pid].key);
        }
      }
      StepKeepsSearch(s, actions[0]);
      QuietIsUnovertaken(Next(s, actions[0]), actions[1..]);
    }
  }

  /** An operation carried out from its first read to its commit before anything else happens. */
  datatype Operation =
    | GrantOnce(tenantId: string, appId: string, request: Request, budget: nat)
    | RevokeOnce(tenantId: string, appId: string, expected: int, budget: nat)
    | UpdateOnce(appId: string, name: string, expected: int, budget: nat, now: int, tenants: seq<string>)
    | CreateOnce(appId: string, name: string)
    | PublishOnce(appId: string, expected: int)

  function Steps(op: Operation): seq<Action> {
    match op
    case GrantOnce(t, a, request, budget) => [BeginGrant(0, t, a, request), ReadGrant(0),
        Commit(0, budget, request.now, [])]
    case RevokeOnce(t, a, expected, budget) => [BeginRevoke(0, t, a, expected), ReadApp(0), Commit(0, budget, 0, [])]
    case UpdateOnce(a, name, expected, budget, now, tenants) => [BeginUpdate(0, a, name, expected),
        Commit(0, budget, now, tenants)]
    case CreateOnce(a, name) => [CreateApp(a, name)]
    case PublishOnce(a, expected) => [PublishApp(a, expected)]
  }

  function Serial(ops: seq<Operation>): seq<Action>
    decreases |ops|
  {
    if ops == [] then [] else Steps(ops[0]) + Serial(ops[1..])
  }

  /** Between operations at most a revocation whose application is missing is left over. */
  predicate Settled(s: State) {
    0 in s.pending ==> s.pending[0].RevokeGrantRead?
  }

  lemma QuietStep(s: State, a: Action, rest: seq<Action>)
    requires CommitsCurrent(s, a)
    ensures Quiet(s, [a] + rest) <==> Quiet(Next(s, a), rest)
  {
    assert ([a] + rest)[1..] == rest;
  }

  lemma OperationIsQuiet(s: State, op: Operation, rest: seq<Action>)
    requires Settled(s)
    ensures exists t :: Settled(t) && (Quiet(t, rest) ==> Quiet(s, Steps(op) + rest))
  {
    hide NextDb, Quiet, TrimSpace;
    var a := Steps(op);
    var t := Next(s, a[0]);
    if |a| == 1 {
      QuietStep(s, a[0], rest);
      assert a + rest == [a[0]] + rest;
      assert Settled(t);
    } else if |a| == 2 {
      var u := Next(t, a[1]);
      QuietStep(s, a[0], [a[1]] + rest);
      QuietStep(t, a[1], rest);
      assert a + rest == [a[0]] + ([a[1]] + rest);
      assert Settled(u);
    } else {
      var u := Next(t, a[1]);
      var v := Next(u, a[2]);
      assert t.db == s.db && u.db == s.db by { OnlyCommitsWrite(s, a[0]); OnlyCommitsWrite(t, a[1]); }
      QuietStep(s, a[0], [a[1], a[2]] + rest);
      QuietStep(t, a[1], [a[2]] + rest);
      QuietStep(u, a[2], rest);
      assert a + rest == [a[0]] + ([a[1], a[2]] + rest) && [a[1], a[2]] + rest == [a[1]] + ([a[2]] + rest);
      assert Settled(v);
    }
  }

  lemma OnlyCommitsWrite(s: State, a: Action)
    requires !a.Commit? && !a.CreateApp? && !a.PublishApp?
    ensures NextDb(s, a) == s.db
  {
  }

  /** Serial runs are quiet. */
  lemma {:induction false} SerialRunsAreQuiet(s: State, ops: seq<Operation>)
    requires Settled(s)
    ensures Quiet(s, Serial(ops))
    decreases |ops|
  {
    hide Settled, Quiet;
    if ops == [] {
      assert Quiet(s, []) by { EmptyIsQuiet(s); }
    } else {
      OperationIsQuiet(s, ops[0], Serial(ops[1..]));
      var t :| Settled(t) && (Quiet(t, Serial(ops[1..])) ==> Quiet(s, Steps(ops[0]) + Serial(ops[1..])));
      SerialRunsAreQuiet(t, ops[1..]);
    }
  }

  lemma EmptyIsQuiet(s: State)
    ensures Quiet(s, [])
  {
  }

  /** From the empty database, the index follows the grants in every serial run, however events are delivered. */
  lemma SerialIndexFollowsGrants(ops: seq<Operation>, key: Key, delivered: seq<Versioned<Option<string>>>)
    requires InRanges(Run(Init(), Serial(ops)).db, key)
    requires Delivers(Sent(Documents(Run(Init(), Serial(ops)).db.outbox, key)), delivered)
    ensures IndexShows(Run(Init(), Serial(ops)).db, key, Replayed(delivered))
  {
    StartIsSearchable();
    SerialRunsAreQuiet(Init(), ops);
    hide Run, Serial, Quiet, Unovertaken, SearchInv, ReadsPast, IndexShows, Delivers, InRanges;
    QuietIsUnovertaken(Init(), Serial(ops));
    IndexFollowsGrants(Init(), Serial(ops), key, delivered);
  }

  // ----- a race that the packed version does not survive

  /** A revocation that reads the application just before it is renamed, and commits just after. */
  function RacingRevocation(key: Key, app: App, grant: Grant, name: string, now: int,
                            tenants: seq<string>): seq<Action> {
    [BeginRevoke(0, key.0, key.1, grant.version), ReadApp(0), BeginUpdate(1, key.1, name, app.version),
     Commit(1, |tenants|, now, tenants), Commit(0, 2, now, [])]
  }

  lemma RunFive(s: State, a: seq<Action>)
    requires |a| == 5
    ensures Run(s, a) == Next(Next(Next(Next(Next(s, a[0]), a[1]), a[2]), a[3]), a[4])
  {
    hide Next;
    var b, c, d := a[1..], a[2..], a[3..];
    assert b[1..] == c && c[1..] == d && d[1..] == [a[4]] && [a[4]][1..] == [];
    var t := Next(s, a[0]);
    var u := Next(t, a[1]);
    var v := Next(u, a[2]);
    var w := Next(v, a[3]);
    assert Run(s, a) == Run(t, b) && Run(t, b) == Run(u, c);
    assert Run(u, c) == Run(v, d) && Run(v, d) == Run(w, [a[4]]);
    assert Run(w, [a[4]]) == Run(Next(w, a[4]), []);
  }

  /** The reads of the race: nothing is written, and both operations are ready. */
  lemma RaceReads(s: State, key: Key, name: string, now: int, tenants: seq<string>)
    requires s.pending == map[] && key in s.db.grants && key.1 in s.db.apps && s.db.apps[key.1].version >= 1
    ensures var app, grant := s.db.apps[key.1], s.db.grants[key];
            var a := RacingRevocation(key, app, grant, name, now, tenants);
            Next(Next(Next(s, a[0]), a[1]), a[2]) ==
              State(s.db, map[0 := RevokeRead(key, grant, app, grant.version),
                  1 := UpdateRead(key.1, app, name, app.version)])
  {
  }

  /** The race commits the rename and then the revocation. */
  lemma RaceCommits(s: State, key: Key, name: string, now: int, tenants: seq<string>)
    requires s.pending == map[] && key in s.db.grants && key.1 in s.db.apps && s.db.apps[key.1].version >= 1
    ensures var app, grant := s.db.apps[key.1], s.db.grants[key];
            var p, q := RevokeRead(key, grant, app, grant.version), UpdateRead(key.1, app, name, app.version);
            Run(s, RacingRevocation(key, app, grant, name, now, tenants)).db ==
              Committed(Committed(s.db, q, |tenants|, now, tenants), p, 2, now, [])
  {
    var app, grant := s.db.apps[key.1], s.db.grants[key];
    var a := RacingRevocation(key, app, grant, name, now, tenants);
    RaceReads(s, key, name, now, tenants);
    RunFive(s, a);
    hide Run, Committed, NextDb, NextPending;
    RaceWrites(s.db, RevokeRead(key, grant, app, grant.version), UpdateRead(key.1, app, name, app.version), now,
        tenants);
  }

  lemma RaceWrites(db: Db, p: Pending, q: Pending, now: int, tenants: seq<string>)
    requires p.RevokeRead? && q.UpdateRead?
    ensures Next(Next(State(db, map[0 := p, 1 := q]), Commit(1, |tenants|, now, tenants)), Commit(0, 2, now, [])).db ==
      Committed(Committed(db, q, |tenants|, now, tenants), p, 2, now, [])
  {
    hide Committed;
    var once := Next(State(db, map[0 := p, 1 := q]), Commit(1, |tenants|, now, tenants));
    assert once.pending == map[0 := p];
  }

  /** The rename has put a newer document event in front of the revocation. */
  lemma RaceOvertakes(s: State, key: Key, name: string, now: int, tenants: seq<string>)
    requires SearchInv(s.db) && key in s.db.grants && key.1 in s.db.apps
    requires Lists(tenants, s.db, key.1, now) && Open(s.db.grants[key], now)
    ensures var app, grant := s.db.apps[key.1], s.db.grants[key];
            var renamed := Committed(s.db, UpdateRead(key.1, app, name, app.version), |tenants|, now, tenants);
            && Ordered(renamed, key) && renamed.grants == s.db.grants && renamed.apps[key.1].version == app.version + 1
            && var d := Documents(renamed.outbox, key);
               d != [] && d[|d| - 1] == DocumentUpserted(key, name, app.version + 1, grant.version)
  {
    hide Documents, Committed, Lists, Open, UpdateEvents, InOrder;
    var app := s.db.apps[key.1];
    var q := UpdateRead(key.1, app, name, app.version);
    assert UpdateTakesEffect(s.db, q, |tenants|, now, tenants);
    UpdateOutcome(s.db, q, |tenants|, now, tenants);
    assert Ordered(s.db, key);
    UpdateKeepsOrdered(s.db, key.1, Renamed(name, app.version + 1), tenants, now, key);
  }

  /**
   Whatever came before and however the events are delivered, the race leaves the document of a
   revoked grant in the index.
   */
  lemma RacingRevocationLeavesDocument(s: State, key: Key, name: string, now: int, tenants: seq<string>,
                                       delivered: seq<Versioned<Option<string>>>)
    requires SearchInv(s.db) && s.pending == map[] && key in s.db.grants && key.1 in s.db.apps
    requires Lists(tenants, s.db, key.1, now) && Open(s.db.grants[key], now)
    requires s.db.apps[key.1].version + 1 < TWO31 && s.db.grants[key].version + 1 < TWO32
    requires var db := Run(s, RacingRevocation(key, s.db.apps[key.1], s.db.grants[key], name, now, tenants)).db;
             Delivers(Sent(Documents(db.outbox, key)), delivered)
    ensures var db := Run(s, RacingRevocation(key, s.db.apps[key.1], s.db.grants[key], name, now, tenants)).db;
            && key in db.grants && db.grants[key].status == "revoked"
            && Replayed(delivered).Some? && Replayed(delivered).value.payload == Some(name)
  {
    hide Documents, Run, Lists, Open, SourceVersion, Committed, RacingRevocation, Delivers;
    var app, grant := s.db.apps[key.1], s.db.grants[key];
    var p := RevokeRead(key, grant, app, grant.version);
    var renamed := Committed(s.db, UpdateRead(key.1, app, name, app.version), |tenants|, now, tenants);
    RaceCommits(s, key, name, now, tenants);
    RaceOvertakes(s, key, name, now, tenants);
    assert app.version >= 1;
    hide SearchInv, Ordered;
    RevokeOutcome(renamed, p, 2, now, []);
    RevocationReachesIndexIff(renamed, p, 2, now, [], delivered);
  }
}
