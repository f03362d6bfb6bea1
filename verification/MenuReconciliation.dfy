/** The loop of `reconcileMenus`: what each handled spec adds to what is known so far. */
module MenuReconciliation {
  import opened Wrappers
  import opened Text
  import opened Menus
  import opened MenuTree
  import opened Manifests
  import opened BootstrapServer
  import opened Tallies
  import opened Declared

  /** Every state that the trace records has forests only. */
  ghost predicate TraceForests(trace: seq<Event>) {
    forall i :: 0 <= i < |trace| ==> AllForests(trace[i].after)
  }

  ghost predicate ForestsStay(from: Moment, to: Moment) {
    AllForests(from.db) ==> AllForests(to.db) && (TraceForests(from.trace) ==> TraceForests(to.trace))
  }

  /** Only the drafts of one application differ. */
  ghost predicate OnlyDrafts(before: Db, after: Db, applicationId: string) {
    && after == before.(menus := after.menus)
    && forall a :: a != applicationId ==> DraftsOf(after, a) == DraftsOf(before, a)
  }

  // ----- one declared menu

  datatype MenuOutcome = Unchanged(id: string) | Written(id: string) | Failed(error: ApiError)

  /** The write that an upsert of one spec amounts to. */
  ghost predicate MenuWritten(before: Db, after: Db, applicationId: string, parentId: string, spec: MenuSpec) {
    spec.code in DraftsOf(after, applicationId) &&
    var drafts, menu := DraftsOf(before, applicationId), DraftsOf(after, applicationId)[spec.code];
    && after == WithMenu(before, menu)
    && menu.applicationId == applicationId && menu.code == spec.code && menu.id != ""
    && MenuEqual(menu.(status := "active"), MenuFromSpec(applicationId, parentId, spec))
    && (if spec.code in drafts then drafts[spec.code].id == menu.id else Unused(drafts, menu.id))
    && menu.status == if before.kind.keepsStatus || spec.code !in drafts then "active" else ""
  }

  function MenuCall(before: Db, applicationId: string, code: string): Call {
    if code in DraftsOf(before, applicationId) then MenuUpdated(applicationId, code)
        else MenuCreated(applicationId, code)
  }

  // ----- the specs

  /** What validation grants: trimmed codes are distinct and not empty, and parents are written trimmed. */
  ghost predicate SpecsReady(specs: seq<MenuSpec>, kind: Kind) {
    DistinctCodes(Effectives(specs, kind)) && forall s :: s in specs ==> KeptText(s.parent, kind) == s.parent
  }

  /** There is nothing to trim in the specs. */
  ghost predicate AllTrimmed(specs: seq<MenuSpec>, kind: Kind) {
    forall s :: s in specs ==> EffectiveMenu(s, kind) == s
  }

  /** What the loop knows of the next spec and those before it. */
  ghost predicate ComesNext(placed: seq<MenuSpec>, s: MenuSpec, kind: Kind) {
    var e, done := EffectiveMenu(s, kind), Codes(Effectives(placed, kind));
    && s.code != "" && e.code != "" && e.code !in done && s.code !in done && e.parent == s.parent
    && (s.parent != "" ==>
          s.parent in done && exists p :: p in placed && p.code == s.parent && EffectiveMenu(p, kind).code == s.parent)
  }

  lemma EffectivesNext(placed: seq<MenuSpec>, s: MenuSpec, kind: Kind)
    ensures Effectives(placed + [s], kind) == Effectives(placed, kind) + [EffectiveMenu(s, kind)]
  {
    hide EffectiveMenu;
  }

  lemma EffectiveCode(s: MenuSpec, kind: Kind)
    ensures EffectiveMenu(s, kind).code == KeptText(s.code, kind) && EffectiveMenu(s, kind).parent == s.parent
    ensures EffectiveMenu(s, kind).code != "" ==> s.code != ""
    ensures KeptText(KeptText(s.code, kind), kind) == KeptText(s.code, kind)
  {
    assert TrimSpace("") == "";
    hide TrimSpace;
    KeptTextTwice(s.code, kind);
  }

  lemma EffectiveMember(placed: seq<MenuSpec>, p: MenuSpec, kind: Kind)
    requires p in placed
    ensures EffectiveMenu(p, kind) in Effectives(placed, kind)
    ensures EffectiveMenu(p, kind).code in Codes(Effectives(placed, kind))
  {
    hide EffectiveMenu;
    var i :| 0 <= i < |placed| && placed[i] == p;
    assert Effectives(placed, kind)[i] == EffectiveMenu(p, kind);
  }

  lemma NotAmong(placed: seq<MenuSpec>, code: string, kind: Kind)
    requires forall i :: 0 <= i < |placed| ==> EffectiveMenu(placed[i], kind).code != code
    ensures code !in Codes(Effectives(placed, kind))
  {
    hide EffectiveMenu;
  }

  lemma NextSpec(specs: seq<MenuSpec>, order: seq<MenuSpec>, i: nat, kind: Kind)
    requires SpecsReady(order, kind) && IsOrderOf(order, specs) && i < |order|
    ensures ComesNext(order[..i], order[i], kind) && order[i].code != ""
    ensures order[..i + 1] == order[..i] + [order[i]]
  {
    hide EffectiveMenu, KeptText, Codes;
    var s, placed, all := order[i], order[..i], Effectives(order, kind);
    EffectiveCode(s, kind);
    assert all[i] == EffectiveMenu(s, kind);
    forall j | 0 <= j < i
      ensures EffectiveMenu(placed[j], kind).code != EffectiveMenu(s, kind).code
      ensures EffectiveMenu(placed[j], kind).code != s.code
    {
      EffectiveCode(order[j], kind);
      assert all[j].code != all[i].code;
    }
    NotAmong(placed, s.code, kind);
    NotAmong(placed, EffectiveMenu(s, kind).code, kind);
    if s.parent != "" {
      var j :| 0 <= j < i && order[j].code == s.parent;
      assert order[j] in placed;
      EffectiveCode(order[j], kind);
      assert s in order;
      EffectiveMember(placed, order[j], kind);
    }
  }

  // ----- the loop

  /** The client's variables, with the specs handled so far. */
  datatype Progress = Progress(placed: seq<MenuSpec>, ids: map<string, string>, byCode: Drafts,
                               changed: bool, result: Tally)

  /**
   The client's view: the drafts as listed at the start, and the identifiers of the
   placed menus. All drafts keep their identifiers, and those not placed are untouched
   and do not hang below a draft that was created meanwhile.
   */
  ghost predicate Tracks(g: Progress, before: Drafts, drafts: Drafts, kind: Kind) {
    && g.byCode == before && "" !in g.ids && "" !in drafts
    && (forall s :: s in g.placed ==>
          s.code in g.ids && EffectiveMenu(s, kind).code in drafts &&
              g.ids[s.code] == drafts[EffectiveMenu(s, kind).code].id)
    && (forall c :: c in before ==> c in drafts && drafts[c].id == before[c].id)
    && (forall c :: c !in Codes(Effectives(g.placed, kind)) ==>
         (c in drafts <==> c in before) && (c in drafts ==> drafts[c] == before[c]))
    && forall c, d :: c in drafts && c !in before && d in before && d !in Codes(Effectives(g.placed, kind)) ==>
         before[d].parentId != drafts[c].id
  }

  /** The counters after the placed specs, compared with the drafts at the start. */
  ghost predicate Tallied(from: Moment, a: string, g: Progress) {
    && (g.changed <==> g.result != ZERO)
    && (g.changed <==> !MenusUpToDate(DraftsOf(from.db, a), a, g.placed))
    && (g.result.menusUpdated == 0 <==> NoneDue(DraftsOf(from.db, a), a, g.placed))
  }

  /** Where the loop stands once the placed specs have been handled. */
  ghost predicate Reconciled(from: Moment, to: Moment, a: string, g: Progress) {
    var drafts, done := DraftsOf(to.db, a), Effectives(g.placed, from.db.kind);
    && DbValid(to.db) && OnlyDrafts(from.db, to.db, a)
    && Counted(from, to, g.result) && MenusOnly(g.result) && Tallied(from, a, g)
    && Tracks(g, DraftsOf(from.db, a), drafts, from.db.kind)
    && Placed(drafts, a, done)
    && (AllActive(drafts, done) <==> from.db.kind.keepsStatus || g.result.menusUpdated == 0)
    && ForestsStay(from, to)
  }

  lemma ReconciledInit(m: Moment, a: string, ids: map<string, string>, byCode: Drafts)
    requires DbValid(m.db) && byCode == DraftsOf(m.db, a)
    requires ids == map c | c in byCode :: byCode[c].id
    ensures Reconciled(m, m, a, Progress([], ids, byCode, false, ZERO))
  {
    hide AllForests, TraceForests, UpToDate, Counted, Reflects, NoUpdateDue, KeptText, Kept;
    StoredDrafts(m.db, a);
    CountedNone(m);
  }

  /** What the body of the loop needs from the loop invariant. */
  lemma ReconciledFacts(from: Moment, to: Moment, a: string, g: Progress, s: MenuSpec)
    requires Reconciled(from, to, a, g) && ComesNext(g.placed, s, from.db.kind)
    ensures var drafts, e := DraftsOf(to.db, a), EffectiveMenu(s, from.db.kind);
            && DbValid(to.db) && to.db.kind == from.db.kind
            && (s.code in g.byCode <==> s.code in drafts) && (s.code in drafts ==> g.byCode[s.code] == drafts[s.code])
            && IdOf(drafts, s.parent) == (if s.parent in g.ids then g.ids[s.parent] else "")
            && (AllForests(from.db) ==> ServerReady(drafts, e))
  {
    hide MenuFromSpec, MenusUpToDate, Placed, Forest, ReachesRoot, ParentsOf, Counted, ServerReady, AllActive,
         EffectiveMenu, Tallied, DbValid, Codes;
    if AllForests(from.db) {
      NoDraftsForest();
      assert ServerReady(DraftsOf(to.db, a), EffectiveMenu(s, from.db.kind)) by {
        ServerAdmits(DraftsOf(to.db, a), a, Effectives(g.placed, from.db.kind), EffectiveMenu(s, from.db.kind));
      }
    }
  }

  lemma NoDraftsForest()
    ensures DraftForest(map[])
  {
  }

  /** Whether the next spec is up to date can be read from the drafts at the start. */
  lemma NextFromTheStart(from: Moment, to: Moment, a: string, g: Progress, s: MenuSpec)
    requires DbValid(from.db) && Reconciled(from, to, a, g) && ComesNext(g.placed, s, from.db.kind)
    ensures s.code in DraftsOf(to.db, a) ==>
      (UpToDate(DraftsOf(to.db, a), a, s) <==> NoUpdateDue(DraftsOf(from.db, a), a, s))
    ensures s.code !in DraftsOf(to.db, a) ==> NoUpdateDue(DraftsOf(from.db, a), a, s)
  {
    hide MenuFromSpec, UpToDate, Placed, Forest, ParentsOf, Counted, AllActive, EffectiveMenu, Tallied, DbValid, Codes,
         OnlyDrafts;
    var before, drafts := DraftsOf(from.db, a), DraftsOf(to.db, a);
    StoredDrafts(to.db, a);
    if s.code in drafts {
      if s.parent != "" {
        var p :| p in g.placed && p.code == s.parent && EffectiveMenu(p, from.db.kind).code == s.parent;
        assert s.parent in drafts;
      }
      DueFromTheStart(before, drafts, a, s);
    }
  }

  /** The state after one spec has been handled, written or not. */
  lemma AfterSpec(before: Db, after: Db, applicationId: string, placed: seq<MenuSpec>, s: MenuSpec)
    requires DbValid(before) && Placed(DraftsOf(before, applicationId), applicationId, placed)
    requires s.code != "" && s.code !in Codes(placed) && (s.parent == "" || s.parent in Codes(placed))
    requires var drafts := DraftsOf(before, applicationId);
             || (after == before && UpToDate(drafts, applicationId, s))
             || MenuWritten(before, after, applicationId, IdOf(drafts, s.parent), s)
    ensures Placed(DraftsOf(after, applicationId), applicationId, placed + [s])
    ensures var drafts, drafts' := DraftsOf(before, applicationId), DraftsOf(after, applicationId);
            && s.code in drafts' && drafts' == drafts[s.code := drafts'[s.code]]
            && (s.code in drafts ==> drafts'[s.code].id == drafts[s.code].id)
            && (AllActive(drafts', placed + [s]) <==> AllActive(drafts, placed) && drafts'[s.code].status == "active")
    ensures OnlyDrafts(before, after, applicationId)
  {
    hide MenuFromSpec, Reflects, KeptText, Kept, AllKept;
    var drafts, drafts' := DraftsOf(before, applicationId), DraftsOf(after, applicationId);
    UpToDateIffActive(drafts, applicationId, s);
    assert MenuEqual(drafts'[s.code].(status := "active"), MenuFromSpec(applicationId, IdOf(drafts, s.parent), s));
    PlaceOne(drafts, applicationId, placed, s, drafts');
    forall t | t in placed
      ensures t.code in drafts && t.code in drafts' && drafts'[t.code] == drafts[t.code]
    {
      assert t.code in Codes(placed);
      ReflectsStored(drafts, applicationId, t);
    }
  }

  lemma WriteKeepsForests(before: Db, after: Db, applicationId: string, placed: seq<MenuSpec>, s: MenuSpec)
    requires DbValid(before) && Placed(DraftsOf(before, applicationId), applicationId, placed) && AllForests(before)
    requires s.code != "" && s.code !in Codes(placed) && (s.parent == "" || s.parent in Codes(placed))
    requires MenuWritten(before, after, applicationId, IdOf(DraftsOf(before, applicationId), s.parent), s)
    ensures AllForests(after)
  {
    hide KindOf, TrimSpace, ToLower, Placed, Forest, ParentsOf, KeptText, Kept, AllKept;
    var drafts := DraftsOf(before, applicationId);
    NoDraftsForest();
    PlaceKeepsForest(drafts, applicationId, placed, s, DraftsOf(after, applicationId)[s.code]);
  }

  /** The client's view after the next spec, whose draft has been found or written under its trimmed code. */
  lemma TracksNext(g: Progress, before: Drafts, drafts: Drafts, kind: Kind, s: MenuSpec, after: Drafts, changed: bool,
                   result: Tally)
    requires Tracks(g, before, drafts, kind) && ComesNext(g.placed, s, kind)
    requires var e := EffectiveMenu(s, kind);
             && e.code in after && after == drafts[e.code := after[e.code]]
             && if e.code in drafts then after[e.code].id == drafts[e.code].id else Unused(drafts, after[e.code].id)
    ensures Tracks(Progress(g.placed + [s], g.ids[s.code := after[EffectiveMenu(s, kind).code].id], g.byCode, changed,
      result), before, after, kind)
  {
    hide EffectiveMenu, Codes;
    var e, ids := EffectiveMenu(s, kind), g.ids[s.code := after[EffectiveMenu(s, kind).code].id];
    CodesNext(g.placed, s, kind);
    forall t | t in g.placed + [s]
      ensures t.code in ids && EffectiveMenu(t, kind).code in after
      ensures ids[t.code] == after[EffectiveMenu(t, kind).code].id
    {
      if t in g.placed {
        EffectiveMember(g.placed, t, kind);
        SameCodeSameKept(t, s, kind);
      } else {
        assert t == s;
      }
    }
  }

  lemma CodesNext(placed: seq<MenuSpec>, s: MenuSpec, kind: Kind)
    ensures Codes(Effectives(placed + [s], kind)) == Codes(Effectives(placed, kind)) + {EffectiveMenu(s, kind).code}
  {
    hide EffectiveMenu;
    EffectivesNext(placed, s, kind);
    var e, done := EffectiveMenu(s, kind), Effectives(placed, kind);
    assert forall m :: m in done + [e] <==> m in done || m == e;
  }

  lemma SameCodeSameKept(t: MenuSpec, s: MenuSpec, kind: Kind)
    ensures t.code == s.code ==> EffectiveMenu(t, kind).code == EffectiveMenu(s, kind).code
  {
    hide TrimSpace;
  }

  lemma TraceForestsNext(trace: seq<Event>, e: Event)
    requires AllForests(e.after)
    ensures TraceForests(trace) ==> TraceForests(trace + [e])
  {
    hide AllForests;
  }

  lemma NoneDueNext(drafts: Drafts, a: string, placed: seq<MenuSpec>, s: MenuSpec)
    ensures NoneDue(drafts, a, placed + [s]) <==> NoneDue(drafts, a, placed) && NoUpdateDue(drafts, a, s)
  {
    hide NoUpdateDue;
    assert forall m :: m in placed + [s] <==> m in placed || m == s;
  }

  /** A spec that is up to date has nothing to trim, and its draft stays. */
  lemma StepUnchanged(from: Moment, to: Moment, a: string, g: Progress, s: MenuSpec)
    requires DbValid(from.db) && Reconciled(from, to, a, g) && ComesNext(g.placed, s, from.db.kind)
    requires s.code in DraftsOf(to.db, a) && UpToDate(DraftsOf(to.db, a), a, s)
    ensures Reconciled(from, to, a,
      Progress(g.placed + [s], g.ids[s.code := DraftsOf(to.db, a)[s.code].id], g.byCode, g.changed, g.result))
  {
    hide MenuFromSpec, UpToDate, Tracks, DbValid, AllForests, ForestsStay, Placed, AllActive, MenusUpToDate, NoneDue,
         NoUpdateDue, Counted, MenusOnly,
         EffectiveMenu, Codes, Kept;
    var drafts := DraftsOf(to.db, a);
    StoredDrafts(to.db, a);
    UpToDateIffKept(drafts, a, s, from.db.kind);
    assert drafts[s.code := drafts[s.code]] == drafts;
    TracksNext(g, DraftsOf(from.db, a), drafts, from.db.kind, s, drafts, g.changed, g.result);
    EffectivesNext(g.placed, s, from.db.kind);
    AfterSpec(to.db, to.db, a, Effectives(g.placed, from.db.kind), s);
    UpToDateIffActive(drafts, a, s);
    UpToDateNext(DraftsOf(from.db, a), a, g.placed, s);
    NoneDueNext(DraftsOf(from.db, a), a, g.placed, s);
    if !g.changed {
      CountedZero(from, to);
    }
    NextFromTheStart(from, to, a, g, s);
  }

  /** The counters after a spec that was written. */
  lemma TalliedWritten(from: Moment, to: Moment, a: string, g: Progress, s: MenuSpec, call: Call)
    requires DbValid(from.db) && Reconciled(from, to, a, g) && ComesNext(g.placed, s, from.db.kind)
    requires !UpToDate(DraftsOf(to.db, a), a, s) &&
      call in {MenuUpdated(a, EffectiveMenu(s, from.db.kind).code), MenuCreated(a, EffectiveMenu(s, from.db.kind).code)}
    requires call.MenuUpdated? <==> s.code in DraftsOf(to.db, a)
    ensures forall ids :: Tallied(from, a, Progress(g.placed + [s], ids, g.byCode, true, Plus(g.result, One(call))))
    ensures MenusOnly(Plus(g.result, One(call)))
  {
    hide UpToDate, Tracks, DbValid, AllForests, ForestsStay, Placed, AllActive, MenusUpToDate, NoneDue, NoUpdateDue,
         Counted, MenusOnly,
         EffectiveMenu, Codes, One, Plus;
    TallyNext(from, to, g.result, Event(call, to.db));
    UpToDateNext(DraftsOf(from.db, a), a, g.placed, s);
    NoneDueNext(DraftsOf(from.db, a), a, g.placed, s);
    if !g.changed {
      CountedZero(from, to);
    }
    NextFromTheStart(from, to, a, g, s);
  }

  lemma StepWritten(from: Moment, to: Moment, a: string, g: Progress, s: MenuSpec, after: Db)
    requires DbValid(from.db) && Reconciled(from, to, a, g) && ComesNext(g.placed, s, from.db.kind)
    requires DbValid(after) && !UpToDate(DraftsOf(to.db, a), a, s)
    requires var e := EffectiveMenu(s, from.db.kind);
             MenuWritten(to.db, after, a, IdOf(DraftsOf(to.db, a), s.parent), e) &&
                 (s.code in DraftsOf(to.db, a) <==> e.code in DraftsOf(to.db, a))
    ensures var e := EffectiveMenu(s, from.db.kind);
            var call := MenuCall(to.db, a, e.code);
            e.code in DraftsOf(after, a) &&
            Reconciled(from, After(to, Event(call, after)), a,
                       Progress(g.placed + [s], g.ids[s.code := DraftsOf(after, a)[e.code].id], g.byCode, true,
                           Plus(g.result, One(call))))
  {
    hide MenuFromSpec, UpToDate, Tracks, DbValid, Placed, AllActive, MenusUpToDate, NoneDue, NoUpdateDue, Counted,
         MenusOnly, AllForests, TraceForests, One,
         EffectiveMenu, Codes, Plus, Tallied;
    var e := EffectiveMenu(s, from.db.kind);
    var drafts, drafts', call := DraftsOf(to.db, a), DraftsOf(after, a), MenuCall(to.db, a, e.code);
    TalliedWritten(from, to, a, g, s, call);
    AfterSpec(to.db, after, a, Effectives(g.placed, from.db.kind), e);
    TracksNext(g, DraftsOf(from.db, a), drafts, from.db.kind, s, drafts', true, Plus(g.result, One(call)));
    EffectivesNext(g.placed, s, from.db.kind);
    TallyNext(from, to, g.result, Event(call, after));
    if AllForests(to.db) {
      WriteKeepsForests(to.db, after, a, Effectives(g.placed, from.db.kind), e);
      TraceForestsNext(to.trace, Event(call, after));
    }
  }

  // ----- the whole of reconcileMenus

  /** What `reconcileMenus` has done when it returns, with or without an error. */
  ghost predicate MenusReconciled(from: Moment, to: Moment, a: string, specs: seq<MenuSpec>, changed: bool,
                                  result: Tally, error: Option<ApiError>) {
    var before, kind := DraftsOf(from.db, a), from.db.kind;
    // Only this application's drafts change, and the counters count the calls.
    && DbValid(to.db) && OnlyDrafts(from.db, to.db, a)
    && Counted(from, to, result) && MenusOnly(result) && (changed <==> result != ZERO)
    // Nothing is written if nothing was out of date.
    && (MenusUpToDate(before, a, specs) ==> result == ZERO)
    && (error.None? ==> MenusDone(from.db, to.db, a, specs, changed, result))
    // Forests stay forests at every step, and the tree check refuses nothing.
    && ForestsStay(from, to)
    && (AllForests(from.db) ==> error != Some(ParentMissing) && error != Some(CycleFound))
    && error != Some(Stale) && (error == Some(Conflict) ==> !AllTrimmed(specs, kind)) &&
         (error == Some(Invalid) ==> !Orderable(specs))
  }

  /** On success. */
  ghost predicate MenusDone(db0: Db, db: Db, a: string, specs: seq<MenuSpec>, changed: bool, result: Tally) {
    var before, after, kind := DraftsOf(db0, a), DraftsOf(db, a), db0.kind;
    // It changes something exactly when something was not up to date.
    && (changed <==> !MenusUpToDate(before, a, specs))
    // The drafts are as declared, trimmed, but for the status.
    && MenusReflected(after, a, Effectives(specs, kind))
    && (MenusUpToDate(after, a, specs) <==> (kind.keepsStatus || result.menusUpdated == 0) && AllTrimmed(specs, kind))
    // Updates were due exactly if the drafts at the start say so.
    && (result.menusUpdated == 0 <==> NoneDue(before, a, specs))
  }

  lemma NothingDone(m: Moment, a: string, specs: seq<MenuSpec>, e: ApiError)
    requires DbValid(m.db) && (e == Refused || (e == Invalid && !Orderable(specs)))
    ensures MenusReconciled(m, m, a, specs, false, ZERO, Some(e))
  {
    hide DbValid, AllForests, TraceForests, Orderable, UpToDate, Counted, AllTrimmed;
    CountedNone(m);
  }

  lemma ReconciledPart(from: Moment, to: Moment, a: string, g: Progress, specs: seq<MenuSpec>, e: ApiError)
    requires Reconciled(from, to, a, g)
    requires forall s :: s in g.placed ==> s in specs
    requires e in {ParentMissing, CycleFound, Conflict, Refused}
    requires (AllForests(from.db) ==> e == Refused || e == Conflict)
    requires e == Conflict ==> !AllTrimmed(specs, from.db.kind)
    ensures MenusReconciled(from, to, a, specs, g.changed, g.result, Some(e))
  {
    hide UpToDate, Counted, MenusOnly, Tracks, Placed, AllActive, DbValid, AllForests, ForestsStay, Orderable,
         AllTrimmed;
  }

  /** All placed menus are up to date exactly when their drafts are active and there was nothing to trim. */
  lemma AllUpToDateIffTrimmed(drafts: Drafts, a: string, placed: seq<MenuSpec>, kind: Kind)
    requires Placed(drafts, a, Effectives(placed, kind)) && forall c :: c in drafts ==>
      Kept(drafts[c], kind) == drafts[c]
    ensures MenusUpToDate(drafts, a, placed) <==>
      AllActive(drafts, Effectives(placed, kind)) && AllTrimmed(placed, kind)
  {
    hide UpToDate, Reflects, EffectiveMenu, Kept, AllActive;
    AllUpToDateIffActive(drafts, a, Effectives(placed, kind));
    forall s | s in placed
      ensures UpToDate(drafts, a, s) <==> EffectiveMenu(s, kind) == s && UpToDate(drafts, a, EffectiveMenu(s, kind))
      ensures EffectiveMenu(s, kind) in Effectives(placed, kind)
    {
      UpToDateIffKept(drafts, a, s, kind);
      EffectiveMember(placed, s, kind);
    }
    if AllTrimmed(placed, kind) {
      assert Effectives(placed, kind) == placed;
    }
    if MenusUpToDate(drafts, a, placed) {
      assert Effectives(placed, kind) == placed;
    }
  }

  lemma ReconciledDone(from: Moment, to: Moment, a: string, g: Progress, specs: seq<MenuSpec>)
    requires Reconciled(from, to, a, g)
    requires forall s :: s in g.placed <==> s in specs
    ensures MenusReconciled(from, to, a, specs, g.changed, g.result, None)
  {
    hide UpToDate, Reflects, Counted, MenusOnly, Tracks, DbValid, AllForests, ForestsStay, Orderable, EffectiveMenu,
         Kept, AllActive, NoUpdateDue;
    var drafts, kind := DraftsOf(to.db, a), from.db.kind;
    assert to.db.kind == kind;
    StoredDrafts(to.db, a);
    AllUpToDateIffTrimmed(drafts, a, g.placed, kind);
    SameMembers(DraftsOf(from.db, a), a, specs, g.placed);
    SameMembers(drafts, a, specs, g.placed);
    forall e | e in Effectives(specs, kind)
      ensures Reflects(drafts, a, e)
    {
      var i :| 0 <= i < |specs| && Effectives(specs, kind)[i] == e;
      assert specs[i] in specs;
      EffectiveMember(g.placed, specs[i], kind);
    }
  }
}
