/** What a manifest asks for, compared with the drafts: one menu, and one menu among those already placed. */
module Declared {
  import opened Wrappers
  import opened Text
  import opened Menus
  import opened MenuTree
  import opened Manifests
  import opened BootstrapServer
  import DraftMenus

  function MenuFromSpec(applicationId: string, parentId: string, spec: MenuSpec): Menu {
    var scope := ToLower(TrimSpace(spec.permissionScope));
    Menu("", applicationId, parentId, spec.code, KindOf(spec), spec.name, spec.i18nKey, spec.route, spec.component,
         spec.icon, spec.externalUrl, ToLower(TrimSpace(spec.permissionCode)), if scope == "" then "tenant" else scope,
         "active", spec.sortOrder, spec.visible.None? || spec.visible.value, 0)
  }

  predicate MenuEqual(left: Menu, right: Menu) {
    left.(id := "", version := 0) == right.(id := "", version := 0)
  }

  predicate ApplicationEqual(app: Application, spec: ApplicationSpec) {
    app.name == spec.name && app.description == spec.description && app.icon == spec.icon &&
    app.defaultRoute == spec.defaultRoute && app.sortOrder == spec.sortOrder && app.status == "active" &&
    app.metadata == spec.metadata
  }

  function IdOf(drafts: Drafts, code: string): string {
    if code in drafts then drafts[code].id else ""
  }

  /** The draft of a declared menu is exactly what its spec asks for. */
  predicate UpToDate(drafts: Drafts, applicationId: string, s: MenuSpec) {
    s.code in drafts && MenuEqual(drafts[s.code], MenuFromSpec(applicationId, IdOf(drafts, s.parent), s))
  }

  /**
   Field by field: an up-to-date draft is active, visible unless declared otherwise, and hangs
   below its declared parent.
   */
  lemma UpToDateMeans(drafts: Drafts, applicationId: string, s: MenuSpec)
    ensures UpToDate(drafts, applicationId, s) <==>
      s.code in drafts &&
      var m := drafts[s.code];
      && m.applicationId == applicationId && m.code == s.code && m.name == s.name && m.i18nKey == s.i18nKey &&
           m.route == s.route
      && m.component == s.component && m.icon == s.icon && m.externalUrl == s.externalUrl && m.sortOrder == s.sortOrder
      && m.parentId == (if s.parent in drafts then drafts[s.parent].id else "") &&
           m.kind == (if TrimSpace(s.kind) == "" then "page" else TrimSpace(s.kind)) &&
           m.status == "active"
      && m.permissionCode == ToLower(TrimSpace(s.permissionCode)) && (m.visible <==> s.visible != Some(false))
      && m.permissionScope ==
           (if TrimSpace(s.permissionScope) == "" then "tenant" else ToLower(TrimSpace(s.permissionScope)))
  {
    hide TrimSpace;
    if s.code in drafts {
      match drafts[s.code] { case Menu(_, _, _, _, _, _, _, _, _, _, _, _, _, _, _, _, _) => }
    }
  }

  /** As `UpToDate`, but for the status. */
  predicate Reflects(drafts: Drafts, applicationId: string, s: MenuSpec) {
    s.code in drafts &&
    MenuEqual(drafts[s.code].(status := "active"), MenuFromSpec(applicationId, IdOf(drafts, s.parent), s))
  }

  ghost predicate MenusUpToDate(drafts: Drafts, applicationId: string, specs: seq<MenuSpec>) {
    forall s :: s in specs ==> UpToDate(drafts, applicationId, s)
  }

  ghost predicate MenusReflected(drafts: Drafts, applicationId: string, specs: seq<MenuSpec>) {
    forall s :: s in specs ==> Reflects(drafts, applicationId, s)
  }

  lemma UpToDateIffActive(drafts: Drafts, applicationId: string, s: MenuSpec)
    ensures UpToDate(drafts, applicationId, s) <==>
      Reflects(drafts, applicationId, s) && drafts[s.code].status == "active"
  {
    hide KindOf, TrimSpace, ToLower;
  }

  lemma ReflectsStored(drafts: Drafts, applicationId: string, s: MenuSpec)
    requires Reflects(drafts, applicationId, s)
    ensures s.code in drafts
  {
  }

  // ----- text that the service trims

  /** Storing what a spec asks for amounts to storing what its trimmed form asks for. */
  lemma KeptMenuFromSpec(applicationId: string, parentId: string, s: MenuSpec, kind: Kind)
    ensures Kept(MenuFromSpec(applicationId, parentId, s), kind) ==
      MenuFromSpec(applicationId, parentId, EffectiveMenu(s, kind))
  {
    if kind.trims {
      var m := MenuFromSpec(applicationId, parentId, s);
      KindIsKept(s);
      KindIgnoresText(s, kind);
      DraftMenus.LowerTwice(s.permissionCode);
      DraftMenus.LowerTwice(s.permissionScope);
      DraftMenus.TenantIsStable();
      hide TrimSpace, ToLower, KindOf;
    } else {
      match s { case MenuSpec(_, _, _, _, _, _, _, _, _, _, _, _, _) => }
    }
  }

  /**
   The reconciler's defaults are the service's: sending the scope and the permission as declared
   would store the same.
   */
  lemma DefaultsAgree(applicationId: string, parentId: string, s: MenuSpec)
    ensures var m := MenuFromSpec(applicationId, parentId, s);
            DraftMenus.Normalized(m.(permissionScope := s.permissionScope, permissionCode := s.permissionCode)) ==
              DraftMenus.Normalized(m)
  {
    DraftMenus.LowerTwice(s.permissionCode);
    DraftMenus.LowerTwice(s.permissionScope);
    DraftMenus.TenantIsStable();
    hide TrimSpace, ToLower, KindOf;
  }

  lemma NormalFields(m: Menu, s: MenuSpec)
    requires m == MenuFromSpec(m.applicationId, m.parentId, s).(id := m.id)
    ensures var v, scope := DraftMenus.Normalized(m), ToLower(TrimSpace(s.permissionScope));
            && v.permissionScope == (if scope == "" then "tenant" else scope)
            && (v.permissionCode == "" <==> TrimSpace(s.permissionCode) == "")
            && v.kind == KindOf(s) && v.code == TrimSpace(s.code) && v.name == TrimSpace(s.name)
            && v.route == TrimSpace(s.route) && v.component == TrimSpace(s.component)
            && v.externalUrl == TrimSpace(s.externalUrl) && v.applicationId == TrimSpace(m.applicationId)
            && v.parentId == TrimSpace(m.parentId) && v.id == TrimSpace(m.id)
    ensures TrimSpace("") == ""
  {
    KindIsKept(s);
    DraftMenus.LowerTwice(s.permissionCode);
    DraftMenus.LowerTwice(s.permissionScope);
    DraftMenus.TenantIsStable();
    assert TrimSpace("") == "";
    hide TrimSpace, KindOf;
    assert ToLower("") == "" && ToLower(TrimSpace("tenant")) == "tenant";
    assert DraftMenus.Normalized(m).permissionCode == ToLower(TrimSpace(s.permissionCode));
    hide ToLower;
  }

  /** The checks on the fields that manifest and service share. */
  predicate CommonChecks(s: MenuSpec) {
    var kind, scope := KindOf(s), ToLower(TrimSpace(s.permissionScope));
    && IsCode(TrimSpace(s.code)) && TrimSpace(s.name) != ""
    && (scope == "" || scope == "tenant" || scope == "platform")
    && kind in {"directory", "page", "action", "external"}
    && (kind == "page" ==> TrimSpace(s.route) != "" && TrimSpace(s.component) != "")
    && (kind == "external" ==> TrimSpace(s.externalUrl) != "")
    && (kind == "action" ==> TrimSpace(s.parent) != "" && TrimSpace(s.permissionCode) != "" &&
                             TrimSpace(s.route) == "" && TrimSpace(s.component) == "" && TrimSpace(s.externalUrl) == "")
  }

  lemma ServiceChecks(m: Menu, s: MenuSpec, expected: int, validUrl: string -> bool)
    requires m == MenuFromSpec(m.applicationId, m.parentId, s).(id := m.id)
    requires TrimSpace(m.parentId) == "" <==> TrimSpace(s.parent) == ""
    ensures DraftMenus.FieldsValid(DraftMenus.Normalized(m), expected, validUrl) <==>
      && CommonChecks(s) && TrimSpace(m.applicationId) != "" && (expected > 0 ==> TrimSpace(m.id) != "")
      && (KindOf(s) == "external" ==> validUrl(TrimSpace(s.externalUrl)))
  {
    NormalFields(m, s);
    var v := DraftMenus.Normalized(m);
    hide TrimSpace, KindOf, IsCode, ToLower, DraftMenus.Normalized, MenuFromSpec;
    FieldsAsDeclared(v, s, expected, validUrl);
  }

  lemma FieldsAsDeclared(v: Menu, s: MenuSpec, expected: int, validUrl: string -> bool)
    requires var scope := ToLower(TrimSpace(s.permissionScope)); v.permissionScope == if scope == "" then "tenant"
      else scope
    requires v.permissionCode == "" <==> TrimSpace(s.permissionCode) == ""
    requires v.parentId == "" <==> TrimSpace(s.parent) == ""
    requires v.kind == KindOf(s) && v.code == TrimSpace(s.code) && v.name == TrimSpace(s.name)
    requires v.route == TrimSpace(s.route) && v.component == TrimSpace(s.component)
    requires v.externalUrl == TrimSpace(s.externalUrl)
    ensures DraftMenus.FieldsValid(v, expected, validUrl) <==>
      && CommonChecks(s) && v.applicationId != "" && (expected > 0 ==> v.id != "")
      && (KindOf(s) == "external" ==> validUrl(TrimSpace(s.externalUrl)))
  {
    hide TrimSpace, KindOf, IsCode, ToLower;
  }

  lemma ManifestChecks(applicationCode: string, s: MenuSpec)
    ensures MenuSpecValid(applicationCode, s) <==>
      && CommonChecks(s)
      && (KindOf(s) == "directory" ==> s.component == "" && s.externalUrl == "")
      && (KindOf(s) == "action" ==> s.route == "" && s.component == "" && s.externalUrl == "")
      && (s.component != "" ==> HasPrefix(s.component, applicationCode + "."))
  {
    assert TrimSpace("") == "";
    hide TrimSpace, KindOf, IsCode, ToLower;
  }

  /**
   Manifest validation checks what the service checks on the fields of the menu that
   is sent, apart from the address of an external menu and the identifiers, which the
   manifest does not hold. Beyond that it checks only that a directory and an action
   define nothing of their own and that a component is written in the namespace.
   */
  lemma ManifestChecksFields(applicationCode: string, m: Menu, s: MenuSpec, expected: int, validUrl: string -> bool)
    requires m == MenuFromSpec(m.applicationId, m.parentId, s).(id := m.id)
    requires TrimSpace(m.parentId) == "" <==> TrimSpace(s.parent) == ""
    ensures MenuSpecValid(applicationCode, s) && TrimSpace(m.applicationId) != "" &&
            (expected > 0 ==> TrimSpace(m.id) != "") &&
            (KindOf(s) == "external" ==> validUrl(TrimSpace(s.externalUrl))) <==>
            (&& DraftMenus.FieldsValid(DraftMenus.Normalized(m), expected, validUrl)
             && (KindOf(s) == "directory" ==> s.component == "" && s.externalUrl == "")
             && (KindOf(s) == "action" ==> s.route == "" && s.component == "" && s.externalUrl == "")
             && (s.component != "" ==> HasPrefix(s.component, applicationCode + ".")))
  {
    ServiceChecks(m, s, expected, validUrl);
    ManifestChecks(applicationCode, s);
    hide MenuSpecValid, CommonChecks, KindOf, TrimSpace, DraftMenus.FieldsValid;
  }

  /**
   The namespace is all that the manifest's validation asks of a component: where a
   page is valid, it is still so with the bare prefix, which the service refuses.
   */
  lemma BarePrefixIsRefused(applicationCode: string, s: MenuSpec)
    requires TrimSpace(applicationCode) == applicationCode != "" && MenuSpecValid(applicationCode, s)
    requires KindOf(s) == "page"
    ensures MenuSpecValid(applicationCode, s.(component := applicationCode + "."))
    ensures !DraftMenus.ValidPageComponent(applicationCode, applicationCode + ".")
  {
    var prefix := applicationCode + ".";
    assert applicationCode[0] == TrimSpace(applicationCode)[0];
    TrimFixpoint(prefix, IsSpace);
    hide TrimSpace, ToLower, IsCode;
    assert prefix[|prefix|..] == "";
    assert "directory"[0] != "page"[0] && "action"[0] != "page"[0];
  }

  lemma KindIsKept(s: MenuSpec)
    ensures TrimSpace(KindOf(s)) == KindOf(s)
  {
    DraftMenus.TrimTwice(s.kind);
    TrimFixpoint("page", IsSpace);
  }

  lemma KindIgnoresText(s: MenuSpec, kind: Kind)
    ensures KindOf(EffectiveMenu(s, kind)) == KindOf(s)
  {
    hide TrimSpace;
  }

  lemma KeptRespects(a: Menu, b: Menu, kind: Kind)
    requires MenuEqual(a, b)
    ensures MenuEqual(Kept(a, kind), Kept(b, kind))
  {
    hide TrimSpace, ToLower;
  }

  /** Asking for the same menu with and without trimming means that there is nothing to trim. */
  lemma SameMenuSameSpec(applicationId: string, parentId: string, s: MenuSpec, kind: Kind)
    requires MenuEqual(MenuFromSpec(applicationId, parentId, s),
      MenuFromSpec(applicationId, parentId, EffectiveMenu(s, kind)))
    ensures EffectiveMenu(s, kind) == s
  {
    hide TrimSpace, ToLower, KindOf, KeptText;
    match s { case MenuSpec(_, _, _, _, _, _, _, _, _, _, _, _, _) => }
  }

  /** A stored draft is up to date exactly when it is so for the trimmed spec and there was nothing to trim. */
  lemma UpToDateIffKept(drafts: Drafts, applicationId: string, s: MenuSpec, kind: Kind)
    requires s.code in drafts ==> Kept(drafts[s.code], kind) == drafts[s.code]
    ensures UpToDate(drafts, applicationId, s) <==>
      EffectiveMenu(s, kind) == s && UpToDate(drafts, applicationId, EffectiveMenu(s, kind))
  {
    hide MenuFromSpec, Kept, EffectiveMenu;
    if UpToDate(drafts, applicationId, s) {
      var wanted := MenuFromSpec(applicationId, IdOf(drafts, s.parent), s);
      KeptRespects(drafts[s.code], wanted, kind);
      KeptMenuFromSpec(applicationId, IdOf(drafts, s.parent), s, kind);
      SameMenuSameSpec(applicationId, IdOf(drafts, s.parent), s, kind);
    }
  }

  // ----- updates that are due

  /** The declared menu has no draft, or its draft is up to date below a parent that has one. */
  predicate NoUpdateDue(drafts: Drafts, applicationId: string, s: MenuSpec) {
    s.code in drafts ==> (s.parent == "" || s.parent in drafts) && UpToDate(drafts, applicationId, s)
  }

  ghost predicate NoneDue(drafts: Drafts, applicationId: string, specs: seq<MenuSpec>) {
    forall s :: s in specs ==> NoUpdateDue(drafts, applicationId, s)
  }

  /** The drafts have grown and other menus have been written, but this one and all identifiers are as they were. */
  ghost predicate Grown(before: Drafts, after: Drafts, code: string) {
    && (forall c :: c in before ==> c in after && after[c].id == before[c].id)
    && code in before && after[code] == before[code]
  }

  /**
   Whether an update is due can be read from the drafts before the parents were placed,
   since a draft that was there then does not hang below one that was created later.
   */
  lemma DueFromTheStart(before: Drafts, after: Drafts, applicationId: string, s: MenuSpec)
    requires Grown(before, after, s.code) && "" !in after
    requires s.parent == "" || s.parent in after
    requires s.parent in after && s.parent !in before ==> before[s.code].parentId != after[s.parent].id
    ensures UpToDate(after, applicationId, s) <==> NoUpdateDue(before, applicationId, s)
  {
    hide MenuFromSpec, MenuEqual;
    if s.parent != "" && s.parent !in before {
      ParentDiffers(applicationId, after[s.parent].id, s, before[s.code]);
    }
  }

  lemma ParentDiffers(applicationId: string, parentId: string, s: MenuSpec, m: Menu)
    requires m.parentId != parentId
    ensures !MenuEqual(m, MenuFromSpec(applicationId, parentId, s))
  {
    hide KindOf, TrimSpace, ToLower;
  }

  // ----- placing one menu among those already placed

  /** The placed specs are reflected by the drafts, and each of their parents is placed too. */
  ghost predicate Placed(drafts: Drafts, applicationId: string, placed: seq<MenuSpec>) {
    forall s :: s in placed ==> Reflects(drafts, applicationId, s) && (s.parent == "" || s.parent in Codes(placed))
  }

  lemma PlaceOne(drafts: Drafts, applicationId: string, placed: seq<MenuSpec>, s: MenuSpec, after: Drafts)
    requires Placed(drafts, applicationId, placed) && "" !in drafts && s.code != ""
    requires s.code !in Codes(placed) && (s.parent == "" || s.parent in Codes(placed))
    requires s.code in after && after == drafts[s.code := after[s.code]]
    requires s.code in drafts ==> after[s.code].id == drafts[s.code].id
    requires MenuEqual(after[s.code].(status := "active"), MenuFromSpec(applicationId, IdOf(drafts, s.parent), s))
    ensures Placed(after, applicationId, placed + [s])
    ensures IdOf(after, s.parent) == IdOf(drafts, s.parent)
  {
    hide MenuFromSpec, MenuEqual;
    assert Codes(placed + [s]) == Codes(placed) + {s.code} by {
      assert forall m :: m in placed + [s] <==> m in placed || m == s;
    }
    forall t | t in placed + [s]
      ensures Reflects(after, applicationId, t) && (t.parent == "" || t.parent in Codes(placed + [s]))
    {
      if t in placed {
        assert t.code in Codes(placed);
        assert IdOf(after, t.parent) == IdOf(drafts, t.parent);
      }
    }
  }

  /** Identifiers of the placed menus: a parent-closed part of the draft tree. */
  ghost function PlacedIds(drafts: Drafts, placed: seq<MenuSpec>): set<string> {
    set c | c in drafts && c in Codes(placed) :: drafts[c].id
  }

  /**
   Putting a spec under its placed parent keeps the drafts a forest, wherever the
   menu was before and whatever hangs below it; the server's tree check agrees.
   */
  lemma PlaceKeepsForest(drafts: Drafts, applicationId: string, placed: seq<MenuSpec>, s: MenuSpec, menu: Menu)
    requires DraftForest(drafts) && Placed(drafts, applicationId, placed) && "" !in drafts
    requires s.code !in Codes(placed) && (s.parent == "" || s.parent in Codes(placed))
    requires menu.id != "" && menu.parentId == IdOf(drafts, s.parent)
    requires if s.code in drafts then drafts[s.code].id == menu.id
      else forall c :: c in drafts ==> drafts[c].id != menu.id
    ensures DraftForest(drafts[s.code := menu])
    ensures ParentKnown(drafts, menu.parentId)
    ensures Forest(ParentsOf(drafts)[menu.id := menu.parentId])
  {
    hide Forest, MenuFromSpec;
    PlacedIdsClosed(drafts, applicationId, placed);
    if s.parent != "" {
      var p :| p in placed && p.code == s.parent;
      assert Reflects(drafts, applicationId, p);
    }
    Reparent(ParentsOf(drafts), PlacedIds(drafts, placed), menu.id, menu.parentId);
    ParentsOfPut(drafts, s.code, menu);
  }

  lemma PlacedIdsClosed(drafts: Drafts, applicationId: string, placed: seq<MenuSpec>)
    requires UniqueDraftIds(drafts) && Placed(drafts, applicationId, placed) && "" !in drafts
    ensures Closed(ParentsOf(drafts), PlacedIds(drafts, placed))
  {
    hide Reflects, ParentsOf;
    ParentsOfAt(drafts);
    forall c | c in drafts && c in Codes(placed)
      ensures drafts[c].parentId == "" ||
        (exists d :: d in drafts && d in Codes(placed) && drafts[d].id == drafts[c].parentId)
    {
      var t :| t in placed && t.code == c;
      ReflectsParent(drafts, applicationId, t);
      if t.parent != "" {
        var p :| p in placed && p.code == t.parent;
        ReflectsStored(drafts, applicationId, p);
      }
    }
  }

  lemma ReflectsParent(drafts: Drafts, applicationId: string, s: MenuSpec)
    requires Reflects(drafts, applicationId, s)
    ensures s.code in drafts && drafts[s.code].parentId == IdOf(drafts, s.parent)
  {
    hide KindOf, ToLower, TrimSpace;
  }

  lemma ParentsOfPut(drafts: Drafts, code: string, menu: Menu)
    requires UniqueDraftIds(drafts) && menu.id != ""
    requires if code in drafts then drafts[code].id == menu.id else forall c :: c in drafts ==> drafts[c].id != menu.id
    ensures UniqueDraftIds(drafts[code := menu])
    ensures ParentsOf(drafts[code := menu]) == ParentsOf(drafts)[menu.id := menu.parentId]
  {
    hide ParentsOf;
    var after := drafts[code := menu];
    ParentsOfAt(drafts);
    ParentsOfAt(after);
    forall id | id in ParentsOf(drafts)[menu.id := menu.parentId]
      ensures id in ParentsOf(after)
    {
      if id == menu.id {
        assert after[code].id == id;
      } else {
        var c :| c in drafts && drafts[c].id == id;
        assert after[c].id == id;
      }
    }
  }

  lemma KnownParentReaches(drafts: Drafts, parentId: string)
    requires DraftForest(drafts) && ParentKnown(drafts, parentId)
    ensures ReachesRoot(ParentsOf(drafts), parentId)
  {
    if parentId == "" {
      assert Climbs(ParentsOf(drafts), "", 0);
    }
  }

  /** What a strict service checks on the upsert of `s`. */
  ghost predicate ServerReady(drafts: Drafts, s: MenuSpec) {
    var parentId := IdOf(drafts, s.parent);
    && UniqueDraftIds(drafts)
    && ParentKnown(drafts, parentId)
    && Forest(ParentsOf(drafts)) && ReachesRoot(ParentsOf(drafts), parentId)
    && (s.code in drafts ==> Forest(ParentsOf(drafts)[drafts[s.code].id := parentId]))
  }

  /** It holds of the next spec. */
  lemma ServerAdmits(drafts: Drafts, applicationId: string, placed: seq<MenuSpec>, s: MenuSpec)
    requires DraftForest(drafts) && Placed(drafts, applicationId, placed) && "" !in drafts
    requires s.code !in Codes(placed) && (s.parent == "" || s.parent in Codes(placed))
    ensures ServerReady(drafts, s)
  {
    hide Forest, ReachesRoot, MenuFromSpec, ParentsOf;
    if s.parent != "" {
      var p :| p in placed && p.code == s.parent;
      assert Reflects(drafts, applicationId, p);
    }
    KnownParentReaches(drafts, IdOf(drafts, s.parent));
    if s.code in drafts {
      PlaceKeepsForest(drafts, applicationId, placed, s, drafts[s.code].(parentId := IdOf(drafts, s.parent)));
    }
  }

  // ----- many menus

  ghost predicate AllActive(drafts: Drafts, placed: seq<MenuSpec>) {
    forall s :: s in placed ==> s.code in drafts && drafts[s.code].status == "active"
  }

  lemma AllUpToDateIffActive(drafts: Drafts, applicationId: string, placed: seq<MenuSpec>)
    requires Placed(drafts, applicationId, placed)
    ensures MenusUpToDate(drafts, applicationId, placed) <==> AllActive(drafts, placed)
  {
    hide UpToDate, Reflects;
    forall s | s in placed
      ensures UpToDate(drafts, applicationId, s) <==> s.code in drafts && drafts[s.code].status == "active"
    {
      UpToDateIffActive(drafts, applicationId, s);
      ReflectsStored(drafts, applicationId, s);
    }
  }

  lemma UpToDateNext(drafts: Drafts, applicationId: string, placed: seq<MenuSpec>, s: MenuSpec)
    ensures MenusUpToDate(drafts, applicationId, placed + [s]) <==>
              MenusUpToDate(drafts, applicationId, placed) && UpToDate(drafts, applicationId, s)
  {
    hide UpToDate;
    assert forall m :: m in placed + [s] <==> m in placed || m == s;
  }

  lemma SameMembers(drafts: Drafts, applicationId: string, specs: seq<MenuSpec>, order: seq<MenuSpec>)
    requires forall s :: s in order <==> s in specs
    ensures MenusUpToDate(drafts, applicationId, specs) <==> MenusUpToDate(drafts, applicationId, order)
  {
    hide UpToDate;
  }
}
