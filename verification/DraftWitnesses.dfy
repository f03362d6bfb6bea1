/**
 Serial runs from the empty catalog that lead to the calls which the service accepts
 and should not, or refuses and should not.
 */
module DraftWitnesses {
  import opened Text
  import opened Routes
  import opened Menus
  import opened MenuTree
  import opened MenuRoutes
  import opened DraftMenus
  import opened DraftRuns
  import opened DraftOverlaps

  // ----- runs from the empty catalog

  /** Two applications without menus. */
  function Empty(): Catalog {
    Catalog(map["A" := "aa", "B" := "bb"], map[])
  }

  /** A serial run of upserts and deletes leads here. */
  ghost predicate Reached(c: Catalog, validUrl: string -> bool) {
    exists ops :: Run(Empty(), ops, validUrl) == c
  }

  lemma {:induction false} RunOneMore(c: Catalog, ops: seq<Op>, op: Op, validUrl: string -> bool)
    ensures Run(c, ops + [op], validUrl) == Step(Run(c, ops, validUrl), op, validUrl)
    decreases |ops|
  {
    hide Step;
    if ops == [] {
      assert [op][1..] == [] && ops + [op] == [op];
    } else {
      assert (ops + [op])[1..] == ops[1..] + [op];
      RunOneMore(Step(c, ops[0], validUrl), ops[1..], op, validUrl);
    }
  }

  lemma ReachedNext(c: Catalog, op: Op, validUrl: string -> bool)
    requires Reached(c, validUrl)
    ensures Reached(Step(c, op, validUrl), validUrl)
  {
    hide Run, Step;
    var ops :| Run(Empty(), ops, validUrl) == c;
    RunOneMore(Empty(), ops, op, validUrl);
  }

  /** A reached catalog in good order. */
  ghost predicate Good(c: Catalog, validUrl: string -> bool) {
    CatalogValid(c) && LiveForests(c) && AllRoutesDistinct(c) && c.codes == Empty().codes && Reached(c, validUrl)
  }

  lemma EmptyIsGood(validUrl: string -> bool)
    ensures Good(Empty(), validUrl) && forall a :: Live(Empty(), a) == map[]
  {
    assert Run(Empty(), [], validUrl) == Empty();
    forall a
      ensures Live(Empty(), a) == map[] && Forest(Parents(Live(Empty(), a)))
      ensures forall code :: RoutesDistinct(code, Live(Empty(), a))
    {
    }
  }

  // ----- new menus at the top

  /** A new menu at the top, as it is sent. */
  function Top(applicationId: string, code: string, kind: string, route: string, component: string): Menu {
    Menu("", applicationId, "", code, kind, "n", "", route, component, "", "", "", "tenant", "active", 0, true, 0)
  }

  /** The row that a create writes. */
  function Stored(v: Menu, id: string): Menu { v.(id := id, version := 1, status := "active") }

  function Created(c: Catalog, v: Menu, id: string): Catalog { Upserted(c, v, 0, id) }

  /** The new menu passes every check, and its identifier and code are free. */
  ghost predicate Creatable(c: Catalog, v: Menu, id: string, validUrl: string -> bool) {
    && Normalized(v) == v && FieldsValid(v, 0, validUrl) && v.applicationId in c.codes
    && (v.kind == "page" ==> ValidPageComponent(c.codes[v.applicationId], v.component))
    && v.id == "" && v.parentId == "" && v.kind != "action" && v.status == "active"
    && Writable(c, v, 0, id)
    && var scope := Scope(c.codes[v.applicationId]); !PathTaken(scope, Live(c, v.applicationId), RouteOf(scope, v))
  }

  lemma EmptyReaches(parents: map<string, string>)
    ensures ReachesRoot(parents, "")
  {
    assert Climbs(parents, "", 0);
  }

  lemma CreatableIsAccepted(c: Catalog, v: Menu, id: string, validUrl: string -> bool)
    requires Good(c, validUrl) && Creatable(c, v, id, validUrl)
    ensures UpsertAccepted(c, v, 0, id, validUrl) && !Clashes(c, v, 0)
  {
    hide RouteOf, Scope, PathTaken, RoutesDistinct, Forest, ReachesRoot, FieldsValid, ValidPageComponent, Normalized,
         Writable, Reached;
    var live := Live(c, v.applicationId);
    assert "" !in live;
    assert live - {v.id} == live;
    EmptyReaches(Parents(live));
  }

  /** The drafts of its application are then one more, those of the others as before. */
  ghost predicate CreatedLive(c: Catalog, v: Menu, id: string) {
    && Live(Created(c, v, id), v.applicationId) == Live(c, v.applicationId)[id := Stored(v, id)]
    && forall a :: a != v.applicationId ==> Live(Created(c, v, id), a) == Live(c, a)
  }

  /** Creating it leads to a catalog in good order. */
  lemma CreateIsGood(c: Catalog, v: Menu, id: string, validUrl: string -> bool)
    requires Good(c, validUrl) && Creatable(c, v, id, validUrl)
    ensures Good(Created(c, v, id), validUrl)
    ensures CreatedLive(c, v, id)
  {
    CreatableIsAccepted(c, v, id, validUrl);
    assert Normalized(v) == v && WellAddressed(c, v, 0) && Target(c, v, 0) == v.applicationId;
    assert StoredMenu(c, v, 0, id) == Stored(v, id) && Writable(c, v, 0, id);
    hide CatalogValid, LiveForests, AllRoutesDistinct, Reached, Normalized, UpsertAccepted, Clashes, Live, Writable,
         Target,
         Creatable, StoredMenu, WellAddressed;
    UpsertKeepsCatalog(c, v, 0, id, validUrl);
    UpsertKeepsForests(c, v, 0, id, validUrl);
    UpsertKeepsRoutes(c, v, 0, id, validUrl);
    ReachedNext(c, Upsert(v, 0, id), validUrl);
    UpsertedLive(c, v, 0, id);
  }

  // ----- sample text

  predicate Plain(s: string) { s == "" || (!IsSpace(s[0]) && !IsSpace(s[|s| - 1])) }

  lemma PlainIsTrimmed(s: string)
    requires Plain(s)
    ensures TrimSpace(s) == s
  {
    TrimFixpoint(s, IsSpace);
  }

  lemma TopIsNormal(v: Menu)
    requires Plain(v.applicationId) && Plain(v.id) && Plain(v.parentId) && Plain(v.code) && Plain(v.kind)
    requires Plain(v.name)
    requires Plain(v.i18nKey) && Plain(v.route) && Plain(v.component) && Plain(v.externalUrl)
    requires v.permissionCode == "" && v.permissionScope == "tenant"
    ensures Normalized(v) == v
  {
    PlainIsTrimmed(v.applicationId);
    PlainIsTrimmed(v.id);
    PlainIsTrimmed(v.parentId);
    PlainIsTrimmed(v.code);
    PlainIsTrimmed(v.kind);
    PlainIsTrimmed(v.name);
    PlainIsTrimmed(v.i18nKey);
    PlainIsTrimmed(v.route);
    PlainIsTrimmed(v.component);
    PlainIsTrimmed(v.externalUrl);
    PlainIsTrimmed("");
    TenantIsStable();
    hide TrimSpace;
    assert ToLower("") == "";
    match v { case Menu(_, _, _, _, _, _, _, _, _, _, _, _, _, _, _, _, _) => }
  }

  lemma PageComponent(code: string)
    requires code == "aa" || code == "bb"
    ensures ValidPageComponent(code, code + ".l")
  {
    PlainIsTrimmed(code);
    PlainIsTrimmed(code + ".l");
    hide TrimSpace;
    assert (code + ".l")[|code + "."|..] == "l" && NameLength("l") == 1 && "l"[..1] == "l";
  }

  /** A route of one letter is a path right below the scope, and not reserved. */
  lemma ShortRoute(scope: string, m: Menu)
    requires |scope| > 1 && (m.route == "r" || m.route == "s")
    ensures RouteOf(scope, m) == scope + "/" + m.route && RouteOf(scope, m) !in Reserved(scope)
  {
    hide NormalizedRouteSegment;
    PlainIsTrimmed(m.route);
    assert TrimLeft(m.route, IsSlash) == m.route;
    assert |scope + "/" + m.route| == |scope| + 2 && |Overview(scope)| == |scope| + 9;
  }

  /** Menus with the other short route, or none, leave the path free. */
  lemma ShortRouteIsFree(scope: string, live: map<string, Menu>, m: Menu)
    requires |scope| > 1 && (m.route == "r" || m.route == "s")
    requires forall id :: id in live ==> (live[id].route == "r" || live[id].route == "s") && live[id].route != m.route
    ensures !PathTaken(scope, live, RouteOf(scope, m))
  {
    hide RouteOf, Reserved;
    ShortRoute(scope, m);
    forall id | id in live
      ensures Paths(scope, live)[id] != RouteOf(scope, m)
    {
      ShortRoute(scope, live[id]);
      assert (scope + "/" + m.route)[|scope| + 1] != (scope + "/" + live[id].route)[|scope| + 1];
    }
  }

  predicate SampleFields(v: Menu) {
    && (v.applicationId == "A" || v.applicationId == "B") && (v.code == "pp" || v.code == "qq" || v.code == "dd")
    && (v.route == "r" || v.route == "s") && v.name == "n" && v.i18nKey == ""
    && v.externalUrl == "" && v.permissionCode == "" && v.permissionScope == "tenant"
    && (v.id == "" || v.id == "p" || v.id == "q") && (v.parentId == "" || v.parentId == "p" || v.parentId == "q")
    && (v.kind == "directory" || v.kind == "page")
    && v.component == if v.kind == "directory" then "" else if v.applicationId == "A" then "aa.l" else "bb.l"
  }

  lemma SampleIsNormal(v: Menu)
    requires SampleFields(v)
    ensures Normalized(v) == v
  {
    hide Normalized, IsSpace;
    PlainLetters();
    TopIsNormal(v);
  }

  lemma PlainLetters()
    ensures Plain("") && Plain("A") && Plain("B") && Plain("p") && Plain("q") && Plain("r") && Plain("s") && Plain("n")
    ensures Plain("pp") && Plain("qq") && Plain("dd") && Plain("aa.l") && Plain("bb.l") && Plain("directory")
    ensures Plain("page")
  {
  }

  lemma SampleCodes()
    ensures IsCode("pp") && IsCode("qq") && IsCode("dd")
  {
  }

  lemma SampleComponent(component: string, inA: bool)
    requires component == if inA then "aa.l" else "bb.l"
    ensures component != "" && ValidPageComponent(if inA then "aa" else "bb", component)
  {
    PageComponent("aa");
    PageComponent("bb");
    hide ValidPageComponent;
    assert "aa" + ".l" == "aa.l" && "bb" + ".l" == "bb.l";
  }

  lemma SampleKind(v: Menu)
    requires SampleFields(v)
    ensures v.kind == "directory" || v.kind == "page"
    ensures v.kind != "external" && v.kind != "action"
    ensures v.applicationId != "" && v.name != "" && v.route != ""
    ensures (v.code == "pp" || v.code == "qq" || v.code == "dd")
  {
    assert "directory"[0] == 'd' && "page"[0] == 'p' && "external"[0] == 'e' && "action"[0] == 'a';
  }

  /** Such a menu passes the checks on its fields. */
  lemma SampleIsValid(v: Menu, expected: int, validUrl: string -> bool)
    requires SampleFields(v) && (expected > 0 ==> v.id != "")
    ensures FieldsValid(v, expected, validUrl)
    ensures v.kind == "page" ==> ValidPageComponent(if v.applicationId == "A" then "aa" else "bb", v.component)
  {
    SampleKind(v);
    SampleCodes();
    if v.kind == "page" {
      assert "directory"[0] != "page"[0];
      SampleComponent(v.component, v.applicationId == "A");
    }
    assert v.permissionScope == "tenant";
    hide SampleFields, ValidPageComponent, IsCode;
  }

  /** One more such menu at the top can be created if code, route and identifier are free. */
  lemma SampleIsGood(c: Catalog, v: Menu, id: string, validUrl: string -> bool)
    requires Good(c, validUrl) && SampleFields(v) && v.id == "" && v.parentId == "" && v.status == "active"
    requires Writable(c, v, 0, id)
    requires var live := Live(c, v.applicationId); forall x :: x in live ==>
      (live[x].route == "r" || live[x].route == "s") && live[x].route != v.route
    ensures Good(Created(c, v, id), validUrl)
    ensures CreatedLive(c, v, id)
  {
    SampleIsValid(v, 0, validUrl);
    SampleIsNormal(v);
    GoodCodes(c, validUrl);
    SampleApplication(v);
    var code := c.codes[v.applicationId];
    LongScope(code);
    hide Good, SampleFields, Normalized, FieldsValid, ValidPageComponent, Scope, RouteOf, PathTaken, Live, Writable,
         CreatedLive;
    ShortRouteIsFree(Scope(code), Live(c, v.applicationId), v);
    CreateIsGood(c, v, id, validUrl);
  }

  lemma SampleApplication(v: Menu)
    requires SampleFields(v)
    ensures v.applicationId in Empty().codes && Empty().codes[v.applicationId] == if v.applicationId == "A" then "aa"
      else "bb"
    ensures (v.route == "r" || v.route == "s") && v.kind != "action"
  {
  }

  lemma LongScope(code: string)
    ensures |Scope(code)| > 1
  {
    hide NormalizedRouteSegment;
  }

  lemma GoodCodes(c: Catalog, validUrl: string -> bool)
    requires Good(c, validUrl)
    ensures c.codes == Empty().codes
  {
    hide CatalogValid, LiveForests, AllRoutesDistinct, Reached;
  }

  // ----- an update that names another application

  /** A page of the second application, and a directory of the first one. */
  function PageOfB(): Menu { Top("B", "pp", "page", "r", "bb.l") }

  function DirectoryOfA(): Menu { Top("A", "dd", "directory", "r", "") }

  function TwoApplications(): Catalog { Created(OnePageOfB(), DirectoryOfA(), "q") }

  function OnePageOfB(): Catalog { Created(Empty(), PageOfB(), "p") }

  lemma OnePageOfBIsGood(validUrl: string -> bool)
    ensures Good(OnePageOfB(), validUrl) && Live(OnePageOfB(), "A") == map[]
    ensures Live(OnePageOfB(), "B") == map["p" := Stored(PageOfB(), "p")]
    ensures OnePageOfB().rows == map["p" := Row(Stored(PageOfB(), "p"), false)]
  {
    EmptyIsGood(validUrl);
    SampleIsGood(Empty(), PageOfB(), "p", validUrl);
  }

  lemma TwoApplicationsAreGood(validUrl: string -> bool)
    ensures var c := TwoApplications();
            && Good(c, validUrl) && Live(c, "B") == map["p" := Stored(PageOfB(), "p")]
            && c.rows == map["p" := Row(Stored(PageOfB(), "p"), false), "q" := Row(Stored(DirectoryOfA(), "q"), false)]
  {
    OnePageOfBIsGood(validUrl);
    SampleShapes();
    WritableBeside(OnePageOfB(), Stored(PageOfB(), "p"), DirectoryOfA(), "q");
    assert Created(OnePageOfB(), DirectoryOfA(), "q").rows ==
        OnePageOfB().rows["q" := Row(Stored(DirectoryOfA(), "q"), false)];
    hide Good, OnePageOfB, Live, SampleFields, Writable, PageOfB, DirectoryOfA;
    SampleIsGood(OnePageOfB(), DirectoryOfA(), "q", validUrl);
  }

  /** The menus below have the fields of the sample. */
  lemma SampleShapes()
    ensures SampleFields(PageOfB()) && SampleFields(DirectoryOfA()) && SampleFields(PageOfA())
    ensures SampleFields(OtherPage())
    ensures DirectoryOfA().applicationId == "A" && DirectoryOfA().id == DirectoryOfA().parentId == ""
    ensures DirectoryOfA().status == "active"
    ensures OtherPage().applicationId == "A" && OtherPage().id == OtherPage().parentId == ""
    ensures OtherPage().status == "active"
    ensures PageOfB().code != DirectoryOfA().code && PageOfA().code != OtherPage().code && PageOfA().route == "r"
    ensures OtherPage().route == "s"
  {
    assert PageOfB().code[0] != DirectoryOfA().code[0] && PageOfA().code[0] != OtherPage().code[0];
  }

  /** Beside one menu, one with another code and identifier can be written. */
  lemma WritableBeside(c: Catalog, m: Menu, v: Menu, id: string)
    requires c.rows == map[m.id := Row(m, false)] && id != "" && id != m.id && v.code != m.code
    ensures Writable(c, v, 0, id)
  {
  }

  /** The directory, sent as a child of the page of the other application. */
  function Misaddressed(): Menu { Top("B", "dd", "directory", "s", "").(id := "q", parentId := "p") }

  /** Menus at the top are a forest. */
  lemma RootsAreForest(menus: map<string, Menu>)
    requires forall id :: id in menus ==> menus[id].parentId == ""
    ensures Forest(Parents(menus))
  {
    forall id | id in Parents(menus)
      ensures ReachesRoot(Parents(menus), id)
    {
      assert Climbs(Parents(menus), id, 1);
    }
  }

  lemma MisaddressedFits(live: map<string, Menu>)
    requires live == map["p" := Stored(PageOfB(), "p")]
    ensures ParentFits(live, Misaddressed()) && TreeFits(live, Misaddressed())
    ensures RoutesFit("bb", live - {"q"}, Misaddressed())
  {
    hide Forest, Scope, RouteOf;
    RootsAreForest(live);
    assert ClimbsAvoiding(Parents(live), "p", "q", 1);
    MoveKeepsForestIff(Parents(live), "q", "p");
    assert live - {"q"} == live;
    LongScope("bb");
    ShortRoute(Scope("bb"), live["p"]);
    ShortRouteIsFree(Scope("bb"), live, Misaddressed());
  }

  lemma MisaddressedIsWritable(c: Catalog)
    requires c.rows == map["p" := Row(Stored(PageOfB(), "p"), false), "q" := Row(Stored(DirectoryOfA(), "q"), false)]
    ensures var v := Misaddressed();
            Writable(c, v, 1, "z") && Target(c, v, 1) == "A" && !WellAddressed(c, v, 1) && SampleFields(v) &&
                v.id != "" && v.kind != "page"
  {
    assert PageOfB().code[0] != DirectoryOfA().code[0] && "directory"[0] != "page"[0];
  }

  /** An update that names another application is accepted and leaves a menu with a parent outside its tree. */
  lemma CrossApplicationUpdate(validUrl: string -> bool)
    ensures var c, v := TwoApplications(), Misaddressed();
            && Good(c, validUrl) && UpsertAccepted(c, v, 1, "z", validUrl) && !LiveForests(Upserted(c, v, 1, "z"))
  {
    var c, v := TwoApplications(), Misaddressed();
    TwoApplicationsAreGood(validUrl);
    GoodCodes(c, validUrl);
    MisaddressedIsWritable(c);
    hide TwoApplications, Live, ParentFits, TreeFits, RoutesFit, FieldsValid, ValidPageComponent, LiveForests,
         AllRoutesDistinct, Reached,
         Writable, Target, WellAddressed, Upserted, CatalogValid, SampleFields;
    MisaddressedFits(Live(c, "B"));
    SampleIsValid(v, 1, validUrl);
    UpsertKeepsForests(c, v, 1, "z", validUrl);
  }

  // ----- creates that take the path of an active menu

  function OneMenu(): Catalog { Created(Empty(), DirectoryOfA(), "p") }

  lemma OneMenuIsGood(validUrl: string -> bool)
    ensures Good(OneMenu(), validUrl) && Live(OneMenu(), "A") == map["p" := Stored(DirectoryOfA(), "p")]
    ensures OneMenu().rows == map["p" := Row(Stored(DirectoryOfA(), "p"), false)]
  {
    EmptyIsGood(validUrl);
    SampleIsGood(Empty(), DirectoryOfA(), "p", validUrl);
  }

  function NamingMenu(): Menu { Top("A", "qq", "directory", "r", "").(id := "p") }

  function InactiveMenu(): Menu { Top("A", "qq", "directory", "r", "").(status := "off") }

  lemma NamingFits(live: map<string, Menu>)
    requires live == map["p" := Stored(DirectoryOfA(), "p")]
    ensures ParentFits(live, NamingMenu()) && TreeFits(live, NamingMenu())
    ensures RoutesFit("aa", live - {"p"}, NamingMenu())
  {
    hide Scope, RouteOf, Forest;
    RootsAreForest(live);
    LongScope("aa");
    ShortRouteIsFree(Scope("aa"), live - {"p"}, NamingMenu());
    assert live - {"p"} == map[];
    assert Parents(live)["p" := ""] == Parents(live);
  }

  lemma InactiveFits(live: map<string, Menu>)
    requires live == map["p" := Stored(DirectoryOfA(), "p")]
    ensures ParentFits(live, InactiveMenu()) && TreeFits(live, InactiveMenu())
    ensures RoutesFit("aa", live - {""}, InactiveMenu())
  {
    hide Scope, RouteOf, Forest, ReachesRoot;
    RootsAreForest(live);
    EmptyReaches(Parents(live));
    LongScope("aa");
    ShortRoute(Scope("aa"), live["p"]);
    assert live - {""} == live;
  }

  /** Both claim the path of the menu that is there. */
  lemma BothClash(c: Catalog)
    requires c.codes == Empty().codes && Live(c, "A") == map["p" := Stored(DirectoryOfA(), "p")]
    ensures Clashes(c, NamingMenu(), 0) && Clashes(c, InactiveMenu(), 0)
  {
    hide Live, Scope, RouteOf, Reserved;
    var scope, live := Scope("aa"), Live(c, "A");
    LongScope("aa");
    ShortRoute(scope, live["p"]);
    ShortRoute(scope, NamingMenu());
    ShortRoute(scope, InactiveMenu());
    assert Paths(scope, live)["p"] == RouteOf(scope, InactiveMenu());
  }

  /** A menu of the sample that fits is accepted as a create, and breaks the routes if it clashes. */
  lemma ClashingCreate(c: Catalog, v: Menu, validUrl: string -> bool)
    requires Good(c, validUrl) && c.rows == map["p" := Row(Stored(DirectoryOfA(), "p"), false)]
    requires SampleFields(v) && v.applicationId == "A" && v.code == "qq" && v.kind == "directory" && Clashes(c, v, 0)
    requires var live := Live(c, "A"); ParentFits(live, v) && TreeFits(live, v) && RoutesFit("aa", live - {v.id}, v)
    ensures UpsertAccepted(c, v, 0, "z", validUrl) && !AllRoutesDistinct(Upserted(c, v, 0, "z"))
  {
    GoodCodes(c, validUrl);
    SampleIsValid(v, 0, validUrl);
    assert v.kind != "page" && DirectoryOfA().code != v.code by {
      assert "directory"[0] != "page"[0] && "dd"[0] != "qq"[0];
    }
    hide SampleFields, CatalogValid, Live, ParentFits, TreeFits, RoutesFit, FieldsValid, Clashes, LiveForests,
         AllRoutesDistinct, Reached;
    WritableBeside(c, Stored(DirectoryOfA(), "p"), v, "z");
    hide Writable, DirectoryOfA;
    assert MenuAccepted(c, v, 0, validUrl);
    UpsertKeepsRoutes(c, v, 0, "z", validUrl);
  }

  lemma ClashingShapes()
    ensures SampleFields(NamingMenu()) && NamingMenu().applicationId == "A" && NamingMenu().code == "qq"
    ensures NamingMenu().kind == "directory"
    ensures SampleFields(InactiveMenu()) && InactiveMenu().applicationId == "A" && InactiveMenu().code == "qq"
    ensures InactiveMenu().kind == "directory"
    ensures NamingMenu().id == "p" && InactiveMenu().id == ""
  {
  }

  /** A create may take the path of an active menu by naming that menu's identifier. */
  lemma CreateNamingALiveMenu(validUrl: string -> bool)
    ensures var c, v := OneMenu(), NamingMenu();
            Good(c, validUrl) && UpsertAccepted(c, v, 0, "z", validUrl) && !AllRoutesDistinct(Upserted(c, v, 0, "z"))
  {
    OneMenuIsGood(validUrl);
    GoodCodes(OneMenu(), validUrl);
    ClashingShapes();
    hide OneMenu, Live, ParentFits, TreeFits, RoutesFit, Clashes, Good, Upserted, NamingMenu, InactiveMenu,
         SampleFields, DirectoryOfA,
         UpsertAccepted, AllRoutesDistinct;
    BothClash(OneMenu());
    NamingFits(Live(OneMenu(), "A"));
    ClashingCreate(OneMenu(), NamingMenu(), validUrl);
  }

  /** It may also take that path by sending a status other than "active": it is stored as active all the same. */
  lemma CreateWithAStatus(validUrl: string -> bool)
    ensures var c, v := OneMenu(), InactiveMenu();
            Good(c, validUrl) && UpsertAccepted(c, v, 0, "z", validUrl) && !AllRoutesDistinct(Upserted(c, v, 0, "z"))
  {
    OneMenuIsGood(validUrl);
    GoodCodes(OneMenu(), validUrl);
    ClashingShapes();
    hide OneMenu, Live, ParentFits, TreeFits, RoutesFit, Clashes, Good, Upserted, NamingMenu, InactiveMenu,
         SampleFields, DirectoryOfA,
         UpsertAccepted, AllRoutesDistinct;
    BothClash(OneMenu());
    InactiveFits(Live(OneMenu(), "A"));
    ClashingCreate(OneMenu(), InactiveMenu(), validUrl);
  }

  // ----- a page below a directory

  function PageOfA(): Menu { Top("A", "pp", "page", "r", "aa.l") }

  function OnePage(): Catalog { Created(Empty(), PageOfA(), "p") }

  /** A page to be created below the menu "p". */
  function PageBelow(): Menu { Top("A", "qq", "page", "s", "aa.l").(parentId := "p") }

  lemma OnePageIsGood(validUrl: string -> bool)
    ensures Good(OnePage(), validUrl) && Live(OnePage(), "A") == map["p" := Stored(PageOfA(), "p")]
    ensures OnePage().rows == map["p" := Row(Stored(PageOfA(), "p"), false)]
  {
    EmptyIsGood(validUrl);
    SampleIsGood(Empty(), PageOfA(), "p", validUrl);
  }

  lemma PageBelowFits(live: map<string, Menu>, parent: Menu)
    requires live == map["p" := parent] && parent.parentId == "" && parent.route == "r"
    ensures TreeFits(live, PageBelow()) && RoutesFit("aa", live - {""}, PageBelow())
  {
    hide Scope, RouteOf, Forest;
    RootsAreForest(live);
    assert Climbs(Parents(live), "p", 1);
    assert live - {""} == live;
    LongScope("aa");
    ShortRoute(Scope("aa"), parent);
    ShortRouteIsFree(Scope("aa"), live, PageBelow());
  }

  lemma PageBelowOtherwiseAccepted(c: Catalog, parent: Menu, validUrl: string -> bool)
    requires c.codes == Empty().codes && Live(c, "A") == map["p" := parent] && parent.parentId == ""
    requires parent.route == "r"
    ensures OtherwiseAccepted(c, PageBelow(), 0, validUrl)
  {
    SampleIsValid(PageBelow(), 0, validUrl);
    hide Live, FieldsValid, ValidPageComponent, TreeFits, RoutesFit;
    PageBelowFits(Live(c, "A"), parent);
  }

  /** The page below a directory is refused, and the same page below a page is accepted. */
  lemma PageBelowDirectoryIsRefused(validUrl: string -> bool)
    ensures Good(OneMenu(), validUrl) && OtherwiseAccepted(OneMenu(), PageBelow(), 0, validUrl)
    ensures !MenuAccepted(OneMenu(), PageBelow(), 0, validUrl)
    ensures Good(OnePage(), validUrl) && MenuAccepted(OnePage(), PageBelow(), 0, validUrl)
  {
    OneMenuIsGood(validUrl);
    OnePageIsGood(validUrl);
    GoodCodes(OneMenu(), validUrl);
    GoodCodes(OnePage(), validUrl);
    assert "directory"[0] != "page"[0];
    hide Good, OneMenu, OnePage, Live, OtherwiseAccepted, MenuAccepted;
    PageBelowOtherwiseAccepted(OneMenu(), Stored(DirectoryOfA(), "p"), validUrl);
    PageBelowOtherwiseAccepted(OnePage(), Stored(PageOfA(), "p"), validUrl);
    ParentMustBePageIff(OneMenu(), PageBelow(), 0, validUrl);
    ParentMustBePageIff(OnePage(), PageBelow(), 0, validUrl);
  }

  // ----- two moves that overlap

  function OtherPage(): Menu { Top("A", "qq", "page", "s", "aa.l") }

  function TwoPages(): Catalog { Created(OnePage(), OtherPage(), "q") }

  lemma TwoPagesAreGood(validUrl: string -> bool)
    ensures Good(TwoPages(), validUrl)
    ensures Live(TwoPages(), "A") == map["p" := Stored(PageOfA(), "p"), "q" := Stored(OtherPage(), "q")]
    ensures TwoPages().rows ==
      map["p" := Row(Stored(PageOfA(), "p"), false), "q" := Row(Stored(OtherPage(), "q"), false)]
  {
    OnePageIsGood(validUrl);
    SampleShapes();
    WritableBeside(OnePage(), Stored(PageOfA(), "p"), OtherPage(), "q");
    assert Created(OnePage(), OtherPage(), "q").rows == OnePage().rows["q" := Row(Stored(OtherPage(), "q"), false)];
    hide Good, OnePage, Live, SampleFields, Writable;
    SampleIsGood(OnePage(), OtherPage(), "q", validUrl);
  }

  /** Each page below the other one. */
  function MoveP(): Menu { PageOfA().(id := "p", parentId := "q") }

  function MoveQ(): Menu { OtherPage().(id := "q", parentId := "p") }

  lemma MoveFits(live: map<string, Menu>, v: Menu)
    requires live == map["p" := Stored(PageOfA(), "p"), "q" := Stored(OtherPage(), "q")]
    requires (v == MoveP() || v == MoveQ())
    ensures ParentFits(live, v) && TreeFits(live, v) && RoutesFit("aa", live - {v.id}, v)
  {
    MoveTreeFits(live, v);
    hide TreeFits, Scope, RouteOf;
    var others := live - {v.id};
    assert others.Keys == {v.parentId};
    LongScope("aa");
    ShortRoute(Scope("aa"), others[v.parentId]);
    ShortRouteIsFree(Scope("aa"), others, v);
  }

  lemma MoveTreeFits(live: map<string, Menu>, v: Menu)
    requires live.Keys == {"p", "q"} && live["p"].parentId == "" && live["q"].parentId == ""
    requires (v == MoveP() || v == MoveQ())
    ensures TreeFits(live, v)
  {
    hide Forest;
    RootsAreForest(live);
    assert ClimbsAvoiding(Parents(live), v.parentId, v.id, 1);
    MoveKeepsForestIff(Parents(live), v.id, v.parentId);
  }

  lemma MoveIsWritable(c: Catalog, v: Menu)
    requires c.rows == map["p" := Row(Stored(PageOfA(), "p"), false), "q" := Row(Stored(OtherPage(), "q"), false)]
    requires v == MoveP() || v == MoveQ()
    ensures Writable(c, v, 1, "z") && Target(c, v, 1) == "A" && WellAddressed(c, v, 1)
  {
    assert PageOfA().code[0] != OtherPage().code[0];
  }

  lemma MoveAccepted(c: Catalog, v: Menu, validUrl: string -> bool)
    requires c == TwoPages() && (v == MoveP() || v == MoveQ())
    ensures Good(c, validUrl) && UpsertAccepted(c, v, 1, "z", validUrl) && WellAddressed(c, v, 1)
    ensures MenuAccepted(c, v, 1, validUrl)
  {
    TwoPagesAreGood(validUrl);
    GoodCodes(c, validUrl);
    hide Good, TwoPages, Live, ParentFits, TreeFits, RoutesFit, FieldsValid, ValidPageComponent, Writable,
         WellAddressed, Target;
    MoveFits(Live(c, "A"), v);
    SampleIsValid(v, 1, validUrl);
    MoveIsWritable(c, v);
  }

  function MovedOnce(): Catalog { Upserted(TwoPages(), MoveP(), 1, "z") }

  lemma MovedOnceRows(validUrl: string -> bool)
    ensures MovedOnce().rows ==
      map["p" := Row(MoveP().(version := 2), false), "q" := Row(Stored(OtherPage(), "q"), false)]
  {
    TwoPagesAreGood(validUrl);
    hide Good, TwoPages, Live;
    MoveIsWritable(TwoPages(), MoveP());
    assert StoredMenu(TwoPages(), MoveP(), 1, "z") == MoveP().(version := 2);
  }

  lemma MovedOnceIsForest(validUrl: string -> bool)
    ensures CatalogValid(MovedOnce()) && LiveForests(MovedOnce())
  {
    var c := TwoPages();
    MoveAccepted(c, MoveP(), validUrl);
    hide CatalogValid, LiveForests, AllRoutesDistinct, Reached, UpsertAccepted, TwoPages, WellAddressed, Upserted,
         MenuAccepted, MoveP;
    UpsertKeepsCatalog(c, MoveP(), 1, "z", validUrl);
    UpsertKeepsForests(c, MoveP(), 1, "z", validUrl);
  }

  /** After the first move the second one can still be written. */
  lemma SecondMoveIsWritable(c: Catalog)
    requires c.rows == map["p" := Row(MoveP().(version := 2), false), "q" := Row(Stored(OtherPage(), "q"), false)]
    ensures Writable(c, MoveQ(), 1, "z") && Target(c, MoveQ(), 1) == "A"
  {
    assert c.rows["p"].menu.code[0] == 'p' && MoveQ().code[0] == 'q';
  }

  /** By then the walk from its new parent meets the menu itself. */
  lemma SecondMoveMeetsItself(c: Catalog)
    requires c.rows == map["p" := Row(MoveP().(version := 2), false), "q" := Row(Stored(OtherPage(), "q"), false)]
    ensures !ReachesAvoiding(Parents(Live(c, "A")), "p", "q")
  {
    var parents := Parents(Live(c, "A"));
    assert "p" in parents && parents["p"] == "q";
    forall n: nat
      ensures !ClimbsAvoiding(parents, "p", "q", n)
    {
      assert n > 0 ==> !ClimbsAvoiding(parents, "q", "q", n - 1);
    }
  }

  /**
   Two moves that are both validated before either is written are both written, and
   leave a cycle.
   */
  lemma OverlappingMovesMakeACycle(validUrl: string -> bool)
    ensures var c, v, w := TwoPages(), MoveP(), MoveQ();
            var once := Upserted(c, v, 1, "z");
            && Good(c, validUrl) && UpsertAccepted(c, v, 1, "z", validUrl) && MenuAccepted(c, w, 1, validUrl)
            && LiveForests(once) && Writable(once, w, 1, "z") && !LiveForests(Upserted(once, w, 1, "z"))
  {
    MoveAccepted(TwoPages(), MoveP(), validUrl);
    MoveAccepted(TwoPages(), MoveQ(), validUrl);
    MovedOnceRows(validUrl);
    MovedOnceIsForest(validUrl);
    SecondMoveIsWritable(MovedOnce());
    SecondMoveMeetsItself(MovedOnce());
    hide MenuAccepted, Writable, CatalogValid, LiveForests, Upserted, Target, ReachesAvoiding, TwoPages, Good,
         UpsertAccepted;
    WriteKeepsForestsIff(MovedOnce(), MoveQ(), 1, "z");
  }
}
