/** Bootstrap manifests: their data, their validation and the parents-first order of menus. */
module Manifests {
  import opened Wrappers
  import opened Text
  import opened Menus
  import opened MenuTree

  datatype MenuSpec = MenuSpec(
    code: string,
    parent: string,
    kind: string,
    name: string,
    i18nKey: string,
    route: string,
    component: string,
    icon: string,
    externalUrl: string,
    permissionCode: string,
    permissionScope: string,
    sortOrder: int,
    visible: Option<bool>
  )

  datatype ApplicationSpec = ApplicationSpec(
    code: string,
    name: string,
    description: string,
    icon: string,
    defaultRoute: string,
    sortOrder: int,
    metadata: map<string, string>,
    menus: seq<MenuSpec>
  )

  datatype Manifest = Manifest(applications: seq<ApplicationSpec>)

  // ----- the parents-first order

  /** Every menu with a parent comes after a menu of that code. */
  ghost predicate ParentsFirst(menus: seq<MenuSpec>) {
    forall i :: 0 <= i < |menus| && menus[i].parent != "" ==> exists j :: 0 <= j < i && menus[j].code == menus[i].parent
  }

  ghost predicate IsOrderOf(order: seq<MenuSpec>, menus: seq<MenuSpec>) {
    multiset(order) == multiset(menus) && ParentsFirst(order)
  }

  ghost predicate Orderable(menus: seq<MenuSpec>) {
    exists order :: IsOrderOf(order, menus)
  }

  ghost function Codes(menus: seq<MenuSpec>): set<string> {
    set m | m in menus :: m.code
  }

  /** `orderedMenus`: repeated passes that move menus whose parent has been placed. */
  method OrderedMenus(values: seq<MenuSpec>) returns (order: Option<seq<MenuSpec>>)
    ensures order.Some? ==> IsOrderOf(order.value, values)
    ensures order.None? ==> !Orderable(values)
  {
    var remaining, result, created := values, [], {};
    assert Codes([]) == {};
    while |remaining| > 0
      invariant multiset(result) + multiset(remaining) == multiset(values)
      invariant ParentsFirst(result) && created == Codes(result)
      decreases |remaining|
    {
      var next, placed, codes, progress := OrderPass(remaining, result, created);
      if !progress {
        StuckIsNotOrderable(values, result, remaining);
        return None;
      }
      remaining, result, created := next, placed, codes;
    }
    return Some(result);
  }

  ghost predicate Blocked(menus: seq<MenuSpec>, created: set<string>) {
    forall j :: 0 <= j < |menus| ==> menus[j].parent != "" && menus[j].parent !in created
  }

  /** One pass: it moves at least one menu unless all are blocked. */
  method OrderPass(remaining: seq<MenuSpec>, placed: seq<MenuSpec>, codes: set<string>)
    returns (next: seq<MenuSpec>, result: seq<MenuSpec>, created: set<string>, progress: bool)
    requires ParentsFirst(placed) && codes == Codes(placed)
    ensures multiset(result) + multiset(next) == multiset(placed) + multiset(remaining)
    ensures ParentsFirst(result) && created == Codes(result)
    ensures progress ==> |next| < |remaining|
    ensures !progress ==> Blocked(remaining, codes)
  {
    hide ParentsFirst, Codes;
    next, result, created, progress := [], placed, codes, false;
    for i := 0 to |remaining|
      invariant multiset(result) + multiset(next) == multiset(placed) + multiset(remaining[..i])
      invariant ParentsFirst(result) && created == Codes(result)
      invariant if progress then |next| < i else created == codes && |next| == i && Blocked(remaining[..i], codes)
    {
      var menu := remaining[i];
      TakeOneMore(remaining, i, codes);
      ghost var before := multiset(result) + multiset(next);
      if menu.parent == "" || menu.parent in created {
        PlaceNext(result, menu);
        result, created, progress := result + [menu], created + {menu.code}, true;
      } else {
        next := next + [menu];
      }
      assert multiset(result) + multiset(next) == before + multiset{menu};
    }
    assert remaining[..|remaining|] == remaining;
  }

  lemma TakeOneMore(remaining: seq<MenuSpec>, i: nat, codes: set<string>)
    requires i < |remaining|
    ensures multiset(remaining[..i + 1]) == multiset(remaining[..i]) + multiset{remaining[i]}
    ensures Blocked(remaining[..i], codes) && remaining[i].parent != "" && remaining[i].parent !in codes ==>
      Blocked(remaining[..i + 1], codes)
  {
    assert remaining[..i + 1] == remaining[..i] + [remaining[i]];
  }

  lemma PlaceNext(placed: seq<MenuSpec>, menu: MenuSpec)
    requires ParentsFirst(placed) && (menu.parent == "" || menu.parent in Codes(placed))
    ensures ParentsFirst(placed + [menu]) && Codes(placed + [menu]) == Codes(placed) + {menu.code}
  {
    var all := placed + [menu];
    forall i | 0 <= i < |all| && all[i].parent != ""
      ensures exists j :: 0 <= j < i && all[j].code == all[i].parent
    {
      if i < |placed| {
        var j :| 0 <= j < i && placed[j].code == placed[i].parent;
        assert all[j].code == all[i].parent;
      } else {
        var m :| m in placed && m.code == menu.parent;
        var j :| 0 <= j < |placed| && placed[j] == m;
        assert all[j].code == all[i].parent;
      }
    }
    assert forall m :: m in all <==> m in placed || m == menu;
  }

  /** When a pass moves nothing, no order exists. */
  lemma StuckIsNotOrderable(values: seq<MenuSpec>, placed: seq<MenuSpec>, remaining: seq<MenuSpec>)
    requires multiset(placed) + multiset(remaining) == multiset(values) && remaining != []
    requires Blocked(remaining, Codes(placed))
    ensures !Orderable(values)
  {
    forall order | IsOrderOf(order, values)
      ensures false
    {
      var m := remaining[0];
      assert m in multiset(values);
      assert m in multiset(order);
      var i :| 0 <= i < |order| && order[i] == m;
      StuckNeverPlaced(values, placed, remaining, order, i);
    }
  }

  lemma {:induction false} StuckNeverPlaced(values: seq<MenuSpec>, placed: seq<MenuSpec>, remaining: seq<MenuSpec>,
                                            order: seq<MenuSpec>, i: nat)
    requires multiset(placed) + multiset(remaining) == multiset(values) && IsOrderOf(order, values)
    requires Blocked(remaining, Codes(placed))
    requires i < |order|
    ensures order[i] !in remaining && order[i].code in Codes(placed)
    decreases i
  {
    assert order[i] in multiset(order);
    assert order[i] in multiset(placed) + multiset(remaining);
    if order[i] in remaining {
      var j :| 0 <= j < i && order[j].code == order[i].parent;
      StuckNeverPlaced(values, placed, remaining, order, j);
      assert false;
    }
  }

  // ----- the two acyclicity checks agree

  ghost predicate DistinctCodes(specs: seq<MenuSpec>) {
    (forall i :: 0 <= i < |specs| ==> specs[i].code != "") &&
    forall i, j :: 0 <= i < j < |specs| ==> specs[i].code != specs[j].code
  }

  /** One identifier for each code and parent that the specs mention, and no two codes share one. */
  ghost predicate Identifies(ids: map<string, string>, specs: seq<MenuSpec>) {
    && (forall s :: s in specs ==> s.code in ids && (s.parent != "" ==> s.parent in ids))
    && (forall c :: c in ids ==> ids[c] != "")
    && forall c, d :: c in ids && d in ids && ids[c] == ids[d] ==> c == d
  }

  function ParentIdOf(ids: map<string, string>, s: MenuSpec): string {
    if s.parent in ids && s.parent != "" then ids[s.parent] else ""
  }

  /** The menus that the specs become, with identifiers in place of codes. */
  function IdTree(ids: map<string, string>, specs: seq<MenuSpec>): (items: seq<Menu>)
    requires forall s :: s in specs ==> s.code in ids
    ensures |items| == |specs|
    ensures forall i :: 0 <= i < |specs| ==>
      items[i].id == ids[specs[i].code] && items[i].parentId == ParentIdOf(ids, specs[i])
  {
    seq(|specs|, i requires 0 <= i < |specs| => Item(ids[specs[i].code], ParentIdOf(ids, specs[i])))
  }

  lemma IdTreeParents(ids: map<string, string>, specs: seq<MenuSpec>)
    requires DistinctCodes(specs) && Identifies(ids, specs)
    ensures UniqueIds(IdTree(ids, specs))
    ensures var parents := ParentsById(IdTree(ids, specs));
            && (forall s :: s in specs ==> ids[s.code] in parents && parents[ids[s.code]] == ParentIdOf(ids, s))
            && forall c :: c in ids && ids[c] in parents ==> exists s :: s in specs && s.code == c
  {
    var items := IdTree(ids, specs);
    ParentsByIdUnique(items);
    ParentsByIdKeys(items);
    forall s | s in specs
      ensures ids[s.code] in ParentsById(items) && ParentsById(items)[ids[s.code]] == ParentIdOf(ids, s)
    {
      var i :| 0 <= i < |specs| && specs[i] == s;
      assert items[i].id != "";
    }
    forall c | c in ids && ids[c] in ParentsById(items)
      ensures exists s :: s in specs && s.code == c
    {
      var i :| 0 <= i < |items| && items[i].id == ids[c];
      assert specs[i] in specs && specs[i].code == c;
    }
  }

  lemma {:induction false} OrderedClimbs(ids: map<string, string>, specs: seq<MenuSpec>, order: seq<MenuSpec>, i: nat)
    requires DistinctCodes(specs) && Identifies(ids, specs) && IsOrderOf(order, specs) && i < |order|
    ensures order[i] in specs
    ensures Climbs(ParentsById(IdTree(ids, specs)), ids[order[i].code], i + 1)
    decreases i
  {
    var parents := ParentsById(IdTree(ids, specs));
    IdTreeParents(ids, specs);
    assert order[i] in multiset(order);
    if order[i].parent != "" {
      var j :| 0 <= j < i && order[j].code == order[i].parent;
      OrderedClimbs(ids, specs, order, j);
      ClimbsMore(parents, ids[order[j].code], j + 1, i);
    }
  }

  /** Climbing from an unplaced spec finds one whose parent is placed. */
  lemma {:induction false} FindReady(ids: map<string, string>, specs: seq<MenuSpec>, placed: seq<MenuSpec>,
                                     rest: seq<MenuSpec>, m: MenuSpec, n: nat) returns (k: nat)
    requires DistinctCodes(specs) && Identifies(ids, specs) && m in rest
    requires multiset(placed) + multiset(rest) == multiset(specs)
    requires m in specs && Climbs(ParentsById(IdTree(ids, specs)), ids[m.code], n)
    ensures k < |rest| && (rest[k].parent == "" || rest[k].parent in Codes(placed))
    decreases n
  {
    IdTreeParents(ids, specs);
    if m.parent == "" || m.parent in Codes(placed) {
      k :| 0 <= k < |rest| && rest[k] == m;
    } else {
      var s :| s in specs && s.code == m.parent;
      assert s in multiset(placed) + multiset(rest);
      k := FindReady(ids, specs, placed, rest, s, n - 1);
    }
  }

  lemma MoveOver(placed: seq<MenuSpec>, rest: seq<MenuSpec>, k: nat)
    requires k < |rest|
    ensures multiset(placed + [rest[k]]) + multiset(rest[..k] + rest[k + 1..]) == multiset(placed) + multiset(rest)
  {
    assert rest == rest[..k] + [rest[k]] + rest[k + 1..];
  }

  lemma {:induction false} Arrange(ids: map<string, string>, specs: seq<MenuSpec>, placed: seq<MenuSpec>,
                                   rest: seq<MenuSpec>)
    requires DistinctCodes(specs) && Identifies(ids, specs) && Forest(ParentsById(IdTree(ids, specs)))
    requires multiset(placed) + multiset(rest) == multiset(specs) && ParentsFirst(placed)
    ensures Orderable(specs)
    decreases |rest|
  {
    if rest == [] {
      assert IsOrderOf(placed, specs);
    } else {
      IdTreeParents(ids, specs);
      assert rest[0] in multiset(placed) + multiset(rest);
      assert rest[0] in specs;
      var n: nat :| Climbs(ParentsById(IdTree(ids, specs)), ids[rest[0].code], n);
      var k := FindReady(ids, specs, placed, rest, rest[0], n);
      PlaceNext(placed, rest[k]);
      MoveOver(placed, rest, k);
      Arrange(ids, specs, placed + [rest[k]], rest[..k] + rest[k + 1..]);
    }
  }

  /**
   `orderedMenus` on codes and `validateMenuTree` on the identifiers that stand
   for them accept the same menus.
   */
  lemma OrderableIffTreeAccepted(ids: map<string, string>, specs: seq<MenuSpec>)
    requires DistinctCodes(specs) && Identifies(ids, specs)
    ensures Orderable(specs) <==> TreeAccepted(IdTree(ids, specs))
  {
    var items := IdTree(ids, specs);
    IdTreeParents(ids, specs);
    TreeAcceptedIffForest(items);
    if TreeAccepted(items) {
      Arrange(ids, specs, [], specs);
    }
    if Orderable(specs) {
      OrderedIsForest(ids, specs);
    }
  }

  lemma OrderedIsForest(ids: map<string, string>, specs: seq<MenuSpec>)
    requires DistinctCodes(specs) && Identifies(ids, specs) && Orderable(specs)
    ensures Forest(ParentsById(IdTree(ids, specs)))
  {
    var items := IdTree(ids, specs);
    var order :| IsOrderOf(order, specs);
    ParentsByIdKeys(items);
    forall id | id in ParentsById(items)
      ensures ReachesRoot(ParentsById(items), id)
    {
      var i :| 0 <= i < |items| && items[i].id == id;
      assert specs[i] in multiset(specs);
      assert specs[i] in multiset(order);
      var k :| 0 <= k < |order| && order[k] == specs[i];
      OrderedClimbs(ids, specs, order, k);
    }
  }

  // ----- validation

  /** The menu type, "page" when it is left out. */
  function KindOf(m: MenuSpec): string {
    var kind := TrimSpace(m.kind);
    if kind == "" then "page" else kind
  }

  /** The rules on one menu, apart from its place among the others. */
  predicate MenuSpecValid(applicationCode: string, m: MenuSpec) {
    var kind := KindOf(m);
    var scope := ToLower(TrimSpace(m.permissionScope));
    && IsCode(TrimSpace(m.code))
    && TrimSpace(m.name) != ""
    && kind in {"page", "directory", "external", "action"}
    && (kind == "page" ==> TrimSpace(m.route) != "" && TrimSpace(m.component) != "")
    && (kind == "directory" ==> m.component == "" && m.externalUrl == "")
    && (kind == "external" ==> TrimSpace(m.externalUrl) != "")
    && (kind == "action" ==> TrimSpace(m.parent) != "" && TrimSpace(m.permissionCode) != "" &&
                             m.route == "" && m.component == "" && m.externalUrl == "")
    && (m.component != "" ==> HasPrefix(m.component, applicationCode + "."))
    && (scope != "" ==> scope == "tenant" || scope == "platform")
  }

  /** The codes as validation compares them. */
  function TrimmedCodes(menus: seq<MenuSpec>): (codes: seq<string>)
    ensures |codes| == |menus|
  {
    seq(|menus|, i requires 0 <= i < |menus| => TrimSpace(menus[i].code))
  }

  function ApplicationCodes(applications: seq<ApplicationSpec>): (codes: seq<string>)
    ensures |codes| == |applications|
  {
    seq(|applications|, i requires 0 <= i < |applications| => TrimSpace(applications[i].code))
  }

  predicate IsAction(m: MenuSpec) {
    TrimSpace(m.kind) == "action"
  }

  /** The menu at `i` may be the parent of `m`: only a page is the parent of an action. */
  ghost predicate ParentAt(menus: seq<MenuSpec>, codes: seq<string>, m: MenuSpec, i: nat) {
    i < |menus| == |codes| && codes[i] == m.parent && (IsAction(m) ==> KindOf(menus[i]) == "page")
  }

  ghost predicate ParentValid(menus: seq<MenuSpec>, codes: seq<string>, m: MenuSpec) {
    m.parent == "" || exists i: nat :: ParentAt(menus, codes, m, i)
  }

  ghost predicate AllMenusValid(applicationCode: string, menus: seq<MenuSpec>) {
    forall i :: 0 <= i < |menus| ==> MenuSpecValid(applicationCode, menus[i])
  }

  ghost predicate ApplicationSpecValid(a: ApplicationSpec) {
    && IsCode(TrimSpace(a.code)) && TrimSpace(a.name) != "" && a.menus != []
    && AllMenusValid(TrimSpace(a.code), a.menus)
    && Distinct(TrimmedCodes(a.menus))
    && (forall i :: 0 <= i < |a.menus| ==> ParentValid(a.menus, TrimmedCodes(a.menus), a.menus[i]))
    && Orderable(a.menus)
  }

  ghost predicate ManifestValid(m: Manifest) {
    && m.applications != []
    && (forall i :: 0 <= i < |m.applications| ==> ApplicationSpecValid(m.applications[i]))
    && Distinct(ApplicationCodes(m.applications))
  }

  /** `Manifest.Validate`: true when it returns no error. */
  method Validate(m: Manifest) returns (valid: bool)
    ensures valid <==> ManifestValid(m)
  {
    hide TrimSpace, ApplicationSpecValid;
    if m.applications == [] {
      return false;
    }
    var codes := ApplicationCodes(m.applications);
    var applications: set<string> := {};
    for i := 0 to |m.applications|
      invariant forall j :: 0 <= j < i ==> ApplicationSpecValid(m.applications[j])
      invariant Distinct(codes[..i]) && forall c :: c in applications <==> c in codes[..i]
    {
      if codes[i] in applications {
        return false;
      }
      applications := applications + {codes[i]};
      var ok := ValidateApplicationSpec(m.applications[i]);
      if !ok {
        return false;
      }
    }
    assert codes[..|codes|] == codes;
    return true;
  }

  /** The body of the loop over applications. */
  method ValidateApplicationSpec(a: ApplicationSpec) returns (valid: bool)
    ensures valid <==> ApplicationSpecValid(a)
  {
    var code := TrimSpace(a.code);
    if !IsCode(code) || TrimSpace(a.name) == "" || a.menus == [] {
      return false;
    }
    var menus, accepted := ValidateMenuSpecs(code, a.menus);
    if !accepted {
      return false;
    }
    accepted := ValidateParents(a.menus, TrimmedCodes(a.menus), menus);
    if !accepted {
      return false;
    }
    var order := OrderedMenus(a.menus);
    return order.Some?;
  }

  /** `menus` finds every menu by its trimmed code. */
  ghost predicate Indexes(menus: map<string, MenuSpec>, values: seq<MenuSpec>, codes: seq<string>)
    requires |codes| == |values|
  {
    && (forall i :: 0 <= i < |values| ==> codes[i] in menus && menus[codes[i]] == values[i])
    && forall c :: c in menus ==> c in codes
  }

  /** The first loop: each menu on its own, and no code twice. */
  method ValidateMenuSpecs(code: string, values: seq<MenuSpec>) returns (menus: map<string, MenuSpec>, accepted: bool)
    ensures accepted <==> AllMenusValid(code, values) && Distinct(TrimmedCodes(values))
    ensures accepted ==> Indexes(menus, values, TrimmedCodes(values))
  {
    hide TrimSpace, MenuSpecValid;
    var codes := TrimmedCodes(values);
    menus := map[];
    for i := 0 to |values|
      invariant AllMenusValid(code, values[..i]) && Distinct(codes[..i])
      invariant Indexes(menus, values[..i], codes[..i])
    {
      if !MenuSpecValid(code, values[i]) || codes[i] in menus {
        return menus, false;
      }
      menus := menus[codes[i] := values[i]];
    }
    assert values[..|values|] == values && codes[..|codes|] == codes;
    return menus, true;
  }

  /** The second loop: parents exist, and those of actions are pages. */
  method ValidateParents(values: seq<MenuSpec>, codes: seq<string>, menus: map<string, MenuSpec>)
    returns (accepted: bool)
    requires |codes| == |values| && Distinct(codes) && Indexes(menus, values, codes)
    ensures accepted <==> forall i :: 0 <= i < |values| ==> ParentValid(values, codes, values[i])
  {
    for i := 0 to |values|
      invariant forall j :: 0 <= j < i ==> ParentValid(values, codes, values[j])
    {
      var menu := values[i];
      if menu.parent != "" {
        if menu.parent !in menus {
          return false;
        }
        ghost var k: nat :| k < |codes| && codes[k] == menu.parent;
        if IsAction(menu) && KindOf(menus[menu.parent]) != "page" {
          return false;
        }
        assert ParentAt(values, codes, menu, k);
      }
    }
    return true;
  }

  /** A valid application spec has menus, and their codes as written are distinct and not empty. */
  lemma ValidSpecDistinct(a: ApplicationSpec)
    requires ApplicationSpecValid(a)
    ensures a.menus != [] && DistinctCodes(a.menus)
  {
    hide TrimSpace, IsCode;
    var codes := TrimmedCodes(a.menus);
    forall i | 0 <= i < |a.menus|
      ensures a.menus[i].code != ""
    {
      CodeNotEmpty(TrimSpace(a.code), a.menus[i]);
    }
    forall i, j | 0 <= i < j < |a.menus|
      ensures a.menus[i].code != a.menus[j].code
    {
      assert codes[i] != codes[j];
    }
  }

  lemma ValidManifestDistinct(m: Manifest, i: nat, j: nat)
    requires ManifestValid(m) && i < |m.applications| && j < |m.applications| && i != j
    ensures m.applications[i].code != m.applications[j].code
  {
    hide TrimSpace, ApplicationSpecValid;
    var codes := ApplicationCodes(m.applications);
    assert codes[if i < j then i else j] != codes[if i < j then j else i];
  }

  lemma CodeNotEmpty(applicationCode: string, m: MenuSpec)
    requires MenuSpecValid(applicationCode, m)
    ensures m.code != ""
  {
    assert TrimSpace("") == "";
  }

  /** Reordering keeps codes distinct. */
  lemma OrderKeepsCodes(specs: seq<MenuSpec>, order: seq<MenuSpec>)
    requires DistinctCodes(specs) && multiset(order) == multiset(specs)
    ensures DistinctCodes(order)
    ensures forall s :: s in order <==> s in specs
  {
    forall s
      ensures s in order <==> s in specs
    {
      assert s in multiset(order) <==> s in multiset(specs);
    }
    forall i | 0 <= i < |order|
      ensures order[i].code != ""
    {
      assert order[i] in order;
    }
    forall i, j | 0 <= i < j < |order|
      ensures order[i].code != order[j].code
    {
      assert order[i] in order && order[j] in order;
      var k :| 0 <= k < |specs| && specs[k] == order[i];
      var l :| 0 <= l < |specs| && specs[l] == order[j];
      if order[i].code == order[j].code {
        assert k == l;
        RepeatCounts(order, i, j);
        CountsOnce(specs, k);
      }
    }
  }

  lemma RepeatCounts(s: seq<MenuSpec>, i: nat, j: nat)
    requires i < j < |s| && s[i] == s[j]
    ensures multiset(s)[s[i]] >= 2
  {
    assert s == s[..i] + [s[i]] + s[i + 1..j] + [s[j]] + s[j + 1..];
  }

  lemma CountsOnce(s: seq<MenuSpec>, k: nat)
    requires DistinctCodes(s) && k < |s|
    ensures multiset(s)[s[k]] == 1
  {
    assert s == s[..k] + [s[k]] + s[k + 1..];
    assert s[k] !in s[..k] && s[k] !in s[k + 1..];
  }
}
