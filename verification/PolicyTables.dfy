/** The tables of routes, route policies and permission references, and what readers make of them. */
module PolicyTables {
  import opened Wrappers

  datatype Route = Route(protocol: string, verb: string, path: string, operation: string, description: string,
                         service: string, sourceVersion: string, status: string, deleted: bool)

  datatype Policy = Policy(routeId: string, expression: string, description: string, status: string,
                           version: int, updatedAt: int, deleted: bool)

  datatype Ref = Ref(policyId: string, key: string, resource: string, action: string, scope: string,
                     version: int, updatedAt: int, deleted: bool)

  /** Each table by row identifier; deleted rows stay in it. */
  datatype Tables = Tables(routes: map<string, Route>, policies: map<string, Policy>, refs: map<string, Ref>)

  /** A route that a service announces. */
  datatype RouteInput = RouteInput(id: string, protocol: string, verb: string, path: string, operation: string,
                                   description: string, service: string, sourceVersion: string)

  datatype PermissionInput = PermissionInput(key: string, resource: string, action: string, scope: string)

  datatype SetInput = SetInput(routeId: string, expression: string, description: string, status: string, expected: int,
                               permissions: seq<PermissionInput>)

  datatype Scope = Tenant | Platform | Principal

  datatype Permission = Permission(id: string, key: string, resource: string, action: string, scope: Scope)

  datatype Definition = Definition(id: string, routeId: string, expression: string,
                                   permissions: map<string, Permission>, version: int)

  /** `parseScope`; the CHECK constraint of the table admits the same three texts. */
  function ParseScope(value: string): Option<Scope> {
    if value == "tenant" then Some(Tenant)
    else if value == "platform" then Some(Platform)
    else if value == "principal" then Some(Principal)
    else None
  }

  function ScopeText(scope: Scope): string {
    match scope
    case Tenant => "tenant"
    case Platform => "platform"
    case Principal => "principal"
  }

  /** Each scope has one text, and no other text is a scope. */
  lemma ScopeRoundTrip(value: string, scope: Scope)
    ensures ParseScope(value) == Some(scope) <==> value == ScopeText(scope)
  {
    assert "tenant"[0] == 't' && "platform"[0] == 'p' && "principal"[0] == 'p' && "platform"[1] == 'l' &&
        "principal"[1] == 'r';
  }

  // ----- what the tables always satisfy

  /** At most one row for a policy and a key, live or deleted. */
  ghost predicate OneRowPerKey(refs: map<string, Ref>) {
    forall i, j :: i in refs && j in refs && refs[i].policyId == refs[j].policyId && refs[i].key == refs[j].key ==>
        i == j
  }

  /** The unique index on live policies. */
  ghost predicate OnePolicyPerRoute(policies: map<string, Policy>) {
    forall i, j ::
      (i in policies && j in policies && !policies[i].deleted && !policies[j].deleted &&
          policies[i].routeId == policies[j].routeId)
      ==> i == j
  }

  ghost predicate TablesValid(t: Tables) {
    OneRowPerKey(t.refs) && OnePolicyPerRoute(t.policies)
  }

  // ----- what a loader returns

  predicate ActivePolicy(t: Tables, id: string) {
    id in t.policies && t.policies[id].status == "active" && !t.policies[id].deleted
  }

  /** A live reference that joins an active policy. */
  predicate Joins(t: Tables, id: string) {
    id in t.refs && !t.refs[id].deleted && ActivePolicy(t, t.refs[id].policyId)
  }

  /** Every reference that joins has a scope that the loader knows. */
  ghost predicate Loadable(t: Tables) {
    forall id :: id in t.refs && Joins(t, id) ==> ParseScope(t.refs[id].scope).Some?
  }

  function PermissionOf(id: string, row: Ref): Permission
    requires ParseScope(row.scope).Some?
  {
    Permission(id, row.key, row.resource, row.action, ParseScope(row.scope).value)
  }

  /** The live references of a policy that have a known scope, by key. */
  ghost function Permissions(refs: map<string, Ref>, policyId: string): map<string, Permission>
    requires OneRowPerKey(refs)
  {
    map id | id in refs && refs[id].policyId == policyId && !refs[id].deleted && ParseScope(refs[id].scope).Some? ::
      refs[id].key := PermissionOf(id, refs[id])
  }

  /** The definitions of the active policies, by policy. */
  ghost function Definitions(t: Tables): map<string, Definition>
    requires TablesValid(t)
  {
    map id | id in t.policies && ActivePolicy(t, id) ::
      Definition(id, t.policies[id].routeId, t.policies[id].expression, Permissions(t.refs, id), t.policies[id].version)
  }

  /** What a load returns: the active live policies, each with its live references under their keys. */
  lemma DefinitionsMean(t: Tables)
    requires TablesValid(t) && Loadable(t)
    ensures forall id :: id in Definitions(t) <==>
              id in t.policies && t.policies[id].status == "active" && !t.policies[id].deleted
    ensures forall id :: id in Definitions(t) ==>
              var d, p := Definitions(t)[id], t.policies[id];
              d.id == id && d.routeId == p.routeId && d.expression == p.expression && d.version == p.version &&
              forall k :: k in d.permissions <==>
                exists r :: r in t.refs && t.refs[r].policyId == id && !t.refs[r].deleted && t.refs[r].key == k
    ensures forall r :: r in t.refs && !t.refs[r].deleted && t.refs[r].policyId in Definitions(t) ==>
              var row, loaded := t.refs[r], Definitions(t)[t.refs[r].policyId].permissions;
              row.key in loaded &&
              var p := loaded[row.key];
              p.id == r && p.key == row.key && p.resource == row.resource && p.action == row.action &&
              ScopeText(p.scope) == row.scope
  {
    hide ParseScope, ScopeText, OnePolicyPerRoute;
    forall id, k | id in Definitions(t)
      ensures k in Definitions(t)[id].permissions <==>
        exists r :: r in t.refs && t.refs[r].policyId == id && !t.refs[r].deleted && t.refs[r].key == k
    {
      assert forall r :: r in t.refs && t.refs[r].policyId == id && !t.refs[r].deleted ==> Joins(t, r);
    }
    forall r | r in t.refs && !t.refs[r].deleted && t.refs[r].policyId in Definitions(t)
      ensures var row, loaded := t.refs[r], Definitions(t)[t.refs[r].policyId].permissions;
              row.key in loaded && loaded[row.key] == PermissionOf(r, row) &&
                  ScopeText(loaded[row.key].scope) == row.scope
    {
      assert Joins(t, r);
      ScopeRoundTrip(t.refs[r].scope, ParseScope(t.refs[r].scope).value);
    }
  }

  // ----- the revision

  /** The nanoseconds of Go's zero time, which an empty table yields. */
  const ZERO_TIME := -6795364578871345152

  ghost function Stamps(t: Tables): set<int> {
    (set id | id in t.policies :: t.policies[id].updatedAt) + (set id | id in t.refs :: t.refs[id].updatedAt)
  }

  ghost function Max(s: set<int>): (r: int)
    requires exists x :: x in s
    ensures r in s && forall x :: x in s ==> x <= r
    decreases |s|
  {
    var x: int :| x in s;
    var rest := s - {x};
    assert s == rest + {x};
    if !(exists y :: y in rest) then x
    else
      var m := Max(rest);
      if x > m then x else m
  }

  /** The latest update of a policy or a reference, deleted ones included. */
  ghost function Revision(t: Tables): int {
    if Stamps(t) == {} then ZERO_TIME else Max(Stamps(t))
  }

  // ----- the requested permissions

  ghost predicate DistinctKeys(permissions: seq<PermissionInput>) {
    forall i, j :: 0 <= i < j < |permissions| ==> permissions[i].key != permissions[j].key
  }

  /** The requested permissions by key. */
  function Requested(permissions: seq<PermissionInput>): (r: map<string, PermissionInput>)
    ensures forall k :: k in r ==> r[k] in permissions && r[k].key == k
    ensures forall p :: p in permissions ==> p.key in r
    decreases |permissions|
  {
    if permissions == [] then map[]
    else
      var n := |permissions| - 1;
      assert permissions == permissions[..n] + [permissions[n]];
      Requested(permissions[..n])[permissions[n].key := permissions[n]]
  }

  lemma NothingRequested(permissions: seq<PermissionInput>)
    ensures Requested(permissions[..0]) == map[]
  {
  }

  lemma RequestedNext(permissions: seq<PermissionInput>, i: nat)
    requires i < |permissions|
    ensures Requested(permissions[..i + 1]) == Requested(permissions[..i])[permissions[i].key := permissions[i]]
  {
    assert permissions[..i + 1][..i] == permissions[..i] && permissions[..i + 1][i] == permissions[i];
  }

  lemma RequestedBefore(permissions: seq<PermissionInput>, i: nat)
    requires i < |permissions|
    ensures permissions[i].key in Requested(permissions[..i]) <==>
      exists j :: 0 <= j < i && permissions[j].key == permissions[i].key
  {
    var front := permissions[..i];
    if permissions[i].key in Requested(front) {
      var j :| 0 <= j < i && front[j] == Requested(front)[permissions[i].key];
      assert permissions[j].key == permissions[i].key;
    }
    if j :| 0 <= j < i && permissions[j].key == permissions[i].key {
      assert front[j] in front;
    }
  }

  lemma RequestedExactly(permissions: seq<PermissionInput>, p: PermissionInput)
    requires DistinctKeys(permissions)
    ensures p in permissions <==> p.key in Requested(permissions) && Requested(permissions)[p.key] == p
  {
  }

  // ----- what Set does to the references of one policy

  /** A row whose key is requested is updated in place and comes back to life; any other live row is deleted. */
  function RowAfter(row: Ref, wanted: map<string, PermissionInput>, now: int): Ref {
    if row.key in wanted then
      var p := wanted[row.key];
      row.(resource := p.resource, action := p.action, scope := p.scope, version := row.version + 1, updatedAt := now,
          deleted := false)
    else if row.deleted then row
    else row.(version := row.version + 1, updatedAt := now, deleted := true)
  }

  function NewRow(policyId: string, p: PermissionInput, now: int): Ref {
    Ref(policyId, p.key, p.resource, p.action, p.scope, 1, now, false)
  }

  ghost predicate HasRow(refs: map<string, Ref>, policyId: string, key: string) {
    exists id :: id in refs && refs[id].policyId == policyId && refs[id].key == key
  }

  /** Every row stays; the rows of other policies are as they were. */
  ghost predicate RowsStay(before: map<string, Ref>, after: map<string, Ref>, policyId: string,
                           wanted: map<string, PermissionInput>, now: int)
  {
    forall id :: id in before ==>
      id in after && after[id] == if before[id].policyId == policyId then RowAfter(before[id], wanted, now)
          else before[id]
  }

  /** New rows are for requested keys that had none, one for each. */
  ghost predicate RowsAdded(before: map<string, Ref>, after: map<string, Ref>, policyId: string,
                            wanted: map<string, PermissionInput>, now: int)
  {
    && (forall id :: id in after && id !in before ==>
          && after[id].key in wanted && !HasRow(before, policyId, after[id].key)
          && after[id] == NewRow(policyId, wanted[after[id].key], now))
    && (forall i, j :: i in after && j in after && i !in before && j !in before && after[i].key == after[j].key ==>
         i == j)
  }

  ghost predicate AllWanted(after: map<string, Ref>, policyId: string, wanted: map<string, PermissionInput>) {
    forall k :: k in wanted ==> HasRow(after, policyId, k)
  }

  ghost predicate RefsSet(before: map<string, Ref>, after: map<string, Ref>, policyId: string,
                          wanted: map<string, PermissionInput>, now: int)
  {
    RowsStay(before, after, policyId, wanted, now) && RowsAdded(before, after, policyId, wanted, now) &&
        AllWanted(after, policyId, wanted)
  }

  ghost predicate WantedKeys(wanted: map<string, PermissionInput>) {
    forall k :: k in wanted ==> wanted[k].key == k
  }

  ghost predicate WantedScopes(wanted: map<string, PermissionInput>) {
    forall k :: k in wanted ==> ParseScope(wanted[k].scope).Some?
  }

  /** An old row keeps its policy and its key; one of the policy is live exactly when its key is requested. */
  lemma OldRow(before: map<string, Ref>, after: map<string, Ref>, policyId: string,
               wanted: map<string, PermissionInput>, now: int, id: string)
    requires RowsStay(before, after, policyId, wanted, now) && id in before && WantedKeys(wanted)
    ensures id in after && after[id].policyId == before[id].policyId && after[id].key == before[id].key
    ensures before[id].policyId != policyId ==> after[id] == before[id]
    ensures before[id].policyId == policyId ==> (!after[id].deleted <==> after[id].key in wanted)
    ensures before[id].policyId == policyId && after[id].key in wanted ==> Carries(after[id], wanted[after[id].key])
  {
  }

  lemma AddedRow(before: map<string, Ref>, after: map<string, Ref>, policyId: string,
                 wanted: map<string, PermissionInput>, now: int, id: string)
    requires RowsAdded(before, after, policyId, wanted, now) && id in after && id !in before && WantedKeys(wanted)
    ensures after[id].policyId == policyId && !after[id].deleted && after[id].key in wanted
    ensures !HasRow(before, policyId, after[id].key) && Carries(after[id], wanted[after[id].key])
  {
    hide HasRow;
  }

  /** The row holds the requested values. */
  predicate Carries(row: Ref, p: PermissionInput) {
    row.key == p.key && row.resource == p.resource && row.action == p.action && row.scope == p.scope
  }

  /** `Set` keeps at most one row for a policy and a key. */
  lemma RefsSetKeepsRows(before: map<string, Ref>, after: map<string, Ref>, policyId: string,
                         wanted: map<string, PermissionInput>, now: int)
    requires OneRowPerKey(before) && WantedKeys(wanted) && RefsSet(before, after, policyId, wanted, now)
    ensures OneRowPerKey(after)
  {
    hide RefsSet;
    forall i | i in after
      ensures forall j :: j in after && after[i].policyId == after[j].policyId && after[i].key == after[j].key ==>
        i == j
    {
      RowIsAlone(before, after, policyId, wanted, now, i);
    }
  }

  lemma RowIsAlone(before: map<string, Ref>, after: map<string, Ref>, policyId: string,
                   wanted: map<string, PermissionInput>, now: int, i: string)
    requires OneRowPerKey(before) && WantedKeys(wanted) && RefsSet(before, after, policyId, wanted, now)
    requires i in after
    ensures forall j :: j in after && after[i].policyId == after[j].policyId && after[i].key == after[j].key ==> i == j
  {
    hide RowsStay, AllWanted, WantedKeys, Carries;
    if i in before {
      OldRow(before, after, policyId, wanted, now, i);
    } else {
      AddedRow(before, after, policyId, wanted, now, i);
    }
    forall j | j in after && after[i].policyId == after[j].policyId && after[i].key == after[j].key
      ensures i == j
    {
      if j in before {
        OldRow(before, after, policyId, wanted, now, j);
      } else {
        AddedRow(before, after, policyId, wanted, now, j);
      }
    }
  }

  /**
   What `Set` leaves: the live references of the policy are exactly the requested ones
   with their values, and a key that had a row, live or deleted, still has the same one.
   */
  lemma RefsSetExactly(before: map<string, Ref>, after: map<string, Ref>, policyId: string,
                       wanted: map<string, PermissionInput>, now: int)
    requires OneRowPerKey(before) && WantedKeys(wanted) && RefsSet(before, after, policyId, wanted, now)
    requires OneRowPerKey(after)
    ensures forall id :: id in after && after[id].policyId == policyId ==>
      (!after[id].deleted <==> after[id].key in wanted)
    ensures forall k :: k in wanted ==> exists id :: IsRowOf(before, after, policyId, wanted[k], id)
  {
    hide RowsStay, RowsAdded;
    forall id | id in after && after[id].policyId == policyId
      ensures !after[id].deleted <==> after[id].key in wanted
      ensures after[id].key in wanted ==> Carries(after[id], wanted[after[id].key])
    {
      if id in before {
        OldRow(before, after, policyId, wanted, now, id);
      } else {
        AddedRow(before, after, policyId, wanted, now, id);
      }
    }
    forall k | k in wanted
      ensures exists id :: IsRowOf(before, after, policyId, wanted[k], id)
    {
      var found :| found in after && after[found].policyId == policyId && after[found].key == k;
      forall id | id in before && before[id].policyId == policyId && before[id].key == k
        ensures found == id
      {
        OldRow(before, after, policyId, wanted, now, id);
      }
      assert IsRowOf(before, after, policyId, wanted[k], found);
    }
  }

  /** The live row of a request, which is the old row of its key where there was one. */
  ghost predicate IsRowOf(before: map<string, Ref>, after: map<string, Ref>, policyId: string, p: PermissionInput,
                          id: string) {
    && id in after && after[id].policyId == policyId && !after[id].deleted && Carries(after[id], p)
    && forall x :: x in before && before[x].policyId == policyId && before[x].key == p.key ==> x == id
  }

  /** A loader then sees exactly the requested permissions. */
  lemma RefsSetLoads(before: map<string, Ref>, after: map<string, Ref>, policyId: string,
                     wanted: map<string, PermissionInput>, now: int)
    requires OneRowPerKey(before) && WantedKeys(wanted) && WantedScopes(wanted)
    requires RefsSet(before, after, policyId, wanted, now)
    requires OneRowPerKey(after)
    ensures Permissions(after, policyId).Keys == wanted.Keys
    ensures forall k :: k in wanted ==>
      var p := Permissions(after, policyId)[k];
      p.id in after && IsRowOf(before, after, policyId, wanted[k], p.id) && p.key == k &&
      p.resource == wanted[k].resource && p.action == wanted[k].action && Some(p.scope) == ParseScope(wanted[k].scope)
  {
    hide RowsStay, RowsAdded, AllWanted, ParseScope;
    RefsSetExactly(before, after, policyId, wanted, now);
    hide RefsSet;
    forall k | k in wanted
      ensures k in Permissions(after, policyId)
    {
      var id :| IsRowOf(before, after, policyId, wanted[k], id);
      assert after[id].key in Permissions(after, policyId);
    }
    forall k | k in wanted
      ensures IsRowOf(before, after, policyId, wanted[k], Permissions(after, policyId)[k].id)
    {
      var id :| IsRowOf(before, after, policyId, wanted[k], id);
      assert Permissions(after, policyId)[after[id].key] == PermissionOf(id, after[id]);
    }
  }

  /** A row that is written moves to its next version, a new one has version 1, and a row that is not written stays. */
  lemma RefsSetVersions(before: map<string, Ref>, after: map<string, Ref>, policyId: string,
                        wanted: map<string, PermissionInput>, now: int, id: string)
    requires RefsSet(before, after, policyId, wanted, now) && id in after
    ensures id !in before ==> after[id].version == 1 && after[id].updatedAt == now
    ensures id in before ==>
              after[id] == before[id] || (after[id].version == before[id].version + 1 && after[id].updatedAt == now)
    ensures id in before && after[id] != before[id] ==>
              before[id].policyId == policyId && (before[id].key in wanted || !before[id].deleted)
  {
    hide AllWanted, HasRow;
  }

  /** The permissions of every other policy are untouched. */
  lemma RefsSetSparesOthers(before: map<string, Ref>, after: map<string, Ref>, policyId: string,
                            wanted: map<string, PermissionInput>, now: int, other: string)
    requires OneRowPerKey(before) && WantedKeys(wanted) && RefsSet(before, after, policyId, wanted, now)
    requires OneRowPerKey(after) && other != policyId
    ensures Permissions(after, other) == Permissions(before, other)
    ensures forall id :: (id in after && after[id].policyId == other) <==>
      (id in before && before[id].policyId == other)
    ensures forall id :: id in before && before[id].policyId == other ==> id in after && after[id] == before[id]
  {
    hide RowsStay, RowsAdded, ParseScope, AllWanted, WantedKeys;
    forall id | id in after && after[id].policyId == other
      ensures id in before && after[id] == before[id]
    {
      if id in before {
        OldRow(before, after, policyId, wanted, now, id);
      } else {
        AddedRow(before, after, policyId, wanted, now, id);
      }
    }
    forall id | id in before && before[id].policyId == other
      ensures id in after && after[id] == before[id]
    {
      OldRow(before, after, policyId, wanted, now, id);
    }
  }
}
