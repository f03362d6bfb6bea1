/** The repository of route policies: every write works on a copy of the tables and commits it at the end. */
module PolicyStore {
  import opened Wrappers
  import opened Text
  import opened PolicyTables
  import opened RouteSync

  datatype Failure = NotFound | Stale | CheckFailed | Invalid

  ghost predicate LivePolicy(t: Tables, routeId: string, id: string) {
    id in t.policies && t.policies[id].routeId == routeId && !t.policies[id].deleted
  }

  /** The policy that `Set` writes: a new one, or the live one with the next version. */
  function PolicyAfter(t: Tables, input: SetInput, id: string, now: int): Policy {
    Policy(input.routeId, input.expression, input.description, input.status,
           if id in t.policies then t.policies[id].version + 1 else 1, now, false)
  }

  /** Identifiers that no row has yet. */
  ghost predicate FreshIds(t: Tables, policyId: string, ids: seq<string>) {
    policyId !in t.policies && Distinct(ids) && (forall id :: id in ids ==> id !in t.refs) &&
    forall i :: i in t.refs ==> t.refs[i].policyId != policyId
  }

  /** The version that the caller must send: that of the live policy, or 0. */
  ghost predicate VersionMatches(t: Tables, input: SetInput) {
    && (forall id :: LivePolicy(t, input.routeId, id) ==> t.policies[id].version == input.expected)
    && ((forall id :: !LivePolicy(t, input.routeId, id)) ==> input.expected == 0)
  }

  predicate RouteExists(t: Tables, routeId: string) {
    routeId in t.routes && !t.routes[routeId].deleted
  }

  predicate StatusChecked(status: string) {
    status == "active" || status == "disabled"
  }

  ghost predicate ScopesRequested(permissions: seq<PermissionInput>) {
    forall p :: p in permissions ==> ParseScope(p.scope).Some?
  }

  /** Exactly when `Set` succeeds; `checked` says whether the schema has the CHECK constraints. */
  ghost predicate SetAccepted(t: Tables, input: SetInput, checked: bool) {
    && RouteExists(t, input.routeId) && VersionMatches(t, input)
    && (checked ==> StatusChecked(input.status) && ScopesRequested(input.permissions))
  }

  /** The tables after a successful `Set` of the policy `id`. */
  ghost predicate SetDone(before: Tables, after: Tables, input: SetInput, id: string, now: int) {
    && after.routes == before.routes
    && after.policies == before.policies[id := PolicyAfter(before, input, id, now)]
    && (LivePolicy(before, input.routeId, id) ||
         (id !in before.policies && forall x :: !LivePolicy(before, input.routeId, x)))
    && RefsSet(before.refs, after.refs, id, Requested(input.permissions), now)
  }

  // ----- the loops of Set

  /** The rows with a requested key are rewritten, the others are as before. */
  ghost predicate Rewritten(before: map<string, Ref>, tx: map<string, Ref>, policyId: string,
                            wanted: map<string, PermissionInput>, now: int)
  {
    forall id :: id in before ==>
      id in tx && tx[id] == if before[id].policyId == policyId &&
          before[id].key in wanted then RowAfter(before[id], wanted, now)
                            else before[id]
  }

  /** The requests so far are carried out. */
  ghost predicate Written(before: map<string, Ref>, tx: map<string, Ref>, policyId: string,
                          wanted: map<string, PermissionInput>, now: int)
  {
    Rewritten(before, tx, policyId, wanted, now) && RowsAdded(before, tx, policyId, wanted, now) &&
        AllWanted(tx, policyId, wanted)
  }

  ghost predicate IndexOf(refs: map<string, Ref>, policyId: string, byKey: map<string, string>) {
    && (forall k :: k in byKey ==> byKey[k] in refs && refs[byKey[k]].policyId == policyId && refs[byKey[k]].key == k)
    && forall id :: id in refs && refs[id].policyId == policyId ==> refs[id].key in byKey && byKey[refs[id].key] == id
  }

  lemma WrittenNothing(before: map<string, Ref>, policyId: string, now: int, wanted: map<string, PermissionInput>)
    requires wanted == map[]
    ensures Written(before, before, policyId, wanted, now)
  {
  }

  /** A request whose key has a row: the row is updated, live or deleted. */
  lemma WrittenUpdate(before: map<string, Ref>, tx: map<string, Ref>, policyId: string, wanted: map<string,
                      PermissionInput>,
                      now: int, id: string, p: PermissionInput)
    requires OneRowPerKey(before) && Written(before, tx, policyId, wanted, now)
    requires id in before && before[id].policyId == policyId && before[id].key == p.key && p.key !in wanted
    ensures id in tx
    ensures Written(before, tx[id := RowAfter(tx[id], map[p.key := p], now)], policyId, wanted[p.key := p], now)
  {
    hide RowAfter, NewRow, HasRow, OneRowPerKey, RowsAdded, AllWanted, Rewritten;
    UpdateRewrites(before, tx, policyId, wanted, now, id, p);
    UpdateKeepsAdded(before, tx, policyId, wanted, now, id, p, RowAfter(tx[id], map[p.key := p], now));
  }

  lemma UpdateRewrites(before: map<string, Ref>, tx: map<string, Ref>, policyId: string, wanted: map<string,
                       PermissionInput>,
                       now: int, id: string, p: PermissionInput)
    requires OneRowPerKey(before) && Rewritten(before, tx, policyId, wanted, now)
    requires id in before && before[id].policyId == policyId && before[id].key == p.key && p.key !in wanted
    ensures id in tx && tx[id] == before[id]
    ensures RowAfter(tx[id], map[p.key := p], now).policyId == policyId
    ensures RowAfter(tx[id], map[p.key := p], now).key == p.key
    ensures Rewritten(before, tx[id := RowAfter(tx[id], map[p.key := p], now)], policyId, wanted[p.key := p], now)
  {
    hide RowAfter;
    var more := wanted[p.key := p];
    RowAfterGrows(before, policyId, wanted, more, now);
    RowAfterGrows(before, policyId, map[p.key := p], more, now);
    RowAfterStays(before[id], map[p.key := p], now);
  }

  /** A row of the old table that is rewritten under its key is neither new nor lost. */
  lemma UpdateKeepsAdded(before: map<string, Ref>, tx: map<string, Ref>, policyId: string, wanted: map<string,
                         PermissionInput>,
                         now: int, id: string, p: PermissionInput, row: Ref)
    requires RowsAdded(before, tx, policyId, wanted, now) && AllWanted(tx, policyId, wanted)
    requires id in before && id in tx && tx[id].key == p.key == row.key && row.policyId == policyId && p.key !in wanted
    ensures RowsAdded(before, tx[id := row], policyId, wanted[p.key := p], now)
    ensures AllWanted(tx[id := row], policyId, wanted[p.key := p])
  {
    hide NewRow, HasRow;
    var more, after := wanted[p.key := p], tx[id := row];
    forall k | k in more
      ensures HasRow(after, policyId, k)
    {
      if k == p.key {
        HasRowAt(after, policyId, k, id);
      } else {
        HasRowElsewhere(tx, after, policyId, k, id);
      }
    }
  }

  lemma HasRowAt(refs: map<string, Ref>, policyId: string, key: string, id: string)
    requires id in refs && refs[id].policyId == policyId && refs[id].key == key
    ensures HasRow(refs, policyId, key)
  {
  }

  /** Writing a row for one key leaves the rows for the other keys. */
  lemma HasRowElsewhere(tx: map<string, Ref>, after: map<string, Ref>, policyId: string, key: string, id: string)
    requires HasRow(tx, policyId, key) && (id in tx ==> tx[id].key != key)
    requires forall x :: x in tx && x != id ==> x in after && after[x] == tx[x]
    ensures HasRow(after, policyId, key)
  {
    var x :| x in tx && tx[x].policyId == policyId && tx[x].key == key;
    assert x in after && after[x] == tx[x];
  }

  lemma RowAfterStays(row: Ref, wanted: map<string, PermissionInput>, now: int)
    ensures RowAfter(row, wanted, now).policyId == row.policyId && RowAfter(row, wanted, now).key == row.key
  {
  }

  /** A request whose key has no row: a row is inserted. */
  lemma WrittenInsert(before: map<string, Ref>, tx: map<string, Ref>, policyId: string, wanted: map<string,
                      PermissionInput>,
                      now: int, id: string, p: PermissionInput)
    requires Written(before, tx, policyId, wanted, now)
    requires id !in tx && !HasRow(before, policyId, p.key) && p.key !in wanted
    ensures Written(before, tx[id := NewRow(policyId, p, now)], policyId, wanted[p.key := p], now)
  {
    hide RowAfter, NewRow, HasRow;
    var more, after := wanted[p.key := p], tx[id := NewRow(policyId, p, now)];
    forall x | x in before
      ensures before[x].policyId == policyId && before[x].key in more ==> before[x].key in wanted
    {
      if before[x].policyId == policyId && before[x].key == p.key {
        HasRowAt(before, policyId, p.key, x);
      }
    }
    RowAfterGrows(before, policyId, wanted, more, now);
    NewRowKey(policyId, p, now);
    assert Rewritten(before, after, policyId, more, now);
    assert RowsAdded(before, after, policyId, more, now);
    forall k | k in more
      ensures HasRow(after, policyId, k)
    {
      if k == p.key {
        HasRowAt(after, policyId, k, id);
      } else {
        HasRowElsewhere(tx, after, policyId, k, id);
      }
    }
  }

  lemma NewRowKey(policyId: string, p: PermissionInput, now: int)
    ensures NewRow(policyId, p, now).policyId == policyId && NewRow(policyId, p, now).key == p.key
  {
  }

  lemma RowAfterGrows(before: map<string, Ref>, policyId: string, wanted: map<string, PermissionInput>,
                      more: map<string, PermissionInput>, now: int)
    requires forall k :: k in wanted ==> k in more && more[k] == wanted[k]
    ensures forall x :: x in before && before[x].key in wanted ==>
      RowAfter(before[x], more, now) == RowAfter(before[x], wanted, now)
  {
  }

  lemma KeysDiffer(permissions: seq<PermissionInput>, i: nat)
    requires i < |permissions| && DistinctKeys(permissions)
    ensures forall j :: 0 <= j < i ==> permissions[j].key != permissions[i].key
  {
  }

  lemma KeyIndexed(refs: map<string, Ref>, policyId: string, byKey: map<string, string>, key: string)
    requires IndexOf(refs, policyId, byKey)
    ensures key in byKey <==> HasRow(refs, policyId, key)
    ensures key in byKey ==> byKey[key] in refs && refs[byKey[key]].policyId == policyId && refs[byKey[key]].key == key
  {
  }

  // ----- deleting what is no longer requested

  /** `UPDATE … SET deleted_at`, on a live row only. */
  function SoftDeleted(row: Ref, now: int): Ref {
    if row.deleted then row else row.(version := row.version + 1, updatedAt := now, deleted := true)
  }

  /** Of the rows of the policy, those in `todo` are still to be looked at. */
  ghost predicate RowsPruned(before: map<string, Ref>, tx: map<string, Ref>, policyId: string,
                             wanted: map<string, PermissionInput>, now: int, todo: set<string>)
  {
    forall id :: id in before ==>
      id in tx && tx[id] == if before[id].policyId == policyId && (before[id].key in wanted || id !in todo)
                            then RowAfter(before[id], wanted, now) else before[id]
  }

  ghost predicate Pruned(before: map<string, Ref>, tx: map<string, Ref>, policyId: string,
                         wanted: map<string, PermissionInput>, now: int, todo: set<string>)
  {
    RowsPruned(before, tx, policyId, wanted, now, todo) && RowsAdded(before, tx, policyId, wanted, now) &&
        AllWanted(tx, policyId, wanted)
  }

  lemma PrunedStart(before: map<string, Ref>, tx: map<string, Ref>, policyId: string,
                    wanted: map<string, PermissionInput>, now: int, todo: set<string>)
    requires Written(before, tx, policyId, wanted, now)
    requires forall id :: id in before && before[id].policyId == policyId ==> id in todo
    ensures Pruned(before, tx, policyId, wanted, now, todo)
  {
    hide RowAfter;
  }

  lemma PrunedStep(before: map<string, Ref>, tx: map<string, Ref>, policyId: string,
                   wanted: map<string, PermissionInput>, now: int, todo: set<string>, id: string)
    requires Pruned(before, tx, policyId, wanted, now, todo) && id in todo
    requires id in before && before[id].policyId == policyId
    ensures id in tx && tx[id].key == before[id].key
    ensures tx[id].key in wanted ==> Pruned(before, tx, policyId, wanted, now, todo - {id})
    ensures tx[id].key !in wanted ==>
      Pruned(before, tx[id := SoftDeleted(tx[id], now)], policyId, wanted, now, todo - {id})
  {
    hide RowAfter, NewRow, HasRow, SoftDeleted, RowsAdded, AllWanted;
    RowAfterStays(before[id], wanted, now);
    if before[id].key !in wanted {
      var after := tx[id := SoftDeleted(tx[id], now)];
      SoftDeletedIsAfter(before[id], wanted, now);
      assert RowsPruned(before, after, policyId, wanted, now, todo - {id});
      PruneKeepsAdded(before, tx, policyId, wanted, now, id, SoftDeleted(tx[id], now));
    }
  }

  lemma SoftDeletedIsAfter(row: Ref, wanted: map<string, PermissionInput>, now: int)
    requires row.key !in wanted
    ensures SoftDeleted(row, now) == RowAfter(row, wanted, now)
  {
  }

  /** Deleting a row whose key is not requested touches neither the new rows nor the requested keys. */
  lemma PruneKeepsAdded(before: map<string, Ref>, tx: map<string, Ref>, policyId: string,
                        wanted: map<string, PermissionInput>, now: int, id: string, row: Ref)
    requires RowsAdded(before, tx, policyId, wanted, now) && AllWanted(tx, policyId, wanted)
    requires id in before && id in tx && tx[id].key !in wanted
    ensures RowsAdded(before, tx[id := row], policyId, wanted, now) && AllWanted(tx[id := row], policyId, wanted)
  {
    hide NewRow, HasRow;
    forall k | k in wanted
      ensures HasRow(tx[id := row], policyId, k)
    {
      HasRowElsewhere(tx, tx[id := row], policyId, k, id);
    }
  }

  lemma PrunedEnd(before: map<string, Ref>, tx: map<string, Ref>, policyId: string,
                  wanted: map<string, PermissionInput>, now: int)
    requires Pruned(before, tx, policyId, wanted, now, {})
    ensures RefsSet(before, tx, policyId, wanted, now)
  {
    hide RowAfter;
  }

  // ----- Load

  function Restrict(refs: map<string, Ref>, ids: set<string>): map<string, Ref> {
    map id | id in refs && id in ids :: refs[id]
  }

  /** The live row behind a permission. */
  ghost predicate Source(refs: map<string, Ref>, policyId: string, key: string, id: string) {
    && id in refs && refs[id].policyId == policyId && refs[id].key == key && !refs[id].deleted
    && ParseScope(refs[id].scope).Some?
  }

  lemma PermissionBehind(refs: map<string, Ref>, policyId: string, key: string)
    requires OneRowPerKey(refs)
    ensures key in Permissions(refs, policyId) <==> exists id :: Source(refs, policyId, key, id)
    ensures forall id :: Source(refs, policyId, key, id) ==>
      key in Permissions(refs, policyId) && Permissions(refs, policyId)[key] == PermissionOf(id, refs[id])
  {
    hide ParseScope, PermissionOf;
    if key in Permissions(refs, policyId) {
      var id :| id in refs && refs[id].policyId == policyId && !refs[id].deleted && ParseScope(refs[id].scope).Some? &&
          refs[id].key == key;
      assert Source(refs, policyId, key, id);
    }
    forall id | Source(refs, policyId, key, id)
      ensures key in Permissions(refs, policyId) && Permissions(refs, policyId)[key] == PermissionOf(id, refs[id])
    {
      assert refs[id].key in Permissions(refs, policyId);
    }
  }

  /** A further live row with a known scope adds its permission to its own policy; no row changes another policy. */
  lemma PermissionsAdd(refs: map<string, Ref>, id: string, row: Ref, policyId: string)
    requires OneRowPerKey(refs) && OneRowPerKey(refs[id := row])
    requires id !in refs && (row.policyId == policyId ==> !row.deleted && ParseScope(row.scope).Some?)
    ensures row.policyId != policyId ==> Permissions(refs[id := row], policyId) == Permissions(refs, policyId)
    ensures row.policyId == policyId ==>
      Permissions(refs[id := row], policyId) == Permissions(refs, policyId)[row.key := PermissionOf(id, row)]
  {
    hide ParseScope, PermissionOf, Permissions, OneRowPerKey;
    var more := refs[id := row];
    var was, now := Permissions(refs, policyId), Permissions(more, policyId);
    forall k: string
      ensures k in now <==> k in was || (row.policyId == policyId && k == row.key)
      ensures k in now ==> now[k] == if row.policyId == policyId && k == row.key then PermissionOf(id, row) else was[k]
    {
      PermissionBehind(refs, policyId, k);
      PermissionBehind(more, policyId, k);
      if k in was {
        var x :| Source(refs, policyId, k, x);
        assert Source(more, policyId, k, x);
      }
      if row.policyId == policyId && k == row.key {
        assert Source(more, policyId, k, id);
      } else if k in now {
        var x :| Source(more, policyId, k, x);
        assert Source(refs, policyId, k, x);
      }
    }
  }

  lemma RestrictAdd(refs: map<string, Ref>, ids: set<string>, id: string, policyId: string)
    requires OneRowPerKey(refs) && id in refs && id !in ids
    requires refs[id].policyId == policyId ==> !refs[id].deleted && ParseScope(refs[id].scope).Some?
    ensures refs[id].policyId != policyId ==>
      Permissions(Restrict(refs, ids + {id}), policyId) == Permissions(Restrict(refs, ids), policyId)
    ensures refs[id].policyId == policyId ==>
      Permissions(Restrict(refs, ids + {id}), policyId) ==
          Permissions(Restrict(refs, ids), policyId)[refs[id].key := PermissionOf(id, refs[id])]
  {
    hide ParseScope, PermissionOf, Permissions;
    assert Restrict(refs, ids + {id}) == Restrict(refs, ids)[id := refs[id]];
    PermissionsAdd(Restrict(refs, ids), id, refs[id], policyId);
  }

  lemma RestrictAll(refs: map<string, Ref>, ids: set<string>, policyId: string)
    requires OneRowPerKey(refs)
    requires forall id :: id in refs && refs[id].policyId == policyId && !refs[id].deleted ==> id in ids
    ensures Permissions(Restrict(refs, ids), policyId) == Permissions(refs, policyId)
  {
    hide ParseScope;
  }

  /** The definition of a policy, with the permissions of the references seen so far. */
  ghost function Loaded(t: Tables, policyId: string, seen: set<string>): Definition
    requires OneRowPerKey(t.refs) && policyId in t.policies
  {
    var row := t.policies[policyId];
    Definition(policyId, row.routeId, row.expression, Permissions(Restrict(t.refs, seen), policyId), row.version)
  }

  /** `definition.Permissions[row.Key] = …` */
  function WithPermission(d: Definition, p: Permission): Definition {
    d.(permissions := d.permissions[p.key := p])
  }

  lemma LoadedNothing(t: Tables, policyId: string)
    requires TablesValid(t) && policyId in t.policies
    ensures Loaded(t, policyId, {}) ==
      Definition(policyId, t.policies[policyId].routeId, t.policies[policyId].expression, map[],
          t.policies[policyId].version)
  {
  }

  lemma LoadedMore(t: Tables, policyId: string, seen: set<string>, id: string)
    requires OneRowPerKey(t.refs) && policyId in t.policies && id in t.refs && id !in seen
    requires t.refs[id].policyId == policyId ==> !t.refs[id].deleted && ParseScope(t.refs[id].scope).Some?
    ensures t.refs[id].policyId != policyId ==> Loaded(t, policyId, seen + {id}) == Loaded(t, policyId, seen)
    ensures t.refs[id].policyId == policyId ==>
      Loaded(t, policyId, seen + {id}) == WithPermission(Loaded(t, policyId, seen), PermissionOf(id, t.refs[id]))
  {
    RestrictAdd(t.refs, seen, id, policyId);
  }

  /** Each policy in `policies` has its definition, with the references in `seen`. */
  ghost predicate AllLoaded(t: Tables, definitions: map<string, Definition>, policies: set<string>, seen: set<string>) {
    && TablesValid(t) && definitions.Keys == policies && policies <= t.policies.Keys
    && forall p :: p in definitions ==> definitions[p] == Loaded(t, p, seen)
  }

  lemma AddPolicy(t: Tables, definitions: map<string, Definition>, policies: set<string>, id: string)
    requires AllLoaded(t, definitions, policies, {}) && id in t.policies
    ensures AllLoaded(t, definitions[id := Definition(id, t.policies[id].routeId, t.policies[id].expression, map[],
      t.policies[id].version)],
                      policies + {id}, {})
  {
    hide Loaded, TablesValid;
    LoadedNothing(t, id);
  }

  /** A reference whose policy is not among the loaded ones changes nothing. */
  lemma SkipReference(t: Tables, definitions: map<string, Definition>, policies: set<string>, seen: set<string>,
                      id: string)
    requires AllLoaded(t, definitions, policies, seen) && id in t.refs && id !in seen
    requires t.refs[id].policyId !in definitions
    ensures AllLoaded(t, definitions, policies, seen + {id})
  {
    hide Loaded, ParseScope, OnePolicyPerRoute, OneRowPerKey, Permissions;
    forall p | p in definitions
      ensures Loaded(t, p, seen + {id}) == definitions[p]
    {
      LoadedMore(t, p, seen, id);
    }
  }

  /** A reference with a known scope is attached to its policy. */
  lemma AddReference(t: Tables, definitions: map<string, Definition>, policies: set<string>, seen: set<string>,
                     id: string)
    requires AllLoaded(t, definitions, policies, seen) && id in t.refs && id !in seen && !t.refs[id].deleted
    requires t.refs[id].policyId in definitions && ParseScope(t.refs[id].scope).Some?
    ensures AllLoaded(t, definitions[t.refs[id].policyId := WithPermission(definitions[t.refs[id].policyId],
      PermissionOf(id, t.refs[id]))],
                      policies, seen + {id})
  {
    hide Loaded, ParseScope, PermissionOf, OnePolicyPerRoute, WithPermission, Permissions, OneRowPerKey;
    forall p | p in definitions
      ensures p != t.refs[id].policyId ==> Loaded(t, p, seen + {id}) == definitions[p]
      ensures p == t.refs[id].policyId ==>
        Loaded(t, p, seen + {id}) == WithPermission(definitions[p], PermissionOf(id, t.refs[id]))
    {
      LoadedMore(t, p, seen, id);
    }
  }

  lemma LoadedAll(t: Tables, definitions: map<string, Definition>, policies: set<string>, seen: set<string>)
    requires AllLoaded(t, definitions, policies, seen)
    requires policies == set id | id in t.policies && ActivePolicy(t, id)
    requires forall id :: id in t.refs && !t.refs[id].deleted && ActivePolicy(t, t.refs[id].policyId) ==> id in seen
    ensures definitions == Definitions(t)
  {
    hide ParseScope;
    forall p | p in definitions
      ensures p in Definitions(t) && definitions[p] == Definitions(t)[p]
    {
      RestrictAll(t.refs, seen, p);
    }
  }

  class Repository {
    /** Whether the schema has CHECK constraints on statuses and scopes. */
    const checked: bool
    var tables: Tables

    constructor (t: Tables, checked: bool)
      ensures tables == t && this.checked == checked
    {
      this.tables, this.checked := t, checked;
    }

    /** All rows of the policy, deleted ones included, and the row of each key. */
    method IndexRefs(refs: map<string, Ref>, policyId: string)
      returns (existing: set<string>, byKey: map<string, string>)
      requires OneRowPerKey(refs)
      ensures existing == set id | id in refs && refs[id].policyId == policyId
      ensures IndexOf(refs, policyId, byKey)
    {
      existing := set id | id in refs && refs[id].policyId == policyId;
      byKey := map[];
      var todo := existing;
      while todo != {}
        invariant todo <= existing
        invariant forall k :: k in byKey ==> byKey[k] in existing && refs[byKey[k]].key == k
        invariant forall id :: id in existing && id !in todo ==> refs[id].key in byKey && byKey[refs[id].key] == id
        decreases |todo|
      {
        var id :| id in todo;
        todo := todo - {id};
        byKey := byKey[refs[id].key := id];
      }
    }

    /** The first loop of `Set`: update the row of the key, or insert one. */
    method WriteRequests(refs: map<string, Ref>, policyId: string, permissions: seq<PermissionInput>, ids: seq<string>,
                         now: int,
                         byKey: map<string, string>)
      returns (tx: map<string, Ref>, desired: map<string, PermissionInput>, failed: bool)
      requires OneRowPerKey(refs) && IndexOf(refs, policyId, byKey) && DistinctKeys(permissions)
      requires |ids| == |permissions| && Distinct(ids) && forall id :: id in ids ==> id !in refs
      ensures failed <==> checked && !ScopesRequested(permissions)
      ensures !failed ==> desired == Requested(permissions) && Written(refs, tx, policyId, desired, now)
    {
      hide Written, RowAfter, NewRow, ParseScope, OneRowPerKey, IndexOf, DistinctKeys, Requested, HasRow;
      NothingRequested(permissions);
      tx, desired, failed := refs, map[], false;
      WrittenNothing(refs, policyId, now, desired);
      for i := 0 to |permissions|
        invariant desired == Requested(permissions[..i])
        invariant Written(refs, tx, policyId, desired, now)
        invariant forall j :: 0 <= j < i ==> !checked || ParseScope(permissions[j].scope).Some?
        invariant forall j :: i <= j < |ids| ==> ids[j] !in tx
      {
        var p := permissions[i];
        RequestedNext(permissions, i);
        RequestedBefore(permissions, i);
        assert p.key !in desired by { KeysDiffer(permissions, i); }
        if checked && ParseScope(p.scope).None? {
          assert p in permissions;
          return tx, desired, true;
        }
        KeyIndexed(refs, policyId, byKey, p.key);
        if p.key in byKey {
          WrittenUpdate(refs, tx, policyId, desired, now, byKey[p.key], p);
          tx := tx[byKey[p.key] := RowAfter(tx[byKey[p.key]], map[p.key := p], now)];
        } else {
          WrittenInsert(refs, tx, policyId, desired, now, ids[i], p);
          tx := tx[ids[i] := NewRow(policyId, p, now)];
        }
        desired := desired[p.key := p];
      }
      assert permissions[..|permissions|] == permissions;
    }

    /** The second loop of `Set`: delete the live rows whose key is not requested. */
    method PruneRefs(refs: map<string, Ref>, written: map<string, Ref>, policyId: string, existing: set<string>,
                     desired: map<string, PermissionInput>, now: int)
      returns (tx: map<string, Ref>)
      requires existing == set id | id in refs && refs[id].policyId == policyId
      requires Written(refs, written, policyId, desired, now)
      ensures RefsSet(refs, tx, policyId, desired, now)
    {
      hide Written, RowAfter, Pruned, RefsSet, SoftDeleted;
      tx := written;
      var todo := existing;
      PrunedStart(refs, tx, policyId, desired, now, todo);
      while todo != {}
        invariant todo <= existing && Pruned(refs, tx, policyId, desired, now, todo)
        decreases |todo|
      {
        var id :| id in todo;
        PrunedStep(refs, tx, policyId, desired, now, todo, id);
        if tx[id].key !in desired {
          tx := tx[id := SoftDeleted(tx[id], now)];
        }
        todo := todo - {id};
      }
      PrunedEnd(refs, tx, policyId, desired, now);
    }

    /** The policy row: inserted for a route without a live policy, otherwise compared and set. */
    method WritePolicy(t: Tables, input: SetInput, newId: string, now: int)
      returns (id: string, policies: map<string, Policy>, failure: Option<Failure>)
      requires OnePolicyPerRoute(t.policies) && newId !in t.policies
      ensures failure == if !VersionMatches(t, input) then Some(Stale)
        else if checked && !StatusChecked(input.status) then Some(CheckFailed) else None
      ensures failure.None? ==> policies == t.policies[id := PolicyAfter(t, input, id, now)]
      ensures failure.None? ==> if exists x :: LivePolicy(t, input.routeId, x) then LivePolicy(t, input.routeId, id)
        else id == newId
    {
      id, policies, failure := newId, t.policies, None;
      if x: string :| x in t.policies && t.policies[x].routeId == input.routeId && !t.policies[x].deleted {
        assert LivePolicy(t, input.routeId, x);
        id := x;
        if t.policies[x].version != input.expected {
          return id, policies, Some(Stale);
        }
      } else {
        if input.expected != 0 {
          return id, policies, Some(Stale);
        }
      }
      if checked && !StatusChecked(input.status) {
        return id, policies, Some(CheckFailed);
      }
      policies := policies[id := PolicyAfter(t, input, id, now)];
    }

    /** `Set`: the whole definition of a route's policy, in one transaction. */
    method Set(input: SetInput, newId: string, ids: seq<string>, now: int)
      returns (id: string, failure: Option<Failure>)
      requires TablesValid(tables) && DistinctKeys(input.permissions)
      requires FreshIds(tables, newId, ids) && |ids| == |input.permissions|
      modifies this
      ensures TablesValid(tables)
      ensures failure.None? <==> SetAccepted(old(tables), input, checked)
      ensures failure == Some(NotFound) <==> !RouteExists(old(tables), input.routeId)
      ensures failure == Some(Stale) <==> RouteExists(old(tables), input.routeId) && !VersionMatches(old(tables), input)
      ensures failure != Some(Invalid)
      ensures failure.None? ==> SetDone(old(tables), tables, input, id, now)
      ensures failure.Some? ==> tables == old(tables)
    {
      hide OneRowPerKey, VersionMatches, RefsSet, Written, ParseScope, PolicyAfter, DistinctKeys, StatusChecked;
      id := newId;
      if !RouteExists(tables, input.routeId) {
        return id, Some(NotFound);
      }
      ghost var before := tables;
      var policies;
      id, policies, failure := WritePolicy(tables, input, newId, now);
      if failure.Some? {
        return;
      }
      var existing, byKey := IndexRefs(tables.refs, id);
      var tx, desired, failed := WriteRequests(tables.refs, id, input.permissions, ids, now, byKey);
      if failed {
        return id, Some(CheckFailed);
      }
      tx := PruneRefs(tables.refs, tx, id, existing, desired, now);
      tables := tables.(policies := policies, refs := tx);
      SetKeepsTables(before, tables, input, id, now);
    }

    /** `Revision`: the latest update of a policy or a reference. */
    method ReadRevision() returns (r: int)
      ensures r == Revision(tables)
    {
      var t := tables;
      var stamps := (set id | id in t.policies :: t.policies[id].updatedAt) +
                    (set id | id in t.refs :: t.refs[id].updatedAt);
      if !(exists x :: x in stamps) {
        return ZERO_TIME;
      }
      r := Latest(stamps);
      LatestIsRevision(t, r);
    }

    method Latest(stamps: set<int>) returns (r: int)
      requires exists x :: x in stamps
      ensures r in stamps && forall y :: y in stamps ==> y <= r
    {
      r :| r in stamps;
      var seen, todo := {r}, stamps - {r};
      while exists x :: x in todo
        invariant seen + todo == stamps && r in seen
        invariant forall y :: y in seen ==> y <= r
        decreases |todo|
      {
        var x: int :| x in todo;
        seen, todo := seen + {x}, todo - {x};
        if x > r {
          r := x;
        }
      }
      assert forall y :: y in stamps ==> y in seen || y in todo;
    }

    /** `SyncRoutes`: deactivate the routes of the source, then update or insert each announced one. */
    method SyncRoutes(listed: seq<RouteInput>) returns (failed: bool)
      modifies this
      ensures failed <==> Refused(old(tables).routes, listed)
      ensures failed ==> tables == old(tables)
      ensures !failed ==> Synced(old(tables).routes, tables.routes, listed[0].service, listed[0].protocol,
        Announced(listed))
      ensures tables.policies == old(tables).policies && tables.refs == old(tables).refs
    {
      hide RowOf, Deactivated, Synced, SyncedUpTo;
      if listed == [] {
        return true;
      }
      hide Refused;
      var before := tables.routes;
      var tx := map id | id in before :: Deactivated(before[id], listed[0].service, listed[0].protocol);
      SyncStart(before, tx, listed);
      for i := 0 to |listed|
        invariant tables == old(tables) && SyncedUpTo(before, tx, listed, i)
      {
        SyncStep(before, tx, listed, i);
        if listed[i].id in tx && tx[listed[i].id].deleted {
          return true;
        }
        tx := tx[listed[i].id := RowOf(listed[i])];
      }
      SyncEnd(before, tx, listed);
      tables := tables.(routes := tx);
      return false;
    }

    /** The active policies, each without permissions. */
    method LoadPolicies(t: Tables, policies: set<string>) returns (definitions: map<string, Definition>)
      requires TablesValid(t) && policies <= t.policies.Keys
      ensures AllLoaded(t, definitions, policies, {})
    {
      hide AllLoaded, TablesValid;
      definitions := map[];
      NothingLoaded(t, definitions);
      var todo := policies;
      assert policies - todo == {};
      while todo != {}
        invariant todo <= policies && AllLoaded(t, definitions, policies - todo, {})
        decreases |todo|
      {
        var id :| id in todo;
        AddPolicy(t, definitions, policies - todo, id);
        assert policies - (todo - {id}) == policies - todo + {id};
        todo := todo - {id};
        definitions := definitions[id := Definition(id, t.policies[id].routeId, t.policies[id].expression, map[],
            t.policies[id].version)];
      }
      assert policies - {} == policies;
    }

    /** The references, attached one by one to their policies; the first unknown scope ends the load. */
    method AttachReferences(t: Tables, policies: set<string>, loaded: map<string, Definition>, joined: set<string>)
      returns (r: Result<map<string, Definition>, Failure>)
      requires AllLoaded(t, loaded, policies, {})
      requires forall id :: id in joined ==> id in t.refs && !t.refs[id].deleted && t.refs[id].policyId in policies
      ensures r.Ok? <==> forall id :: id in joined ==> ParseScope(t.refs[id].scope).Some?
      ensures r.Ok? ==> AllLoaded(t, r.value, policies, joined)
      ensures r.Err? ==> r.error == Invalid
    {
      hide AllLoaded, ParseScope, PermissionOf, WithPermission;
      LoadedKeys(t, loaded, policies, {});
      var definitions, todo := loaded, joined;
      assert joined - todo == {};
      while todo != {}
        invariant todo <= joined && AllLoaded(t, definitions, policies, joined - todo) && definitions.Keys == policies
        invariant forall id :: id in joined - todo ==> ParseScope(t.refs[id].scope).Some?
        decreases |todo|
      {
        var id :| id in todo;
        ghost var seen := joined - todo;
        assert joined - (todo - {id}) == seen + {id};
        todo := todo - {id};
        var row := t.refs[id];
        if row.policyId !in definitions {
          SkipReference(t, definitions, policies, seen, id);
          continue;
        }
        if ParseScope(row.scope).None? {
          return Err(Invalid);
        }
        AddReference(t, definitions, policies, seen, id);
        definitions := definitions[row.policyId := WithPermission(definitions[row.policyId], PermissionOf(id, row))];
      }
      assert joined - {} == joined;
      return Ok(definitions);
    }

    /** `Load`: the active policies, then the live references that join them. */
    method Load() returns (r: Result<map<string, Definition>, Failure>)
      requires TablesValid(tables)
      ensures r == if Loadable(tables) then Ok(Definitions(tables)) else Err(Invalid)
    {
      hide AllLoaded, ActivePolicy, Definitions, OneRowPerKey, OnePolicyPerRoute, ParseScope;
      var t := tables;
      var policies := set id | id in t.policies && ActivePolicy(t, id);
      var joined := set id | id in t.refs && Joins(t, id);
      var definitions := LoadPolicies(t, policies);
      assert forall id :: id in t.refs && Joins(t, id) ==> t.refs[id].policyId in policies by { JoinsActive(t); }
      r := AttachReferences(t, policies, definitions, joined);
      if r.Ok? {
        LoadedAll(t, r.value, policies, joined);
      }
    }
  }

  lemma LoadedKeys(t: Tables, definitions: map<string, Definition>, policies: set<string>, seen: set<string>)
    requires AllLoaded(t, definitions, policies, seen)
    ensures definitions.Keys == policies
  {
  }

  lemma JoinsActive(t: Tables)
    ensures forall id :: id in t.refs && Joins(t, id) ==>
      t.refs[id].policyId in t.policies && ActivePolicy(t, t.refs[id].policyId)
  {
  }

  lemma NothingLoaded(t: Tables, definitions: map<string, Definition>)
    requires TablesValid(t) && |definitions| == 0
    ensures AllLoaded(t, definitions, {}, {})
  {
  }

  lemma LatestIsRevision(t: Tables, r: int)
    requires r in Stamps(t) && forall y :: y in Stamps(t) ==> y <= r
    ensures Revision(t) == r
  {
  }

  lemma RequestedKeyed(permissions: seq<PermissionInput>)
    ensures WantedKeys(Requested(permissions))
    ensures DistinctKeys(permissions) ==> (WantedScopes(Requested(permissions)) <==> ScopesRequested(permissions))
  {
    hide ParseScope;
    var wanted := Requested(permissions);
    if DistinctKeys(permissions) {
      forall p | p in permissions
        ensures p.key in wanted && wanted[p.key] == p
      {
        RequestedExactly(permissions, p);
      }
    }
  }

  lemma SetKeepsTables(before: Tables, after: Tables, input: SetInput, id: string, now: int)
    requires TablesValid(before) && SetDone(before, after, input, id, now)
    ensures TablesValid(after)
  {
    hide RefsSet, OneRowPerKey, WantedKeys;
    RequestedKeyed(input.permissions);
    RefsSetKeepsRows(before.refs, after.refs, id, Requested(input.permissions), now);
    assert OnePolicyPerRoute(after.policies) by {
      assert forall x :: x in before.policies && x != id ==> !LivePolicy(before, input.routeId, x);
    }
  }

  /**
   Round trip: after a successful `Set`, the definitions hold for an active policy exactly
   what was sent, for a disabled one nothing, and for all others what they held before.
   */
  lemma SetThenLoad(before: Tables, after: Tables, input: SetInput, id: string, now: int)
    requires TablesValid(before) && TablesValid(after) && SetDone(before, after, input, id, now)
    requires DistinctKeys(input.permissions)
    ensures id in Definitions(after) <==> input.status == "active"
    ensures id in Definitions(after) ==>
      var d := Definitions(after)[id];
      && d.id == id && d.routeId == input.routeId && d.expression == input.expression &&
           d.version == after.policies[id].version
      && (ScopesRequested(input.permissions) ==> DefinesRequested(d.permissions, input.permissions))
    ensures forall other :: other != id ==>
      (other in Definitions(before) <==> other in Definitions(after)) &&
      (other in Definitions(before) ==> Definitions(after)[other] == Definitions(before)[other])
  {
    hide ParseScope, RefsSet, OneRowPerKey, OnePolicyPerRoute, Permissions, ScopesRequested, DefinesRequested,
         DistinctKeys, WantedKeys, WantedScopes;
    var wanted := Requested(input.permissions);
    RequestedKeyed(input.permissions);
    if ScopesRequested(input.permissions) {
      RefsSetLoads(before.refs, after.refs, id, wanted, now);
      LoadsDefineRequested(Permissions(after.refs, id), input.permissions);
    }
    forall other: string | other != id
      ensures Permissions(after.refs, other) == Permissions(before.refs, other)
    {
      RefsSetSparesOthers(before.refs, after.refs, id, wanted, now, other);
    }
  }

  /** The loaded permissions are the requested ones. */
  ghost predicate DefinesRequested(loaded: map<string, Permission>, permissions: seq<PermissionInput>) {
    && (forall k :: k in loaded <==> exists p :: p in permissions && p.key == k)
    && forall p :: p in permissions ==>
         loaded[p.key].key == p.key && loaded[p.key].resource == p.resource && loaded[p.key].action == p.action &&
             Some(loaded[p.key].scope) == ParseScope(p.scope)
  }

  lemma LoadsDefineRequested(loaded: map<string, Permission>, permissions: seq<PermissionInput>)
    requires DistinctKeys(permissions) && loaded.Keys == Requested(permissions).Keys
    requires forall k :: k in loaded ==>
      var p, w := loaded[k], Requested(permissions)[k];
      p.key == k && p.resource == w.resource && p.action == w.action && Some(p.scope) == ParseScope(w.scope)
    ensures DefinesRequested(loaded, permissions)
  {
    hide ParseScope, Requested, DistinctKeys;
    assert forall k :: k in loaded <==> k in Requested(permissions);
    forall p | p in permissions
      ensures p.key in loaded && Requested(permissions)[p.key] == p
    {
      RequestedExactly(permissions, p);
    }
  }

  /**
   On tables that load, a `Set` leaves tables that load exactly when it disables the policy
   or every scope is known. Without the constraint one unknown scope stops every later load.
   */
  lemma SetKeepsLoadableIff(before: Tables, after: Tables, input: SetInput, id: string, now: int)
    requires TablesValid(before) && TablesValid(after) && SetDone(before, after, input, id, now)
    requires DistinctKeys(input.permissions)
    requires Loadable(before)
    ensures Loadable(after) <==> input.status != "active" || ScopesRequested(input.permissions)
  {
    var wanted := Requested(input.permissions);
    RequestedKeyed(input.permissions);
    hide ParseScope, RefsSet, OneRowPerKey, OnePolicyPerRoute, ScopesRequested, DistinctKeys, WantedKeys, Requested;
    RefsSetExactly(before.refs, after.refs, id, wanted, now);
    forall r | r in after.refs && after.refs[r].policyId != id && Joins(after, r)
      ensures ParseScope(after.refs[r].scope).Some?
    {
      RefsSetSparesOthers(before.refs, after.refs, id, wanted, now, after.refs[r].policyId);
      assert Joins(before, r);
    }
    assert ActivePolicy(after, id) <==> input.status == "active";
    if input.status == "active" {
      LoadableOwn(before.refs, after, id, wanted);
    }
  }

  /** The references of one active policy load exactly when the requested scopes are known. */
  lemma LoadableOwn(before: map<string, Ref>, after: Tables, id: string, wanted: map<string, PermissionInput>)
    requires ActivePolicy(after, id) && OneRowPerKey(after.refs)
    requires forall r :: r in after.refs && after.refs[r].policyId == id ==>
      (!after.refs[r].deleted <==> after.refs[r].key in wanted)
    requires forall k :: k in wanted ==> exists r :: IsRowOf(before, after.refs, id, wanted[k], r)
    requires WantedKeys(wanted)
    ensures (forall r :: r in after.refs && after.refs[r].policyId == id && Joins(after, r) ==>
      ParseScope(after.refs[r].scope).Some?) <==>
      WantedScopes(wanted)
  {
    hide ParseScope;
    forall k | k in wanted
      ensures exists r :: r in after.refs && after.refs[r].policyId == id && Joins(after, r) &&
                          after.refs[r].key == k && after.refs[r].scope == wanted[k].scope
    {
      var r :| IsRowOf(before, after.refs, id, wanted[k], r);
    }
    forall r | r in after.refs && after.refs[r].policyId == id && Joins(after, r)
      ensures after.refs[r].key in wanted && after.refs[r].scope == wanted[after.refs[r].key].scope
    {
      var k := after.refs[r].key;
      var x :| IsRowOf(before, after.refs, id, wanted[k], x);
      assert x == r;
    }
  }

  /** A `Set` leaves the definitions as they were exactly when the policy was not active and is not made so. */
  lemma SetSparesDefinitionsIff(before: Tables, after: Tables, input: SetInput, id: string, now: int)
    requires TablesValid(before) && TablesValid(after) && SetDone(before, after, input, id, now)
    requires DistinctKeys(input.permissions)
    ensures Definitions(after) == Definitions(before) <==> !ActivePolicy(before, id) && input.status != "active"
  {
    hide Definitions, SetDone, DistinctKeys, PolicyAfter, ScopesRequested, DefinesRequested;
    SetThenLoad(before, after, input, id, now);
    SetVersions(before, after, input, id, now);
    if ActivePolicy(before, id) || input.status == "active" {
      assert id in Definitions(before) || id in Definitions(after);
    } else {
      forall other | other in Definitions(before) || other in Definitions(after)
        ensures other != id
      {
      }
    }
  }

  /** The version of an active definition is that of its policy, which a `Set` raises. */
  lemma SetVersions(before: Tables, after: Tables, input: SetInput, id: string, now: int)
    requires TablesValid(before) && TablesValid(after) && SetDone(before, after, input, id, now)
    ensures id in Definitions(before) <==> ActivePolicy(before, id)
    ensures id in Definitions(before) && id in Definitions(after) ==>
      Definitions(before)[id].version != Definitions(after)[id].version
  {
    hide RefsSet, Permissions, OneRowPerKey, OnePolicyPerRoute;
  }

  /** The stamps of the rows that a `Set` of the policy `id` does not write. */
  ghost function KeptStamps(t: Tables, id: string, wanted: map<string, PermissionInput>): set<int> {
    (set p | p in t.policies && p != id :: t.policies[p].updatedAt) +
    (set r | r in t.refs &&
        (t.refs[r].policyId != id || (t.refs[r].deleted && t.refs[r].key !in wanted)) :: t.refs[r].updatedAt)
  }

  /** A `Set` stamps the rows that it writes with its clock reading, and no other. */
  lemma SetStamps(before: Tables, after: Tables, input: SetInput, id: string, now: int)
    requires SetDone(before, after, input, id, now)
    ensures Stamps(after) == KeptStamps(before, id, Requested(input.permissions)) + {now}
  {
    var wanted := Requested(input.permissions);
    var kept := KeptStamps(before, id, wanted);
    forall x | x in Stamps(after)
      ensures x in kept || x == now
    {
      if r :| r in after.refs && after.refs[r].updatedAt == x {
        if r in before.refs {
          RowStamp(before.refs[r], wanted, now);
        } else {
          NewRowStamp(id, wanted[after.refs[r].key], now);
        }
      } else {
        var p :| p in after.policies && after.policies[p].updatedAt == x;
        assert p != id ==> before.policies[p] == after.policies[p];
      }
    }
    assert after.policies[id].updatedAt == now;
    KeptStay(before, after, input, id, now);
  }

  lemma KeptStay(before: Tables, after: Tables, input: SetInput, id: string, now: int)
    requires SetDone(before, after, input, id, now)
    ensures KeptStamps(before, id, Requested(input.permissions)) <= Stamps(after)
  {
    var wanted := Requested(input.permissions);
    forall x | x in KeptStamps(before, id, wanted)
      ensures x in Stamps(after)
    {
      if p :| p in before.policies && p != id && before.policies[p].updatedAt == x {
        assert after.policies[p] == before.policies[p];
      } else {
        var r :| r in before.refs && before.refs[r].updatedAt == x &&
                 (before.refs[r].policyId != id || (before.refs[r].deleted && before.refs[r].key !in wanted));
        assert after.refs[r] == before.refs[r];
      }
    }
  }

  lemma RevisionIsMax(t: Tables)
    ensures forall x :: x in Stamps(t) ==> x <= Revision(t)
    ensures Stamps(t) != {} ==> Revision(t) in Stamps(t)
  {
    hide Stamps;
    if !(exists x :: x in Stamps(t)) {
      assert Stamps(t) == {};
    }
  }

  /**
   After a `Set` the revision is its clock reading, or a later stamp of a row that it
   did not write. So it is the same as before exactly if the clock reading equals it,
   or is earlier and the row with the latest stamp is not written.
   */
  lemma SetRevision(before: Tables, after: Tables, input: SetInput, id: string, now: int)
    requires SetDone(before, after, input, id, now)
    ensures Revision(after) >= now && (Revision(before) < now ==> Revision(after) == now)
    ensures Revision(after) == Revision(before) <==>
      now == Revision(before) ||
          (now < Revision(before) && Revision(before) in KeptStamps(before, id, Requested(input.permissions)))
  {
    hide SetDone, Stamps, Revision, KeptStamps;
    SetStamps(before, after, input, id, now);
    RevisionIsMax(before);
    RevisionIsMax(after);
    KeptBefore(before, id, Requested(input.permissions));
    if Stamps(before) == {} {
      NoStampsYet(before);
    }
  }

  lemma KeptBefore(t: Tables, id: string, wanted: map<string, PermissionInput>)
    ensures KeptStamps(t, id, wanted) <= Stamps(t)
  {
  }

  lemma NoStampsYet(t: Tables)
    requires Stamps(t) == {}
    ensures Revision(t) == ZERO_TIME
  {
  }

  lemma RowStamp(row: Ref, wanted: map<string, PermissionInput>, now: int)
    ensures RowAfter(row, wanted, now).updatedAt == now || RowAfter(row, wanted, now) == row
  {
  }

  lemma NewRowStamp(policyId: string, p: PermissionInput, now: int)
    ensures NewRow(policyId, p, now).updatedAt == now
  {
  }
}
