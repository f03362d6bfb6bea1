/** What the service checks before it sets a route policy, and what it then hands to the repository. */
module PolicyInput {
  import opened Wrappers
  import opened Text
  import opened PolicyTables
  import opened PolicyStore

  function Trimmed(p: PermissionInput): PermissionInput {
    PermissionInput(TrimSpace(p.key), TrimSpace(p.resource), TrimSpace(p.action), TrimSpace(p.scope))
  }

  function TrimmedPermissions(permissions: seq<PermissionInput>): (r: seq<PermissionInput>)
    ensures |r| == |permissions| && forall i :: 0 <= i < |r| ==> r[i] == Trimmed(permissions[i])
  {
    seq(|permissions|, i requires 0 <= i < |permissions| => Trimmed(permissions[i]))
  }

  predicate ReferenceValid(p: PermissionInput) {
    ParseScope(p.scope).Some? && p.key != "" && p.resource != "" && p.action != ""
  }

  /** The text fields are trimmed in place; the permissions go on as they came. */
  function HandedOn(input: SetInput): SetInput {
    SetInput(TrimSpace(input.routeId), TrimSpace(input.expression), TrimSpace(input.description),
        TrimSpace(input.status),
             input.expected, input.permissions)
  }

  predicate FieldsValid(input: SetInput) {
    input.routeId != "" && input.expression != "" && StatusChecked(input.status) && input.expected >= 0
  }

  ghost predicate AllValid(permissions: seq<PermissionInput>) {
    forall i :: 0 <= i < |permissions| ==> ReferenceValid(permissions[i])
  }

  /** What the service accepts, apart from the expression compiling. */
  ghost predicate InputAccepted(input: SetInput) {
    && FieldsValid(HandedOn(input))
    && AllValid(TrimmedPermissions(input.permissions)) && DistinctKeys(TrimmedPermissions(input.permissions))
  }

  /** The checks of `Service.Set`; the compiler is shown the trimmed permissions. */
  method Validate(input: SetInput) returns (accepted: bool, shown: map<string, PermissionInput>)
    ensures accepted <==> InputAccepted(input)
    ensures accepted ==> shown == Requested(TrimmedPermissions(input.permissions))
  {
    hide TrimSpace, Trimmed, Requested, ReferenceValid, FieldsValid, HandedOn, AllValid, DistinctKeys;
    shown := map[];
    if !FieldsValid(HandedOn(input)) {
      return false, shown;
    }
    ghost var trimmed := TrimmedPermissions(input.permissions);
    NothingAsked(trimmed);
    for i := 0 to |input.permissions|
      invariant AllValid(trimmed[..i]) && DistinctKeys(trimmed[..i])
      invariant shown == Requested(trimmed[..i])
    {
      var ref := Trimmed(input.permissions[i]);
      AskedNext(trimmed, i);
      if !ReferenceValid(ref) {
        return false, shown;
      }
      if ref.key in shown {
        return false, shown;
      }
      shown := shown[ref.key := ref];
    }
    assert trimmed[..|trimmed|] == trimmed;
    return true, shown;
  }

  /** One more permission: valid and new so far, or the whole list is refused. */
  lemma AskedNext(permissions: seq<PermissionInput>, i: nat)
    requires i < |permissions| && AllValid(permissions[..i]) && DistinctKeys(permissions[..i])
    ensures Requested(permissions[..i + 1]) == Requested(permissions[..i])[permissions[i].key := permissions[i]]
    ensures !ReferenceValid(permissions[i]) ==> !AllValid(permissions)
    ensures permissions[i].key in Requested(permissions[..i]) ==> !DistinctKeys(permissions)
    ensures ReferenceValid(permissions[i]) && permissions[i].key !in Requested(permissions[..i]) ==>
      AllValid(permissions[..i + 1]) && DistinctKeys(permissions[..i + 1])
  {
    hide ReferenceValid, Requested;
    RequestedNext(permissions, i);
    RequestedBefore(permissions, i);
    if ReferenceValid(permissions[i]) && permissions[i].key !in Requested(permissions[..i]) {
      OneMoreAsked(permissions, i);
    }
  }

  lemma OneMoreAsked(permissions: seq<PermissionInput>, i: nat)
    requires i < |permissions| && AllValid(permissions[..i]) && DistinctKeys(permissions[..i])
    requires ReferenceValid(permissions[i]) && forall j :: 0 <= j < i ==> permissions[j].key != permissions[i].key
    ensures AllValid(permissions[..i + 1]) && DistinctKeys(permissions[..i + 1])
  {
    hide ReferenceValid;
    var front, more := permissions[..i], permissions[..i + 1];
    assert forall j :: 0 <= j < i ==> more[j] == front[j];
    assert more[i] == permissions[i];
  }

  lemma NothingAsked(permissions: seq<PermissionInput>)
    ensures Requested(permissions[..0]) == map[] && AllValid(permissions[..0]) && DistinctKeys(permissions[..0])
  {
    NothingRequested(permissions);
  }

  /** Distinct after trimming means distinct as sent, which is what the repository relies on. */
  lemma AcceptedKeysDistinct(input: SetInput)
    requires InputAccepted(input)
    ensures DistinctKeys(input.permissions) && HandedOn(input).permissions == input.permissions
  {
    hide TrimSpace;
    var p, t := input.permissions, TrimmedPermissions(input.permissions);
    forall i, j | 0 <= i < j < |p|
      ensures p[i].key != p[j].key
    {
      assert t[i].key != t[j].key;
    }
  }

  /**
   The service trims copies: exactly when every permission was sent trimmed, the
   repository stores the permissions that were validated and compiled.
   */
  lemma StoredIsValidatedIff(input: SetInput)
    requires InputAccepted(input)
    ensures Requested(input.permissions) == Requested(TrimmedPermissions(input.permissions)) <==>
      forall p :: p in input.permissions ==> Trimmed(p) == p
  {
    hide Trimmed, ReferenceValid, Requested, AllValid, DistinctKeys, FieldsValid, HandedOn;
    AcceptedKeysDistinct(input);
    var raw, trimmed := input.permissions, TrimmedPermissions(input.permissions);
    if forall p :: p in raw ==> Trimmed(p) == p {
      assert trimmed == raw;
    }
    if Requested(raw) == Requested(trimmed) {
      forall p | p in raw
        ensures Trimmed(p) == p
      {
        RequestedExactly(raw, p);
        RequestedExactly(trimmed, p);
        var i :| 0 <= i < |trimmed| && trimmed[i] == p;
        TrimmedTwice(raw[i]);
      }
    }
  }

  lemma TrimmedTwice(p: PermissionInput)
    ensures Trimmed(Trimmed(p)) == Trimmed(p)
  {
    TrimFixpoint(TrimSpace(p.key), IsSpace);
    TrimFixpoint(TrimSpace(p.resource), IsSpace);
    TrimFixpoint(TrimSpace(p.action), IsSpace);
    TrimFixpoint(TrimSpace(p.scope), IsSpace);
  }

  /** An accepted input with an untrimmed scope never gets past the table's CHECK. */
  lemma ScopesPassIff(input: SetInput)
    requires InputAccepted(input)
    ensures ScopesRequested(input.permissions) <==> forall p :: p in input.permissions ==> TrimSpace(p.scope) == p.scope
  {
    forall p | p in input.permissions
      ensures ParseScope(p.scope).Some? <==> TrimSpace(p.scope) == p.scope
    {
      var i :| 0 <= i < |input.permissions| && input.permissions[i] == p;
      assert ReferenceValid(TrimmedPermissions(input.permissions)[i]);
      hide TrimSpace;
      if ParseScope(p.scope).Some? {
        ScopeIsTrimmed(p.scope);
      }
    }
  }

  lemma ScopeIsTrimmed(scope: string)
    requires ParseScope(scope).Some?
    ensures TrimSpace(scope) == scope
  {
    TrimFixpoint(scope, IsSpace);
  }

  // ----- inputs that are accepted and should not be

  function Sent(key: string, scope: string): SetInput {
    SetInput("r", "e", "", "active", 0, [PermissionInput(key, "o", "a", scope)])
  }

  lemma SentAccepted(key: string, scope: string)
    requires TrimSpace(key) == "k" && TrimSpace(scope) == "tenant"
    ensures InputAccepted(Sent(key, scope))
  {
    TrimFixpoint("r", IsSpace);
    TrimFixpoint("e", IsSpace);
    TrimFixpoint("o", IsSpace);
    TrimFixpoint("a", IsSpace);
    TrimFixpoint("active", IsSpace);
    hide TrimSpace, Requested;
    assert TrimmedPermissions(Sent(key, scope).permissions)[0] == PermissionInput("k", "o", "a", "tenant");
  }

  lemma LeadingSpace(s: string)
    requires s != "" && !IsSpace(s[0]) && !IsSpace(s[|s| - 1])
    ensures TrimSpace(" " + s) == s
  {
    assert (" " + s)[1..] == s;
    TrimFixpoint(s, IsSpace);
  }

  /** A key with a space around it is validated without and stored with it. */
  lemma UntrimmedKeyIsStored()
    ensures var input := Sent(" k", "tenant");
            InputAccepted(input) && Requested(input.permissions) != Requested(TrimmedPermissions(input.permissions))
  {
    LeadingSpace("k");
    assert TrimSpace("k") != " k";
    TrimFixpoint("tenant", IsSpace);
    SentAccepted(" k", "tenant");
    hide TrimSpace;
    StoredIsValidatedIff(Sent(" k", "tenant"));
    assert Sent(" k", "tenant").permissions[0] in Sent(" k", "tenant").permissions;
  }

  /**
   A scope with a space around it is accepted, refused by a schema with the constraint, and stops
   every load without it.
   */
  lemma UntrimmedScopeIsRefusedOrStored(before: Tables, after: Tables, id: string, now: int)
    ensures var input := Sent("k", " tenant");
            && InputAccepted(input) && !SetAccepted(before, HandedOn(input), true)
            && (TablesValid(before) && TablesValid(after) && Loadable(before) &&
                 SetDone(before, after, HandedOn(input), id, now) ==>
                  !Loadable(after))
  {
    var input := Sent("k", " tenant");
    LeadingSpace("tenant");
    TrimFixpoint("k", IsSpace);
    TrimFixpoint("active", IsSpace);
    SentAccepted("k", " tenant");
    hide TrimSpace, Loadable, SetDone, TablesValid;
    AcceptedKeysDistinct(input);
    ScopesPassIff(input);
    assert input.permissions[0] in input.permissions;
    assert !ScopesRequested(HandedOn(input).permissions);
    if TablesValid(before) && TablesValid(after) && Loadable(before) &&
        SetDone(before, after, HandedOn(input), id, now) {
      SetKeepsLoadableIff(before, after, HandedOn(input), id, now);
    }
  }

  /** The policy that an accepted input leaves: its texts trimmed, and the next version. */
  lemma AcceptedPolicy(before: Tables, after: Tables, input: SetInput, id: string, now: int)
    requires SetDone(before, after, HandedOn(input), id, now)
    ensures id in after.policies &&
            after.policies[id] == Policy(TrimSpace(input.routeId), TrimSpace(input.expression),
                                         TrimSpace(input.description), TrimSpace(input.status),
                                         if id in before.policies then before.policies[id].version + 1 else 1,
                                         now, false)
    ensures forall other :: other != id ==>
              (other in after.policies <==> other in before.policies) &&
              (other in after.policies ==> after.policies[other] == before.policies[other])
  {
    hide TrimSpace, RefsSet;
  }

  /** A live reference of the policy holds this permission. */
  ghost predicate Holds(t: Tables, policyId: string, p: PermissionInput) {
    exists r :: r in t.refs && t.refs[r].policyId == policyId && !t.refs[r].deleted && t.refs[r].key == p.key &&
                t.refs[r].resource == p.resource && t.refs[r].action == p.action && t.refs[r].scope == p.scope
  }

  /** Its permissions are those that were sent, as they were sent. */
  lemma AcceptedPermissions(before: Tables, after: Tables, input: SetInput, id: string, now: int)
    requires InputAccepted(input) && TablesValid(before) && TablesValid(after)
    requires SetDone(before, after, HandedOn(input), id, now)
    ensures forall p :: p in input.permissions ==> Holds(after, id, p)
    ensures forall r :: r in after.refs && after.refs[r].policyId == id ==>
              (!after.refs[r].deleted <==> exists p :: p in input.permissions && p.key == after.refs[r].key)
  {
    AcceptedKeysDistinct(input);
    var wanted := Requested(input.permissions);
    RequestedKeyed(input.permissions);
    hide TrimSpace, InputAccepted, RefsSet, OneRowPerKey, OnePolicyPerRoute, Requested, DistinctKeys, HandedOn;
    RefsSetExactly(before.refs, after.refs, id, wanted, now);
    forall p | p in input.permissions
      ensures Holds(after, id, p)
    {
      RequestedExactly(input.permissions, p);
      var r :| IsRowOf(before.refs, after.refs, id, wanted[p.key], r);
      assert after.refs[r].key == p.key;
    }
  }

  /** What the service asks of an input, spelled out. */
  lemma InputAcceptedMeans(input: SetInput)
    ensures InputAccepted(input) <==>
      && TrimSpace(input.routeId) != "" && TrimSpace(input.expression) != ""
      && (TrimSpace(input.status) == "active" || TrimSpace(input.status) == "disabled") && input.expected >= 0
      && (forall i :: 0 <= i < |input.permissions| ==>
            var p := input.permissions[i];
            TrimSpace(p.key) != "" && TrimSpace(p.resource) != "" && TrimSpace(p.action) != "" &&
            exists scope :: TrimSpace(p.scope) == ScopeText(scope))
      && forall i, j :: 0 <= i < j < |input.permissions| ==>
           TrimSpace(input.permissions[i].key) != TrimSpace(input.permissions[j].key)
  {
    hide TrimSpace, ScopeText, ParseScope;
    var t := TrimmedPermissions(input.permissions);
    forall i | 0 <= i < |t|
      ensures ParseScope(t[i].scope).Some? <==>
        exists scope :: TrimSpace(input.permissions[i].scope) == ScopeText(scope)
    {
      forall scope
        ensures ParseScope(t[i].scope) == Some(scope) <==> t[i].scope == ScopeText(scope)
      {
        ScopeRoundTrip(t[i].scope, scope);
      }
      if ParseScope(t[i].scope).Some? {
        assert t[i].scope == ScopeText(ParseScope(t[i].scope).value);
      }
    }
  }

  lemma VersionMatchesMeans(t: Tables, input: SetInput)
    ensures VersionMatches(t, input) <==>
      && (forall id :: id in t.policies && t.policies[id].routeId == input.routeId && !t.policies[id].deleted ==>
            t.policies[id].version == input.expected)
      && (input.expected == 0 ||
          exists id :: id in t.policies && t.policies[id].routeId == input.routeId && !t.policies[id].deleted)
  {
    assert forall id :: LivePolicy(t, input.routeId, id) <==>
        id in t.policies && t.policies[id].routeId == input.routeId && !t.policies[id].deleted;
  }

  /**
   An accepted input is stored exactly if its route is there, the caller named the
   version of the route's live policy, or 0 where there is none, and, where the tables
   have the constraint, every scope was sent trimmed.
   */
  lemma AcceptedIsStoredIff(t: Tables, input: SetInput, checked: bool)
    requires InputAccepted(input)
    ensures var route := TrimSpace(input.routeId);
            SetAccepted(t, HandedOn(input), checked) <==>
              && route in t.routes && !t.routes[route].deleted
              && (forall id :: id in t.policies && t.policies[id].routeId == route && !t.policies[id].deleted ==>
                    t.policies[id].version == input.expected)
              && (input.expected == 0 ||
                  exists id :: id in t.policies && t.policies[id].routeId == route && !t.policies[id].deleted)
              && (checked ==> forall p :: p in input.permissions ==> TrimSpace(p.scope) == p.scope)
  {
    ScopesPassIff(input);
    assert StatusChecked(HandedOn(input).status);
    hide TrimSpace, ScopesRequested, InputAccepted, StatusChecked;
    VersionMatchesMeans(t, HandedOn(input));
    hide VersionMatches;
  }
}
