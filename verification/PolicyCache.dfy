/** The cached definitions of one process, kept up to date by polling the revision of the tables. */
module PolicyCache {
  import opened Wrappers
  import opened PolicyTables
  import opened PolicyStore

  /** The tables, and what one process has cached of them. */
  datatype Config = Config(tables: Tables, snapshot: map<string, Definition>, revision: int)

  /** What can go wrong while refreshing: loading or compiling, or reading the revision. */
  datatype Faults = Faults(reload: bool, revision: bool)

  datatype Event =
    | WroteHere(input: SetInput, id: string, now: int, faults: Faults)
    | WroteElsewhere(input: SetInput, id: string, now: int)
    | Message(faults: Faults)
    | Tick(checkFails: bool, faults: Faults)

  /** `RefreshSource`: replace the snapshot as a whole, then store the revision; an unknown scope fails the load. */
  ghost function Refreshed(c: Config, faults: Faults): Config
    requires TablesValid(c.tables)
  {
    if faults.reload || !Loadable(c.tables) then c
    else
      var reloaded := c.(snapshot := Definitions(c.tables));
      if faults.revision then reloaded else reloaded.(revision := Revision(c.tables))
  }

  /** A tick of `Run`: refresh when the revision differs from the stored one. */
  ghost function Ticked(c: Config, checkFails: bool, faults: Faults): Config
    requires TablesValid(c.tables)
  {
    if checkFails || Revision(c.tables) == c.revision then c else Refreshed(c, faults)
  }

  /** A commit whose clock reading is past every stored one. */
  ghost predicate Commits(before: Tables, after: Tables, input: SetInput, id: string, now: int) {
    && TablesValid(before) && TablesValid(after) && SetDone(before, after, input, id, now) &&
         DistinctKeys(input.permissions)
    && Revision(before) < now && 0 < now
  }

  ghost predicate Step(c: Config, e: Event, d: Config)
    requires TablesValid(c.tables)
  {
    match e
    case WroteHere(input, id, now, faults) =>
      Commits(c.tables, d.tables, input, id, now) && d == Refreshed(c.(tables := d.tables), faults)
    case WroteElsewhere(input, id, now) =>
      Commits(c.tables, d.tables, input, id, now) && d == c.(tables := d.tables)
    case Message(faults) => d == Refreshed(c, faults)
    case Tick(checkFails, faults) => d == Ticked(c, checkFails, faults)
  }

  /** A stored revision that is the current one stands for a current snapshot. */
  ghost predicate Agrees(c: Config) {
    && TablesValid(c.tables) && (forall x :: x in Stamps(c.tables) ==> x > 0)
    && (c.revision == 0 || c.revision <= Revision(c.tables))
    && (c.revision == Revision(c.tables) ==> c.snapshot == Definitions(c.tables))
  }

  lemma RevisionIsNotZero(t: Tables)
    requires forall x :: x in Stamps(t) ==> x > 0
    ensures Revision(t) != 0
  {
  }

  /** A process that has not refreshed yet agrees: its revision is 0, which no table has. */
  lemma StartAgrees(t: Tables)
    requires TablesValid(t) && forall x :: x in Stamps(t) ==> x > 0
    ensures Agrees(Config(t, map[], 0))
  {
    hide Revision, TablesValid, Stamps;
    RevisionIsNotZero(t);
  }

  lemma CommitStamps(before: Tables, after: Tables, input: SetInput, id: string, now: int)
    requires Commits(before, after, input, id, now) && forall x :: x in Stamps(before) ==> x > 0
    ensures Revision(after) == now && forall x :: x in Stamps(after) ==> x > 0
  {
    SetRevision(before, after, input, id, now);
    hide PolicyAfter, TablesValid;
    forall x | x in Stamps(after)
      ensures x > 0
    {
      if r :| r in after.refs && after.refs[r].updatedAt == x {
        if r in before.refs {
          RowStamp(before.refs[r], Requested(input.permissions), now);
          assert before.refs[r].updatedAt in Stamps(before);
        } else {
          NewRowStamp(id, Requested(input.permissions)[after.refs[r].key], now);
        }
      } else {
        var p :| p in after.policies && after.policies[p].updatedAt == x;
        if p != id {
          assert before.policies[p].updatedAt in Stamps(before);
        } else {
          PolicyStamp(before, input, id, now);
        }
      }
    }
  }

  lemma PolicyStamp(t: Tables, input: SetInput, id: string, now: int)
    ensures PolicyAfter(t, input, id, now).updatedAt == now
  {
  }

  lemma RefreshAgrees(c: Config, faults: Faults)
    requires Agrees(c)
    ensures Agrees(Refreshed(c, faults)) && Refreshed(c, faults).tables == c.tables
  {
    hide TablesValid, Definitions, Revision, Stamps, Loadable;
  }

  /** Every step keeps the agreement, failed reloads and failed revision reads included. */
  lemma StepKeepsAgreement(c: Config, e: Event, d: Config)
    requires Agrees(c) && Step(c, e, d)
    ensures Agrees(d)
  {
    hide Definitions, Revision, Stamps, Commits, TablesValid, Loadable;
    match e
    case WroteHere(input, id, now, faults) =>
      CommitKeepsAgreement(c, c.(tables := d.tables), input, id, now);
      RefreshAgrees(c.(tables := d.tables), faults);
    case WroteElsewhere(input, id, now) =>
      CommitKeepsAgreement(c, d, input, id, now);
    case Message(faults) =>
      RefreshAgrees(c, faults);
    case Tick(_, faults) =>
      RefreshAgrees(c, faults);
  }

  lemma CommitKeepsAgreement(c: Config, d: Config, input: SetInput, id: string, now: int)
    requires Agrees(c) && Commits(c.tables, d.tables, input, id, now) && d == c.(tables := d.tables)
    ensures Agrees(d)
  {
    hide Definitions, Revision, Stamps, SetDone;
    CommitStamps(c.tables, d.tables, input, id, now);
    RevisionIsNotZero(d.tables);
  }

  /** A run: consecutive configurations, one event between each two. */
  ghost predicate IsRun(states: seq<Config>, events: seq<Event>) {
    && |states| == |events| + 1
    && forall i :: 0 <= i < |events| ==> TablesValid(states[i].tables) && Step(states[i], events[i], states[i + 1])
  }

  /** In every run the cache and the tables agree at every point. */
  lemma {:induction false} RunsAgree(states: seq<Config>, events: seq<Event>, n: nat)
    requires IsRun(states, events) && Agrees(states[0]) && n < |states|
    ensures Agrees(states[n])
    decreases n
  {
    hide Agrees, Step, TablesValid;
    if n > 0 {
      RunsAgree(states, events, n - 1);
      StepKeepsAgreement(states[n - 1], events[n - 1], states[n]);
    }
  }

  /** Each tick of a run without faults, on tables that load, leaves the snapshot equal to the active definitions. */
  lemma TickMakesCurrent(states: seq<Config>, events: seq<Event>, n: nat)
    requires IsRun(states, events) && Agrees(states[0]) && n < |events|
    requires events[n] == Tick(false, Faults(false, false)) && Loadable(states[n].tables)
    ensures TablesValid(states[n + 1].tables) && states[n + 1].snapshot == Definitions(states[n + 1].tables)
  {
    hide TablesValid, Definitions, Revision, Stamps, Loadable;
    RunsAgree(states, events, n);
    assert Step(states[n], events[n], states[n + 1]);
  }

  /** The snapshot and the revision are those of the tables. */
  ghost predicate Fresh(c: Config) {
    TablesValid(c.tables) && c.revision == Revision(c.tables) && c.snapshot == Definitions(c.tables)
  }

  /**
   A write in this process, and a message from another one, leave it fresh if nothing
   fails; a write elsewhere leaves it stale. A failed load keeps the old snapshot and
   revision, and a failed revision read the old revision.
   */
  lemma RefreshingEvents(c: Config, e: Event, d: Config)
    requires Agrees(c) && Step(c, e, d)
    ensures (e.WroteHere? || e.Message?) && e.faults == Faults(false, false) && Loadable(d.tables) ==> Fresh(d)
    ensures e.WroteElsewhere? ==> !Fresh(d) && d.snapshot == c.snapshot && d.revision == c.revision
    ensures (e.WroteHere? || e.Message?) && (e.faults.reload || !Loadable(d.tables)) ==>
              d.snapshot == c.snapshot && d.revision == c.revision
    ensures (e.WroteHere? || e.Message?) && !e.faults.reload && e.faults.revision && Loadable(d.tables) ==>
              d.snapshot == Definitions(d.tables) && d.revision == c.revision
    ensures !e.WroteHere? && !e.WroteElsewhere? ==> d.tables == c.tables
  {
    if e.WroteElsewhere? {
      CommitStamps(c.tables, d.tables, e.input, e.id, e.now);
      hide SetDone;
      RevisionIsNotZero(d.tables);
    }
    hide TablesValid, Definitions, Revision, Loadable, Stamps, SetDone;
  }

  // ----- a commit inside a refresh

  /** The refresh reads the definitions from one state of the tables and the revision from a later one. */
  ghost function SplitRefresh(c: Config, later: Tables): Config
    requires TablesValid(c.tables)
  {
    Config(later, Definitions(c.tables), Revision(later))
  }

  /** The commit concerns a policy that is active or becomes so. */
  predicate TouchesActive(before: Tables, input: SetInput, id: string) {
    ActivePolicy(before, id) || input.status == "active"
  }

  /** The agreement survives a commit between reload and revision read exactly when it touches no active policy. */
  lemma SplitRefreshAgreesIff(c: Config, later: Tables, input: SetInput, id: string, now: int)
    requires Agrees(c) && Commits(c.tables, later, input, id, now)
    ensures Agrees(SplitRefresh(c, later)) <==> !TouchesActive(c.tables, input, id)
  {
    hide TablesValid, Definitions, Revision, Stamps, SetDone;
    CommitStamps(c.tables, later, input, id, now);
    SetSparesDefinitionsIff(c.tables, later, input, id, now);
  }

  // ----- a commit that is not noticed

  /**
   A commit with any clock reading, made elsewhere: the next tick without faults misses
   it exactly if it concerns an active policy and does not move the revision, so if the
   latest stamp was the same, or was later and is on a row that the commit does not write.
   */
  lemma CommitIsMissedIff(c: Config, after: Tables, input: SetInput, id: string, now: int)
    requires Fresh(c) && TablesValid(after) && Loadable(after) && SetDone(c.tables, after, input, id, now)
    requires DistinctKeys(input.permissions)
    ensures Ticked(c.(tables := after), false, Faults(false, false)).snapshot != Definitions(after) <==>
      && TouchesActive(c.tables, input, id)
      && (now == c.revision ||
           (now < c.revision && c.revision in KeptStamps(c.tables, id, Requested(input.permissions))))
  {
    hide TablesValid, Definitions, Revision, SetDone, KeptStamps, Loadable, DistinctKeys;
    SetRevision(c.tables, after, input, id, now);
    SetSparesDefinitionsIff(c.tables, after, input, id, now);
  }

  // ----- several commits inside a refresh

  datatype Written = Written(input: SetInput, id: string, now: int)

  /** Consecutive tables, one commit between each two. */
  ghost predicate AreCommits(states: seq<Tables>, written: seq<Written>) {
    && |states| == |written| + 1
    && forall i :: 0 <= i < |written| ==>
         Commits(states[i], states[i + 1], written[i].input, written[i].id, written[i].now)
  }

  ghost predicate Wrote(written: seq<Written>, id: string) {
    exists i :: 0 <= i < |written| && written[i].id == id
  }

  /** What commits leave of one policy: its version rises if it is written, and otherwise its definition stays. */
  ghost predicate OnlyWritten(first: Tables, last: Tables, written: seq<Written>, id: string)
    requires TablesValid(first) && TablesValid(last)
  {
    if Wrote(written, id) then
      id in last.policies && (id in first.policies ==> last.policies[id].version > first.policies[id].version)
    else
      && (id in Definitions(last) <==> id in Definitions(first))
      && (id in Definitions(last) ==> Definitions(last)[id] == Definitions(first)[id])
      && (id in first.policies ==> id in last.policies && last.policies[id] == first.policies[id])
  }

  lemma OnlyOneWritten(first: Tables, last: Tables, w: Written, id: string)
    requires Commits(first, last, w.input, w.id, w.now)
    ensures OnlyWritten(first, last, [w], id)
  {
    hide RefsSet, Definitions, Revision, OneRowPerKey, OnePolicyPerRoute;
    SetThenLoad(first, last, w.input, w.id, w.now);
    assert Wrote([w], id) <==> id == w.id by {
      assert [w][0] == w;
    }
  }

  lemma WroteNext(written: seq<Written>, w: Written, id: string)
    ensures Wrote(written + [w], id) <==> Wrote(written, id) || id == w.id
  {
    var all := written + [w];
    assert all[|written|] == w && forall i :: 0 <= i < |written| ==> all[i] == written[i];
  }

  lemma {:induction false} CommitsWriteOnly(states: seq<Tables>, written: seq<Written>, id: string)
    requires AreCommits(states, written) && TablesValid(states[0])
    ensures TablesValid(states[|written|]) && OnlyWritten(states[0], states[|written|], written, id)
    decreases |written|
  {
    hide TablesValid, Definitions, SetDone, Revision, DistinctKeys;
    if written != [] {
      var n := |written| - 1;
      CommitsWriteOnly(states[..n + 1], written[..n], id);
      OnlyOneWritten(states[n], states[n + 1], written[n], id);
      WroteNext([], written[n], id);
      WroteNext(written[..n], written[n], id);
      assert written == written[..n] + [written[n]] && [] + [written[n]] == [written[n]];
    }
  }

  /** The revision and the stamps after commits. */
  lemma {:induction false} CommitsRaise(states: seq<Tables>, written: seq<Written>)
    requires AreCommits(states, written) && forall x :: x in Stamps(states[0]) ==> x > 0
    ensures forall x :: x in Stamps(states[|written|]) ==> x > 0
    decreases |written|
  {
    hide TablesValid, SetDone, Revision, DistinctKeys, Stamps;
    if written != [] {
      var n := |written| - 1;
      CommitsRaise(states[..n + 1], written[..n]);
      CommitStamps(states[n], states[n + 1], written[n].input, written[n].id, written[n].now);
    }
  }

  lemma ActiveVersions(t: Tables, id: string)
    requires TablesValid(t)
    ensures id in Definitions(t) <==> ActivePolicy(t, id)
    ensures id in Definitions(t) ==> id in t.policies && Definitions(t)[id].version == t.policies[id].version
  {
    hide Permissions, OneRowPerKey, OnePolicyPerRoute;
  }

  /** One policy has the same definition, or none, before and after commits. */
  ghost predicate SameDefinition(first: Tables, last: Tables, id: string)
    requires TablesValid(first) && TablesValid(last)
  {
    && (id in Definitions(last) <==> id in Definitions(first))
    && (id in Definitions(last) ==> Definitions(last)[id] == Definitions(first)[id])
  }

  lemma SameDefinitionIff(states: seq<Tables>, written: seq<Written>, id: string)
    requires AreCommits(states, written) && TablesValid(states[0]) && TablesValid(states[|written|])
    ensures SameDefinition(states[0], states[|written|], id) <==>
      (Wrote(written, id) ==> !ActivePolicy(states[0], id) && !ActivePolicy(states[|written|], id))
  {
    var first, last := states[0], states[|written|];
    hide TablesValid, Definitions, AreCommits, ActivePolicy, Wrote;
    CommitsWriteOnly(states, written, id);
    ActiveVersions(first, id);
    ActiveVersions(last, id);
  }

  /** Commits leave the definitions as they were exactly if no policy that they write is active before or after them. */
  lemma CommitsSpareDefinitionsIff(states: seq<Tables>, written: seq<Written>)
    requires AreCommits(states, written) && TablesValid(states[0]) && TablesValid(states[|written|])
    ensures Definitions(states[|written|]) == Definitions(states[0]) <==>
      forall id :: Wrote(written, id) ==> !ActivePolicy(states[0], id) && !ActivePolicy(states[|written|], id)
  {
    var first, last := states[0], states[|written|];
    hide TablesValid, Definitions, AreCommits, ActivePolicy, Wrote;
    forall id
      ensures SameDefinition(first, last, id) <==>
        (Wrote(written, id) ==> !ActivePolicy(first, id) && !ActivePolicy(last, id))
    {
      SameDefinitionIff(states, written, id);
    }
    if forall id :: SameDefinition(first, last, id) {
      assert forall id :: id in Definitions(last) <==> id in Definitions(first);
      assert Definitions(last) == Definitions(first);
    }
  }

  /**
   However many commits fall between reload and revision read, the agreement survives
   exactly if no policy that they write is active at either end.
   */
  lemma LongSplitAgreesIff(c: Config, states: seq<Tables>, written: seq<Written>)
    requires Agrees(c) && AreCommits(states, written) && states[0] == c.tables && TablesValid(states[|written|])
    ensures Agrees(SplitRefresh(c, states[|written|])) <==>
      forall id :: Wrote(written, id) ==> !ActivePolicy(c.tables, id) && !ActivePolicy(states[|written|], id)
  {
    hide TablesValid, Definitions, Revision, Stamps, AreCommits, Wrote, ActivePolicy;
    CommitsRaise(states, written);
    CommitsSpareDefinitionsIff(states, written);
  }

  ghost function Ticks(c: Config, ticks: seq<(bool, Faults)>): Config
    requires TablesValid(c.tables)
    decreases |ticks|
  {
    if ticks == [] then c
    else
      var next := Ticked(c, ticks[0].0, ticks[0].1);
      if next.tables == c.tables then Ticks(next, ticks[1..]) else next
  }

  /** While the revision is the stored one, ticks change nothing. */
  lemma {:induction false} CurrentRevisionIsLeft(c: Config, ticks: seq<(bool, Faults)>)
    requires TablesValid(c.tables) && c.revision == Revision(c.tables)
    ensures Ticks(c, ticks) == c
    decreases |ticks|
  {
    hide TablesValid, Revision, Refreshed;
    if ticks != [] {
      CurrentRevisionIsLeft(c, ticks[1..]);
    }
  }

  /**
   After a commit that touches an active policy inside a refresh, no number of ticks
   repairs the snapshot, as long as nothing else is committed or announced.
   */
  lemma SplitRefreshStaysStale(c: Config, later: Tables, input: SetInput, id: string, now: int,
                               ticks: seq<(bool, Faults)>)
    requires Agrees(c) && Commits(c.tables, later, input, id, now) && TouchesActive(c.tables, input, id)
    ensures Ticks(SplitRefresh(c, later), ticks).snapshot != Definitions(later)
  {
    hide TablesValid, Definitions, Revision, Stamps, SetDone;
    SetSparesDefinitionsIff(c.tables, later, input, id, now);
    CurrentRevisionIsLeft(SplitRefresh(c, later), ticks);
  }

  /** One route and no policy yet. */
  function NoPolicies(): Tables {
    Tables(map["r" := Route("http", "post", "/p", "", "", "s", "1", "active", false)], map[], map[])
  }

  function FirstPolicy(): SetInput { SetInput("r", "authenticated", "", "active", 0, []) }

  function OnePolicy(): Tables {
    NoPolicies().(policies := map["p" := Policy("r", "authenticated", "", "active", 1, 1, false)])
  }

  /** Such a commit exists: the first policy of a route, set while a refresh is under way. */
  lemma FirstPolicyIsMissed(ticks: seq<(bool, Faults)>)
    ensures var c := Config(NoPolicies(), map[], 0);
            && Agrees(c) && Commits(NoPolicies(), OnePolicy(), FirstPolicy(), "p", 1)
            && !Agrees(SplitRefresh(c, OnePolicy()))
            && Ticks(SplitRefresh(c, OnePolicy()), ticks).snapshot != Definitions(OnePolicy())
  {
    var c := Config(NoPolicies(), map[], 0);
    FirstPolicyCommits();
    StartAgrees(NoPolicies());
    hide Commits, Agrees, TablesValid, Definitions, NoPolicies, OnePolicy;
    SplitRefreshAgreesIff(c, OnePolicy(), FirstPolicy(), "p", 1);
    SplitRefreshStaysStale(c, OnePolicy(), FirstPolicy(), "p", 1, ticks);
  }

  lemma FirstPolicyCommits()
    ensures TablesValid(NoPolicies()) && Stamps(NoPolicies()) == {}
    ensures Commits(NoPolicies(), OnePolicy(), FirstPolicy(), "p", 1)
  {
    assert Requested([]) == map[];
    assert RefsSet(map[], map[], "p", map[], 1);
  }

  // ----- the process

  class Manager {
    const repository: Repository
    var snapshot: map<string, Definition>
    var revision: int

    constructor (r: Repository)
      ensures repository == r && snapshot == map[] && revision == 0
    {
      repository, snapshot, revision := r, map[], 0;
    }

    ghost function State(): Config
      reads this, repository
    {
      Config(repository.tables, snapshot, revision)
    }

    method RefreshSource(faults: Faults) returns (failed: bool)
      requires TablesValid(repository.tables)
      modifies this
      ensures State() == old(Refreshed(State(), faults))
      ensures failed <==> faults.reload || !Loadable(repository.tables) || faults.revision
    {
      hide TablesValid, Definitions, Revision, Loadable;
      if faults.reload {
        return true;
      }
      var loaded := repository.Load();
      if loaded.Err? {
        return true;
      }
      snapshot := loaded.value;
      if faults.revision {
        return true;
      }
      revision := repository.ReadRevision();
      return false;
    }

    /** One case of the loop of `Run`. */
    method OnTick(checkFails: bool, faults: Faults)
      requires TablesValid(repository.tables)
      modifies this
      ensures State() == old(Ticked(State(), checkFails, faults))
    {
      hide TablesValid, Definitions, Revision, Loadable;
      if checkFails {
        return;
      }
      var current := repository.ReadRevision();
      if current != revision {
        var _ := RefreshSource(faults);
      }
    }

    /** `Service.Set` after its checks: write, then refresh if the write succeeded. */
    method Write(input: SetInput, newId: string, ids: seq<string>, now: int, faults: Faults)
      returns (id: string, failure: Option<Failure>)
      requires TablesValid(repository.tables) && DistinctKeys(input.permissions)
      requires FreshIds(repository.tables, newId, ids) && |ids| == |input.permissions|
      requires Revision(repository.tables) < now && 0 < now
      modifies this, repository
      ensures TablesValid(repository.tables)
      ensures failure.Some? ==> State() == old(State())
      ensures failure.None? ==> Step(old(State()), WroteHere(input, id, now, faults), State())
    {
      hide DistinctKeys, FreshIds, SetDone, SetAccepted, VersionMatches, Revision, Loadable;
      id, failure := repository.Set(input, newId, ids, now);
      if failure.None? {
        var _ := RefreshSource(faults);
      }
    }
  }
}
