/** The reconciler's counters, and what it means that they count its calls. */
module Tallies {
  import opened BootstrapServer

  datatype Tally = Tally(
    applicationsCreated: int,
    applicationsUpdated: int,
    menusCreated: int,
    menusUpdated: int,
    menusPublished: int,
    grantsApplied: int
  )

  const ZERO := Tally(0, 0, 0, 0, 0, 0)

  function Plus(a: Tally, b: Tally): Tally {
    Tally(a.applicationsCreated + b.applicationsCreated, a.applicationsUpdated + b.applicationsUpdated,
          a.menusCreated + b.menusCreated, a.menusUpdated + b.menusUpdated,
          a.menusPublished + b.menusPublished, a.grantsApplied + b.grantsApplied)
  }

  function One(call: Call): Tally {
    match call
    case ApplicationCreated(_) => ZERO.(applicationsCreated := 1)
    case ApplicationUpdated(_) => ZERO.(applicationsUpdated := 1)
    case MenuCreated(_, _) => ZERO.(menusCreated := 1)
    case MenuUpdated(_, _) => ZERO.(menusUpdated := 1)
    case MenusPublished(_) => ZERO.(menusPublished := 1)
    case GrantApplied(_, _) => ZERO.(grantsApplied := 1)
  }

  /** How many calls of each kind a trace holds. */
  function TallyOf(trace: seq<Event>): Tally {
    if trace == [] then ZERO
    else Plus(TallyOf(trace[..|trace| - 1]), One(trace[|trace| - 1].call))
  }

  /** From one moment to the other, `t` counts the calls, and no call means no change. */
  ghost predicate Counted(from: Moment, to: Moment, t: Tally) {
    && TallyOf(to.trace) == Plus(TallyOf(from.trace), t)
    && from.trace <= to.trace
    && NonNegative(t)
    && (t == ZERO ==> to == from)
  }

  predicate NonNegative(t: Tally) {
    t.applicationsCreated >= 0 && t.applicationsUpdated >= 0 && t.menusCreated >= 0 && t.menusUpdated >= 0 &&
    t.menusPublished >= 0 && t.grantsApplied >= 0
  }

  lemma CountedOne(m: Moment, e: Event)
    ensures Counted(m, After(m, e), One(e.call))
  {
    hide One, NonNegative;
    assert (m.trace + [e])[..|m.trace|] == m.trace;
    OneCounts(e.call);
  }

  lemma CountedNone(m: Moment)
    ensures Counted(m, m, ZERO)
  {
    hide TallyOf;
    PlusZero(TallyOf(m.trace));
  }

  lemma PlusZero(t: Tally)
    ensures Plus(t, ZERO) == t && Plus(ZERO, t) == t
  {
    match t
    case Tally(_, _, _, _, _, _) =>
  }

  lemma OneCounts(call: Call)
    ensures NonNegative(One(call)) && One(call) != ZERO
    ensures call.ApplicationCreated? || call.ApplicationUpdated? || call.GrantApplied? ==>
      One(call).menusUpdated == One(call).menusPublished == 0
  {
    match call
    case ApplicationCreated(_) =>
    case ApplicationUpdated(_) =>
    case MenuCreated(_, _) =>
    case MenuUpdated(_, _) =>
    case MenusPublished(_) =>
    case GrantApplied(_, _) =>
  }

  lemma CountedPlus(m0: Moment, m1: Moment, m2: Moment, a: Tally, b: Tally)
    requires Counted(m0, m1, a) && Counted(m1, m2, b)
    ensures Counted(m0, m2, Plus(a, b))
    ensures Plus(a, b) == ZERO <==> a == ZERO && b == ZERO
    ensures a.menusUpdated >= 0 && b.menusUpdated >= 0
  {
  }

  /** Only the two menu counters are set. */
  predicate MenusOnly(t: Tally) {
    t.applicationsCreated == t.applicationsUpdated == t.menusPublished == t.grantsApplied == 0
  }

  /** One more call. */
  lemma TallyNext(from: Moment, to: Moment, result: Tally, e: Event)
    requires Counted(from, to, result)
    ensures Counted(from, After(to, e), Plus(result, One(e.call)))
    ensures Plus(result, One(e.call)) != ZERO
    ensures e.call.MenuUpdated? || e.call.MenuCreated? ==>
              && (MenusOnly(result) ==> MenusOnly(Plus(result, One(e.call))))
              && (Plus(result, One(e.call)).menusUpdated == 0 <==> result.menusUpdated == 0 && e.call.MenuCreated?)
  {
    hide TallyOf;
    CountedOne(to, e);
    OneCounts(e.call);
    CountedPlus(from, to, After(to, e), result, One(e.call));
  }

  lemma CountedZero(from: Moment, to: Moment)
    requires Counted(from, to, ZERO)
    ensures to == from
  {
  }
}
