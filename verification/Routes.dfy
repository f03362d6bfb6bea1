/**
 Front-end route normalisation: route segments, menu routes and the route space
 ("scope") that belongs to one application code.
 */
module Routes {
  import opened Text

  predicate IsSeparator(c: char) { !IsAlnum(c) }

  /** `regexp.ReplaceAllString` of `[^a-z0-9]+` by a hyphen. */
  function Dashed(s: string): string
    decreases |s|
  {
    if s == "" then ""
    else if IsAlnum(s[0]) then [s[0]] + Dashed(s[1..])
    else "-" + Dashed(TrimLeft(s[1..], IsSeparator))
  }

  function NormalizedRouteSegment(value: string): string {
    var normalized := Trim(Dashed(ToLower(TrimSpace(value))), IsDash);
    if normalized == "" then "menu" else normalized
  }

  function Scope(applicationCode: string): string {
    "/apps/" + NormalizedRouteSegment(applicationCode)
  }

  function NormalizedMenuRoute(scope: string, route: string, code: string): string {
    var configured := TrimSpace(route);
    if configured == "" then scope + "/" + NormalizedRouteSegment(code)
    else if configured == scope || HasPrefix(configured, scope + "/") then configured
    else scope + "/" + TrimLeft(configured, IsSlash)
  }

  /** A path belongs to the route space of `scope`. */
  predicate InScope(scope: string, path: string) {
    path == scope || HasPrefix(path, scope + "/")
  }

  // ----- what a segment is: the maximal alphanumeric runs joined by hyphens

  function RunLength(s: string): (k: nat)
    ensures k <= |s|
    ensures forall i :: 0 <= i < k ==> IsAlnum(s[i])
    ensures k < |s| ==> !IsAlnum(s[k])
  {
    if s != "" && IsAlnum(s[0]) then 1 + RunLength(s[1..]) else 0
  }

  /** The maximal runs of characters in `[a-z0-9]`, in order. */
  function Runs(s: string): seq<string> {
    if s == "" then []
    else if !IsAlnum(s[0]) then Runs(s[1..])
    else [s[..RunLength(s)]] + Runs(s[RunLength(s)..])
  }

  predicate IsRun(s: string) {
    s != "" && forall i :: 0 <= i < |s| ==> IsAlnum(s[i])
  }

  predicate AllRuns(runs: seq<string>) {
    forall i :: 0 <= i < |runs| ==> IsRun(runs[i])
  }

  lemma {:induction false} RunsAreRuns(s: string)
    ensures AllRuns(Runs(s))
  {
    if s != "" {
      RunsAreRuns(if IsAlnum(s[0]) then s[RunLength(s)..] else s[1..]);
    }
  }

  lemma {:induction false} RunsSkip(s: string)
    ensures Runs(TrimLeft(s, IsSeparator)) == Runs(s)
  {
    if s != "" && !IsAlnum(s[0]) {
      RunsSkip(s[1..]);
    }
  }

  lemma {:induction false} RunsSkipEnd(s: string, c: char)
    requires !IsAlnum(c)
    ensures Runs(s + [c]) == Runs(s)
  {
    if s == "" {
      assert (s + [c])[1..] == "";
    } else if !IsAlnum(s[0]) {
      assert (s + [c])[1..] == s[1..] + [c];
      RunsSkipEnd(s[1..], c);
    } else {
      var k := RunLength(s);
      assert RunLength(s + [c]) == k by { RunLengthAppend(s, c); }
      assert (s + [c])[..k] == s[..k] && (s + [c])[k..] == s[k..] + [c];
      RunsSkipEnd(s[k..], c);
    }
  }

  lemma {:induction false} RunLengthAppend(s: string, c: char)
    requires !IsAlnum(c)
    ensures RunLength(s + [c]) == RunLength(s)
  {
    if s != "" {
      assert (s + [c])[1..] == s[1..] + [c];
      RunLengthAppend(s[1..], c);
    }
  }

  /** Trimming space before lower-casing does not change the runs. */
  lemma {:induction false} RunsTrimmed(value: string)
    ensures Runs(ToLower(TrimSpace(value))) == Runs(ToLower(value))
  {
    RunsTrimmedLeft(value);
    RunsTrimmedRight(TrimLeft(value, IsSpace));
  }

  lemma {:induction false} RunsTrimmedLeft(s: string)
    ensures Runs(ToLower(TrimLeft(s, IsSpace))) == Runs(ToLower(s))
  {
    if s != "" && IsSpace(s[0]) {
      assert ToLower(s)[1..] == ToLower(s[1..]);
      RunsTrimmedLeft(s[1..]);
    }
  }

  lemma {:induction false} RunsTrimmedRight(s: string)
    ensures Runs(ToLower(TrimRight(s, IsSpace))) == Runs(ToLower(s))
  {
    if s != "" && IsSpace(s[|s| - 1]) {
      var front := s[..|s| - 1];
      assert ToLower(s) == ToLower(front) + [LowerChar(s[|s| - 1])];
      RunsSkipEnd(ToLower(front), LowerChar(s[|s| - 1]));
      RunsTrimmedRight(front);
    }
  }

  lemma CutAfterFirst(s: string, k: nat)
    requires k < |s|
    ensures s[..k + 1] == [s[0]] + s[1..][..k] && s[k + 1..] == s[1..][k..]
  {
  }

  lemma {:induction false} DashedRun(s: string)
    ensures var k := RunLength(s); Dashed(s) == s[..k] + Dashed(s[k..])
  {
    if s != "" && IsAlnum(s[0]) {
      var t := s[1..];
      var k := RunLength(t);
      DashedRun(t);
      assert Dashed(s) == [s[0]] + Dashed(t) && RunLength(s) == k + 1;
      hide Dashed, RunLength, IsAlnum;
      Associate([s[0]], t[..k], Dashed(t[k..]));
      CutAfterFirst(s, k);
    } else {
      assert RunLength(s) == 0;
      hide Dashed, RunLength, IsAlnum;
      assert s[0..] == s && s[..0] == "";
    }
  }

  lemma {:induction false} TrimRightAppend(a: string, b: string, cut: char -> bool)
    ensures TrimRight(b, cut) != "" ==> TrimRight(a + b, cut) == a + TrimRight(b, cut)
    ensures TrimRight(b, cut) == "" ==> TrimRight(a + b, cut) == TrimRight(a, cut)
  {
    if b == "" {
      assert a + b == a;
    } else if cut(b[|b| - 1]) {
      assert (a + b)[..|a + b| - 1] == a + b[..|b| - 1];
      TrimRightAppend(a, b[..|b| - 1], cut);
    }
  }

  lemma TrimAfterRun(run: string, rest: string)
    requires IsRun(run)
    ensures TrimRight(run, IsDash) == run
    ensures var t := TrimRight(rest, IsDash);
            TrimRight(run + "-" + rest, IsDash) == if t == "" then run else run + "-" + t
  {
    TrimRightAppend(run + "-", rest, IsDash);
    TrimRightAppend(run, "-", IsDash);
    assert "-"[..0] == "";
  }

  lemma RunsHead(s: string)
    requires s != "" && IsAlnum(s[0])
    ensures var k := RunLength(s); IsRun(s[..k]) && Runs(s) == [s[..k]] + Runs(TrimLeft(s[k..], IsSeparator))
  {
    RunsSkip(s[RunLength(s)..]);
  }

  lemma DashedAtSeparator(s: string)
    requires s != "" && !IsAlnum(s[0])
    ensures Dashed(s) == "-" + Dashed(TrimLeft(s, IsSeparator))
  {
  }

  lemma DashedHead(s: string)
    requires s != "" && IsAlnum(s[0])
    ensures var k := RunLength(s);
            Dashed(s) == if k == |s| then s[..k] else s[..k] + "-" + Dashed(TrimLeft(s[k..], IsSeparator))
  {
    var k := RunLength(s);
    assert Dashed("") == "";
    hide Dashed, RunLength, TrimLeft, IsAlnum;
    DashedRun(s);
    if k == |s| {
      assert s[k..] == "" && s[..k] + "" == s[..k];
    } else {
      DashedAtSeparator(s[k..]);
      Associate(s[..k], "-", Dashed(TrimLeft(s[k..], IsSeparator)));
    }
  }

  lemma Associate(a: string, b: string, c: string)
    ensures a + (b + c) == a + b + c
  {
  }

  /** On input that does not begin with a separator only the end needs trimming. */
  lemma {:induction false} TrimDashedAligned(s: string)
    requires s == "" || IsAlnum(s[0])
    ensures TrimRight(Dashed(s), IsDash) == JoinDash(Runs(s))
    decreases |s|
  {
    if s == "" {
      assert Dashed(s) == "";
    } else {
      var rest := TrimLeft(s[RunLength(s)..], IsSeparator);
      RunsHead(s);
      TrimDashedHead(s);
      TrimDashedAligned(rest);
      JoinRunsHead(s[..RunLength(s)], rest);
    }
  }

  lemma TrimDashedHead(s: string)
    requires s != "" && IsAlnum(s[0])
    ensures var k := RunLength(s);
            var t := TrimRight(Dashed(TrimLeft(s[k..], IsSeparator)), IsDash);
            TrimRight(Dashed(s), IsDash) == if t == "" then s[..k] else s[..k] + "-" + t
  {
    var k := RunLength(s);
    var run, tail := s[..k], Dashed(TrimLeft(s[k..], IsSeparator));
    assert IsRun(run);
    DashedHead(s);
    TrimAfterRun(run, tail);
    if k == |s| {
      assert s[k..] == "" && tail == "";
    }
  }

  lemma JoinRunsHead(run: string, rest: string)
    requires rest == "" || IsAlnum(rest[0])
    ensures rest == "" <==> JoinDash(Runs(rest)) == ""
    ensures JoinDash([run] + Runs(rest)) == if rest == "" then run else run + "-" + JoinDash(Runs(rest))
  {
    if rest != "" {
      RunsHead(rest);
      RunsAreRuns(rest);
      JoinNonEmpty(Runs(rest));
    }
  }

  /** The shape of every segment: alphanumeric at both ends, and only those and hyphens between. */
  predicate IsSegment(n: string) {
    n != "" && IsAlnum(n[0]) && IsAlnum(n[|n| - 1]) && forall i :: 0 <= i < |n| ==> IsAlnum(n[i]) || n[i] == '-'
  }

  lemma {:induction false} JoinNonEmpty(runs: seq<string>)
    requires runs != [] && AllRuns(runs)
    ensures IsSegment(JoinDash(runs))
  {
    if |runs| > 1 {
      var head, tail := runs[0], JoinDash(runs[1..]);
      JoinNonEmpty(runs[1..]);
      var n := head + "-" + tail;
      assert IsRun(head) && n[|n| - 1] == tail[|tail| - 1];
      assert forall i :: 0 <= i < |n| ==> n[i] == if i < |head| then head[i] else if i == |head| then '-'
          else tail[i - |head| - 1];
    }
  }

  /** The runs of a value, or the fallback segment when it has none. */
  function SegmentRuns(value: string): seq<string> {
    var runs := Runs(ToLower(value));
    if runs == [] then ["menu"] else runs
  }

  /**
   A route segment is the maximal alphanumeric runs of the lowered input joined
   by hyphens, and "menu" when there is none.
   */
  lemma SegmentJoinsRuns(value: string)
    ensures NormalizedRouteSegment(value) == JoinDash(SegmentRuns(value))
    ensures AllRuns(SegmentRuns(value))
  {
    RunsTrimmed(value);
    RunsAreRuns(ToLower(value));
    TrimDashed(ToLower(TrimSpace(value)));
    if Runs(ToLower(value)) != [] {
      JoinNonEmpty(Runs(ToLower(value)));
    }
  }

  lemma TrimLeftDashed(s: string)
    ensures TrimLeft(Dashed(s), IsDash) == Dashed(TrimLeft(s, IsSeparator))
  {
    var rest := TrimLeft(s, IsSeparator);
    assert rest != "" ==> Dashed(rest)[0] == rest[0];
    if rest != s {
      assert Dashed(s) == "-" + Dashed(rest);
      assert Dashed(s)[1..] == Dashed(rest);
    }
  }

  lemma TrimDashed(s: string)
    ensures Trim(Dashed(s), IsDash) == JoinDash(Runs(s))
  {
    hide Dashed, Runs, JoinDash, TrimLeft, TrimRight;
    TrimLeftDashed(s);
    RunsSkip(s);
    TrimDashedAligned(TrimLeft(s, IsSeparator));
  }

  lemma {:induction false} RunsOfJoin(runs: seq<string>)
    requires AllRuns(runs)
    ensures Runs(JoinDash(runs)) == runs
  {
    if runs != [] {
      var head, joined := runs[0], JoinDash(runs);
      assert IsRun(head);
      if |runs| == 1 {
        assert RunLength(joined) == |head|;
        assert joined[|head|..] == "";
        assert joined[..|head|] == joined;
      } else {
        var tail := JoinDash(runs[1..]);
        RunsOfJoin(runs[1..]);
        assert joined == head + "-" + tail;
        RunThenHyphen(head, tail);
        assert runs == [head] + runs[1..];
      }
    }
  }

  lemma RunThenHyphen(head: string, tail: string)
    requires IsRun(head)
    ensures Runs(head + "-" + tail) == [head] + Runs(tail)
  {
    var joined := head + "-" + tail;
    assert joined[0] == head[0] && joined[|head|] == '-';
    assert forall i :: 0 <= i < |head| ==> joined[i] == head[i];
    assert RunLength(joined) == |head|;
    var rest := joined[|head|..];
    assert joined[..|head|] == head && rest[0] == '-' && rest[1..] == tail;
    assert Runs(rest) == Runs(tail);
  }

  /** Every segment begins and ends with an alphanumeric and holds only those and hyphens. */
  lemma SegmentShape(value: string)
    ensures IsSegment(NormalizedRouteSegment(value))
  {
    SegmentJoinsRuns(value);
    JoinNonEmpty(SegmentRuns(value));
  }

  lemma SegmentIdempotent(value: string)
    ensures NormalizedRouteSegment(NormalizedRouteSegment(value)) == NormalizedRouteSegment(value)
  {
    var n := NormalizedRouteSegment(value);
    SegmentShape(value);
    assert ToLower(n) == n;
    hide NormalizedRouteSegment, Runs, JoinDash, ToLower, IsSegment;
    SegmentJoinsRuns(value);
    RunsOfJoin(SegmentRuns(value));
    SegmentJoinsRuns(n);
  }

  /** A menu route always lands in its application's scope, and normalising it again changes nothing. */
  lemma MenuRouteLandsInScope(applicationCode: string, route: string, code: string)
    ensures var scope := Scope(applicationCode);
            var path := NormalizedMenuRoute(scope, route, code);
            InScope(scope, path) && NormalizedMenuRoute(scope, path, code) == path
  {
    var scope := Scope(applicationCode);
    var configured := TrimSpace(route);
    var path := NormalizedMenuRoute(scope, route, code);
    if configured == "" {
      SegmentShape(code);
      ScopedPathIsTrimmed(scope, NormalizedRouteSegment(code));
    } else if !InScope(scope, configured) {
      ScopedPathIsTrimmed(scope, TrimLeft(configured, IsSlash));
    } else {
      TrimFixpoint(path, IsSpace);
    }
  }

  lemma ScopedPathIsTrimmed(scope: string, tail: string)
    requires scope != "" && scope[0] == '/'
    requires tail == "" || !IsSpace(tail[|tail| - 1])
    ensures TrimSpace(scope + "/" + tail) == scope + "/" + tail
    ensures InScope(scope, scope + "/" + tail)
  {
    var path := scope + "/" + tail;
    assert path[0] == '/' && path[|path| - 1] == if tail == "" then '/' else tail[|tail| - 1];
    TrimFixpoint(path, IsSpace);
  }

  /** Route spaces of applications with different segments have no path in common. */
  lemma ScopesDisjoint(code1: string, code2: string, path: string)
    requires InScope(Scope(code1), path) && InScope(Scope(code2), path)
    ensures NormalizedRouteSegment(code1) == NormalizedRouteSegment(code2)
  {
    SegmentShape(code1);
    SegmentShape(code2);
    var n1, n2 := NormalizedRouteSegment(code1), NormalizedRouteSegment(code2);
    UnderSegment(n1, path);
    UnderSegment(n2, path);
    SamePrefix(n1, n2, path[6..]);
  }

  /** `rest` is `n`, or continues it with a slash. */
  predicate Under(n: string, rest: string) {
    |n| <= |rest| && rest[..|n|] == n && (|rest| > |n| ==> rest[|n|] == '/')
  }

  lemma UnderSegment(n: string, path: string)
    requires InScope("/apps/" + n, path)
    ensures |path| >= 6 && Under(n, path[6..])
  {
    var scope := "/apps/" + n;
    assert |scope| == 6 + |n| && scope[6..] == n;
    assert path[..|scope|] == scope;
    assert path[6..][..|n|] == path[..|scope|][6..];
    if |path| > |scope| {
      assert (scope + "/")[|scope|] == '/' && path[|scope|] == '/';
    }
  }

  lemma SamePrefix(n1: string, n2: string, rest: string)
    requires Under(n1, rest) && Under(n2, rest) && IsSegment(n1) && IsSegment(n2)
    ensures n1 == n2
  {
  }

  /** The check on the code of a new application. */
  predicate ValidNewApplicationCode(code: string) {
    IsCode(code) && NormalizedRouteSegment(code) == code
  }

  /** Applications admitted by the creation check never share a route. */
  lemma CreatedApplicationsHaveDisjointRoutes(code1: string, code2: string, path: string)
    requires ValidNewApplicationCode(code1) && ValidNewApplicationCode(code2) && code1 != code2
    ensures !(InScope(Scope(code1), path) && InScope(Scope(code2), path))
  {
    if InScope(Scope(code1), path) && InScope(Scope(code2), path) {
      ScopesDisjoint(code1, code2, path);
    }
  }

  // ----- spellings of one route

  /** An application whose code is a route segment has its routes below that code. */
  lemma ScopeOfSegment(code: string)
    requires NormalizedRouteSegment(code) == code
    ensures Scope(code) == ['/', 'a', 'p', 'p', 's', '/'] + code
  {
    hide NormalizedRouteSegment;
  }

  /**
   A route may be written relative to its application, with a leading slash, or in
   full; all three name the same path. A path in scope is kept, and a menu without a
   route is reached under its code.
   */
  lemma RouteSpellingsAgree(applicationCode: string, tail: string, code: string)
    requires tail != "" && TrimSpace(tail) == tail && tail[0] != '/' && !InScope(Scope(applicationCode), "/" + tail)
    ensures var scope := Scope(applicationCode);
            && NormalizedMenuRoute(scope, tail, code) == scope + "/" + tail
            && NormalizedMenuRoute(scope, "/" + tail, code) == scope + "/" + tail
            && NormalizedMenuRoute(scope, scope + "/" + tail, code) == scope + "/" + tail
            && NormalizedMenuRoute(scope, "", tail) == scope + "/" + NormalizedRouteSegment(tail)
  {
    var scope := Scope(applicationCode);
    hide NormalizedRouteSegment;
    assert scope[0] == '/';
    assert tail[|tail| - 1] == TrimSpace(tail)[|tail| - 1];
    TrimFixpoint("/" + tail, IsSpace);
    TrimFixpoint(scope + "/" + tail, IsSpace);
    assert TrimSpace("") == "";
    hide TrimSpace;
    assert TrimLeft(tail, IsSlash) == tail;
    assert ("/" + tail)[1..] == tail;
    assert HasPrefix(scope + "/" + tail, scope + "/");
    assert tail[0] != scope[0] && (scope + "/")[0] == '/';
  }

  /** A path in the scope of the application is kept as it is configured. */
  lemma ScopedRouteIsKept(applicationCode: string, path: string, code: string)
    requires TrimSpace(path) == path && InScope(Scope(applicationCode), path)
    ensures NormalizedMenuRoute(Scope(applicationCode), path, code) == path
  {
    hide NormalizedRouteSegment, TrimSpace;
  }
}
