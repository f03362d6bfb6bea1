/** Listings in pages: the server orders and slices, the client asks for page after page. */
module Paging {
  import opened Wrappers

  datatype App = App(id: string, code: string, sortOrder: int, deleted: bool)

  datatype Grant = Grant(tenantId: string, appId: string, version: int, deleted: bool)

  // ----- ORDER BY sort_order, id

  /** Lexicographic order by code point. */
  predicate TextBefore(a: string, b: string) {
    b != "" && (a == "" || a[0] < b[0] || (a[0] == b[0] && TextBefore(a[1..], b[1..])))
  }

  lemma {:induction false} TextTotal(a: string, b: string)
    ensures a == b || TextBefore(a, b) || TextBefore(b, a)
    ensures !(TextBefore(a, b) && TextBefore(b, a))
    decreases |a| + |b|
  {
    if a != "" && b != "" {
      TextTotal(a[1..], b[1..]);
      assert a == [a[0]] + a[1..] && b == [b[0]] + b[1..];
    }
  }

  lemma {:induction false} TextTrans(a: string, b: string, c: string)
    requires TextBefore(a, b) && TextBefore(b, c)
    ensures TextBefore(a, c)
    decreases |a|
  {
    if a != "" && a[0] == b[0] == c[0] {
      TextTrans(a[1..], b[1..], c[1..]);
    }
  }

  /** At the first difference the smaller code point decides; a proper prefix comes first. */
  lemma {:induction false} TextBeforeMeans(a: string, b: string)
    ensures TextBefore(a, b) <==>
      exists k :: 0 <= k <= |a| && k < |b| && a[..k] == b[..k] && (k < |a| ==> a[k] < b[k])
    decreases |a|
  {
    if a != "" && b != "" && a[0] == b[0] {
      TextBeforeMeans(a[1..], b[1..]);
      forall k | 0 <= k < |a| && k < |b| - 1
        ensures a[..k + 1] == b[..k + 1] <==> a[1..][..k] == b[1..][..k]
      {
        assert a[..k + 1] == [a[0]] + a[1..][..k] && b[..k + 1] == [b[0]] + b[1..][..k];
        assert a[1..][..k] == a[..k + 1][1..] && b[1..][..k] == b[..k + 1][1..];
      }
      if TextBefore(a, b) {
        var k :| 0 <= k <= |a[1..]| && k < |b[1..]| && a[1..][..k] == b[1..][..k] &&
            (k < |a[1..]| ==> a[1..][k] < b[1..][k]);
        assert a[..k + 1] == b[..k + 1] && (k + 1 < |a| ==> a[k + 1] < b[k + 1]);
      }
      forall k | 0 <= k <= |a| && k < |b| && a[..k] == b[..k] && (k < |a| ==> a[k] < b[k])
        ensures TextBefore(a, b)
      {
        assert k > 0;
        var n := k - 1;
        assert a[1..][..n] == b[1..][..n] && (n < |a[1..]| ==> a[1..][n] < b[1..][n]);
      }
    } else if a == "" {
      if b != "" {
        assert a[..0] == b[..0];
      }
    } else if b != "" {
      forall k | 0 < k <= |a| && k < |b|
        ensures a[..k] != b[..k]
      {
        assert a[..k][0] == a[0] && b[..k][0] == b[0];
      }
      assert a[..0] == b[..0];
    }
  }

  predicate AppBefore(x: App, y: App) {
    x.sortOrder < y.sortOrder || (x.sortOrder == y.sortOrder && TextBefore(x.id, y.id))
  }

  ghost predicate Sorted(l: seq<App>) {
    forall i, j :: 0 <= i < j < |l| ==> AppBefore(l[i], l[j])
  }

  function Insert(x: App, l: seq<App>): seq<App>
    decreases |l|
  {
    if l == [] || AppBefore(x, l[0]) then [x] + l else [l[0]] + Insert(x, l[1..])
  }

  /** The live rows in order. */
  function Listing(rows: seq<App>): seq<App>
    decreases |rows|
  {
    if rows == [] then []
    else if rows[0].deleted then Listing(rows[1..])
    else Insert(rows[0], Listing(rows[1..]))
  }

  ghost predicate DistinctRows(rows: seq<App>) {
    forall i, j :: 0 <= i < j < |rows| ==> rows[i].id != rows[j].id
  }

  lemma {:induction false} InsertElements(x: App, l: seq<App>)
    ensures forall y :: y in Insert(x, l) <==> y == x || y in l
    decreases |l|
  {
    if l != [] && !AppBefore(x, l[0]) {
      InsertElements(x, l[1..]);
      assert l == [l[0]] + l[1..];
    }
  }

  lemma {:induction false} InsertSorts(x: App, l: seq<App>)
    requires Sorted(l) && forall y :: y in l ==> y.id != x.id
    ensures Sorted(Insert(x, l))
    decreases |l|
  {
    if l != [] {
      TextTotal(x.id, l[0].id);
      if AppBefore(x, l[0]) {
        forall j | 0 <= j < |l|
          ensures AppBefore(x, l[j])
        {
          BeforeTrans(x, l[0], l[j]);
        }
      } else {
        InsertSorts(x, l[1..]);
        InsertElements(x, l[1..]);
        forall j | 0 <= j < |Insert(x, l[1..])|
          ensures AppBefore(l[0], Insert(x, l[1..])[j])
        {
          assert Insert(x, l[1..])[j] in Insert(x, l[1..]);
        }
      }
    }
  }

  lemma BeforeTrans(x: App, y: App, z: App)
    requires AppBefore(x, y) && (y == z || AppBefore(y, z))
    ensures AppBefore(x, z)
  {
    if y != z && x.sortOrder == y.sortOrder == z.sortOrder {
      TextTrans(x.id, y.id, z.id);
    }
  }

  /** The listing holds each live application exactly once, ordered by sort order and then identifier. */
  lemma {:induction false} ListingExact(rows: seq<App>)
    requires DistinctRows(rows)
    ensures forall x :: x in Listing(rows) <==> x in rows && !x.deleted
    ensures Sorted(Listing(rows))
    ensures forall i, j :: 0 <= i < j < |Listing(rows)| ==>
              var x, y := Listing(rows)[i], Listing(rows)[j];
              x.sortOrder < y.sortOrder || (x.sortOrder == y.sortOrder && TextBefore(x.id, y.id))
    ensures DistinctRows(Listing(rows))
    decreases |rows|
  {
    if rows != [] {
      var rest := Listing(rows[1..]);
      ListingExact(rows[1..]);
      assert rows == [rows[0]] + rows[1..];
      if !rows[0].deleted {
        InsertElements(rows[0], rest);
        InsertSorts(rows[0], rest);
      }
    }
    SortedApart(Listing(rows), rows);
  }

  lemma SortedApart(l: seq<App>, rows: seq<App>)
    requires Sorted(l) && DistinctRows(rows) && forall x :: x in l ==> x in rows
    ensures DistinctRows(l)
  {
    forall i, j | 0 <= i < j < |l|
      ensures l[i].id != l[j].id
    {
      assert l[i] in rows && l[j] in rows && AppBefore(l[i], l[j]);
      TextTotal(l[i].id, l[i].id);
      var a :| 0 <= a < |rows| && rows[a] == l[i];
      var b :| 0 <= b < |rows| && rows[b] == l[j];
    }
  }

  // ----- grants of one tenant, joined with their applications

  ghost predicate UniqueGrants(grants: seq<Grant>) {
    forall i, j :: 0 <= i < j < |grants| ==>
        (grants[i].tenantId, grants[i].appId) != (grants[j].tenantId, grants[j].appId)
  }

  /** The tenant's live grant of an application, if there is one. */
  function GrantOf(grants: seq<Grant>, tenant: string, appId: string): (r: Option<Grant>)
    ensures r.Some? ==> r.value in grants && r.value.tenantId == tenant && r.value.appId == appId && !r.value.deleted
    ensures r.None? ==> forall g :: g in grants && g.tenantId == tenant && g.appId == appId ==> g.deleted
    decreases |grants|
  {
    if grants == [] then None
    else if grants[0].tenantId == tenant && grants[0].appId == appId && !grants[0].deleted then Some(grants[0])
    else GrantOf(grants[1..], tenant, appId)
  }

  /** The join, in the order of the applications. */
  function Joined(apps: seq<App>, grants: seq<Grant>, tenant: string): seq<(Grant, App)>
    decreases |apps|
  {
    if apps == [] then []
    else
      var rest := Joined(apps[1..], grants, tenant);
      match GrantOf(grants, tenant, apps[0].id)
      case Some(g) => [(g, apps[0])] + rest
      case None => rest
  }

  lemma {:induction false} JoinedElements(apps: seq<App>, grants: seq<Grant>, tenant: string)
    requires UniqueGrants(grants)
    ensures forall p :: p in Joined(apps, grants, tenant) <==>
      p.1 in apps && p.0 in grants && !p.0.deleted && p.0.tenantId == tenant && p.0.appId == p.1.id
    decreases |apps|
  {
    if apps != [] {
      JoinedElements(apps[1..], grants, tenant);
      assert apps == [apps[0]] + apps[1..];
      forall g | g in grants && !g.deleted && g.tenantId == tenant && g.appId == apps[0].id
        ensures GrantOf(grants, tenant, apps[0].id) == Some(g)
      {
        var found := GrantOf(grants, tenant, apps[0].id).value;
        var a :| 0 <= a < |grants| && grants[a] == g;
        var b :| 0 <= b < |grants| && grants[b] == found;
      }
    }
  }

  lemma {:induction false} JoinedOrder(apps: seq<App>, grants: seq<Grant>, tenant: string)
    requires UniqueGrants(grants) && Sorted(apps)
    ensures forall i, j :: 0 <= i < j < |Joined(apps, grants, tenant)| ==>
      AppBefore(Joined(apps, grants, tenant)[i].1, Joined(apps, grants, tenant)[j].1)
    decreases |apps|
  {
    if apps != [] {
      var rest := Joined(apps[1..], grants, tenant);
      JoinedOrder(apps[1..], grants, tenant);
      JoinedElements(apps[1..], grants, tenant);
      forall j | 0 <= j < |rest|
        ensures AppBefore(apps[0], rest[j].1)
      {
        assert rest[j] in rest;
      }
    }
  }

  // ----- pages

  datatype Page<T> = Page(items: seq<T>, total: nat, page: int, pageSize: int)

  datatype PageError = Invalid

  /** `pagination`, then LIMIT and OFFSET. */
  function ServePage<T>(listing: seq<T>, page: int, size: int): Result<Page<T>, PageError> {
    var p := if page <= 0 then 1 else page;
    var n := if size <= 0 then 20 else size;
    if n > 100 then Err(Invalid) else Ok(Page(Slice(listing, (p - 1) * n, n), |listing|, p, n))
  }

  /** Requests without a page or a size mean the first page and twenty rows; more than a hundred rows are refused. */
  lemma ServeDefaults<T>(listing: seq<T>, page: int, size: int)
    ensures page < 1 ==> ServePage(listing, page, size) == ServePage(listing, 1, size)
    ensures size < 1 ==> ServePage(listing, page, size) == ServePage(listing, page, 20)
    ensures ServePage(listing, page, size).Err? <==> size > 100
  {
  }

  function Slice<T>(listing: seq<T>, offset: int, limit: int): seq<T> {
    if offset < 0 || limit < 0 || offset >= |listing| then []
    else listing[offset..if offset + limit < |listing| then offset + limit else |listing|]
  }

  /** The first `count` pages of the same size, one after the other. */
  function Pages<T>(listing: seq<T>, size: int, count: nat): seq<T>
    requires 1 <= size <= 100
  {
    if count == 0 then [] else Pages(listing, size, count - 1) + ServePage(listing, count, size).value.items
  }

  /** Consecutive pages join to the beginning of the listing, for every page size. */
  lemma {:induction false} PagesJoin<T>(listing: seq<T>, size: int, count: nat)
    requires 1 <= size <= 100
    ensures Pages(listing, size, count) == listing[..if count * size < |listing| then count * size else |listing|]
    decreases count
  {
    if count > 0 {
      PagesJoin(listing, size, count - 1);
      assert count * size == (count - 1) * size + size;
    }
  }

  // ----- the client

  const PAGE_SIZE := 100

  /** The pages that hold a listing of `total` items, and one for the empty listing. */
  function PagesNeeded(total: nat): nat {
    if total == 0 then 1 else (total + PAGE_SIZE - 1) / PAGE_SIZE
  }

  /**
   What the client collects if the listing changes once, after its first `k` calls:
   all of the old listing if it was done by then, and otherwise the old listing up to
   there and the new one from there on.
   */
  function Collected<T>(before: seq<T>, after: seq<T>, k: nat): seq<T> {
    if k >= PagesNeeded(|before|) then before
    else before[..PAGE_SIZE * k] + if PAGE_SIZE * k <= |after| then after[PAGE_SIZE * k..] else []
  }

  function CallsNeeded<T>(before: seq<T>, after: seq<T>, k: nat): nat {
    var first, last := PagesNeeded(|before|), PagesNeeded(|after|);
    if k >= first then first else if k + 1 > last then k + 1 else last
  }

  function ListingAt<T>(before: seq<T>, after: seq<T>, k: nat, page: nat): seq<T> {
    if page <= k then before else after
  }

  /** The client goes on after `n` calls: the page that it got last was not the last one. */
  predicate GoesOn<T>(before: seq<T>, after: seq<T>, k: nat, n: nat) {
    && (n == 0 || PAGE_SIZE * n < |ListingAt(before, after, k, n)|)
    && (n > k ==> k == 0 || PAGE_SIZE * k < |before|)
  }

  /** What it has collected then. */
  function Gathered<T>(before: seq<T>, after: seq<T>, k: nat, n: nat): seq<T>
    requires GoesOn(before, after, k, n)
  {
    if n <= k then before[..PAGE_SIZE * n] else before[..PAGE_SIZE * k] + after[PAGE_SIZE * k..PAGE_SIZE * n]
  }

  /** The next page completes what the client collects, or it goes on. */
  ghost predicate NextPage<T>(before: seq<T>, after: seq<T>, k: nat, n: nat)
    requires GoesOn(before, after, k, n)
  {
    var listing := ListingAt(before, after, k, n + 1);
    var items := ServePage(listing, n + 1, PAGE_SIZE).value.items;
    var next := Gathered(before, after, k, n) + items;
    if |next| >= |listing| || |items| == 0 then
      next == Collected(before, after, k) && n + 1 == CallsNeeded(before, after, k)
    else
      GoesOn(before, after, k, n + 1) && next == Gathered(before, after, k, n + 1) &&
          n + 1 < CallsNeeded(before, after, k)
  }

  lemma PageAt<T>(listing: seq<T>, n: nat)
    ensures var r, end := ServePage(listing, n + 1, PAGE_SIZE), PAGE_SIZE * (n + 1);
            && r.Ok? && r.value.total == |listing|
            && r.value.items == if PAGE_SIZE * n >= |listing| then []
                 else listing[PAGE_SIZE * n..if end < |listing| then end else |listing|]
  {
  }

  lemma NextPageBefore<T>(before: seq<T>, after: seq<T>, k: nat, n: nat)
    requires GoesOn(before, after, k, n) && n < k
    ensures NextPage(before, after, k, n)
  {
    PageAt(before, n);
    PagesForMore(|before|, n);
    PagesForMore(|before|, n + 1);
    hide PagesNeeded, ServePage;
    var end := if PAGE_SIZE * (n + 1) < |before| then PAGE_SIZE * (n + 1) else |before|;
    if PAGE_SIZE * n < |before| {
      assert before[..PAGE_SIZE * n] + before[PAGE_SIZE * n..end] == before[..end];
    }
  }

  lemma PagesForMore(total: nat, n: nat)
    ensures PAGE_SIZE * n < total ==> n < PagesNeeded(total)
    ensures total <= PAGE_SIZE * (n + 1) ==> PagesNeeded(total) <= n + 1
  {
  }

  /** The new listing has no row at these positions. */
  lemma NextPageEmpty<T>(before: seq<T>, after: seq<T>, k: nat, n: nat)
    requires GoesOn(before, after, k, n) && n >= k && PAGE_SIZE * n >= |after|
    ensures NextPage(before, after, k, n)
  {
    assert n == k;
    assert ServePage(after, n + 1, PAGE_SIZE).value.items == [];
    PagesForMore(|after|, n);
    PagesForMore(|before|, n);
  }

  lemma SlicesJoin<T>(front: seq<T>, s: seq<T>, a: nat, b: nat, c: nat)
    requires a <= b <= c <= |s|
    ensures front + s[a..b] + s[b..c] == front + s[a..c]
    ensures |front + s[a..c]| == |front| + c - a
  {
  }

  lemma NextPageFull<T>(before: seq<T>, after: seq<T>, k: nat, n: nat)
    requires GoesOn(before, after, k, n) && n >= k && PAGE_SIZE * n < |after|
    ensures NextPage(before, after, k, n)
  {
    PageAt(after, n);
    PagesForMore(|after|, n);
    PagesForMore(|after|, n + 1);
    PagesForMore(|before|, k);
    hide PagesNeeded, ServePage;
    var end := if PAGE_SIZE * (n + 1) < |after| then PAGE_SIZE * (n + 1) else |after|;
    var front := before[..PAGE_SIZE * k];
    assert Gathered(before, after, k, n) == front + after[PAGE_SIZE * k..PAGE_SIZE * n] by {
      assert n == k ==> front + after[PAGE_SIZE * k..PAGE_SIZE * n] == front;
    }
    SlicesJoin(front, after, PAGE_SIZE * k, PAGE_SIZE * n, end);
    hide Gathered;
    FullPage(before, after, k, n, end);
  }

  /** With the page that ends at `end`. */
  lemma FullPage<T>(before: seq<T>, after: seq<T>, k: nat, n: nat, end: nat)
    requires GoesOn(before, after, k, n) && n >= k && PAGE_SIZE * n < end <= |after|
    requires end == if PAGE_SIZE * (n + 1) < |after| then PAGE_SIZE * (n + 1) else |after|
    requires ServePage(after, n + 1, PAGE_SIZE).Ok?
    requires Gathered(before, after, k, n) + ServePage(after, n + 1, PAGE_SIZE).value.items
          == before[..PAGE_SIZE * k] + after[PAGE_SIZE * k..end]
    requires ServePage(after, n + 1, PAGE_SIZE).value.items == after[PAGE_SIZE * n..end]
    ensures NextPage(before, after, k, n)
  {
    PagesForMore(|after|, n);
    PagesForMore(|after|, n + 1);
    PagesForMore(|before|, k);
    hide PagesNeeded, ServePage;
    assert end == |after| ==> after[PAGE_SIZE * k..end] == after[PAGE_SIZE * k..];
  }

  lemma NextPageAfter<T>(before: seq<T>, after: seq<T>, k: nat, n: nat)
    requires GoesOn(before, after, k, n) && n >= k
    ensures NextPage(before, after, k, n)
  {
    hide NextPage, GoesOn;
    if PAGE_SIZE * n >= |after| {
      NextPageEmpty(before, after, k, n);
    } else {
      NextPageFull(before, after, k, n);
    }
  }

  /** None of the first `n` calls fails. */
  ghost predicate AllUp(down: set<int>, n: nat) {
    forall page :: 1 <= page <= n ==> page !in down
  }

  /**
   The loop of `ListApplications` and `ListGrants`, on a listing that changes at most
   once: it ends, makes exactly the calls that are needed, and returns what they show;
   it fails with the first of these calls that fails.
   */
  method Collect<T>(before: seq<T>, after: seq<T>, k: nat, down: set<int>) returns (result: Option<seq<T>>, calls: nat)
    ensures result.Some? <==> AllUp(down, CallsNeeded(before, after, k))
    ensures result.Some? ==> result.value == Collected(before, after, k) && calls == CallsNeeded(before, after, k)
    ensures result.None? ==> 1 <= calls <= CallsNeeded(before, after, k) && calls in down && AllUp(down, calls - 1)
  {
    var collected: seq<T> := [];
    calls := 0;
    CollectStarts(before, after, k);
    hide Collected, CallsNeeded, GoesOn, Gathered, ServePage, ListingAt, PagesNeeded;
    while true
      invariant calls < CallsNeeded(before, after, k) && AllUp(down, calls)
      invariant GoesOn(before, after, k, calls) && collected == Gathered(before, after, k, calls)
      decreases CallsNeeded(before, after, k) - calls
    {
      NextPageMeans(before, after, k, calls);
      calls := calls + 1;
      if calls in down {
        return None, calls;
      }
      var body := ServePage(ListingAt(before, after, k, calls), calls, PAGE_SIZE).value;
      collected := collected + body.items;
      if |collected| >= body.total || |body.items| == 0 {
        return Some(collected), calls;
      }
    }
  }

  lemma NextPageMeans<T>(before: seq<T>, after: seq<T>, k: nat, n: nat)
    requires GoesOn(before, after, k, n)
    ensures ServePage(ListingAt(before, after, k, n + 1), n + 1, PAGE_SIZE).Ok?
    ensures var body := ServePage(ListingAt(before, after, k, n + 1), n + 1, PAGE_SIZE).value;
            var next := Gathered(before, after, k, n) + body.items;
            if |next| >= body.total || |body.items| == 0 then
              next == Collected(before, after, k) && n + 1 == CallsNeeded(before, after, k)
            else
              GoesOn(before, after, k, n + 1) && next == Gathered(before, after, k, n + 1) &&
                  n + 1 < CallsNeeded(before, after, k)
  {
    hide Collected, CallsNeeded, GoesOn, Gathered;
    PageAt(ListingAt(before, after, k, n + 1), n);
    if n < k {
      NextPageBefore(before, after, k, n);
    } else {
      NextPageAfter(before, after, k, n);
    }
  }

  lemma CollectStarts<T>(before: seq<T>, after: seq<T>, k: nat)
    ensures GoesOn(before, after, k, 0) && Gathered(before, after, k, 0) == [] && CallsNeeded(before, after, k) >= 1
  {
  }

  /** On a listing that stays as it is, the client gets the whole of it with one call for each page. */
  lemma StableListingIsCollected<T>(listing: seq<T>, k: nat)
    ensures Collected(listing, listing, k) == listing
    ensures CallsNeeded(listing, listing, k) == if |listing| == 0 then 1 else (|listing| + 99) / 100
  {
  }

  // ----- changes between two pages

  ghost predicate NoRepeats<T>(l: seq<T>) {
    forall i, j :: 0 <= i < j < |l| ==> l[i] != l[j]
  }

  /**
   Paging is by position. Of the rows that are listed all the time, the client misses
   exactly those that move from behind the pages it has to the positions it has passed.
   */
  lemma SkippedIff<T>(before: seq<T>, after: seq<T>, k: nat, i: nat, j: nat)
    requires NoRepeats(before) && NoRepeats(after) && k < PagesNeeded(|before|)
    requires i < |before| && j < |after| && before[i] == after[j]
    ensures after[j] !in Collected(before, after, k) <==> i >= PAGE_SIZE * k && j < PAGE_SIZE * k
  {
    var all := Collected(before, after, k);
    if i < PAGE_SIZE * k {
      assert all[i] == after[j];
    } else if j >= PAGE_SIZE * k {
      assert all[j] == after[j];
    } else {
      assert forall n :: 0 <= n < |all| ==> all[n] == if n < PAGE_SIZE * k then before[n] else after[n];
    }
  }

  /** The listing without the row at `d`. */
  function Without<T>(listing: seq<T>, d: nat): seq<T>
    requires d < |listing|
  {
    listing[..d] + listing[d + 1..]
  }

  lemma WithoutKeeps<T>(listing: seq<T>, d: nat, n: nat)
    requires d < |listing| && n + 1 < |listing|
    ensures Without(listing, d)[n] == listing[if n < d then n else n + 1]
  {
  }

  /**
   A deletion between two pages makes the client miss a row exactly if the deleted row
   was on a page that it has; the row is the one that slides onto that page.
   */
  lemma DeletionSkipsIff<T>(listing: seq<T>, d: nat, k: nat)
    requires NoRepeats(listing) && d < |listing| && k < PagesNeeded(|listing|)
    ensures var after := Without(listing, d);
            && (forall n :: 0 <= n < |after| ==>
                  (after[n] !in Collected(listing, after, k) <==> d < PAGE_SIZE * k && n == PAGE_SIZE * k - 1))
            && ((exists n :: 0 <= n < |after| && after[n] !in Collected(listing, after, k)) <==> d < PAGE_SIZE * k)
  {
    var after := Without(listing, d);
    assert NoRepeats(after) by {
      forall i, j | 0 <= i < j < |after|
        ensures after[i] != after[j]
      {
        WithoutKeeps(listing, d, i);
        WithoutKeeps(listing, d, j);
      }
    }
    forall n | 0 <= n < |after|
      ensures after[n] !in Collected(listing, after, k) <==> d < PAGE_SIZE * k && n == PAGE_SIZE * k - 1
    {
      WithoutKeeps(listing, d, n);
      SkippedIff(listing, after, k, if n < d then n else n + 1, n);
    }
    if d < PAGE_SIZE * k {
      assert after[PAGE_SIZE * k - 1] !in Collected(listing, after, k);
    }
  }
}
