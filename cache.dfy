/** The in-memory news cache of core/cache.py: a `NewsCache` object whose
    fields the service updates in place, and the pure query behind
    `get_news`. Calls happen one at a time; the lock is not modelled. */
module Cache {
  import opened News
  import opened Text

  /** `ServiceStatus`. */
  datatype ServiceStatus = Ready | Preparing | Error {
    /** The string the enum member stands for. */
    function Value(): string {
      match this
      case Ready => "ready"
      case Preparing => "preparing"
      case Error => "error"
    }
  }

  /** The dictionary `get_status` returns. */
  datatype StatusInfo = StatusInfo(status: string, lastUpdate: Option<string>, cacheCount: nat, errorMessage: Option<string>)

  // ------------------------------------------------------------------ query

  /** `if category:` — a category filter applies when one is given and it is non-empty. */
  predicate InCategory(a: NewsArticle, category: Option<string>) {
    category.None? || category.value == "" || a.category == category
  }

  /** `if search:` — the lowered search text occurs in the lowered title or in a
      non-empty, lowered summary. */
  predicate MatchesSearch(a: NewsArticle, search: Option<string>) {
    search.None? || search.value == "" ||
    Contains(Lower(a.title), Lower(search.value)) ||
    (a.summary.Some? && a.summary.value != "" && Contains(Lower(a.summary.value), Lower(search.value)))
  }

  /** Both filters, in the order the source applies them. */
  function Filtered(entries: seq<NewsArticle>, category: Option<string>, search: Option<string>): (r: seq<NewsArticle>)
    ensures |r| <= |entries|
    ensures forall a :: a in r <==> a in entries && InCategory(a, category) && MatchesSearch(a, search)
    decreases |entries|
  {
    if entries == [] then []
    else
      var a := entries[|entries| - 1];
      Filtered(entries[..|entries| - 1], category, search) + (if InCategory(a, category) && MatchesSearch(a, search) then [a] else [])
  }

  /** Newest first: no record is followed by one with a later date string. */
  predicate DateDescending(s: seq<NewsArticle>) {
    forall i, j :: 0 <= i < j < |s| ==> !Less(s[i].date, s[j].date)
  }

  /** Inserts `a` after every record of `sorted` whose date is not earlier than
      its own, so records with equal dates keep their arrival order. */
  function InsertByDate(sorted: seq<NewsArticle>, a: NewsArticle): (r: seq<NewsArticle>)
    ensures multiset(r) == multiset(sorted) + multiset{a}
    ensures forall x :: x in r <==> x in sorted || x == a
  {
    if sorted == [] then [a]
    else if Less(sorted[0].date, a.date) then [a] + sorted
    else
      assert sorted == [sorted[0]] + sorted[1..];
      [sorted[0]] + InsertByDate(sorted[1..], a)
  }

  /** `list.sort(key=lambda x: x.date, reverse=True)`: a stable sort by date,
      newest first. */
  function SortByDate(s: seq<NewsArticle>): (r: seq<NewsArticle>)
    ensures multiset(r) == multiset(s)
    decreases |s|
  {
    if s == [] then []
    else
      assert s == s[..|s| - 1] + [s[|s| - 1]];
      InsertByDate(SortByDate(s[..|s| - 1]), s[|s| - 1])
  }

  /** A Python slice bound: a negative index counts from the end; the result is
      clipped to `[0, n]`. */
  function SliceBound(i: int, n: nat): (r: nat)
    ensures r <= n
  {
    if i < 0 then (if i + n < 0 then 0 else i + n)
    else if i > n then n
    else i
  }

  /** Python's `s[lo:hi]`. */
  function PySlice(s: seq<NewsArticle>, lo: int, hi: int): seq<NewsArticle> {
    var a := SliceBound(lo, |s|);
    var b := SliceBound(hi, |s|);
    if a < b then s[a..b] else []
  }

  /** `(page - 1) * page_size`: where a page starts. */
  function PageStart(page: int, pageSize: int): int {
    (page - 1) * pageSize
  }

  /** The pagination step of `get_news` over the sorted, filtered records. */
  function Paginate(sorted: seq<NewsArticle>, page: int, pageSize: int): NewsResponse {
    var start := PageStart(page, pageSize);
    var end := start + pageSize;
    NewsResponse(PySlice(sorted, start, end), |sorted|, page, pageSize, end < |sorted|, page > 1)
  }

  /** What `get_news` returns when the service is not in error. */
  function Query(entries: seq<NewsArticle>, page: int, pageSize: int, category: Option<string>, search: Option<string>): NewsResponse {
    Paginate(SortByDate(Filtered(entries, category, search)), page, pageSize)
  }

  /** `f"Service error: {self._error_message}"`. */
  function ServiceError(message: Option<string>): string {
    "Service error: " + (if message.Some? then message.value else "None")
  }

  // ------------------------------------------------------------------ state

  /** The records `append_to_cache` leaves in the cache: the old ones, then the
      new ones whose URL is not cached yet, in input order. */
  function Appended(entries: seq<NewsArticle>, newArticles: seq<NewsArticle>): seq<NewsArticle> {
    entries + Unseen(newArticles, Urls(entries))
  }

  class NewsCache {
    var entries: seq<NewsArticle>
    var status: ServiceStatus
    var lastUpdate: Option<string>
    var errorMessage: Option<string>

    constructor()
      ensures entries == [] && status == Preparing && lastUpdate == None && errorMessage == None
    {
      entries := [];
      status := Preparing;
      lastUpdate := None;
      errorMessage := None;
    }

    function GetStatus(): (info: StatusInfo)
      reads this
      ensures info.status == status.Value() && info.cacheCount == |entries|
      ensures info.lastUpdate == lastUpdate && info.errorMessage == errorMessage
    {
      StatusInfo(status.Value(), lastUpdate, |entries|, errorMessage)
    }

    /** Sets the status and always overwrites the error message. */
    method SetStatus(s: ServiceStatus, message: Option<string>)
      modifies this
      ensures status == s && errorMessage == message
      ensures entries == old(entries) && lastUpdate == old(lastUpdate)
    {
      status := s;
      errorMessage := message;
    }

    /** `get_news`: raises in the error state, otherwise answers the query over
        the cached records without changing them. */
    function GetNews(page: int, pageSize: int, category: Option<string>, search: Option<string>): (r: Result<NewsResponse>)
      reads this
      ensures r.Err? <==> status == Error
      ensures r.Err? ==> r.error == ServiceError(errorMessage)
      ensures r.Ok? ==> r.value == Query(entries, page, pageSize, category, search)
    {
      if status == Error then Err(ServiceError(errorMessage))
      else Ok(Query(entries, page, pageSize, category, search))
    }

    /** `update_cache`: replaces every record and ends ready with no error. */
    method UpdateCache(news: seq<NewsArticle>, now: string)
      modifies this
      ensures entries == news && lastUpdate == Some(now)
      ensures status == Ready && errorMessage == None
    {
      SetStatus(Preparing, None);
      entries := news;
      lastUpdate := Some(now);
      SetStatus(Ready, None);
    }

    /** `append_to_cache`: adds the records whose URL is not cached yet. Only
        when something was added are the timestamp refreshed and a preparing
        cache made ready. */
    method AppendToCache(newArticles: seq<NewsArticle>, now: string)
      modifies this
      ensures entries == Appended(old(entries), newArticles)
      ensures var added := entries != old(entries);
        lastUpdate == (if added then Some(now) else old(lastUpdate)) &&
        status == (if added && old(status) == Preparing then Ready else old(status)) &&
        errorMessage == (if added && old(status) == Preparing then None else old(errorMessage))
    {
      var unique := Unseen(newArticles, Urls(entries));
      if unique != [] {
        entries := entries + unique;
        lastUpdate := Some(now);
        if |entries| > 0 && status == Preparing {
          SetStatus(Ready, None);
        }
      }
    }

    /** `clear_cache`: drops every record and goes back to preparing. */
    method ClearCache()
      modifies this
      ensures entries == [] && lastUpdate == None
      ensures status == Preparing && errorMessage == None
    {
      entries := [];
      lastUpdate := None;
      SetStatus(Preparing, None);
    }
  }

  // ------------------------------------------------------------- properties

  /** A query returns only records of the cache that pass both filters, and
      `total` counts exactly the records that pass them. */
  lemma QueryFilters(entries: seq<NewsArticle>, page: int, pageSize: int, category: Option<string>, search: Option<string>)
    ensures var r := Query(entries, page, pageSize, category, search);
      r.total == |Filtered(entries, category, search)| &&
      forall a :: a in r.articles ==> a in entries && InCategory(a, category) && MatchesSearch(a, search)
  {
    var sorted := SortByDate(Filtered(entries, category, search));
    var r := Query(entries, page, pageSize, category, search);
    forall a | a in r.articles ensures a in entries && InCategory(a, category) && MatchesSearch(a, search) {
      assert a in multiset(sorted);
    }
  }

  lemma {:induction false} InsertKeepsOrder(sorted: seq<NewsArticle>, a: NewsArticle)
    requires DateDescending(sorted)
    ensures DateDescending(InsertByDate(sorted, a))
  {
    if sorted != [] && !Less(sorted[0].date, a.date) {
      InsertKeepsOrder(sorted[1..], a);
      var r := InsertByDate(sorted, a);
      forall j | 0 < j < |r| ensures !Less(r[0].date, r[j].date) {
        assert r[j] in InsertByDate(sorted[1..], a);
      }
    } else if sorted != [] {
      forall j | 0 <= j < |sorted| ensures !Less(a.date, sorted[j].date) {
        if Less(a.date, sorted[j].date) {
          LessTransitive(sorted[0].date, a.date, sorted[j].date);
          if j == 0 { LessIrreflexive(sorted[0].date); }
        }
      }
    }
  }

  /** The sort orders records newest first and keeps every record, each as
      often as before. */
  lemma {:induction false} SortByDateSpec(s: seq<NewsArticle>)
    ensures DateDescending(SortByDate(s))
    ensures multiset(SortByDate(s)) == multiset(s) && |SortByDate(s)| == |s|
    decreases |s|
  {
    if s != [] {
      SortByDateSpec(s[..|s| - 1]);
      InsertKeepsOrder(SortByDate(s[..|s| - 1]), s[|s| - 1]);
    }
    assert |multiset(SortByDate(s))| == |multiset(s)|;
  }

  /** A slice with bounds `0 <= lo <= hi` is the stretch `[lo, hi)` of `s`, cut at its end. */
  lemma SliceStretch(s: seq<NewsArticle>, lo: int, hi: int)
    requires 0 <= lo <= hi
    ensures |PySlice(s, lo, hi)| == (if hi <= |s| then hi - lo else if lo <= |s| then |s| - lo else 0)
    ensures forall k :: 0 <= k < |PySlice(s, lo, hi)| ==> PySlice(s, lo, hi)[k] == s[lo + k]
  {
  }

  /** Every slice of a newest-first sequence is newest first. */
  lemma SliceKeepsOrder(s: seq<NewsArticle>, lo: int, hi: int)
    requires DateDescending(s)
    ensures DateDescending(PySlice(s, lo, hi))
  {
    var a := SliceBound(lo, |s|);
    var r := PySlice(s, lo, hi);
    forall i, j | 0 <= i < j < |r| ensures !Less(r[i].date, r[j].date) {
      assert r[i] == s[a + i] && r[j] == s[a + j];
    }
  }

  /** A query's page is ordered newest first. */
  lemma QueryOrdered(entries: seq<NewsArticle>, page: int, pageSize: int, category: Option<string>, search: Option<string>)
    ensures DateDescending(Query(entries, page, pageSize, category, search).articles)
  {
    var sorted := SortByDate(Filtered(entries, category, search));
    assert DateDescending(sorted) by {
      SortByDateSpec(Filtered(entries, category, search));
    }
    var start := PageStart(page, pageSize);
    assert DateDescending(PySlice(sorted, start, start + pageSize)) by {
      SliceKeepsOrder(sorted, start, start + pageSize);
    }
  }

  /** For a page number of at least 1 and a non-negative page size, the page is
      the stretch `[(page-1)*pageSize, page*pageSize)` of the records, cut at
      their end; `total` counts all of them, `has_next` says a record follows
      the page and `has_prev` that the page is not the first. */
  lemma PaginateSpec(sorted: seq<NewsArticle>, page: int, pageSize: int)
    requires page >= 1 && pageSize >= 0
    ensures var r := Paginate(sorted, page, pageSize);
      var start := PageStart(page, pageSize);
      var end := start + pageSize;
      r.total == |sorted| && r.page == page && r.pageSize == pageSize &&
      |r.articles| == (if end <= |sorted| then pageSize else if start <= |sorted| then |sorted| - start else 0) &&
      (forall k :: 0 <= k < |r.articles| ==> r.articles[k] == sorted[start + k]) &&
      (r.hasNext <==> end < |sorted|) && (r.hasPrev <==> page > 1)
  {
    var start := PageStart(page, pageSize);
    PageStartNonNegative(page, pageSize);
    SliceStretch(sorted, start, start + pageSize);
  }

  lemma PageStartNonNegative(page: int, pageSize: int)
    requires page >= 1 && pageSize >= 0
    ensures PageStart(page, pageSize) >= 0
  {
    assert (page - 1) * pageSize >= 0;
  }

  /** `has_next` holds exactly when the following page is not empty. */
  lemma HasNextMeansMore(sorted: seq<NewsArticle>, page: int, pageSize: int)
    requires page >= 1 && pageSize >= 1
    ensures Paginate(sorted, page, pageSize).hasNext <==> Paginate(sorted, page + 1, pageSize).articles != []
  {
    assert PageStart(page + 1, pageSize) == PageStart(page, pageSize) + pageSize;
    PaginateSpec(sorted, page, pageSize);
    PaginateSpec(sorted, page + 1, pageSize);
  }

  /** Three matching records, page 1 of size 2: two records, a next page and no previous one. */
  lemma FirstPageOfThree(entries: seq<NewsArticle>, category: Option<string>, search: Option<string>)
    requires |Filtered(entries, category, search)| == 3
    ensures var r := Query(entries, 1, 2, category, search);
      |r.articles| == 2 && r.total == 3 && r.hasNext && !r.hasPrev
  {
    var sorted := SortByDate(Filtered(entries, category, search));
    SortByDateSpec(Filtered(entries, category, search));
    PaginateSpec(sorted, 1, 2);
  }

  /** `append_to_cache` keeps the old records as a prefix and adds exactly the
      new records whose URL was not cached, in input order. */
  lemma AppendedShape(entries: seq<NewsArticle>, newArticles: seq<NewsArticle>)
    ensures Appended(entries, newArticles)[..|entries|] == entries
    ensures forall a :: a in Appended(entries, newArticles)[|entries|..] <==> a in newArticles && a.url !in Urls(entries)
  {
  }

  /** Appending the same records twice adds them once. */
  lemma AppendedIdempotent(entries: seq<NewsArticle>, newArticles: seq<NewsArticle>)
    ensures Appended(Appended(entries, newArticles), newArticles) == Appended(entries, newArticles)
  {
    var once := Appended(entries, newArticles);
    forall a | a in newArticles ensures a.url in Urls(once) {
      if a.url !in Urls(entries) {
        assert a in Unseen(newArticles, Urls(entries));
        assert a in once;
      } else {
        var b :| b in entries && b.url == a.url;
        assert b in once;
      }
    }
    UnseenEmpty(newArticles, Urls(once));
  }

  /** A cache with distinct URLs keeps them distinct when records with distinct
      URLs are appended. */
  lemma AppendedKeepsUrlsDistinct(entries: seq<NewsArticle>, newArticles: seq<NewsArticle>)
    requires DistinctUrls(entries) && DistinctUrls(newArticles)
    ensures DistinctUrls(Appended(entries, newArticles))
  {
    var added := Unseen(newArticles, Urls(entries));
    UnseenDistinct(newArticles, Urls(entries));
    var r := entries + added;
    forall i, j | 0 <= i < j < |r| ensures r[i].url != r[j].url {
      if j >= |entries| && i < |entries| {
        assert r[i] in entries && r[j] in added;
      } else if i >= |entries| {
        assert r[i] == added[i - |entries|] && r[j] == added[j - |entries|];
      }
    }
  }

  /** Appending nothing new, `[]` in particular, leaves the records as they are. */
  lemma AppendNothingNew(entries: seq<NewsArticle>, newArticles: seq<NewsArticle>)
    requires forall a :: a in newArticles ==> a.url in Urls(entries)
    ensures Appended(entries, newArticles) == entries
  {
    UnseenEmpty(newArticles, Urls(entries));
  }
}
