/** `CTO51Crawler` (services/cto51_crawler.py): the crawl loop over listing
    pages, the per-article retry loop, batching and flushing. The browser is
    replaced by inputs: the listing pages the site shows, in order, and an
    oracle giving the outcome of each attempt to open an article. The MD5
    digest and the clock are parameters as in the formatter. */
module Crawler {
  import opened News
  import opened Text
  import Extractor
  import Formatter
  import Store
  import Listing
  import Cache

  /** `max_retries` in `_crawl_single_article`. */
  const MaxRetries: nat := 2

  /** `max_old_pages` in `crawl_all_pages`. */
  const MaxOldPages: nat := 3

  /** One listing page as the browser shows it: its list, whether a "下一页"
      button can be clicked, and what a query for `.posts-content` on it finds,
      with whether evaluating the extraction script on that container raises. */
  datatype PageView = PageView(listing: Listing.Listing, nextClickable: bool, postsContent: Option<Extractor.Container>, evalRaises: bool)

  /** The outcome of one attempt to open an article:
      - `Raised`: an exception escaped the attempt; `pageOpened` says whether the
        new tab had been opened by then (it is then never closed);
      - `ContentTimeout`: `.posts-content` did not appear in time;
      - `Loaded`: the article page loaded; `timeTexts` is what each of the
        selectors `time`, `.publish-time`, `.post-time` found (`None` when it
        found nothing or raised) and `hasContainer` whether `.posts-content`
        is on the article page. */
  datatype Attempt = Raised(pageOpened: bool) | ContentTimeout | Loaded(timeTexts: seq<Option<string>>, hasContainer: bool)

  /** The parameters every formatted article needs. */
  datatype Clock = Clock(digest: string -> string, today: string, now: string)

  // ------------------------------------------------------ a single article

  /** A selector found a non-blank text. */
  predicate NonBlank(o: Option<string>) {
    o.Some? && Trim(o.value) != ""
  }

  /** The selector loop from selector `i` on, `pt` being the publish time so
      far: a found text is stored stripped, and the loop stops at the first
      non-blank one. */
  function PickFrom(found: seq<Option<string>>, i: nat, pt: Option<string>): Option<string>
    requires i <= |found|
    decreases |found| - i
  {
    if i == |found| then pt
    else if NonBlank(found[i]) then Some(Trim(found[i].value))
    else if found[i].Some? then PickFrom(found, i + 1, Some(""))
    else PickFrom(found, i + 1, pt)
  }

  /** The publish time the selector loop leaves in `article_data`. */
  function PublishTime(found: seq<Option<string>>): Option<string> {
    PickFrom(found, 0, None)
  }

  /** The loop over the time selectors. */
  method PickPublishTime(found: seq<Option<string>>) returns (pt: Option<string>)
    ensures pt == PublishTime(found)
  {
    pt := None;
    for i := 0 to |found|
      invariant PickFrom(found, 0, None) == PickFrom(found, i, pt)
    {
      if found[i].Some? {
        pt := Some(Trim(found[i].value));
        if pt.value != "" {
          return;
        }
      }
    }
  }

  /** What one attempt yields: an article, or `None` when it raised, timed out
      or found no content. The content comes from the listing page's view,
      because `_extract_content` queries `self.page`. */
  function AttemptResult(a: Attempt, c: Listing.Candidate, view: PageView, clock: Clock): Option<NewsArticle> {
    match a
    case Raised(_) => None
    case ContentTimeout => None
    case Loaded(timeTexts, hasContainer) =>
      var content := if hasContainer then Extractor.ExtractedContent(view.postsContent, view.evalRaises) else [];
      if content == [] then None
      else Some(Formatter.FormatArticle(
        Formatter.ArticleData(c.title, c.url, PublishTime(timeTexts), content), clock.digest, clock.today, clock.now))
  }

  /** The tabs an attempt leaves open. */
  function Leaked(a: Attempt): nat {
    if a.Raised? && a.pageOpened then 1 else 0
  }

  /** The attempts from number `k` on: the first that yields an article wins. */
  function AttemptsFrom(c: Listing.Candidate, fetch: (string, nat) -> Attempt, view: PageView, clock: Clock, k: nat): Option<NewsArticle>
    decreases MaxRetries - k
  {
    if k >= MaxRetries then None
    else
      var r := AttemptResult(fetch(c.url, k), c, view, clock);
      if r.Some? then r else AttemptsFrom(c, fetch, view, clock, k + 1)
  }

  /** The tabs left open by the attempts from number `k` on. */
  function LeakedFrom(c: Listing.Candidate, fetch: (string, nat) -> Attempt, view: PageView, clock: Clock, k: nat): nat
    decreases MaxRetries - k
  {
    if k >= MaxRetries then 0
    else if AttemptResult(fetch(c.url, k), c, view, clock).Some? then 0
    else Leaked(fetch(c.url, k)) + LeakedFrom(c, fetch, view, clock, k + 1)
  }

  /** `_crawl_single_article`. */
  function SingleArticle(c: Listing.Candidate, fetch: (string, nat) -> Attempt, view: PageView, clock: Clock): Option<NewsArticle> {
    AttemptsFrom(c, fetch, view, clock, 0)
  }

  /** What every crawled article has: content and the crawler's constant fields. */
  predicate Fetched(a: NewsArticle) {
    a.content != [] && a.category == Some(Formatter.Category) && a.source == Some(Formatter.Source)
  }

  /** The articles the article loop of one listing page collects: the
      results of `_crawl_single_article` over the candidates, in order, a
      `None` adding nothing and not stopping the loop. */
  function Harvest(cands: seq<Listing.Candidate>, fetch: (string, nat) -> Attempt, view: PageView, clock: Clock): seq<NewsArticle>
    decreases |cands|
  {
    if cands == [] then []
    else
      var r := SingleArticle(cands[|cands| - 1], fetch, view, clock);
      Harvest(cands[..|cands| - 1], fetch, view, clock) + (if r.Some? then [r.value] else [])
  }

  /** Flushing a batch into the cache, one batch after another. */
  function AppendAll(entries: seq<NewsArticle>, batches: seq<seq<NewsArticle>>): seq<NewsArticle>
    decreases |batches|
  {
    if batches == [] then entries
    else Cache.Appended(AppendAll(entries, batches[..|batches| - 1]), batches[|batches| - 1])
  }

  lemma UrlsSnoc(s: seq<NewsArticle>, a: NewsArticle)
    ensures Urls(s + [a]) == Urls(s) + {a.url}
  {
    assert forall x :: x in s + [a] <==> x in s || x == a;
  }

  /** Handing on one more batch merges it into the file and appends it to the cache. */
  lemma BatchesSnoc(stored0: seq<NewsArticle>, entries0: seq<NewsArticle>, flushed: seq<seq<NewsArticle>>, b: seq<NewsArticle>)
    ensures Store.MergeAll(stored0, flushed + [b]) == Store.Merge(Store.MergeAll(stored0, flushed), b)
    ensures AppendAll(entries0, flushed + [b]) == Cache.Appended(AppendAll(entries0, flushed), b)
  {
    assert (flushed + [b])[..|flushed|] == flushed;
  }

  /** How the crawled articles split into batches, for a crawl that started
      with history `scraped0`: every article in `all` is new and fetched,
      `flushed` holds the batches handed on, each full, and `batch` the
      pending one, short of full; together they make up `all`. */
  ghost predicate Batches(all: seq<NewsArticle>, batch: seq<NewsArticle>, flushed: seq<seq<NewsArticle>>,
                          scraped0: set<string>, batchSize: int)
  {
    (forall a :: a in all ==> a.url !in scraped0 && Fetched(a)) &&
    Flatten(flushed) + batch == all &&
    |batch| < Cap(batchSize) &&
    (forall i :: 0 <= i < |flushed| ==> |flushed[i]| == Cap(batchSize))
  }

  /** Recording an article that leaves the batch short of full. */
  lemma RecordKeeps(all: seq<NewsArticle>, batch: seq<NewsArticle>, flushed: seq<seq<NewsArticle>>,
                    scraped0: set<string>, batchSize: int, a: NewsArticle)
    requires Batches(all, batch, flushed, scraped0, batchSize)
    requires a.url !in scraped0 && Fetched(a) && |batch| + 1 < Cap(batchSize)
    ensures Batches(all + [a], batch + [a], flushed, scraped0, batchSize)
  {
    assert forall x :: x in all + [a] ==> x in all || x == a;
    assert Flatten(flushed) + (batch + [a]) == all + [a];
  }

  /** Recording an article that fills the batch: the batch is handed on and a new one begins. */
  lemma RecordFlushes(all: seq<NewsArticle>, batch: seq<NewsArticle>, flushed: seq<seq<NewsArticle>>,
                      scraped0: set<string>, batchSize: int, a: NewsArticle)
    requires Batches(all, batch, flushed, scraped0, batchSize)
    requires a.url !in scraped0 && Fetched(a) && |batch| + 1 >= Cap(batchSize)
    ensures Batches(all + [a], [], flushed + [batch + [a]], scraped0, batchSize)
  {
    var full := batch + [a];
    var flushed' := flushed + [full];
    assert forall x :: x in all + [a] ==> x in all || x == a;
    FlattenAppend(flushed, full);
    assert Flatten(flushed') + [] == all + [a];
    assert |full| == Cap(batchSize);
    forall i | 0 <= i < |flushed'| ensures |flushed'[i]| == Cap(batchSize) {
      if i < |flushed| {
        assert flushed'[i] == flushed[i];
      }
    }
  }

  /** Handing on a non-empty leftover batch: the batches handed on then make
      up the whole list, each full but a shorter, non-empty last one. */
  lemma LeftoverBatches(all: seq<NewsArticle>, batch: seq<NewsArticle>, flushed: seq<seq<NewsArticle>>,
                        scraped0: set<string>, batchSize: int)
    requires Batches(all, batch, flushed, scraped0, batchSize)
    ensures var flushed' := if batch != [] then flushed + [batch] else flushed;
      Flatten(flushed') == all &&
      (forall a :: a in all ==> a.url !in scraped0 && Fetched(a)) &&
      (forall i :: 0 <= i < |flushed'| ==> 1 <= |flushed'[i]| <= Cap(batchSize)) &&
      (forall i :: 0 <= i < |flushed'| - 1 ==> |flushed'[i]| == Cap(batchSize))
  {
    if batch != [] {
      var flushed' := flushed + [batch];
      FlattenAppend(flushed, batch);
      forall i | 0 <= i < |flushed'| ensures 1 <= |flushed'[i]| <= Cap(batchSize) {
        if i < |flushed| { assert flushed'[i] == flushed[i]; }
      }
    } else {
      assert Flatten(flushed) + [] == all;
    }
  }

  /** The size at which a batch is flushed: `len(batch) >= batch_size` holds
      from the first article on when `batch_size` is below 1. */
  function Cap(batchSize: int): nat {
    if batchSize < 1 then 1 else batchSize
  }

  // --------------------------------------------------------------- pages

  /** `if max_pages and page_count >= max_pages`: `None` and 0 mean no limit. */
  predicate LimitReached(maxPages: Option<int>, pageCount: int) {
    maxPages.Some? && maxPages.value != 0 && pageCount >= maxPages.value
  }

  /** Whether a page's list is all old; the crawl history does not matter. */
  predicate AllOld(view: PageView, minId: int) {
    Listing.ListArticles(view.listing, {}, minId).allOld
  }

  /** `old_pages` after reading page `k`. */
  function OldRun(site: seq<PageView>, k: nat, oldPages: nat, minId: int): nat
    requires k < |site|
  {
    if AllOld(site[k], minId) then oldPages + 1 else 0
  }

  /** After reading page `k` with `old_pages` now `run`, the loop goes on to page `k + 1`. */
  predicate GoesOn(site: seq<PageView>, k: nat, run: nat, maxPages: Option<int>) {
    run < MaxOldPages && !LimitReached(maxPages, k + 1) && k + 1 < |site| && site[k].nextClickable
  }

  /** The number of listing pages read from page `k` on, `old_pages` being `oldPages` before it. */
  function PagesFrom(site: seq<PageView>, k: nat, oldPages: nat, maxPages: Option<int>, minId: int): (n: nat)
    requires k < |site|
    ensures 1 <= n <= |site| - k
    decreases |site| - k
  {
    var run := OldRun(site, k, oldPages, minId);
    if GoesOn(site, k, run, maxPages) then 1 + PagesFrom(site, k + 1, run, maxPages, minId) else 1
  }

  /** The number of listing pages a crawl reads when it is not interrupted. */
  function PagesRead(site: seq<PageView>, maxPages: Option<int>, minId: int): nat {
    if site == [] then 0 else PagesFrom(site, 0, 0, maxPages, minId)
  }

  /** One step of the page count: page `k` is read, and with `old_pages` now
      `run` the pages from `k + 1` on follow exactly when the loop goes on. */
  lemma PagesStep(site: seq<PageView>, k: nat, oldPages: nat, run: nat, maxPages: Option<int>, minId: int)
    requires k < |site| && run == (if AllOld(site[k], minId) then oldPages + 1 else 0)
    ensures GoesOn(site, k, run, maxPages) ==> PagesFrom(site, k, oldPages, maxPages, minId) == 1 + PagesFrom(site, k + 1, run, maxPages, minId)
    ensures !GoesOn(site, k, run, maxPages) ==> PagesFrom(site, k, oldPages, maxPages, minId) == 1
  {
  }

  /** The articles collected on a page whose listing is read with history `scraped`. */
  function PageHarvest(view: PageView, scraped: set<string>, fetch: (string, nat) -> Attempt, minId: int, clock: Clock): seq<NewsArticle> {
    Harvest(Listing.ListArticles(view.listing, scraped, minId).articles, fetch, view, clock)
  }

  /** The articles collected from page `k` on, `old_pages` being `oldPages`
      and the history `scraped` before it: nothing once the page completes a
      run of all-old pages, else the page's articles, followed by those of the
      next pages, read with the history grown by them, when the loop goes on. */
  function PagesHarvest(site: seq<PageView>, k: nat, oldPages: nat, scraped: set<string>,
                        fetch: (string, nat) -> Attempt, maxPages: Option<int>, minId: int, clock: Clock): seq<NewsArticle>
    requires k < |site|
    decreases |site| - k
  {
    var run := OldRun(site, k, oldPages, minId);
    if run >= MaxOldPages then []
    else
      var h := PageHarvest(site[k], scraped, fetch, minId, clock);
      if GoesOn(site, k, run, maxPages) then h + PagesHarvest(site, k + 1, run, scraped + Urls(h), fetch, maxPages, minId, clock)
      else h
  }

  /** The articles a crawl that is not interrupted returns, in fetch order. */
  function CrawlHarvest(site: seq<PageView>, scraped: set<string>, fetch: (string, nat) -> Attempt,
                        maxPages: Option<int>, minId: int, clock: Clock): seq<NewsArticle> {
    if site == [] then [] else PagesHarvest(site, 0, 0, scraped, fetch, maxPages, minId, clock)
  }

  /** The articles of the pages after page `k` when the loop goes on past
      it, `old_pages` being `run` and the history `scraped`; none otherwise. */
  function NextPagesHarvest(site: seq<PageView>, k: nat, run: nat, scraped: set<string>,
                            fetch: (string, nat) -> Attempt, maxPages: Option<int>, minId: int, clock: Clock): seq<NewsArticle>
    requires k < |site|
  {
    if GoesOn(site, k, run, maxPages) then PagesHarvest(site, k + 1, run, scraped, fetch, maxPages, minId, clock) else []
  }

  /** One step of the harvest, in the shape of `PagesStep`. */
  lemma PagesHarvestStep(site: seq<PageView>, k: nat, oldPages: nat, run: nat, scraped: set<string>,
                         fetch: (string, nat) -> Attempt, maxPages: Option<int>, minId: int, clock: Clock)
    requires k < |site| && run == (if AllOld(site[k], minId) then oldPages + 1 else 0)
    ensures run >= MaxOldPages ==> PagesHarvest(site, k, oldPages, scraped, fetch, maxPages, minId, clock) == []
    ensures var h := PageHarvest(site[k], scraped, fetch, minId, clock);
      run < MaxOldPages ==>
        PagesHarvest(site, k, oldPages, scraped, fetch, maxPages, minId, clock) ==
          h + NextPagesHarvest(site, k, run, scraped + Urls(h), fetch, maxPages, minId, clock)
  {
  }

  /** A page that completes a run of all-old pages adds nothing: what was
      collected before it is the whole harvest. */
  lemma HarvestEndsAtOldRun(site: seq<PageView>, k: nat, oldPages: nat, run: nat, scraped: set<string>,
                            fetch: (string, nat) -> Attempt, maxPages: Option<int>, minId: int, clock: Clock,
                            all: seq<NewsArticle>, full: seq<NewsArticle>)
    requires k < |site| && run == (if AllOld(site[k], minId) then oldPages + 1 else 0) && run >= MaxOldPages
    requires all + PagesHarvest(site, k, oldPages, scraped, fetch, maxPages, minId, clock) == full
    ensures all == full
  {
    PagesHarvestStep(site, k, oldPages, run, scraped, fetch, maxPages, minId, clock);
  }

  /** After the article loop of page `k` has handled its first `done`
      candidates, what was collected is a prefix of the whole harvest; when it
      handled them all, it is the whole harvest if the loop stops there, and
      the harvest of the next pages, read with the grown history, follows
      otherwise. */
  lemma HarvestAdvance(site: seq<PageView>, k: nat, oldPages: nat, run: nat, scraped0: set<string>,
                       fetch: (string, nat) -> Attempt, maxPages: Option<int>, minId: int, clock: Clock,
                       all: seq<NewsArticle>, cands: seq<Listing.Candidate>, done: nat, full: seq<NewsArticle>)
    requires k < |site| && run == (if AllOld(site[k], minId) then oldPages + 1 else 0) && run < MaxOldPages
    requires cands == Listing.ListArticles(site[k].listing, scraped0 + Urls(all), minId).articles
    requires all + PagesHarvest(site, k, oldPages, scraped0 + Urls(all), fetch, maxPages, minId, clock) == full
    requires done <= |cands|
    ensures all + Harvest(cands[..done], fetch, site[k], clock) <= full
    ensures var all' := all + Harvest(cands[..done], fetch, site[k], clock);
      done == |cands| ==> all' + NextPagesHarvest(site, k, run, scraped0 + Urls(all'), fetch, maxPages, minId, clock) == full
  {
    var scraped := scraped0 + Urls(all);
    var h := Harvest(cands, fetch, site[k], clock);
    HarvestSplit(site, k, oldPages, run, scraped, fetch, maxPages, minId, clock, all, cands, full);
    var rest := NextPagesHarvest(site, k, run, scraped + Urls(h), fetch, maxPages, minId, clock);
    HarvestPrefix(cands, done, fetch, site[k], clock);
    PrefixExtend(all, Harvest(cands[..done], fetch, site[k], clock), h, rest);
    if done == |cands| {
      assert cands[..done] == cands;
      UrlsHistory(scraped0, all, h);
    }
  }

  /** The harvest from page `k` on is the page's articles followed by the next pages'. */
  lemma HarvestSplit(site: seq<PageView>, k: nat, oldPages: nat, run: nat, scraped: set<string>,
                     fetch: (string, nat) -> Attempt, maxPages: Option<int>, minId: int, clock: Clock,
                     all: seq<NewsArticle>, cands: seq<Listing.Candidate>, full: seq<NewsArticle>)
    requires k < |site| && run == (if AllOld(site[k], minId) then oldPages + 1 else 0) && run < MaxOldPages
    requires cands == Listing.ListArticles(site[k].listing, scraped, minId).articles
    requires all + PagesHarvest(site, k, oldPages, scraped, fetch, maxPages, minId, clock) == full
    ensures var h := Harvest(cands, fetch, site[k], clock);
      all + h + NextPagesHarvest(site, k, run, scraped + Urls(h), fetch, maxPages, minId, clock) == full
  {
    var h := Harvest(cands, fetch, site[k], clock);
    var next := NextPagesHarvest(site, k, run, scraped + Urls(h), fetch, maxPages, minId, clock);
    PagesHarvestStep(site, k, oldPages, run, scraped, fetch, maxPages, minId, clock);
    ConcatAssoc(all, h, next);
  }

  lemma UrlsHistory(scraped0: set<string>, all: seq<NewsArticle>, h: seq<NewsArticle>)
    ensures scraped0 + Urls(all) + Urls(h) == scraped0 + Urls(all + h)
  {
    UrlsConcat(all, h);
  }

  // ---------------------------------------------------------------- state

  class Crawler {
    /** `min_article_id`. */
    const minArticleId: int
    /** `scraped_urls`. */
    var scrapedUrls: set<string>
    /** The records of the JSON data file. */
    var stored: seq<NewsArticle>
    /** Browser tabs opened for articles and not closed. */
    var openPages: nat

    /** The constructor with `_load_existing_data`: the history is the set of
        non-empty URLs of the stored records. */
    constructor(minId: int, existing: seq<NewsArticle>)
      ensures minArticleId == minId && stored == existing && openPages == 0
      ensures scrapedUrls == Store.StoredUrls(existing)
    {
      minArticleId := minId;
      stored := existing;
      scrapedUrls := Store.StoredUrls(existing);
      openPages := 0;
    }

    /** `_save_data`. */
    method SaveData(batch: seq<NewsArticle>)
      modifies this
      ensures stored == Store.Merge(old(stored), batch)
      ensures scrapedUrls == old(scrapedUrls) && openPages == old(openPages)
    {
      stored := Store.Merge(stored, batch);
    }

    /** A flush: the callback (appending to the cache) gets the batch, then the
        file does. */
    method Flush(batch: seq<NewsArticle>, sink: Cache.NewsCache?, now: string)
      modifies this, sink
      ensures stored == Store.Merge(old(stored), batch)
      ensures scrapedUrls == old(scrapedUrls) && openPages == old(openPages)
      ensures sink != null ==> sink.entries == Cache.Appended(old(sink.entries), batch)
      ensures sink != null ==> var added := sink.entries != old(sink.entries);
        sink.lastUpdate == (if added then Some(now) else old(sink.lastUpdate)) &&
        sink.status == (if added && old(sink.status) == Cache.Preparing then Cache.Ready else old(sink.status)) &&
        sink.errorMessage == (if added && old(sink.status) == Cache.Preparing then None else old(sink.errorMessage))
    {
      if sink != null {
        sink.AppendToCache(batch, now);
      }
      SaveData(batch);
    }

    /** `_crawl_single_article`: at most two attempts; a timeout, empty content
        or an exception moves on to the next attempt, or gives `None` after the
        last one. A tab opened by an attempt that raised stays open. */
    method CrawlSingleArticle(c: Listing.Candidate, fetch: (string, nat) -> Attempt, view: PageView, clock: Clock)
      returns (article: Option<NewsArticle>, ghost attempts: nat)
      modifies this
      ensures article == SingleArticle(c, fetch, view, clock)
      ensures 1 <= attempts <= MaxRetries
      ensures article.None? ==> attempts == MaxRetries
      ensures openPages == old(openPages) + LeakedFrom(c, fetch, view, clock, 0)
      ensures scrapedUrls == old(scrapedUrls) && stored == old(stored)
    {
      article := None;
      attempts := 0;
      for attempt := 0 to MaxRetries
        invariant attempts == attempt
        invariant AttemptsFrom(c, fetch, view, clock, 0) == AttemptsFrom(c, fetch, view, clock, attempt)
        invariant old(openPages) + LeakedFrom(c, fetch, view, clock, 0) == openPages + LeakedFrom(c, fetch, view, clock, attempt)
        invariant scrapedUrls == old(scrapedUrls) && stored == old(stored)
      {
        attempts := attempt + 1;
        var outcome := fetch(c.url, attempt);
        match outcome {
          case Raised(pageOpened) =>
            if pageOpened {
              openPages := openPages + 1;
            }
          case ContentTimeout =>
          case Loaded(timeTexts, hasContainer) =>
            var publishTime := PickPublishTime(timeTexts);
            var content: seq<ContentBlock> := [];
            if hasContainer {
              content := Extractor.ExtractContent(view.postsContent, view.evalRaises);
            }
            if content != [] {
              article := Some(Formatter.FormatArticle(Formatter.ArticleData(c.title, c.url, publishTime, content), clock.digest, clock.today, clock.now));
              return;
            }
        }
      }
    }

    /** The bookkeeping of a crawl that started with history `scraped0`, file
        `stored0` and cache records `entries0`: `all` is what was crawled,
        `flushed` the batches handed on and `batch` the pending one. */
    ghost predicate Ledger(all: seq<NewsArticle>, batch: seq<NewsArticle>, flushed: seq<seq<NewsArticle>>,
                           scraped0: set<string>, stored0: seq<NewsArticle>, entries0: seq<NewsArticle>,
                           sink: Cache.NewsCache?, batchSize: int)
      reads this`scrapedUrls, this`stored, sink
    {
      scrapedUrls == scraped0 + Urls(all) &&
      Batches(all, batch, flushed, scraped0, batchSize) &&
      stored == Store.MergeAll(stored0, flushed) &&
      (sink != null ==> sink.entries == AppendAll(entries0, flushed))
    }

    /** A crawled article is recorded: appended to `all` and to the batch, its
        URL added to the history, and the batch flushed once it is full. */
    method Record(a: NewsArticle, all: seq<NewsArticle>, batch: seq<NewsArticle>, ghost flushed: seq<seq<NewsArticle>>,
                  ghost scraped0: set<string>, ghost stored0: seq<NewsArticle>, ghost entries0: seq<NewsArticle>,
                  sink: Cache.NewsCache?, batchSize: int, now: string)
      returns (all': seq<NewsArticle>, batch': seq<NewsArticle>, ghost flushed': seq<seq<NewsArticle>>)
      requires Ledger(all, batch, flushed, scraped0, stored0, entries0, sink, batchSize)
      requires a.url !in scraped0 && Fetched(a)
      modifies this, sink
      ensures Ledger(all', batch', flushed', scraped0, stored0, entries0, sink, batchSize)
      ensures all' == all + [a]
      ensures openPages == old(openPages)
    {
      all' := all + [a];
      batch' := batch + [a];
      flushed' := flushed;
      UrlsSnoc(all, a);
      scrapedUrls := scrapedUrls + {a.url};
      if |batch'| >= Cap(batchSize) {
        RecordFlushes(all, batch, flushed, scraped0, batchSize, a);
        BatchesSnoc(stored0, entries0, flushed, batch');
        Flush(batch', sink, now);
        flushed' := flushed + [batch'];
        batch' := [];
      } else {
        RecordKeeps(all, batch, flushed, scraped0, batchSize, a);
      }
    }

    /** One round of the article loop: `_crawl_single_article`, and on success
        the article is recorded. */
    method Visit(c: Listing.Candidate, fetch: (string, nat) -> Attempt, view: PageView,
                 all: seq<NewsArticle>, batch: seq<NewsArticle>, ghost flushed: seq<seq<NewsArticle>>,
                 ghost scraped0: set<string>, ghost stored0: seq<NewsArticle>, ghost entries0: seq<NewsArticle>,
                 sink: Cache.NewsCache?, batchSize: int, clock: Clock)
      returns (all': seq<NewsArticle>, batch': seq<NewsArticle>, ghost flushed': seq<seq<NewsArticle>>)
      requires Ledger(all, batch, flushed, scraped0, stored0, entries0, sink, batchSize)
      requires c.url !in scraped0
      modifies this, sink
      ensures Ledger(all', batch', flushed', scraped0, stored0, entries0, sink, batchSize)
      ensures var r := SingleArticle(c, fetch, view, clock);
        all' == all + (if r.Some? then [r.value] else [])
    {
      all', batch', flushed' := all, batch, flushed;
      var article, _ := CrawlSingleArticle(c, fetch, view, clock);
      if article.Some? {
        SingleArticleFacts(c, fetch, view, clock);
        all', batch', flushed' := Record(article.value, all, batch, flushed, scraped0, stored0, entries0, sink, batchSize, clock.now);
      }
    }

    /** The article loop of one listing page. It stops early, with `aborted`,
        when the interrupt arrives before fetch number `abortAt`. */
    method CrawlCandidates(cands: seq<Listing.Candidate>, fetch: (string, nat) -> Attempt, view: PageView,
                           all: seq<NewsArticle>, batch: seq<NewsArticle>, ghost flushed: seq<seq<NewsArticle>>,
                           ghost scraped0: set<string>, ghost stored0: seq<NewsArticle>, ghost entries0: seq<NewsArticle>,
                           sink: Cache.NewsCache?, batchSize: int, abortAt: Option<nat>, fetches: nat, clock: Clock)
      returns (all': seq<NewsArticle>, batch': seq<NewsArticle>, ghost flushed': seq<seq<NewsArticle>>, fetches': nat, aborted: bool, ghost done: nat)
      requires Ledger(all, batch, flushed, scraped0, stored0, entries0, sink, batchSize)
      requires forall c :: c in cands ==> c.url !in scraped0
      modifies this, sink
      ensures Ledger(all', batch', flushed', scraped0, stored0, entries0, sink, batchSize)
      ensures done <= |cands| && all' == all + Harvest(cands[..done], fetch, view, clock)
      ensures fetches' == fetches + done
      ensures !aborted ==> done == |cands|
      ensures aborted ==> abortAt == Some(fetches')
    {
      all', batch', flushed', fetches', aborted, done := all, batch, flushed, fetches, false, 0;
      for i := 0 to |cands|
        invariant Ledger(all', batch', flushed', scraped0, stored0, entries0, sink, batchSize)
        invariant !aborted && done == i && fetches' == fetches + i
        invariant all' == all + Harvest(cands[..i], fetch, view, clock)
      {
        if abortAt == Some(fetches') {
          aborted := true;
          return;
        }
        fetches' := fetches' + 1;
        assert cands[i] in cands;
        all', batch', flushed' := Visit(cands[i], fetch, view, all', batch', flushed', scraped0, stored0, entries0, sink, batchSize, clock);
        HarvestSnoc(cands, i, fetch, view, clock);
        done := i + 1;
      }
    }

    /** `_get_article_list` on the page in view, with the crawler's history:
        whether the page is all old does not depend on that history, and no
        candidate was crawled before. */
    method ReadListing(view: PageView) returns (cands: seq<Listing.Candidate>, allOld: bool)
      ensures cands == Listing.ListArticles(view.listing, scrapedUrls, minArticleId).articles
      ensures allOld == AllOld(view, minArticleId)
      ensures forall c :: c in cands ==> c.url !in scrapedUrls
    {
      var result := Listing.GetArticleList(view.listing, scrapedUrls, minArticleId);
      Listing.AllOldIgnoresHistory(view.listing, scrapedUrls, minArticleId);
      Listing.CandidatesNeverOldNorCrawled(view.listing, scrapedUrls, minArticleId);
      cands, allOld := result.articles, result.allOld;
    }

    /** One round of the `while True` loop, on page `k` with `old_pages`
        being `oldPages`: read the listing, count the run of all-old pages,
        stop at three before fetching, else fetch the candidates, then stop
        when interrupted, at `max_pages` or without a next page. What is
        collected stays a prefix of the harvest `full`, and is all of it when
        the loop stops without an interrupt. */
    method CrawlPage(site: seq<PageView>, k: nat, oldPages: nat, fetch: (string, nat) -> Attempt, maxPages: Option<int>,
                     all: seq<NewsArticle>, batch: seq<NewsArticle>, ghost flushed: seq<seq<NewsArticle>>,
                     ghost scraped0: set<string>, ghost stored0: seq<NewsArticle>, ghost entries0: seq<NewsArticle>,
                     sink: Cache.NewsCache?, batchSize: int, abortAt: Option<nat>, fetches: nat, clock: Clock,
                     ghost full: seq<NewsArticle>)
      returns (all': seq<NewsArticle>, batch': seq<NewsArticle>, ghost flushed': seq<seq<NewsArticle>>, fetches': nat,
               run: nat, stop: bool)
      requires k < |site|
      requires Ledger(all, batch, flushed, scraped0, stored0, entries0, sink, batchSize)
      requires all + PagesHarvest(site, k, oldPages, scraped0 + Urls(all), fetch, maxPages, minArticleId, clock) == full
      modifies this, sink
      ensures Ledger(all', batch', flushed', scraped0, stored0, entries0, sink, batchSize)
      ensures run == (if AllOld(site[k], minArticleId) then oldPages + 1 else 0)
      ensures all' <= full
      ensures !stop ==> run < MaxOldPages && k + 1 < |site|
      ensures !stop ==> PagesFrom(site, k, oldPages, maxPages, minArticleId) == 1 + PagesFrom(site, k + 1, run, maxPages, minArticleId)
      ensures !stop ==> all' + PagesHarvest(site, k + 1, run, scraped0 + Urls(all'), fetch, maxPages, minArticleId, clock) == full
      ensures stop && abortAt.None? ==> PagesFrom(site, k, oldPages, maxPages, minArticleId) == 1 && all' == full
    {
      all', batch', flushed', fetches' := all, batch, flushed, fetches;
      var cands, allOld := ReadListing(site[k]);
      run := if allOld then oldPages + 1 else 0;
      PagesStep(site, k, oldPages, run, maxPages, minArticleId);
      if run >= MaxOldPages {
        HarvestEndsAtOldRun(site, k, oldPages, run, scraped0 + Urls(all), fetch, maxPages, minArticleId, clock, all, full);
        stop := true;
        return;
      }
      var aborted;
      ghost var done;
      all', batch', flushed', fetches', aborted, done :=
        CrawlCandidates(cands, fetch, site[k], all, batch, flushed, scraped0, stored0, entries0,
                        sink, batchSize, abortAt, fetches, clock);
      HarvestAdvance(site, k, oldPages, run, scraped0, fetch, maxPages, minArticleId, clock, all, cands, done, full);
      stop := aborted || !GoesOn(site, k, run, maxPages);
    }

    /** The `while True` loop over listing pages: `old_pages` counts
        consecutive all-old pages and three of them stop the loop before the
        page's articles are fetched; `max_pages` and a missing next page stop
        it after them. */
    method CrawlPages(site: seq<PageView>, fetch: (string, nat) -> Attempt, maxPages: Option<int>,
                      ghost scraped0: set<string>, ghost stored0: seq<NewsArticle>, ghost entries0: seq<NewsArticle>,
                      sink: Cache.NewsCache?, batchSize: int, abortAt: Option<nat>, clock: Clock)
      returns (all: seq<NewsArticle>, batch: seq<NewsArticle>, ghost flushed: seq<seq<NewsArticle>>, ghost pagesRead: nat)
      requires site != []
      requires scrapedUrls == scraped0 && stored == stored0 && (sink != null ==> sink.entries == entries0)
      modifies this, sink
      ensures Ledger(all, batch, flushed, scraped0, stored0, entries0, sink, batchSize)
      ensures pagesRead <= PagesRead(site, maxPages, minArticleId)
      ensures abortAt.None? ==> pagesRead == PagesRead(site, maxPages, minArticleId)
      ensures all <= PagesHarvest(site, 0, 0, scraped0, fetch, maxPages, minArticleId, clock)
      ensures abortAt.None? ==> all == PagesHarvest(site, 0, 0, scraped0, fetch, maxPages, minArticleId, clock)
    {
      assert Store.MergeAll(stored0, []) == stored0;
      assert scraped0 + Urls([]) == scraped0;
      ghost var full := PagesHarvest(site, 0, 0, scraped0, fetch, maxPages, minArticleId, clock);
      all, batch, flushed, pagesRead :=
        CrawlPagesFrom(site, 0, 0, fetch, maxPages, [], [], [], scraped0, stored0, entries0, sink, batchSize, abortAt, clock, full);
    }

    /** The page loop from page `k` on, with `old_pages == oldPages` and the
        articles `all` already collected; `full` is the whole crawl's harvest. */
    method CrawlPagesFrom(site: seq<PageView>, k: nat, oldPages: nat, fetch: (string, nat) -> Attempt, maxPages: Option<int>,
                          all0: seq<NewsArticle>, batch0: seq<NewsArticle>, ghost flushed0: seq<seq<NewsArticle>>,
                          ghost scraped0: set<string>, ghost stored0: seq<NewsArticle>, ghost entries0: seq<NewsArticle>,
                          sink: Cache.NewsCache?, batchSize: int, abortAt: Option<nat>, clock: Clock,
                          ghost full: seq<NewsArticle>)
      returns (all: seq<NewsArticle>, batch: seq<NewsArticle>, ghost flushed: seq<seq<NewsArticle>>, ghost pagesRead: nat)
      requires k < |site| && oldPages < MaxOldPages
      requires Ledger(all0, batch0, flushed0, scraped0, stored0, entries0, sink, batchSize)
      requires all0 + PagesHarvest(site, k, oldPages, scraped0 + Urls(all0), fetch, maxPages, minArticleId, clock) == full
      modifies this, sink
      ensures Ledger(all, batch, flushed, scraped0, stored0, entries0, sink, batchSize)
      ensures pagesRead <= PagesFrom(site, k, oldPages, maxPages, minArticleId)
      ensures abortAt.None? ==> pagesRead == PagesFrom(site, k, oldPages, maxPages, minArticleId)
      ensures all <= full
      ensures abortAt.None? ==> all == full
    {
      all, batch, flushed, pagesRead := all0, batch0, flushed0, 0;
      var pageIdx: nat := k;
      var run: nat := oldPages;
      var fetches: nat := 0;
      ghost var total := PagesFrom(site, k, oldPages, maxPages, minArticleId);
      while true
        invariant k <= pageIdx < |site| && run < MaxOldPages
        invariant pageIdx - k + PagesFrom(site, pageIdx, run, maxPages, minArticleId) == total
        invariant Ledger(all, batch, flushed, scraped0, stored0, entries0, sink, batchSize)
        invariant all + PagesHarvest(site, pageIdx, run, scraped0 + Urls(all), fetch, maxPages, minArticleId, clock) == full
        decreases |site| - pageIdx
      {
        var run', stop;
        all, batch, flushed, fetches, run', stop :=
          CrawlPage(site, pageIdx, run, fetch, maxPages, all, batch, flushed, scraped0, stored0, entries0,
                    sink, batchSize, abortAt, fetches, clock, full);
        if stop {
          pagesRead := pageIdx - k + 1;
          return;
        }
        pageIdx, run := pageIdx + 1, run';
      }
    }

    /** The flush of a non-empty leftover batch, done alike after the loop, in
        the KeyboardInterrupt handler and in the generic error handler. */
    method FlushLeftover(all: seq<NewsArticle>, batch: seq<NewsArticle>, ghost flushed: seq<seq<NewsArticle>>,
                         ghost scraped0: set<string>, ghost stored0: seq<NewsArticle>, ghost entries0: seq<NewsArticle>,
                         sink: Cache.NewsCache?, batchSize: int, now: string)
      returns (ghost flushed': seq<seq<NewsArticle>>)
      requires Ledger(all, batch, flushed, scraped0, stored0, entries0, sink, batchSize)
      modifies this, sink
      ensures scrapedUrls == scraped0 + Urls(all)
      ensures forall a :: a in all ==> a.url !in scraped0 && Fetched(a)
      ensures Flatten(flushed') == all
      ensures forall i :: 0 <= i < |flushed'| ==> 1 <= |flushed'[i]| <= Cap(batchSize)
      ensures forall i :: 0 <= i < |flushed'| - 1 ==> |flushed'[i]| == Cap(batchSize)
      ensures stored == Store.MergeAll(stored0, flushed')
      ensures sink != null ==> sink.entries == AppendAll(entries0, flushed')
      ensures openPages == old(openPages)
    {
      flushed' := if batch != [] then flushed + [batch] else flushed;
      LeftoverBatches(all, batch, flushed, scraped0, batchSize);
      assert scrapedUrls == scraped0 + Urls(all);
      if batch != [] {
        BatchesSnoc(stored0, entries0, flushed, batch);
        Flush(batch, sink, now);
      }
    }

    /** `crawl_all_pages`. `site` is the sequence of listing pages (empty when
        the browser could not be set up or the first page not opened), `fetch`
        the attempt oracle, `sink` the cache the batch callback appends to
        (`null`: no callback), and `abortAt` the number of article fetches
        after which a KeyboardInterrupt or another exception ends the loop.
        Returns the articles crawled, and, as ghosts, the batches flushed and
        the number of listing pages read. The `finally` block closes the
        browser and with it every tab. */
    method CrawlAllPages(site: seq<PageView>, fetch: (string, nat) -> Attempt, maxPages: Option<int>,
                         sink: Cache.NewsCache?, batchSize: int, abortAt: Option<nat>, clock: Clock)
      returns (all: seq<NewsArticle>, ghost flushed: seq<seq<NewsArticle>>, ghost pagesRead: nat)
      modifies this, sink
      ensures scrapedUrls == old(scrapedUrls) + Urls(all)
      ensures forall a :: a in all ==> a.url !in old(scrapedUrls) && Fetched(a)
      ensures Flatten(flushed) == all
      ensures forall i :: 0 <= i < |flushed| ==> 1 <= |flushed[i]| <= Cap(batchSize)
      ensures forall i :: 0 <= i < |flushed| - 1 ==> |flushed[i]| == Cap(batchSize)
      ensures stored == Store.MergeAll(old(stored), flushed)
      ensures sink != null ==> sink.entries == AppendAll(old(sink.entries), flushed)
      ensures pagesRead <= PagesRead(site, maxPages, minArticleId)
      ensures abortAt.None? ==> pagesRead == PagesRead(site, maxPages, minArticleId)
      ensures all <= CrawlHarvest(site, old(scrapedUrls), fetch, maxPages, minArticleId, clock)
      ensures abortAt.None? ==> all == CrawlHarvest(site, old(scrapedUrls), fetch, maxPages, minArticleId, clock)
      ensures openPages == 0
    {
      ghost var entries0 := if sink != null then sink.entries else [];
      ghost var scraped0 := scrapedUrls;
      ghost var stored0 := stored;
      var batch: seq<NewsArticle> := [];
      if site == [] {
        all, flushed, pagesRead := [], [], 0;
        assert Store.MergeAll(stored0, []) == stored0;
      } else {
        all, batch, flushed, pagesRead := CrawlPages(site, fetch, maxPages, scraped0, stored0, entries0, sink, batchSize, abortAt, clock);
      }
      flushed := FlushLeftover(all, batch, flushed, scraped0, stored0, entries0, sink, batchSize, clock.now);
      openPages := 0;
    }
  }

  // ----------------------------------------------------------- properties

  lemma UrlsConcat(s: seq<NewsArticle>, t: seq<NewsArticle>)
    ensures Urls(s + t) == Urls(s) + Urls(t)
  {
    assert forall x :: x in s + t <==> x in s || x in t;
  }

  lemma ConcatAssoc(s: seq<NewsArticle>, t: seq<NewsArticle>, u: seq<NewsArticle>)
    ensures s + (t + u) == s + t + u
  {
  }

  lemma PrefixExtend(all: seq<NewsArticle>, part: seq<NewsArticle>, whole: seq<NewsArticle>, rest: seq<NewsArticle>)
    requires part <= whole
    ensures all + part <= all + whole + rest
  {
    assert (all + whole + rest)[..|all + part|] == all + part;
  }

  /** The articles of the first `i` candidates are a prefix of all the page's articles. */
  lemma {:induction false} HarvestPrefix(cands: seq<Listing.Candidate>, i: nat, fetch: (string, nat) -> Attempt, view: PageView, clock: Clock)
    requires i <= |cands|
    ensures Harvest(cands[..i], fetch, view, clock) <= Harvest(cands, fetch, view, clock)
    decreases |cands| - i
  {
    if i < |cands| {
      var init := cands[..|cands| - 1];
      HarvestPrefix(init, i, fetch, view, clock);
      assert init[..i] == cands[..i];
    } else {
      assert cands[..i] == cands;
    }
  }

  /** One more candidate adds its article, if any. */
  lemma HarvestSnoc(cands: seq<Listing.Candidate>, i: nat, fetch: (string, nat) -> Attempt, view: PageView, clock: Clock)
    requires i < |cands|
    ensures var r := SingleArticle(cands[i], fetch, view, clock);
      Harvest(cands[..i + 1], fetch, view, clock) == Harvest(cands[..i], fetch, view, clock) + (if r.Some? then [r.value] else [])
  {
    assert cands[..i + 1][..i] == cands[..i];
  }

  /** The articles of two runs of candidates are those of the first run followed by those of the second. */
  lemma {:induction false} HarvestConcat(xs: seq<Listing.Candidate>, ys: seq<Listing.Candidate>, fetch: (string, nat) -> Attempt, view: PageView, clock: Clock)
    ensures Harvest(xs + ys, fetch, view, clock) == Harvest(xs, fetch, view, clock) + Harvest(ys, fetch, view, clock)
    decreases |ys|
  {
    if ys == [] {
      assert xs + ys == xs;
    } else {
      var init := ys[..|ys| - 1];
      assert (xs + ys)[..|xs + ys| - 1] == xs + init;
      assert (xs + ys)[|xs + ys| - 1] == ys[|ys| - 1];
      HarvestConcat(xs, init, fetch, view, clock);
    }
  }

  /** A candidate whose fetch fails is skipped: it adds nothing, and the
      candidates after it are fetched all the same. */
  lemma SkippedCandidate(xs: seq<Listing.Candidate>, c: Listing.Candidate, ys: seq<Listing.Candidate>,
                         fetch: (string, nat) -> Attempt, view: PageView, clock: Clock)
    requires SingleArticle(c, fetch, view, clock).None?
    ensures Harvest(xs + [c] + ys, fetch, view, clock) == Harvest(xs, fetch, view, clock) + Harvest(ys, fetch, view, clock)
  {
    HarvestConcat(xs + [c], ys, fetch, view, clock);
    assert (xs + [c])[..|xs + [c]| - 1] == xs;
  }

  /** An article whose page always times out yields nothing and leaves no tab open. */
  lemma AlwaysTimingOut(c: Listing.Candidate, fetch: (string, nat) -> Attempt, view: PageView, clock: Clock)
    requires forall k: nat :: fetch(c.url, k) == ContentTimeout
    ensures SingleArticle(c, fetch, view, clock).None?
    ensures LeakedFrom(c, fetch, view, clock, 0) == 0
  {
    assert fetch(c.url, 0) == ContentTimeout && fetch(c.url, 1) == ContentTimeout;
  }

  /** The articles of a page are exactly the successful results of its
      candidates, at most one per candidate. */
  lemma {:induction false} HarvestMembers(cands: seq<Listing.Candidate>, fetch: (string, nat) -> Attempt, view: PageView, clock: Clock)
    ensures |Harvest(cands, fetch, view, clock)| <= |cands|
    ensures forall a :: a in Harvest(cands, fetch, view, clock) <==>
      exists c :: c in cands && SingleArticle(c, fetch, view, clock) == Some(a)
    decreases |cands|
  {
    if cands != [] {
      var init := cands[..|cands| - 1];
      var last := cands[|cands| - 1];
      HarvestMembers(init, fetch, view, clock);
      forall a ensures a in Harvest(cands, fetch, view, clock) <==>
        exists c :: c in cands && SingleArticle(c, fetch, view, clock) == Some(a)
      {
        if exists c :: c in cands && SingleArticle(c, fetch, view, clock) == Some(a) {
          var c :| c in cands && SingleArticle(c, fetch, view, clock) == Some(a);
          if c != last {
            assert c in init;
          }
        }
      }
    }
  }

  /** A page whose list is all old contributes no article, whatever the history. */
  lemma AllOldPageHarvestsNothing(view: PageView, scraped: set<string>, fetch: (string, nat) -> Attempt, minId: int, clock: Clock)
    requires AllOld(view, minId)
    ensures PageHarvest(view, scraped, fetch, minId, clock) == []
  {
    Listing.AllOldIgnoresHistory(view.listing, scraped, minId);
    Listing.AllOldPageHasNoCandidates(view.listing, scraped, minId);
  }

  /** All-old pages completing the run from page `j` on contribute nothing. */
  lemma {:induction false} OldRunHarvestsNothing(site: seq<PageView>, j: nat, oldPages: nat, scraped: set<string>,
                                                 fetch: (string, nat) -> Attempt, maxPages: Option<int>, minId: int, clock: Clock)
    requires j + MaxOldPages - oldPages <= |site| && oldPages < MaxOldPages
    requires forall i :: j <= i < j + MaxOldPages - oldPages ==> AllOld(site[i], minId)
    ensures PagesHarvest(site, j, oldPages, scraped, fetch, maxPages, minId, clock) == []
    decreases MaxOldPages - oldPages
  {
    var run := OldRun(site, j, oldPages, minId);
    if run < MaxOldPages {
      AllOldPageHarvestsNothing(site[j], scraped, fetch, minId, clock);
      if GoesOn(site, j, run, maxPages) {
        assert Urls([]) == {};
        OldRunHarvestsNothing(site, j + 1, run, scraped, fetch, maxPages, minId, clock);
        assert scraped + Urls([]) == scraped;
      }
    }
  }

  /** A crawl whose first three listing pages are all old reads at most those
      three pages and returns no article. */
  lemma ThreeOldPagesFirst(site: seq<PageView>, scraped: set<string>, fetch: (string, nat) -> Attempt,
                           maxPages: Option<int>, minId: int, clock: Clock)
    requires MaxOldPages <= |site|
    requires forall i :: 0 <= i < MaxOldPages ==> AllOld(site[i], minId)
    ensures CrawlHarvest(site, scraped, fetch, maxPages, minId, clock) == []
    ensures PagesRead(site, maxPages, minId) <= MaxOldPages
  {
    OldRunHarvestsNothing(site, 0, 0, scraped, fetch, maxPages, minId, clock);
    StopsAtOldRun(site, 0, 0, maxPages, minId);
  }

  /** An article the retry loop returns carries the candidate's URL and title,
      has content and the crawler's constant fields. */
  lemma {:induction false} AttemptsFromFacts(c: Listing.Candidate, fetch: (string, nat) -> Attempt, view: PageView, clock: Clock, k: nat)
    ensures var r := AttemptsFrom(c, fetch, view, clock, k);
      r.Some? ==> r.value.url == c.url && r.value.title == c.title && Fetched(r.value)
    decreases MaxRetries - k
  {
    if k < MaxRetries {
      AttemptsFromFacts(c, fetch, view, clock, k + 1);
    }
  }

  lemma SingleArticleFacts(c: Listing.Candidate, fetch: (string, nat) -> Attempt, view: PageView, clock: Clock)
    ensures var r := SingleArticle(c, fetch, view, clock);
      r.Some? ==> r.value.url == c.url && r.value.title == c.title && Fetched(r.value)
  {
    AttemptsFromFacts(c, fetch, view, clock, 0);
  }

  /** Two attempts at most: `None` exactly when both attempts fail, and the
      second attempt only matters when the first one fails. At most two tabs leak. */
  lemma RetryBound(c: Listing.Candidate, fetch: (string, nat) -> Attempt, view: PageView, clock: Clock)
    ensures var first := AttemptResult(fetch(c.url, 0), c, view, clock);
      var second := AttemptResult(fetch(c.url, 1), c, view, clock);
      SingleArticle(c, fetch, view, clock) == (if first.Some? then first else second)
    ensures LeakedFrom(c, fetch, view, clock, 0) <= MaxRetries
  {
  }

  /** The content of every article fetched from one listing page is the same:
      it is read from the listing page, whatever article tab was opened. */
  lemma SamePageSameContent(c1: Listing.Candidate, c2: Listing.Candidate, fetch: (string, nat) -> Attempt, view: PageView, clock: Clock)
    requires SingleArticle(c1, fetch, view, clock).Some? && SingleArticle(c2, fetch, view, clock).Some?
    ensures SingleArticle(c1, fetch, view, clock).value.content == SingleArticle(c2, fetch, view, clock).value.content
  {
  }

  /** A listing page without `.posts-content` yields no article at all. */
  lemma NoContainerNoArticles(c: Listing.Candidate, fetch: (string, nat) -> Attempt, view: PageView, clock: Clock)
    requires view.postsContent.None?
    ensures SingleArticle(c, fetch, view, clock) == None
  {
  }

  /** From selector `i` on, the loop ends with a non-blank time exactly when a
      selector from `i` on found a non-blank text. */
  lemma {:induction false} PickFromFinds(found: seq<Option<string>>, i: nat, pt: Option<string>)
    requires i <= |found| && (pt.None? || pt == Some(""))
    ensures var r := PickFrom(found, i, pt);
      (r.Some? && r.value != "") <==> exists j :: i <= j < |found| && NonBlank(found[j])
    decreases |found| - i
  {
    if i < |found| {
      if NonBlank(found[i]) {
        assert PickFrom(found, i, pt) == Some(Trim(found[i].value));
      } else {
        var pt' := if found[i].Some? then Some("") else pt;
        assert PickFrom(found, i, pt) == PickFrom(found, i + 1, pt');
        PickFromFinds(found, i + 1, pt');
        assert (exists j :: i <= j < |found| && NonBlank(found[j])) ==> exists j :: i + 1 <= j < |found| && NonBlank(found[j]);
      }
    }
  }

  /** A non-blank time the loop ends with is the stripped text of the first
      selector from `i` on that found a non-blank one. */
  lemma {:induction false} PickFromFirst(found: seq<Option<string>>, i: nat, pt: Option<string>)
    requires i <= |found| && (pt.None? || pt == Some(""))
    ensures var r := PickFrom(found, i, pt);
      r.Some? && r.value != "" ==>
        exists j :: i <= j < |found| && NonBlank(found[j]) && r.value == Trim(found[j].value) &&
          forall k :: i <= k < j ==> !NonBlank(found[k])
    decreases |found| - i
  {
    if i < |found| {
      var r := PickFrom(found, i, pt);
      if NonBlank(found[i]) {
        assert r.value == Trim(found[i].value);
      } else {
        var pt' := if found[i].Some? then Some("") else pt;
        assert r == PickFrom(found, i + 1, pt');
        PickFromFirst(found, i + 1, pt');
        if r.Some? && r.value != "" {
          var j :| i + 1 <= j < |found| && NonBlank(found[j]) && r.value == Trim(found[j].value) &&
            forall k :: i + 1 <= k < j ==> !NonBlank(found[k]);
          assert forall k :: i <= k < j ==> !NonBlank(found[k]);
        }
      }
    }
  }

  /** The publish time is a non-blank text exactly when some selector found
      one, and it is then the first such text, stripped. */
  lemma PublishTimeSpec(found: seq<Option<string>>)
    ensures var pt := PublishTime(found);
      (pt.Some? && pt.value != "") <==> exists j :: 0 <= j < |found| && NonBlank(found[j])
    ensures var pt := PublishTime(found);
      pt.Some? && pt.value != "" ==>
        exists j :: 0 <= j < |found| && NonBlank(found[j]) && pt.value == Trim(found[j].value) &&
          forall k :: 0 <= k < j ==> !NonBlank(found[k])
  {
    PickFromFinds(found, 0, None);
    PickFromFirst(found, 0, None);
  }

  /** A crawl never reads more listing pages than the site has. */
  lemma PagesWithinSite(site: seq<PageView>, maxPages: Option<int>, minId: int)
    ensures PagesRead(site, maxPages, minId) <= |site|
  {
  }

  lemma {:induction false} PagesFromWithinLimit(site: seq<PageView>, k: nat, oldPages: nat, maxPages: Option<int>, minId: int)
    requires k < |site| && maxPages.Some? && maxPages.value != 0
    requires k < maxPages.value
    ensures k + PagesFrom(site, k, oldPages, maxPages, minId) <= maxPages.value
    decreases |site| - k
  {
    var run := OldRun(site, k, oldPages, minId);
    if GoesOn(site, k, run, maxPages) {
      PagesFromWithinLimit(site, k + 1, run, maxPages, minId);
    }
  }

  /** With a positive `max_pages`, at most that many listing pages are read;
      with a negative one, only the first. */
  lemma PagesWithinLimit(site: seq<PageView>, maxPages: Option<int>, minId: int)
    requires maxPages.Some? && maxPages.value != 0
    ensures PagesRead(site, maxPages, minId) <= (if maxPages.value < 0 then 1 else maxPages.value)
  {
    if site != [] {
      if maxPages.value > 0 {
        PagesFromWithinLimit(site, 0, 0, maxPages, minId);
      }
    }
  }

  lemma {:induction false} StopsAtOldRun(site: seq<PageView>, j: nat, oldPages: nat, maxPages: Option<int>, minId: int)
    requires j + MaxOldPages - oldPages <= |site| && oldPages < MaxOldPages
    requires forall i :: j <= i < j + MaxOldPages - oldPages ==> AllOld(site[i], minId)
    ensures PagesFrom(site, j, oldPages, maxPages, minId) <= MaxOldPages - oldPages
    decreases MaxOldPages - oldPages
  {
    var run := OldRun(site, j, oldPages, minId);
    if GoesOn(site, j, run, maxPages) {
      StopsAtOldRun(site, j + 1, run, maxPages, minId);
    }
  }

  lemma {:induction false} StopsAfterOldPagesFrom(site: seq<PageView>, k: nat, j: nat, oldPages: nat, maxPages: Option<int>, minId: int)
    requires k <= j && j + MaxOldPages <= |site| && oldPages < MaxOldPages
    requires forall i :: j <= i < j + MaxOldPages ==> AllOld(site[i], minId)
    ensures k + PagesFrom(site, k, oldPages, maxPages, minId) <= j + MaxOldPages
    decreases j - k
  {
    if k == j {
      StopsAtOldRun(site, j, 0, maxPages, minId);
      StopsAtOldRunMonotone(site, j, oldPages, maxPages, minId);
    } else {
      var run := OldRun(site, k, oldPages, minId);
      if GoesOn(site, k, run, maxPages) {
        StopsAfterOldPagesFrom(site, k + 1, j, run, maxPages, minId);
      }
    }
  }

  lemma {:induction false} StopsAtOldRunMonotone(site: seq<PageView>, j: nat, oldPages: nat, maxPages: Option<int>, minId: int)
    requires j + MaxOldPages <= |site| && oldPages < MaxOldPages
    requires forall i :: j <= i < j + MaxOldPages ==> AllOld(site[i], minId)
    ensures PagesFrom(site, j, oldPages, maxPages, minId) <= MaxOldPages
  {
    StopsAtOldRun(site, j, oldPages, maxPages, minId);
  }

  /** Three consecutive all-old listing pages end the crawl at the third of
      them at the latest. */
  lemma StopsAfterThreeOldPages(site: seq<PageView>, j: nat, maxPages: Option<int>, minId: int)
    requires j + MaxOldPages <= |site|
    requires forall i :: j <= i < j + MaxOldPages ==> AllOld(site[i], minId)
    ensures PagesRead(site, maxPages, minId) <= j + MaxOldPages
  {
    StopsAfterOldPagesFrom(site, 0, j, 0, maxPages, minId);
  }

  /** A page that is not all old resets the run: the crawl goes on past it as
      long as there is a next page and no page limit is hit. */
  lemma FreshPageResetsRun(site: seq<PageView>, k: nat, oldPages: nat, maxPages: Option<int>, minId: int)
    requires k + 1 < |site| && !AllOld(site[k], minId) && site[k].nextClickable && !LimitReached(maxPages, k + 1)
    ensures PagesFrom(site, k, oldPages, maxPages, minId) == 1 + PagesFrom(site, k + 1, 0, maxPages, minId)
  {
  }
}
