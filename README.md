# 51CTO crawler and news cache, modelled in Dafny

This project models two parts of the 51CTO article crawler service.

The first is the crawl-and-ingest pipeline of `CTO51Crawler` (services/cto51_crawler.py), with the browser taken away. It covers:
- the split of a listing page into old, already crawled and new articles;
- the loop over listing pages, with its stop rules;
- the two-attempt fetch of one article;
- batching and flushing into the JSON store and into the cache;
- the date normaliser and the article formatter;
- the in-page content walk (`processNode`), with its Python post-filter and plain-text fallback.

The second is the in-memory `NewsCache` (core/cache.py). It is a class whose records, status, timestamp and error message the methods update in place. Its pure query filters, sorts newest first and paginates.

What the browser would report comes in as inputs:
- the items of each listing page;
- whether its "下一页" button can be clicked;
- what `.posts-content` holds on the listing page;
- the outcome of each attempt to open an article, given by a function of the URL and the attempt number.

The MD5 digest, today's date and the current timestamp are parameters too.

Modules:
- `News`: record shapes of models/news.py and the URL filter `Unseen`, which the store and the cache share.
- `Text`: ASCII strip, lower-casing, substring test, string order and decimal conversion.
- `Dates`: `_standardize_date`.
- `Extractor`: the DOM walk and `_extract_content`.
- `Formatter`: `_format_article`.
- `Store`: the merge in `_save_data`.
- `Listing`: `_get_article_list`.
- `Cache`: `NewsCache`.
- `Crawler`: the retry loop, the page loop and batching.

Three behaviours of the code are modelled as written:
- `_extract_content` queries `.posts-content` on the listing page (`self.page`), not on the article tab. So every article fetched from one listing page gets the same content (`Crawler.SamePageSameContent`), and a listing page without that container yields no article (`Crawler.NoContainerNoArticles`).
- A tab opened by an attempt that then raised is never closed (`Crawler.Crawler.CrawlSingleArticle` counts it in `openPages`). Closing the browser in the `finally` block closes them all.
- An article id of 0 is falsy, so it is never old, just like an id that does not parse (`Listing.UnparsableAndZeroEligible`).

Two more facts about the content walk:
- Text blocks need more than ten characters after trimming, so short paragraphs are dropped (`Extractor.DocumentOrder`).
- The plain-text fallback is used only when evaluating the walk raises; a walk that returns no block gives no content.

## Model

| member | source | states |
|---|---|---|
| News.Unseen | services/cto51_crawler.py:62-63 | the batch records whose URL is not in the given set, never more than the batch holds |
| News.UnseenEmpty | core/cache.py:110-116 | when every URL is already known nothing is kept |
| News.UnseenDistinct | core/cache.py:111-114 | filtering keeps URLs distinct |
| Store.MergeShape | services/cto51_crawler.py:61-66 | the stored records stay as a prefix, followed by exactly the batch records with an unstored URL, in batch order |
| Store.UnseenUrlsStored | services/cto51_crawler.py:62-66 | after a merge every non-empty batch URL is stored |
| Store.MergeIdempotent | services/cto51_crawler.py:65-72 | saving the same batch twice equals saving it once (URLs non-empty) |
| Store.EmptyUrlIsAlwaysNew | services/cto51_crawler.py:62-63 | a record with an empty URL is appended on every save, since empty URLs are not collected |
| Store.BatchDuplicatesKept | services/cto51_crawler.py:63 | two records of one batch with the same unseen URL are both written |
| Store.MergeKeepsUrlsDistinct | services/cto51_crawler.py:61-66 | distinct URLs in file and batch stay distinct after a merge |
| Store.DistinctCount | services/cto51_crawler.py:62 | with distinct URLs, the URL set is as large as the record sequence |
| Store.FirstSave | services/cto51_crawler.py:53-66 | the first save into an empty file writes the batch unchanged |
| Store.MergeUrls | services/cto51_crawler.py:62-66 | the URLs after a merge are the stored ones plus the batch's |
| Store.OverlappingBatches | services/cto51_crawler.py:61-66 | two overlapping batches saved into an empty file leave one record per URL of their union |
| Store.TwoSaves | services/cto51_crawler.py:61-66 | two saves into an empty file leave the first batch followed by the second's records with new URLs |
| Dates.Search | services/cto51_crawler.py:309 | a found match lies at or after the start index and is a match of the pattern there |
| Dates.SearchIsLeftmost | services/cto51_crawler.py:309 | no match starts before the one `re.search` returns |
| Dates.SearchComplete | services/cto51_crawler.py:309 | whenever a match exists the search finds one at or before it |
| Dates.MatchNumeric | services/cto51_crawler.py:305-306 | every captured group is a run of ASCII digits |
| Dates.NoMatchMeansToday | services/cto51_crawler.py:300-319 | empty or unmatched input gives today's date |
| Dates.MatchGivesIsoShape | services/cto51_crawler.py:308-317 | a match of either pattern makes the result digits-dash-digits-dash-digits with fields of at least 4, 2 and 2 digits, with no range check |
| Dates.YmdMatchesAtStart | services/cto51_crawler.py:305-309 | a `YYYY-MM-DD` string matches the first pattern at index 0 with its three fields as groups |
| Dates.IsoDateRoundTrip | services/cto51_crawler.py:313-317 | a normalised date with a year above 1900 is a fixed point; with a year of 1900 or less the day and year swap |
| Dates.DayFirstInput | services/cto51_crawler.py:306-317 | `DD.MM.YYYY` with any of the three separators becomes `YYYY-MM-DD` |
| Dates.NoYmdInDmy | services/cto51_crawler.py:305-309 | in `DD.MM.YYYY` the year-first pattern matches nowhere |
| Dates.DmyMatchesAtStart | services/cto51_crawler.py:306-312 | `DD.MM.YYYY` matches the day-first pattern at index 0 with its three fields as groups |
| Dates.MatchedFields | services/cto51_crawler.py:305-317 | the groups of the leftmost year-first match, else of the leftmost day-first match, decide the result: year, month, day when the first group exceeds 1900, else day, month, year, each zero-padded with no range check |
| Dates.DecimalShort | services/cto51_crawler.py:317 | a number below 10^k pads to exactly k digits |
| Text.Trim | services/cto51_crawler.py:172 | the result is no longer than its input and neither starts nor ends with whitespace |
| Text.TrimStartSpec | services/cto51_crawler.py:172 | stripping the front removes exactly a run of leading whitespace: the result is a suffix not starting with whitespace |
| Text.TrimEndSpec | services/cto51_crawler.py:172 | stripping the end removes exactly a run of trailing whitespace: the result is a prefix not ending with whitespace |
| Text.DecimalString | services/cto51_crawler.py:317 | `str(n)` is a non-empty digit string reading back as n |
| Text.ZeroPad | services/cto51_crawler.py:317 | the padded string is at least the width long and reads back as n |
| Text.LessTransitive | core/cache.py:72 | string order is transitive, which the descending sort relies on |
| Extractor.WalkWellFormed | services/cto51_crawler.py:175-274 | every block the walk emits is well formed: a text block is trimmed and passes the length and file-name filter; an image source starts with "http"; a code block is non-blank, trimmed and carries a language |
| Extractor.ChildrenWellFormed | services/cto51_crawler.py:257-265 | every block the walk over a node's children emits is well formed |
| Extractor.TextBlocksSpec | services/cto51_crawler.py:268-273 | a text node gives at most one block, a well-formed text block, exactly when its trimmed text is longer than ten characters and not an image file name |
| Extractor.CodeBlocksSpec | services/cto51_crawler.py:190-202 | a PRE gives at most one block, a well-formed code block holding its trimmed text without line numbers, exactly when that text is not blank |
| Extractor.Walker.ProcessNode | services/cto51_crawler.py:175-274 | pushing into the shared array appends exactly the node's blocks to what was there |
| Extractor.Walker.ProcessChildren | services/cto51_crawler.py:257-265 | the children's blocks are appended in child order |
| Extractor.Evaluate | services/cto51_crawler.py:276-281 | the evaluation returns the blocks of the walk from the container |
| Extractor.ExtractContent | services/cto51_crawler.py:131-296 | the loop computes the extracted content (no container, post-filter, fallback) |
| Extractor.PostFilterKeepsWalk | services/cto51_crawler.py:282-287 | the post-filter drops none of the walk's blocks |
| Extractor.ExtractedContentCases | services/cto51_crawler.py:133-296 | no container gives []; a successful evaluation gives the walk's blocks; a raising one gives one text block of the container's trimmed text, or [] when that is blank; only text, image and code blocks come out |
| Extractor.ElementRules | services/cto51_crawler.py:176-220 | SCRIPT/STYLE/NOSCRIPT and a CODE inside PRE emit nothing; IMG emits an image block exactly when its source starts with "http"; PRE emits at most one code block, exactly when its text without line numbers is not blank |
| Extractor.ImagesComeFromTree | services/cto51_crawler.py:182-188 | every image block names the source of an IMG of the subtree |
| Extractor.NoMediaTextOnly | services/cto51_crawler.py:222-238 | a subtree without IMG, PRE or CODE yields text blocks only |
| Extractor.DocumentOrder | services/cto51_crawler.py:175-278 | a paragraph, a PRE and an IMG yield their blocks in document order; a paragraph of ten characters or fewer is dropped |
| Extractor.ThreeChildren | services/cto51_crawler.py:257-265 | the walk over three children is the concatenation of their walks, in child order |
| Extractor.NameLength | services/cto51_crawler.py:270 | the longest prefix of `[\w\-]` characters |
| Extractor.TokenAt | services/cto51_crawler.py:149 | a found token is one of the alternatives of the language expression and starts at the position; none is found exactly when no alternative from the given one on starts there |
| Extractor.TokenAtFirst | services/cto51_crawler.py:149 | the token found is the first alternative in the expression's order that starts at the position, so "java" is not taken where an earlier alternative matches |
| Extractor.SearchLangSpec | services/cto51_crawler.py:149-152 | the search is empty exactly when no language token occurs, and otherwise names one of the tokens |
| Extractor.ClassLanguageSpec | services/cto51_crawler.py:147-152 | `getCodeLanguage` on a class name gives "" exactly when no token occurs case-insensitively, and otherwise a token |
| Formatter.FirstSummarySource | services/cto51_crawler.py:330-336 | the index of the first text block with a non-empty value, or the length when there is none |
| Formatter.FormatArticle | services/cto51_crawler.py:324-349 | URL, title and content are copied; category and source are the crawler's constants; a summary of at most 203 characters; both timestamps are the current time |
| Formatter.SummarySpec | services/cto51_crawler.py:329-336 | the summary is at most 203 characters; it is "" exactly when no text block has a value; otherwise it is that value, or its first 200 characters plus "..." when longer |
| Formatter.IdDependsOnlyOnUrl | services/cto51_crawler.py:326 | two scrapes of one URL get the same id, of at most 16 characters |
| Formatter.MissingPublishTimeIsToday | services/cto51_crawler.py:300-327 | a missing or empty publish time gives today's date |
| Listing.LastPieceFrom | services/cto51_crawler.py:373 | the last piece of a split is a suffix of the string |
| Listing.TitleOf | services/cto51_crawler.py:377-384 | the title is never empty: the stripped heading, or "无标题" |
| Listing.GetArticleList | services/cto51_crawler.py:351-415 | the loop's counters and candidate list are those of the verdict sequence; a failed listing gives no articles and `all_old` false |
| Listing.VerdictStep | services/cto51_crawler.py:386-402 | one more item adds at most one candidate, one old count or one valid count |
| Listing.ClassifyHistory | services/cto51_crawler.py:386-396 | whether an item is old or skipped does not depend on the crawl history |
| Listing.DecideHistory | services/cto51_crawler.py:386-396 | for an item with a link, being old does not depend on the history, and an item to crawl with no history is one to crawl or already crawled with any history |
| Listing.CandidatesOfExactly | services/cto51_crawler.py:398-402 | the candidates are exactly the to-crawl verdicts |
| Listing.OldCountPositive | services/cto51_crawler.py:386-389 | the old count is positive exactly when some item is old |
| Listing.ValidCountZero | services/cto51_crawler.py:391 | the valid count is zero exactly when every item is old or skipped |
| Listing.ClassifyToCrawl | services/cto51_crawler.py:363-402 | an item is a candidate exactly when it has a link, its id is not old and its URL was not crawled; the candidate carries the URL, title and id |
| Listing.CandidatesExactly | services/cto51_crawler.py:363-412 | the returned articles are exactly the items with a link, an id that is not old and an uncrawled URL |
| Listing.CandidatesNeverOldNorCrawled | services/cto51_crawler.py:386-402 | no returned article is old or already crawled, and each has a title |
| Listing.AllOldMeaning | services/cto51_crawler.py:409-415 | `all_old` holds exactly when the page was read, some item was old and every item was old or skipped |
| Listing.VerdictsHistory | services/cto51_crawler.py:386-396 | the old and valid counts do not depend on the crawl history |
| Listing.AllOldIgnoresHistory | services/cto51_crawler.py:409-412 | `all_old` does not depend on the crawl history |
| Listing.AllOldPageHasNoCandidates | services/cto51_crawler.py:409-412 | an all-old page returns no articles |
| Listing.NoValidNoCandidates | services/cto51_crawler.py:391-402 | with no valid item there is no candidate |
| Listing.EmptyPage | services/cto51_crawler.py:409-415 | an empty page and a failed listing both give `([], false)` |
| Listing.UnparsableAndZeroEligible | services/cto51_crawler.py:371-386 | an id that does not parse and the id 0 are never old |
| Listing.ScanWithoutSlash | services/cto51_crawler.py:373 | after the last separator the split's last piece is the rest of the string |
| Listing.ScanToFirst | services/cto51_crawler.py:373 | the split scan skips positions without a separator |
| Listing.TrimDigits | services/cto51_crawler.py:373 | stripping a digit string leaves it unchanged |
| Listing.ParseDecimal | services/cto51_crawler.py:373 | `int(str(n)) == n` |
| Listing.LastPieceOfPostUrl | services/cto51_crawler.py:373 | the last piece of a post URL after `/posts/` is its digits |
| Listing.PostUrlId | services/cto51_crawler.py:371-375 | a post URL ending in `/posts/` and a number yields that number as id |
| Cache.NewsCache.constructor | core/cache.py:22-27 | a new cache is empty, preparing, with no timestamp and no error |
| Cache.NewsCache.GetStatus | core/cache.py:29-37 | the status string, timestamp, record count and error message |
| Cache.NewsCache.SetStatus | core/cache.py:39-43 | sets the status and always overwrites the error message; records and timestamp unchanged |
| Cache.NewsCache.GetNews | core/cache.py:46-89 | raises "Service error: ..." exactly in the error state, and otherwise answers the query without changing the cache |
| Cache.NewsCache.UpdateCache | core/cache.py:91-104 | replaces the records, sets the timestamp, ends ready with no error |
| Cache.NewsCache.AppendToCache | core/cache.py:106-126 | appends the new records with uncached URLs; timestamp and preparing-to-ready change only when something was added |
| Cache.NewsCache.ClearCache | core/cache.py:128-134 | no records, no timestamp, preparing, no error |
| Cache.Filtered | core/cache.py:55-68 | a record is kept exactly when it passes the category filter and the case-insensitive search in title or non-empty summary |
| Cache.InsertByDate | core/cache.py:72 | inserting keeps every record and adds one |
| Cache.SortByDate | core/cache.py:72 | the sort is a permutation |
| Cache.SliceBound | core/cache.py:80 | a Python slice bound lies within the sequence |
| Cache.QueryFilters | core/cache.py:55-80 | every returned record is cached and passes both filters; `total` is the filtered count |
| Cache.InsertKeepsOrder | core/cache.py:72 | inserting into a newest-first sequence keeps it newest first |
| Cache.SortByDateSpec | core/cache.py:71-74 | the sort is newest first and a permutation |
| Cache.SliceStretch | core/cache.py:78-80 | a slice with bounds `0 <= lo <= hi` is the stretch `[lo, hi)` cut at the end |
| Cache.SliceKeepsOrder | core/cache.py:80 | a slice of a newest-first sequence is newest first |
| Cache.QueryOrdered | core/cache.py:71-80 | a returned page is newest first |
| Cache.PaginateSpec | core/cache.py:77-89 | for page >= 1, the page is the stretch `[(page-1)*size, page*size)`; total, page and size are echoed; `has_next` iff records follow; `has_prev` iff page > 1 |
| Cache.PageStartNonNegative | core/cache.py:78 | a page of at least 1 starts at a non-negative index |
| Cache.HasNextMeansMore | core/cache.py:87 | `has_next` holds exactly when the next page is not empty |
| Cache.FirstPageOfThree | core/cache.py:77-89 | three records, page 1 of size 2: two records, a next page, no previous page |
| Cache.AppendedShape | core/cache.py:110-117 | the old records stay as a prefix, followed by exactly the new records with uncached URLs |
| Cache.AppendedIdempotent | core/cache.py:110-117 | appending the same records twice adds them once |
| Cache.AppendedKeepsUrlsDistinct | core/cache.py:110-117 | distinct URLs stay distinct |
| Cache.AppendNothingNew | core/cache.py:116 | appending nothing new, `[]` in particular, leaves the records unchanged |
| Crawler.PickPublishTime | services/cto51_crawler.py:475-486 | the selector loop computes the publish time |
| Crawler.PickFromFinds | services/cto51_crawler.py:476-484 | from one selector on, the loop ends with a non-blank time exactly when a selector from there on found a non-blank text |
| Crawler.PickFromFirst | services/cto51_crawler.py:476-484 | a non-blank time the loop ends with is the stripped text of the first selector that found a non-blank one |
| Crawler.PublishTimeSpec | services/cto51_crawler.py:474-486 | the publish time is non-blank exactly when a selector found a non-blank text, and is then the first such text, stripped |
| Crawler.PagesFrom | services/cto51_crawler.py:569-641 | from a page on, at least one and at most the remaining pages are read |
| Crawler.Crawler.constructor | services/cto51_crawler.py:18-45 | the history is the set of non-empty URLs of the stored records; no tab is open |
| Crawler.Crawler.SaveData | services/cto51_crawler.py:47-75 | the file becomes the merge of the batch into it |
| Crawler.Crawler.Flush | services/cto51_crawler.py:606-617 | the callback appends the batch to the cache and the file merges it; the cache's timestamp is stamped, and a preparing cache becomes ready with no error, only when something new was appended |
| Crawler.Crawler.CrawlSingleArticle | services/cto51_crawler.py:417-526 | at most two attempts, each timeout, empty content or exception moving on, and exactly two when the result is `None`; the result is that of the first successful attempt; a tab opened by a raising attempt stays open |
| Crawler.Crawler.Record | services/cto51_crawler.py:599-617 | a fetched article joins the list, the batch and the history; a full batch is flushed and cleared |
| Crawler.RecordKeeps | services/cto51_crawler.py:599-605 | an article that leaves the batch short of full joins the list and the pending batch, which still make up the list with the full batches handed on |
| Crawler.RecordFlushes | services/cto51_crawler.py:599-617 | an article that fills the batch makes it one more full batch handed on, and the pending batch starts empty |
| Crawler.BatchesSnoc | services/cto51_crawler.py:606-617 | handing on one more batch merges it into the file and appends it to the cache |
| Crawler.Crawler.Visit | services/cto51_crawler.py:597-617 | one candidate: the list grows by the result of `_crawl_single_article`, or not at all on `None`, and history, batches, file and cache keep in step |
| Crawler.Crawler.CrawlCandidates | services/cto51_crawler.py:592-622 | the article loop appends to the list exactly the successful results of `_crawl_single_article` over the candidates handled, in order, all of them unless interrupted; a `None` adds nothing and does not stop the loop; history, batches, file and cache keep in step |
| Crawler.Crawler.ReadListing | services/cto51_crawler.py:574-576 | the candidates are those `_get_article_list` returns with the crawler's history; whether the page is all old does not depend on the history, and no candidate was crawled before |
| Crawler.PagesStep | services/cto51_crawler.py:578-641 | after a page, the pages from the next on are read exactly when the loop goes on |
| Crawler.Crawler.CrawlPage | services/cto51_crawler.py:569-641 | one round of the page loop: the run of all-old pages is counted; when the loop goes on the pages from the next one are exactly those left to read, and when it stops uninterrupted this page was the last; what is collected stays a prefix of the crawl's harvest, all of it when the loop stops uninterrupted and followed by the next pages' harvest when it goes on |
| Crawler.Crawler.CrawlPagesFrom | services/cto51_crawler.py:569-641 | the loop from a page on reads exactly the pages the stop rules allow from there and completes the harvest; when interrupted, fewer pages and a prefix of it |
| Crawler.Crawler.CrawlPages | services/cto51_crawler.py:565-641 | the page loop reads exactly the pages the stop rules allow and collects exactly the harvest of those pages in fetch order; when interrupted, fewer pages and a prefix of that harvest |
| Crawler.LeftoverBatches | services/cto51_crawler.py:642-653 | handing on a non-empty leftover batch makes the handed-on batches concatenate to all articles, each of batch size except a shorter last one |
| Crawler.Crawler.FlushLeftover | services/cto51_crawler.py:643-696 | a non-empty leftover batch is flushed; the flushed batches concatenate to all articles, each of batch size except a shorter last one |
| Crawler.Crawler.CrawlAllPages | services/cto51_crawler.py:550-720 | the result is the harvest of the pages the stop rules allow, in fetch order (a prefix of it when interrupted); the history grows by exactly the crawled URLs; every article is new and has content; the flushed batches concatenate to the result, all full but the last; file and cache are the merges of those batches; every tab is closed |
| Crawler.PagesHarvestStep | services/cto51_crawler.py:578-641 | the harvest from a page is nothing when the page completes a run of three all-old pages, and otherwise the page's articles followed by the next pages' harvest read with the grown history |
| Crawler.HarvestEndsAtOldRun | services/cto51_crawler.py:578-583 | a page completing the all-old run adds nothing to what was collected |
| Crawler.HarvestAdvance | services/cto51_crawler.py:592-641 | after part of a page's candidates what was collected is a prefix of the harvest; after all of them the next pages' harvest follows |
| Crawler.HarvestSplit | services/cto51_crawler.py:578-641 | the harvest from a page that does not complete the all-old run is the page's articles followed by the next pages' harvest |
| Crawler.HarvestSnoc | services/cto51_crawler.py:597-604 | one more candidate adds its article, or nothing on `None` |
| Crawler.HarvestPrefix | services/cto51_crawler.py:592-604 | the articles of the first candidates are a prefix of the page's articles |
| Crawler.HarvestConcat | services/cto51_crawler.py:592-604 | the articles of two runs of candidates are those of each, in order |
| Crawler.SkippedCandidate | services/cto51_crawler.py:597-601 | a candidate whose fetch gives `None` adds nothing and the later candidates are still fetched |
| Crawler.AlwaysTimingOut | services/cto51_crawler.py:424-455 | an article whose page always times out yields `None` and leaves no tab open |
| Crawler.HarvestMembers | services/cto51_crawler.py:592-604 | a page's articles are exactly the successful results of its candidates, at most one each |
| Crawler.AllOldPageHarvestsNothing | services/cto51_crawler.py:578-604 | an all-old page contributes no article, whatever the history |
| Crawler.OldRunHarvestsNothing | services/cto51_crawler.py:578-583 | all-old pages completing the run contribute no article |
| Crawler.ThreeOldPagesFirst | services/cto51_crawler.py:578-583 | with the first three pages all old, at most three pages are read and no article is returned |
| Crawler.AttemptsFromFacts | services/cto51_crawler.py:429-514 | an article from the retry loop carries the candidate's URL and title, has content and the constant fields |
| Crawler.SingleArticleFacts | services/cto51_crawler.py:417-514 | the same for `_crawl_single_article` |
| Crawler.RetryBound | services/cto51_crawler.py:422-526 | the result is the first attempt's, or else the second's; at most two tabs leak |
| Crawler.SamePageSameContent | services/cto51_crawler.py:488-492 | articles fetched from one listing page share their content |
| Crawler.NoContainerNoArticles | services/cto51_crawler.py:488-502 | a listing page without `.posts-content` yields no article |
| Crawler.PagesWithinSite | services/cto51_crawler.py:636-639 | never more pages than the site has |
| Crawler.PagesFromWithinLimit | services/cto51_crawler.py:628-630 | from page k on, the page limit is respected |
| Crawler.PagesWithinLimit | services/cto51_crawler.py:628-630 | a positive `max_pages` bounds the pages read; a negative one stops after the first |
| Crawler.StopsAtOldRun | services/cto51_crawler.py:578-583 | a run of all-old pages completing the count stops the loop |
| Crawler.StopsAfterOldPagesFrom | services/cto51_crawler.py:578-585 | three all-old pages ahead end the loop at the third at the latest |
| Crawler.StopsAtOldRunMonotone | services/cto51_crawler.py:578-583 | three all-old pages from a page on are read at most |
| Crawler.StopsAfterThreeOldPages | services/cto51_crawler.py:578-583 | three consecutive all-old pages end the crawl at the third of them at the latest |
| Crawler.FreshPageResetsRun | services/cto51_crawler.py:584-641 | a page that is not all old resets the run, and the crawl goes on past it |

## Left out

- Playwright: setting up the browser, opening pages, waiting for selectors, scrolling, clicking the next-page button (`_click_next_page`) and the JavaScript evaluation. They become inputs: the listing items, a next-page flag per page, the `.posts-content` container with a flag for an evaluation that raises, and a function giving each attempt's outcome. Resolving an image's `src` against the page URL is done by the browser and comes in as a plain string.
- Random delays and `time.sleep`: pacing only.
- Reading and writing the JSON file, and `os.makedirs`. The file is a sequence of records. A file that fails to load counts as empty and would then be overwritten; that is not modelled.
- `hashlib.md5`, `datetime.now()` and `isoformat()`: they are the `digest`, `today` and `now` parameters.
- Logging, and the log-only branches such as "No new articles on this page".
- Author extraction (services/cto51_crawler.py:460-472): the author is never part of the returned record.
- The title fallback to the link's text when reading the heading raises (services/cto51_crawler.py:380-381): a heading that cannot be read is an absent heading here.
- The `processedNodes` set of the walk: in a tree each node is visited once, so its check never fires.
- Regular expressions in general: the two date patterns, the image file-name pattern and the language pattern are hand-coded. Only ASCII whitespace, letters and digits are recognised. Python's `int` accepting underscores and non-ASCII digits is not modelled.
- Exceptions raised by the batch callback or by `_save_data`, and their effect of skipping the save in the interrupt and error handlers. pydantic validation of the records is left out with them.
- Crawler.Crawler.CrawlAllPages: a KeyboardInterrupt or other exception is modelled only just before an article fetch (`abortAt`), not in the middle of a fetch, a flush or page turning. Exceptions escaping `_get_article_list` are caught inside it. With an interrupt the number of pages read is only bounded above.
- Cache.NewsCache.UpdateCache: the cache keeps the caller's own list, so later changes to that list show in the cache. Records are values here, so this aliasing is not modelled, and neither is the error branch, which cannot be reached without an exception from the assignment.
- Cache.SortByDate: stability among records with equal dates is built into the insertion but not stated as a lemma. The `except: pass` around the sort cannot be reached, because dates are strings.
- Text.Lower, Text.Trim and Extractor.KeepsText work on ASCII only. Python's `str.lower()` in the cache search also folds non-ASCII letters. Python's `str.strip()` and JavaScript's `trim()` also strip Unicode whitespace such as the no-break space. JavaScript's `text.length > 10` counts UTF-16 code units, whereas the model counts characters.
- The site is a finite sequence of page views, and the page loop stops after its last one even when that page offers a clickable next button (`Crawler.GoesOn`). A site that always offers another page, crawled with no `max_pages` limit, cannot be expressed; `Crawler.PagesWithinSite` relies on this bound.
- The `threading.RLock`, the scheduler, the global cache instance, the FastAPI routes and the configuration: calls are modelled one at a time.
