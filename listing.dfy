/** `_get_article_list` (services/cto51_crawler.py): one listing page is split
    into old articles, articles already crawled and articles to crawl. The
    page's list items are an input; waiting for the list, scrolling and the
    selector queries are not part of this model. */
module Listing {
  import opened News
  import opened Text

  /** The title given to an article whose heading is missing or blank. */
  const Untitled: string := "无标题"

  /** The separator the article id follows in a post URL. */
  const PostsMarker: string := "/posts/"

  /** One `li` of the listing as the browser shows it: the `href` of its first
      link to a post (`None` when it has none) and the text of its
      `h3.title-h3` heading (`None` when it has none); `Unreadable` is an item
      whose parsing raised, which the loop logs and skips. */
  datatype ListItem = Item(link: Option<string>, heading: Option<string>) | Unreadable

  /** The listing page: its items, or `ListingFailed` when the list did not
      appear (the outer `except`). */
  datatype Listing = ListingFailed | Listed(items: seq<ListItem>)

  /** An entry of `article_elements`. */
  datatype Candidate = Candidate(url: string, title: string, articleId: Option<int>)

  /** The returned dictionary: `articles` and `all_old`. */
  datatype ListResult = ListResult(articles: seq<Candidate>, allOld: bool)

  /** How the loop treats one item. */
  datatype Verdict = Skipped | Old | Crawled | ToCrawl(c: Candidate)

  // ------------------------------------------------------------------ the id

  /** `sep` occurs in `s` at position `i`. */
  predicate SepAt(s: string, sep: string, i: nat) {
    i + |sep| <= |s| && s[i..i + |sep|] == sep
  }

  /** Scans `s` from `i` for non-overlapping occurrences of `sep`, left to right;
      `start` is where the current piece begins. The result is the last piece. */
  function LastPieceFrom(s: string, sep: string, start: nat, i: nat): (r: string)
    requires sep != [] && start <= i <= |s|
    ensures |r| <= |s| - start && r == s[|s| - |r|..]
    decreases |s| - i
  {
    if i + |sep| > |s| then s[start..]
    else if SepAt(s, sep, i) then LastPieceFrom(s, sep, i + |sep|, i + |sep|)
    else LastPieceFrom(s, sep, start, i + 1)
  }

  /** Python's `s.split(sep)[-1]`. */
  function LastPiece(s: string, sep: string): string
    requires sep != []
  {
    LastPieceFrom(s, sep, 0, 0)
  }

  /** `int(s)` on ASCII digits with an optional sign and surrounding whitespace;
      `None` where Python raises. */
  function ParseInt(s: string): Option<int> {
    var t := Trim(s);
    if t != [] && (t[0] == '-' || t[0] == '+') then
      if |t| > 1 && AllDigits(t[1..]) then
        Some(if t[0] == '-' then -(DecimalValue(t[1..]) as int) else DecimalValue(t[1..]))
      else None
    else if t != [] && AllDigits(t) then Some(DecimalValue(t))
    else None
  }

  /** `int(url.split('/posts/')[-1])`, `None` when it raises. */
  function ArticleId(url: string): Option<int> {
    ParseInt(LastPiece(url, PostsMarker))
  }

  /** `article_id and article_id <= min_article_id`: a missing id and the id 0
      are both falsy, so neither is old. */
  predicate IsOld(id: Option<int>, minId: int) {
    id.Some? && id.value != 0 && id.value <= minId
  }

  /** The heading text stripped, or "无标题" when that is empty. */
  function TitleOf(heading: Option<string>): (r: string)
    ensures r != ""
    ensures heading.Some? && Trim(heading.value) != "" ==> r == Trim(heading.value)
  {
    var t := if heading.Some? then Trim(heading.value) else "";
    if t == "" then Untitled else t
  }

  // ---------------------------------------------------------- specification

  /** The verdict on an item with a link to `url`, whose id parsed to `id` and
      whose title is `title`. */
  function Decide(url: string, id: Option<int>, title: string, scraped: set<string>, minId: int): Verdict {
    if IsOld(id, minId) then Old
    else if url in scraped then Crawled
    else ToCrawl(Candidate(url, title, id))
  }

  /** The verdict on one list item: skipped without a link, else decided on
      its URL, parsed id and title. */
  function Classify(item: ListItem, scraped: set<string>, minId: int): Verdict {
    match item
    case Unreadable => Skipped
    case Item(link, heading) =>
      if link.None? then Skipped
      else Decide(link.value, ArticleId(link.value), TitleOf(heading), scraped, minId)
  }

  /** The verdict on every item of the page, in page order. */
  function Verdicts(items: seq<ListItem>, scraped: set<string>, minId: int): seq<Verdict> {
    seq(|items|, i requires 0 <= i < |items| => Classify(items[i], scraped, minId))
  }

  /** `article_elements`: the candidates among the verdicts, in order. */
  function CandidatesOf(vs: seq<Verdict>): seq<Candidate>
    decreases |vs|
  {
    if vs == [] then []
    else CandidatesOf(vs[..|vs| - 1]) + (if vs[|vs| - 1].ToCrawl? then [vs[|vs| - 1].c] else [])
  }

  /** `old_articles_count`. */
  function OldCount(vs: seq<Verdict>): nat
    decreases |vs|
  {
    if vs == [] then 0 else OldCount(vs[..|vs| - 1]) + (if vs[|vs| - 1].Old? then 1 else 0)
  }

  /** `total_valid_articles`: the items that are neither skipped nor old, crawled or not. */
  function ValidCount(vs: seq<Verdict>): nat
    decreases |vs|
  {
    if vs == [] then 0
    else ValidCount(vs[..|vs| - 1]) + (if vs[|vs| - 1].Crawled? || vs[|vs| - 1].ToCrawl? then 1 else 0)
  }

  /** The value `_get_article_list` returns for a page. */
  function ListArticles(listing: Listing, scraped: set<string>, minId: int): ListResult {
    match listing
    case ListingFailed => ListResult([], false)
    case Listed(items) =>
      var vs := Verdicts(items, scraped, minId);
      ListResult(CandidatesOf(vs), ValidCount(vs) == 0 && OldCount(vs) > 0)
  }

  // ------------------------------------------------------------------ the loop

  method GetArticleList(listing: Listing, scraped: set<string>, minId: int) returns (r: ListResult)
    ensures r == ListArticles(listing, scraped, minId)
  {
    if listing.ListingFailed? {
      return ListResult([], false);
    }
    var items := listing.items;
    var articles: seq<Candidate> := [];
    var oldCount: nat := 0;
    var validCount: nat := 0;
    ghost var vs := Verdicts(items, scraped, minId);
    for k := 0 to |items|
      invariant articles == CandidatesOf(vs[..k])
      invariant oldCount == OldCount(vs[..k])
      invariant validCount == ValidCount(vs[..k])
    {
      VerdictStep(vs, k);
      assert vs[k] == Classify(items[k], scraped, minId);
      var item := items[k];
      if item.Unreadable? || item.link.None? {
        continue;
      }
      var url := item.link.value;
      var id := ArticleId(url);
      var title := TitleOf(item.heading);
      if IsOld(id, minId) {
        oldCount := oldCount + 1;
        continue;
      }
      validCount := validCount + 1;
      if url in scraped {
        continue;
      }
      articles := articles + [Candidate(url, title, id)];
    }
    assert vs[..|items|] == vs;
    return ListResult(articles, validCount == 0 && oldCount > 0);
  }

  /** The three tallies after one more verdict. */
  lemma VerdictStep(vs: seq<Verdict>, k: nat)
    requires k < |vs|
    ensures CandidatesOf(vs[..k + 1]) == CandidatesOf(vs[..k]) + (if vs[k].ToCrawl? then [vs[k].c] else [])
    ensures OldCount(vs[..k + 1]) == OldCount(vs[..k]) + (if vs[k].Old? then 1 else 0)
    ensures ValidCount(vs[..k + 1]) == ValidCount(vs[..k]) + (if vs[k].Crawled? || vs[k].ToCrawl? then 1 else 0)
  {
    assert vs[..k + 1][..k] == vs[..k];
  }

  // ------------------------------------------------------------ properties

  /** Whether a linked item is old does not depend on the crawl history; the
      history only decides between crawled and new. */
  lemma DecideHistory(url: string, id: Option<int>, title: string, scraped: set<string>, minId: int)
    ensures Decide(url, id, title, scraped, minId).Old? == Decide(url, id, title, {}, minId).Old?
    ensures !Decide(url, id, title, scraped, minId).Skipped?
    ensures Decide(url, id, title, {}, minId).ToCrawl? ==
      (Decide(url, id, title, scraped, minId).ToCrawl? || Decide(url, id, title, scraped, minId).Crawled?)
  {
  }

  /** Whether an item is old, counted as valid or skipped does not depend on
      the crawl history; the history only decides between crawled and new. */
  lemma ClassifyHistory(item: ListItem, scraped: set<string>, minId: int)
    ensures Classify(item, scraped, minId).Old? == Classify(item, {}, minId).Old?
    ensures Classify(item, scraped, minId).Skipped? == Classify(item, {}, minId).Skipped?
    ensures Classify(item, {}, minId).ToCrawl? == (Classify(item, scraped, minId).ToCrawl? || Classify(item, scraped, minId).Crawled?)
  {
    if item.Item? && item.link.Some? {
      var url := item.link.value;
      DecideHistory(url, ArticleId(url), TitleOf(item.heading), scraped, minId);
    }
  }

  lemma {:induction false} CandidatesOfExactly(vs: seq<Verdict>)
    ensures forall c :: c in CandidatesOf(vs) <==> ToCrawl(c) in vs
  {
    if vs != [] {
      var init := vs[..|vs| - 1];
      CandidatesOfExactly(init);
      assert vs == init + [vs[|vs| - 1]];
    }
  }

  lemma {:induction false} OldCountPositive(vs: seq<Verdict>)
    ensures OldCount(vs) > 0 <==> exists i :: 0 <= i < |vs| && vs[i].Old?
  {
    if vs != [] {
      var init := vs[..|vs| - 1];
      OldCountPositive(init);
      if exists i :: 0 <= i < |init| && init[i].Old? {
        var i :| 0 <= i < |init| && init[i].Old?;
        assert vs[i] == init[i];
      }
      if exists i :: 0 <= i < |vs| && vs[i].Old? {
        var i :| 0 <= i < |vs| && vs[i].Old?;
        if i < |init| { assert init[i] == vs[i]; }
      }
    }
  }

  lemma {:induction false} ValidCountZero(vs: seq<Verdict>)
    ensures ValidCount(vs) == 0 <==> forall i :: 0 <= i < |vs| ==> vs[i].Old? || vs[i].Skipped?
  {
    if vs != [] {
      var init := vs[..|vs| - 1];
      ValidCountZero(init);
      if ValidCount(vs) == 0 {
        forall i | 0 <= i < |vs| ensures vs[i].Old? || vs[i].Skipped? {
          if i < |init| { assert init[i] == vs[i]; }
        }
      }
      if forall i :: 0 <= i < |vs| ==> vs[i].Old? || vs[i].Skipped? {
        forall i | 0 <= i < |init| ensures init[i].Old? || init[i].Skipped? {
          assert vs[i] == init[i];
        }
      }
    }
  }

  /** The verdict on a single item: a candidate exactly for an item with a link
      whose id is not old and whose URL was not crawled before, carrying that
      URL, the item's title and the parsed id. */
  lemma ClassifyToCrawl(item: ListItem, scraped: set<string>, minId: int, c: Candidate)
    ensures Classify(item, scraped, minId) == ToCrawl(c) <==>
      item.Item? && item.link == Some(c.url) && c.title == TitleOf(item.heading) &&
      c.articleId == ArticleId(c.url) && !IsOld(c.articleId, minId) && c.url !in scraped
  {
  }

  /** The candidates of a page are exactly its items with a link, an id that is
      not old and a URL not crawled before, each with its title and parsed id. */
  lemma CandidatesExactly(items: seq<ListItem>, scraped: set<string>, minId: int)
    ensures forall c :: c in ListArticles(Listed(items), scraped, minId).articles <==>
      exists h :: Item(Some(c.url), h) in items && c.title == TitleOf(h) &&
        c.articleId == ArticleId(c.url) && !IsOld(c.articleId, minId) && c.url !in scraped
  {
    var vs := Verdicts(items, scraped, minId);
    CandidatesOfExactly(vs);
    forall c ensures c in CandidatesOf(vs) <==>
      exists h :: Item(Some(c.url), h) in items && c.title == TitleOf(h) &&
        c.articleId == ArticleId(c.url) && !IsOld(c.articleId, minId) && c.url !in scraped
    {
      if c in CandidatesOf(vs) {
        var i :| 0 <= i < |vs| && vs[i] == ToCrawl(c);
        ClassifyToCrawl(items[i], scraped, minId, c);
        assert Item(Some(c.url), items[i].heading) == items[i];
      }
      if exists h :: Item(Some(c.url), h) in items && c.title == TitleOf(h) &&
          c.articleId == ArticleId(c.url) && !IsOld(c.articleId, minId) && c.url !in scraped {
        var h :| Item(Some(c.url), h) in items && c.title == TitleOf(h) &&
          c.articleId == ArticleId(c.url) && !IsOld(c.articleId, minId) && c.url !in scraped;
        var i :| 0 <= i < |items| && items[i] == Item(Some(c.url), h);
        ClassifyToCrawl(items[i], scraped, minId, c);
        assert vs[i] == ToCrawl(c);
      }
    }
  }

  /** No returned candidate is old or already crawled, and every one has a title. */
  lemma CandidatesNeverOldNorCrawled(listing: Listing, scraped: set<string>, minId: int)
    ensures forall c :: c in ListArticles(listing, scraped, minId).articles ==>
      !IsOld(c.articleId, minId) && c.url !in scraped && c.title != ""
  {
    if listing.Listed? {
      CandidatesExactly(listing.items, scraped, minId);
    }
  }

  /** `all_old` holds exactly when the page was read, at least one item was old
      and every item was old or skipped. */
  lemma AllOldMeaning(listing: Listing, scraped: set<string>, minId: int)
    ensures ListArticles(listing, scraped, minId).allOld <==>
      listing.Listed? &&
      (exists i :: 0 <= i < |listing.items| && Classify(listing.items[i], scraped, minId).Old?) &&
      (forall i :: 0 <= i < |listing.items| ==>
        Classify(listing.items[i], scraped, minId).Old? || Classify(listing.items[i], scraped, minId).Skipped?)
  {
    if listing.Listed? {
      var vs := Verdicts(listing.items, scraped, minId);
      assert forall i :: 0 <= i < |vs| ==> vs[i] == Classify(listing.items[i], scraped, minId);
      OldCountPositive(vs);
      ValidCountZero(vs);
    }
  }

  /** The verdicts on one page under two crawl histories agree on which items
      are old and which are skipped. */
  lemma {:induction false} VerdictsHistory(items: seq<ListItem>, scraped: set<string>, minId: int)
    ensures OldCount(Verdicts(items, scraped, minId)) == OldCount(Verdicts(items, {}, minId))
    ensures ValidCount(Verdicts(items, scraped, minId)) == ValidCount(Verdicts(items, {}, minId))
    decreases |items|
  {
    if items != [] {
      var init := items[..|items| - 1];
      var vs := Verdicts(items, scraped, minId);
      var ws := Verdicts(items, {}, minId);
      VerdictsHistory(init, scraped, minId);
      assert vs[..|items| - 1] == Verdicts(init, scraped, minId);
      assert ws[..|items| - 1] == Verdicts(init, {}, minId);
      ClassifyHistory(items[|items| - 1], scraped, minId);
    }
  }

  /** `all_old` does not depend on the crawl history. */
  lemma AllOldIgnoresHistory(listing: Listing, scraped: set<string>, minId: int)
    ensures ListArticles(listing, scraped, minId).allOld == ListArticles(listing, {}, minId).allOld
  {
    if listing.Listed? {
      VerdictsHistory(listing.items, scraped, minId);
    }
  }

  /** An all-old page returns no candidates. */
  lemma AllOldPageHasNoCandidates(listing: Listing, scraped: set<string>, minId: int)
    ensures ListArticles(listing, scraped, minId).allOld ==> ListArticles(listing, scraped, minId).articles == []
  {
    if listing.Listed? {
      var vs := Verdicts(listing.items, scraped, minId);
      if ValidCount(vs) == 0 {
        NoValidNoCandidates(vs);
      }
    }
  }

  lemma {:induction false} NoValidNoCandidates(vs: seq<Verdict>)
    requires ValidCount(vs) == 0
    ensures CandidatesOf(vs) == []
  {
    if vs != [] {
      NoValidNoCandidates(vs[..|vs| - 1]);
    }
  }

  /** An empty page and a failed listing both give no candidates and `all_old = false`. */
  lemma EmptyPage(scraped: set<string>, minId: int)
    ensures ListArticles(Listed([]), scraped, minId) == ListResult([], false)
    ensures ListArticles(ListingFailed, scraped, minId) == ListResult([], false)
  {
  }

  /** An id that does not parse and the id 0 never make an item old. */
  lemma UnparsableAndZeroEligible(minId: int)
    ensures !IsOld(None, minId) && !IsOld(Some(0), minId)
  {
  }

  lemma {:induction false} ScanWithoutSlash(s: string, sep: string, start: nat, i: nat)
    requires sep != [] && sep[0] == '/' && start <= i <= |s|
    requires forall j :: i <= j < |s| ==> s[j] != '/'
    ensures LastPieceFrom(s, sep, start, i) == s[start..]
    decreases |s| - i
  {
    if i + |sep| <= |s| {
      assert s[i..i + |sep|][0] == s[i];
      ScanWithoutSlash(s, sep, start, i + 1);
    }
  }

  lemma {:induction false} ScanToFirst(s: string, sep: string, i: nat, k: nat)
    requires sep != [] && i <= k && k + |sep| <= |s|
    requires forall j :: i <= j < k ==> !SepAt(s, sep, j)
    ensures LastPieceFrom(s, sep, 0, i) == LastPieceFrom(s, sep, 0, k)
    decreases k - i
  {
    if i < k {
      ScanToFirst(s, sep, i + 1, k);
    }
  }

  lemma TrimDigits(s: string)
    requires AllDigits(s) && s != []
    ensures Trim(s) == s
  {
    assert !IsSpace(s[0]) && TrimStart(s) == s;
    assert !IsSpace(s[|s| - 1]);
  }

  /** `int(str(n)) == n`. */
  lemma ParseDecimal(n: nat)
    ensures ParseInt(DecimalString(n)) == Some(n)
  {
    var digits := DecimalString(n);
    TrimDigits(digits);
    assert digits[0] != '-' && digits[0] != '+';
  }

  /** The last piece of `prefix + "/posts/" + digits`, where the marker first
      occurs after `prefix`, is `digits`. */
  lemma LastPieceOfPostUrl(prefix: string, digits: string)
    requires AllDigits(digits)
    requires forall j :: 0 <= j < |prefix| ==> !SepAt(prefix + PostsMarker, PostsMarker, j)
    ensures LastPiece(prefix + PostsMarker + digits, PostsMarker) == digits
  {
    var s := prefix + PostsMarker + digits;
    var k := |prefix|;
    forall j | 0 <= j < k ensures !SepAt(s, PostsMarker, j) {
      assert !SepAt(prefix + PostsMarker, PostsMarker, j);
      assert s[j..j + |PostsMarker|] == (prefix + PostsMarker)[j..j + |PostsMarker|];
    }
    ScanToFirst(s, PostsMarker, 0, k);
    assert s[k..k + |PostsMarker|] == PostsMarker;
    var e := k + |PostsMarker|;
    forall j | e <= j < |s| ensures s[j] != '/' {
      assert s[j] == digits[j - e];
    }
    ScanWithoutSlash(s, PostsMarker, e, e);
    assert s[e..] == digits;
  }

  /** A post URL `prefix + "/posts/" + n`, where the marker first occurs after
      `prefix`, yields the id `n`. */
  lemma PostUrlId(prefix: string, n: nat)
    requires forall j :: 0 <= j < |prefix| ==> !SepAt(prefix + PostsMarker, PostsMarker, j)
    ensures ArticleId(prefix + PostsMarker + DecimalString(n)) == Some(n)
  {
    LastPieceOfPostUrl(prefix, DecimalString(n));
    ParseDecimal(n);
  }
}
