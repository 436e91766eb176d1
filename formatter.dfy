/** `_format_article` (services/cto51_crawler.py): turn the scraped fields of
    one article into the stored record. The MD5 digest of the URL and the
    clock are parameters: `digest` stands for `hashlib.md5(url).hexdigest()`,
    `today` for `datetime.now().strftime('%Y-%m-%d')` and `now` for
    `datetime.now().isoformat()`. */
module Formatter {
  import opened News
  import opened Text
  import Dates

  /** The crawler's constant `self.category` and `self.source`. */
  const Category: string := "技术文章"
  const Source: string := "51CTO"

  /** The summary keeps this many characters of the first text block. */
  const SummaryLength: nat := 200

  /** `article_data`: what one successful attempt scraped. */
  datatype ArticleData = ArticleData(title: string, url: string, publishTime: Option<string>, content: seq<ContentBlock>)

  /** A text block with a non-empty value: the kind the summary is taken from. */
  predicate IsSummarySource(b: ContentBlock) {
    b.kind == Text && b.value != ""
  }

  /** The index of the first summary source in `content`, or `|content|` when there is none. */
  function FirstSummarySource(content: seq<ContentBlock>): (k: nat)
    ensures k <= |content|
    ensures k < |content| ==> IsSummarySource(content[k])
    ensures forall i :: 0 <= i < k ==> !IsSummarySource(content[i])
  {
    if content == [] then 0
    else if IsSummarySource(content[0]) then 0
    else 1 + FirstSummarySource(content[1..])
  }

  /** `text[:200] + ('...' if len(text) > 200 else '')`. */
  function Clip(text: string): string {
    Take(text, SummaryLength) + (if |text| > SummaryLength then "..." else "")
  }

  /** The summary: the first non-empty text block, clipped; "" when there is none. */
  function Summary(content: seq<ContentBlock>): string {
    var k := FirstSummarySource(content);
    if k < |content| then Clip(content[k].value) else ""
  }

  /** `hexdigest()[:16]`: the id depends on the URL alone. */
  function ArticleId(url: string, digest: string -> string): string {
    Take(digest(url), 16)
  }

  /** The date field: a missing or empty publish time falls back to today. */
  function ArticleDate(publishTime: Option<string>, today: string): string {
    Dates.StandardizeDate(if publishTime.Some? then publishTime.value else "", today)
  }

  function FormatArticle(d: ArticleData, digest: string -> string, today: string, now: string): (r: NewsArticle)
    ensures r.url == d.url && r.title == d.title && r.content == d.content
    ensures r.category == Some(Category) && r.source == Some(Source)
    ensures r.summary.Some? && |r.summary.value| <= SummaryLength + 3
    ensures r.createdAt == r.updatedAt == Some(now)
  {
    SummarySpec(d.content);
    NewsArticle(
      id := Some(ArticleId(d.url, digest)),
      title := d.title,
      date := ArticleDate(d.publishTime, today),
      url := d.url,
      content := d.content,
      category := Some(Category),
      summary := Some(Summary(d.content)),
      source := Some(Source),
      createdAt := Some(now),
      updatedAt := Some(now))
  }

  // ---------------------------------------------------------------- properties

  /** The summary is at most 203 characters; it is "" exactly when no text block
      has a non-empty value; otherwise it is that first block's value when the
      value has at most 200 characters, and its first 200 characters followed by
      "..." when it is longer. */
  lemma SummarySpec(content: seq<ContentBlock>)
    ensures |Summary(content)| <= SummaryLength + 3
    ensures Summary(content) == "" <==> forall b :: b in content ==> !IsSummarySource(b)
    ensures Summary(content) != "" ==>
      var v := content[FirstSummarySource(content)].value;
      (|v| <= SummaryLength ==> Summary(content) == v) &&
      (|v| > SummaryLength ==> Summary(content) == v[..SummaryLength] + "...")
  {
    var k := FirstSummarySource(content);
    if k == |content| {
      forall b | b in content ensures !IsSummarySource(b) {
        var i :| 0 <= i < |content| && content[i] == b;
      }
    } else {
      assert content[k] in content;
    }
  }

  /** Two scrapes of the same URL get the same id, whatever else differs. */
  lemma IdDependsOnlyOnUrl(d1: ArticleData, d2: ArticleData, digest: string -> string, t1: string, t2: string, n1: string, n2: string)
    requires d1.url == d2.url
    ensures FormatArticle(d1, digest, t1, n1).id == FormatArticle(d2, digest, t2, n2).id
    ensures FormatArticle(d1, digest, t1, n1).id.Some? && |FormatArticle(d1, digest, t1, n1).id.value| <= 16
  {
  }

  /** A publish time that was never found and one that was found empty both give today's date. */
  lemma MissingPublishTimeIsToday(today: string)
    ensures ArticleDate(None, today) == today && ArticleDate(Some(""), today) == today
  {
  }
}
