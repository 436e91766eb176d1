/** Record shapes shared by the crawler and the cache (models/news.py), and the
    two small wrappers the model uses for absent values and raised errors. */
module News {

  /** Python's `None` or a value. */
  datatype Option<+T> = None | Some(value: T)

  /** A call that either returns a value or raises an exception with a message. */
  datatype Result<+T> = Ok(value: T) | Err(error: string)

  /** `ContentType`: the kinds a content block may carry. */
  datatype ContentKind = Text | Image | Code | Video {
    /** The string the enum member stands for. */
    function Name(): string {
      match this
      case Text => "text"
      case Image => "image"
      case Code => "code"
      case Video => "video"
    }
  }

  /** `NewsContentBlock`: one unit of article content; `language` is only set on code blocks. */
  datatype ContentBlock = ContentBlock(kind: ContentKind, value: string, language: Option<string>)

  function TextBlock(s: string): ContentBlock { ContentBlock(Text, s, None) }
  function ImageBlock(src: string): ContentBlock { ContentBlock(Image, src, None) }
  function CodeBlock(code: string, lang: string): ContentBlock { ContentBlock(Code, code, Some(lang)) }

  /** `NewsArticle`: the canonical record; `url` is its identity key. The two
      timestamps are ISO strings handed in by the caller. */
  datatype NewsArticle = NewsArticle(
    id: Option<string>,
    title: string,
    date: string,
    url: string,
    content: seq<ContentBlock>,
    category: Option<string>,
    summary: Option<string>,
    source: Option<string>,
    createdAt: Option<string>,
    updatedAt: Option<string>)

  /** `NewsResponse`: one page of a cache query with its pagination metadata. */
  datatype NewsResponse = NewsResponse(
    articles: seq<NewsArticle>,
    total: int,
    page: int,
    pageSize: int,
    hasNext: bool,
    hasPrev: bool)

  /** The set of URLs carried by a sequence of articles. */
  function Urls(s: seq<NewsArticle>): set<string> {
    set a | a in s :: a.url
  }

  /** No two articles of `s` share a URL. */
  predicate DistinctUrls(s: seq<NewsArticle>) {
    forall i, j :: 0 <= i < j < |s| ==> s[i].url != s[j].url
  }

  /** The records of `batch` whose URL is not in `urls`, in batch order. */
  function Unseen(batch: seq<NewsArticle>, urls: set<string>): (r: seq<NewsArticle>)
    ensures |r| <= |batch|
    ensures forall a :: a in r <==> a in batch && a.url !in urls
  {
    if batch == [] then []
    else
      var last := batch[|batch| - 1];
      Unseen(batch[..|batch| - 1], urls) + (if last.url in urls then [] else [last])
  }

  lemma {:induction false} UnseenEmpty(batch: seq<NewsArticle>, urls: set<string>)
    requires forall a :: a in batch ==> a.url in urls
    ensures Unseen(batch, urls) == []
  {
    if batch != [] {
      assert batch[|batch| - 1] in batch;
      UnseenEmpty(batch[..|batch| - 1], urls);
    }
  }

  lemma {:induction false} UnseenAll(batch: seq<NewsArticle>, urls: set<string>)
    requires forall a :: a in batch ==> a.url !in urls
    ensures Unseen(batch, urls) == batch
  {
    if batch != [] {
      var init, last := batch[..|batch| - 1], batch[|batch| - 1];
      assert batch == init + [last];
      assert last.url !in urls;
      UnseenAll(init, urls);
    }
  }

  lemma {:induction false} UnseenDistinct(batch: seq<NewsArticle>, urls: set<string>)
    requires DistinctUrls(batch)
    ensures DistinctUrls(Unseen(batch, urls))
  {
    if batch != [] {
      var init := batch[..|batch| - 1];
      var last := batch[|batch| - 1];
      UnseenDistinct(init, urls);
      var r := Unseen(init, urls);
      forall a | a in r ensures a.url != last.url {
        var i :| 0 <= i < |init| && init[i] == a;
      }
    }
  }

  /** Concatenation of a sequence of batches. */
  function Flatten<T>(bs: seq<seq<T>>): (r: seq<T>)
    ensures |bs| == 1 ==> r == bs[0]
  {
    if bs == [] then [] else Flatten(bs[..|bs| - 1]) + bs[|bs| - 1]
  }

  lemma FlattenAppend<T>(bs: seq<seq<T>>, b: seq<T>)
    ensures Flatten(bs + [b]) == Flatten(bs) + b
  {
    assert (bs + [b])[..|bs|] == bs;
  }
}
