/** The merge inside `_save_data` (services/cto51_crawler.py): the JSON data
    file is a sequence of article records; a batch is merged into it by URL.
    Reading and writing the file is not part of this model. */
module Store {
  import opened News

  /** `existing_urls`: the URLs of the stored records, skipping empty ones
      (`if article.get('url')`). */
  function StoredUrls(stored: seq<NewsArticle>): set<string> {
    set a | a in stored && a.url != "" :: a.url
  }

  /** `existing_articles + new_articles`, written only when `new_articles` is
      non-empty; when it is empty the file keeps `stored`, which is the same value. */
  function Merge(stored: seq<NewsArticle>, batch: seq<NewsArticle>): seq<NewsArticle> {
    var added := Unseen(batch, StoredUrls(stored));
    if added == [] then stored else stored + added
  }

  /** The file after a sequence of saves. */
  function MergeAll(stored: seq<NewsArticle>, batches: seq<seq<NewsArticle>>): seq<NewsArticle>
    decreases |batches|
  {
    if batches == [] then stored
    else Merge(MergeAll(stored, batches[..|batches| - 1]), batches[|batches| - 1])
  }

  // ---------------------------------------------------------------- properties

  /** Merging keeps the stored records unchanged as a prefix and appends exactly
      the batch records whose URL was not stored, in batch order. */
  lemma MergeShape(stored: seq<NewsArticle>, batch: seq<NewsArticle>)
    ensures Merge(stored, batch) == stored + Unseen(batch, StoredUrls(stored))
    ensures forall a :: a in Merge(stored, batch)[|stored|..] <==> a in batch && a.url !in StoredUrls(stored)
  {
  }

  /** Every non-empty URL of the stored records is still stored after a merge. */
  lemma {:induction false} UnseenUrlsStored(stored: seq<NewsArticle>, batch: seq<NewsArticle>)
    requires forall a :: a in batch ==> a.url != ""
    ensures forall a :: a in batch ==> a.url in StoredUrls(Merge(stored, batch))
  {
    var merged := Merge(stored, batch);
    forall a | a in batch ensures a.url in StoredUrls(merged) {
      if a.url in StoredUrls(stored) {
        var b :| b in stored && b.url != "" && b.url == a.url;
        assert b in merged;
      } else {
        assert a in Unseen(batch, StoredUrls(stored));
        assert a in merged;
      }
    }
  }

  /** Saving the same batch twice is the same as saving it once: the second
      merge finds nothing new and leaves the file as it is. The batch's URLs
      must be non-empty, because empty URLs are never recorded as stored. */
  lemma MergeIdempotent(stored: seq<NewsArticle>, batch: seq<NewsArticle>)
    requires forall a :: a in batch ==> a.url != ""
    ensures Merge(Merge(stored, batch), batch) == Merge(stored, batch)
  {
    UnseenUrlsStored(stored, batch);
    UnseenEmpty(batch, StoredUrls(Merge(stored, batch)));
  }

  /** A record with an empty URL is appended again on every save. */
  lemma EmptyUrlIsAlwaysNew(stored: seq<NewsArticle>, a: NewsArticle)
    requires a.url == ""
    ensures Merge(stored, [a]) == stored + [a]
  {
    assert [a][..0] == [];
  }

  /** Duplicates inside one batch are not collapsed: two records with the same
      unseen URL are both appended. */
  lemma BatchDuplicatesKept(stored: seq<NewsArticle>, a: NewsArticle)
    requires a.url !in StoredUrls(stored)
    ensures Merge(stored, [a, a]) == stored + [a, a]
  {
    assert [a, a][..1] == [a] && [a][..0] == [];
  }

  /** With distinct, non-empty URLs in the file and distinct URLs in the batch,
      the file after the merge still holds every URL at most once. */
  lemma MergeKeepsUrlsDistinct(stored: seq<NewsArticle>, batch: seq<NewsArticle>)
    requires DistinctUrls(stored) && DistinctUrls(batch)
    requires forall a :: a in stored ==> a.url != ""
    ensures DistinctUrls(Merge(stored, batch))
  {
    var added := Unseen(batch, StoredUrls(stored));
    UnseenDistinct(batch, StoredUrls(stored));
    var r := stored + added;
    forall i, j | 0 <= i < j < |r| ensures r[i].url != r[j].url {
      if j >= |stored| && i < |stored| {
        assert r[i] in stored && r[j] in added;
      } else if i >= |stored| {
        assert r[i] == added[i - |stored|] && r[j] == added[j - |stored|];
      }
    }
  }

  lemma {:induction false} DistinctCount(s: seq<NewsArticle>)
    requires DistinctUrls(s)
    ensures |Urls(s)| == |s|
  {
    if s != [] {
      var init, last := s[..|s| - 1], s[|s| - 1];
      assert DistinctUrls(init) by {
        forall i, j | 0 <= i < j < |init| ensures init[i].url != init[j].url {
          assert init[i] == s[i] && init[j] == s[j];
        }
      }
      DistinctCount(init);
      assert last.url !in Urls(init) by {
        forall a | a in init ensures a.url != last.url {
          var i :| 0 <= i < |init| && init[i] == a;
          assert s[i] == a;
        }
      }
      assert Urls(s) == Urls(init) + {last.url} by {
        assert s == init + [last];
      }
    }
  }

  /** The first save into an empty file writes the batch as it is. */
  lemma FirstSave(b: seq<NewsArticle>)
    ensures MergeAll([], [b]) == b
  {
    assert StoredUrls([]) == {};
    UnseenAll(b, {});
    assert [b][..0] == [];
  }

  /** The URLs after a merge are the stored ones together with the batch's: a
      batch record is left out only when a stored record has its URL. */
  lemma MergeUrls(stored: seq<NewsArticle>, batch: seq<NewsArticle>)
    ensures Urls(Merge(stored, batch)) == Urls(stored) + Urls(batch)
  {
    var r := Merge(stored, batch);
    forall u | u in Urls(batch) ensures u in Urls(r) {
      var a :| a in batch && a.url == u;
      if u !in StoredUrls(stored) {
        assert a in Unseen(batch, StoredUrls(stored));
        assert a in r;
      }
    }
  }

  /** Two saves into an empty file: the second merges into the first batch. */
  lemma TwoSaves(b1: seq<NewsArticle>, b2: seq<NewsArticle>)
    ensures MergeAll([], [b1, b2]) == Merge(b1, b2)
  {
    assert [b1, b2][..1] == [b1];
    FirstSave(b1);
  }

  /** Saving two overlapping batches (each free of duplicates, no empty URL)
      into an empty file leaves exactly one record per URL of their union. */
  lemma OverlappingBatches(b1: seq<NewsArticle>, b2: seq<NewsArticle>)
    requires DistinctUrls(b1) && DistinctUrls(b2)
    requires forall a :: a in b1 ==> a.url != ""
    ensures |MergeAll([], [b1, b2])| == |Urls(b1) + Urls(b2)|
    ensures Urls(MergeAll([], [b1, b2])) == Urls(b1) + Urls(b2)
  {
    TwoSaves(b1, b2);
    var r := Merge(b1, b2);
    assert DistinctUrls(r) by {
      MergeKeepsUrlsDistinct(b1, b2);
    }
    assert |Urls(r)| == |r| by {
      DistinctCount(r);
    }
    MergeUrls(b1, b2);
  }
}
