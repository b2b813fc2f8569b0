/**
 * `CrawlerPipeline` of `day2/src/crawler_db_pipeline.py`: crawl a batch of URLs,
 * turn every status-200 article into a record and upsert it into the article table.
 */
module CrawlerPipeline {
  import opened Wrappers
  import opened Text
  import opened AsyncCrawler
  import opened ArticleStore

  const TitleLimit := 200
  const ContentLimit := 2000

  /** The counters `crawl_and_store` returns. */
  datatype Stats = Stats(total: nat, success: nat, failed: nat, stored: nat)

  /** What the storage layer does on one `insert_article`: raise or not, and its clock. */
  datatype StoreCall = StoreCall(fault: bool, now: int)

  /** The table's state and how many inserts were counted as stored. */
  datatype Run = Run(rows: seq<Row>, nextId: nat, stored: nat)

  /**
   * `article_to_record`: at most the first 200 characters of the title and 2000 of
   * the content, the url unchanged, the batch's source label.
   */
  function ArticleToRecord(a: Article, source: string): (r: Record)
    ensures r.url == a.url && r.source == source && r.fetchedAt == a.fetchedAt
    ensures |r.title| <= TitleLimit && r.title <= a.title
    ensures |a.title| <= TitleLimit ==> r.title == a.title
    ensures |a.title| > TitleLimit ==> |r.title| == TitleLimit
    ensures |r.content| <= ContentLimit && r.content <= a.content
    ensures |a.content| <= ContentLimit ==> r.content == a.content
    ensures |a.content| > ContentLimit ==> |r.content| == ContentLimit
  {
    Record(Prefix(a.title, TitleLimit), a.url, Prefix(a.content, ContentLimit), source, a.fetchedAt)
  }

  /** The records the store loop builds: one per status-200 article, in order. */
  function Records(articles: seq<Article>, source: string): (recs: seq<Record>)
    ensures |recs| <= |articles|
  {
    if articles == [] then []
    else
      var last := articles[|articles| - 1];
      Records(articles[..|articles| - 1], source)
        + (if last.status == 200 then [ArticleToRecord(last, source)] else [])
  }

  /** How many articles have status 200: the `success` count. */
  function CountOk(articles: seq<Article>): (n: nat)
    ensures n <= |articles|
  {
    if articles == [] then 0
    else CountOk(articles[..|articles| - 1]) + (if articles[|articles| - 1].status == 200 then 1 else 0)
  }

  /** The articles `fetch_many` hands over are all status 200, so each gives one record. */
  lemma {:induction false} RecordsOfFetched(articles: seq<Article>, source: string)
    requires forall i :: 0 <= i < |articles| ==> articles[i].status == 200
    ensures |Records(articles, source)| == CountOk(articles) == |articles|
    ensures forall i :: 0 <= i < |articles| ==> Records(articles, source)[i] == ArticleToRecord(articles[i], source)
  {
    if articles != [] {
      RecordsOfFetched(articles[..|articles| - 1], source);
    }
  }

  /**
   * The store loop on the table: `calls[i]` is what the i-th insert meets. A failed
   * insert returns `None` and changes nothing; any other returns a row id, which
   * counts as stored when it is truthy.
   */
  function StoreRun(rows: seq<Row>, nextId: nat, recs: seq<Record>, calls: seq<StoreCall>): Run
    requires |recs| <= |calls|
  {
    if recs == [] then Run(rows, nextId, 0)
    else
      var n := |recs| - 1;
      var prev := StoreRun(rows, nextId, recs[..n], calls);
      if calls[n].fault then prev
      else
        var id := UpsertId(prev.rows, prev.nextId, recs[n]);
        Run(Upsert(prev.rows, prev.nextId, recs[n], calls[n].now), UpsertNextId(prev.rows, prev.nextId, recs[n]),
            prev.stored + (if id != 0 then 1 else 0))
  }

  /** One more record: the store run so far, then that record's insert. */
  lemma StoreRunSnoc(rows: seq<Row>, nextId: nat, recs: seq<Record>, rec: Record, calls: seq<StoreCall>)
    requires |recs| < |calls|
    ensures var prev := StoreRun(rows, nextId, recs, calls);
      var call := calls[|recs|];
      StoreRun(rows, nextId, recs + [rec], calls) ==
        if call.fault then prev
        else Run(Upsert(prev.rows, prev.nextId, rec, call.now), UpsertNextId(prev.rows, prev.nextId, rec),
                 prev.stored + (if UpsertId(prev.rows, prev.nextId, rec) != 0 then 1 else 0))
  {
    assert (recs + [rec])[..|recs|] == recs;
  }

  /** How many of the first `n` inserts do not fail. */
  function Succeeding(calls: seq<StoreCall>, n: nat): nat
    requires n <= |calls|
  {
    if n == 0 then 0 else Succeeding(calls, n - 1) + (if calls[n - 1].fault then 0 else 1)
  }

  /**
   * Over a valid table, `stored` is exactly the number of inserts that did not fail
   * (a returned id is never 0), the table stays valid, every url whose insert went
   * through has its row afterwards, and rows present before are still present.
   */
  lemma {:induction false} StoreRunSpec(rows: seq<Row>, nextId: nat, recs: seq<Record>, calls: seq<StoreCall>)
    requires |recs| <= |calls| && TableValid(rows, nextId)
    ensures var run := StoreRun(rows, nextId, recs, calls);
      && TableValid(run.rows, run.nextId)
      && run.stored == Succeeding(calls, |recs|) <= |recs|
      && (forall i :: 0 <= i < |recs| && !calls[i].fault ==> Lookup(run.rows, recs[i].url).Some?)
      && (forall u :: Lookup(rows, u).Some? ==> Lookup(run.rows, u).Some?)
  {
    if recs != [] {
      var n := |recs| - 1;
      StoreRunSpec(rows, nextId, recs[..n], calls);
      var prev := StoreRun(rows, nextId, recs[..n], calls);
      if !calls[n].fault {
        UpsertSpec(prev.rows, prev.nextId, recs[n], calls[n].now);
        var after := Upsert(prev.rows, prev.nextId, recs[n], calls[n].now);
        forall u | Lookup(prev.rows, u).Some? ensures Lookup(after, u).Some? {
        }
        forall i | 0 <= i < |recs| && !calls[i].fault ensures Lookup(after, recs[i].url).Some? {
          if i < n {
            assert recs[..n][i] == recs[i];
          }
        }
      } else {
        forall i | 0 <= i < |recs| && !calls[i].fault ensures Lookup(prev.rows, recs[i].url).Some? {
          assert i < n;
          assert recs[..n][i] == recs[i];
        }
      }
    }
  }

  /** The pipeline and the article store it writes to. */
  class Pipeline {
    const db: ArticleDatabase

    constructor (db: ArticleDatabase)
      ensures this.db == db
    {
      this.db := db;
    }

    /**
     * `crawl_and_store`: fetch every URL with a fresh crawler, count the status-200
     * articles as successes and the rest as failures, then insert each success's
     * record in order and count the truthy ids as stored.
     */
    method CrawlAndStore(urls: seq<string>, resps: seq<Response>, parse: string -> Page, source: string,
                         calls: seq<StoreCall>) returns (stats: Stats)
      requires |resps| == |urls| && |calls| == |urls|
      requires db.Valid()
      modifies db
      ensures db.Valid()
      ensures var articles := Successful(Outcomes(urls, resps, parse));
        var run := StoreRun(old(db.rows), old(db.nextId), Records(articles, source), calls);
        && stats == Stats(|urls|, |articles|, |urls| - |articles|, run.stored)
        && db.rows == run.rows && db.nextId == run.nextId
      ensures stats.success + stats.failed == stats.total
      ensures stats.stored == Succeeding(calls, stats.success) <= stats.success
    {
      var crawler := new Crawler();
      var articles := crawler.FetchMany(urls, resps, parse);
      SuccessfulProperties(Outcomes(urls, resps, parse));
      forall i | 0 <= i < |articles| ensures articles[i].status == 200 {
        assert articles[i] in articles;
      }
      RecordsOfFetched(articles, source);
      var success := CountSuccess(articles);
      stats := Stats(|urls|, success, |urls| - success, 0);
      ghost var rows0, next0 := db.rows, db.nextId;
      var stored := StoreAll(articles, source, calls);
      StoreRunSpec(rows0, next0, Records(articles, source), calls);
      stats := stats.(stored := stored);
    }

    /** `len([a for a in articles if a and a.status == 200])`. */
    static method CountSuccess(articles: seq<Article>) returns (success: nat)
      ensures success == CountOk(articles)
    {
      success := 0;
      var k := 0;
      while k < |articles|
        invariant 0 <= k <= |articles|
        invariant success == CountOk(articles[..k])
      {
        assert articles[..k + 1][..k] == articles[..k];
        if articles[k].status == 200 {
          success := success + 1;
        }
        k := k + 1;
      }
      assert articles[..k] == articles;
    }

    /** The store loop: insert the record of each status-200 article, count truthy ids. */
    method StoreAll(articles: seq<Article>, source: string, calls: seq<StoreCall>) returns (stored: nat)
      requires |articles| <= |calls| && db.Valid()
      modifies db
      ensures db.Valid()
      ensures StoreRun(old(db.rows), old(db.nextId), Records(articles, source), calls) == Run(db.rows, db.nextId, stored)
    {
      stored := 0;
      var inserts := 0;
      var i := 0;
      while i < |articles|
        invariant 0 <= i <= |articles|
        invariant inserts == |Records(articles[..i], source)| <= i
        invariant db.Valid()
        invariant StoreRun(old(db.rows), old(db.nextId), Records(articles[..i], source), calls)
          == Run(db.rows, db.nextId, stored)
      {
        var a := articles[i];
        ghost var done := Records(articles[..i], source);
        assert articles[..i + 1][..i] == articles[..i];
        if a.status == 200 {
          var record := ArticleToRecord(a, source);
          assert Records(articles[..i + 1], source) == done + [record];
          StoreRunSnoc(old(db.rows), old(db.nextId), done, record, calls);
          var id := db.InsertArticle(record, calls[inserts].now, calls[inserts].fault);
          if id.Some? && id.value != 0 {
            stored := stored + 1;
          }
          inserts := inserts + 1;
        } else {
          assert Records(articles[..i + 1], source) == done;
        }
        i := i + 1;
      }
      assert articles[..i] == articles;
    }
  }
}
