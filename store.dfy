/**
 * The `articles` table of `day2/src/ArticleDatabase.py` and the operations
 * `ArticleDatabase` runs on it, with the SQLite engine replaced by an in-memory
 * table: a sequence of rows in rowid order, at most one row per url, and the
 * next AUTOINCREMENT id.
 */
module ArticleStore {
  import opened Wrappers
  import opened Text
  import opened Sorting
  import opened SqlLike

  /** One row of `articles`, the `ArticleRecord` a query yields. Times are seconds. */
  datatype Row = Row(
    id: nat,
    title: string,
    url: string,
    content: string,
    source: string,
    category: Option<string>,
    fetchedAt: int,
    createdAt: int)

  /** The dictionary handed to `insert_article`. */
  datatype Record = Record(title: string, url: string, content: string, source: string, fetchedAt: int)

  /** The table's invariant: ids rise in rowid order, are all below the next id, and urls are unique. */
  predicate TableValid(rows: seq<Row>, nextId: nat)
  {
    nextId >= 1 && IdsIssued(rows, nextId) && IdsRising(rows) && UrlsUnique(rows)
  }

  predicate IdsIssued(rows: seq<Row>, nextId: nat)
  {
    forall i :: 0 <= i < |rows| ==> 1 <= rows[i].id < nextId
  }

  predicate IdsRising(rows: seq<Row>)
  {
    forall i, j :: 0 <= i < j < |rows| ==> rows[i].id < rows[j].id
  }

  predicate UrlsUnique(rows: seq<Row>)
  {
    forall i, j :: 0 <= i < j < |rows| ==> rows[i].url != rows[j].url
  }

  /** Position of the row holding `url`, or `|rows|` when there is none. */
  function Find(rows: seq<Row>, url: string): (k: nat)
    ensures k <= |rows|
    ensures k < |rows| ==> rows[k].url == url
    ensures forall j :: 0 <= j < k ==> rows[j].url != url
  {
    if rows == [] || rows[0].url == url then 0 else 1 + Find(rows[1..], url)
  }

  /**
   * The table after `INSERT ... ON CONFLICT(url) DO UPDATE SET title, content,
   * fetched_at`: a new url is appended with the next id and `created_at = now`;
   * an existing url gets the three new values and keeps everything else.
   */
  function Upsert(rows: seq<Row>, nextId: nat, rec: Record, now: int): seq<Row>
  {
    var k := Find(rows, rec.url);
    if k == |rows| then
      rows + [Row(nextId, rec.title, rec.url, rec.content, rec.source, None, rec.fetchedAt, now)]
    else
      rows[k := rows[k].(title := rec.title, content := rec.content, fetchedAt := rec.fetchedAt)]
  }

  /** The id `RETURNING id` gives: the new row's, or the existing row's on conflict. */
  function UpsertId(rows: seq<Row>, nextId: nat, rec: Record): nat
  {
    var k := Find(rows, rec.url);
    if k == |rows| then nextId else rows[k].id
  }

  /**
   * The next AUTOINCREMENT id after the upsert. SQLite allocates the new row's id
   * and raises the AUTOINCREMENT maximum before the url conflict turns the insert
   * into an update, so a conflicting upsert uses up an id as well.
   */
  function UpsertNextId(rows: seq<Row>, nextId: nat, rec: Record): nat
  {
    nextId + 1
  }

  /** The row for `url`, if the table has one. */
  function Lookup(rows: seq<Row>, url: string): Option<Row>
  {
    var k := Find(rows, url);
    if k == |rows| then None else Some(rows[k])
  }

  /** How many rows hold `url`. */
  function RowsWithUrl(rows: seq<Row>, url: string): nat
  {
    if rows == [] then 0 else (if rows[0].url == url then 1 else 0) + RowsWithUrl(rows[1..], url)
  }

  /** In a valid table the url key is unique: one row if it is found, none otherwise. */
  lemma {:induction false} UrlUnique(rows: seq<Row>, nextId: nat, url: string)
    requires TableValid(rows, nextId)
    ensures RowsWithUrl(rows, url) == if Lookup(rows, url).Some? then 1 else 0
  {
    if rows != [] {
      assert TableValid(rows[1..], nextId);
      UrlUnique(rows[1..], nextId, url);
      if rows[0].url == url {
        assert Find(rows[1..], url) == |rows[1..]| by {
          var k := Find(rows[1..], url);
          if k < |rows[1..]| {
            assert false;
          }
        }
      }
    }
  }

  /**
   * What an upsert does. A new url adds one row, whose id is above every id issued
   * before, and returns it; an existing url returns that row's id and only its
   * title, content and fetched_at change (id, source, category and created_at stay);
   * rows for other urls are untouched, and the table stays valid.
   */
  lemma UpsertSpec(rows: seq<Row>, nextId: nat, rec: Record, now: int)
    requires TableValid(rows, nextId)
    ensures var rows' := Upsert(rows, nextId, rec, now);
      var id := UpsertId(rows, nextId, rec);
      var old_ := Lookup(rows, rec.url);
      && TableValid(rows', UpsertNextId(rows, nextId, rec))
      && id >= 1
      && (old_.None? ==>
            && |rows'| == |rows| + 1
            && (forall i :: 0 <= i < |rows| ==> rows[i].id < id)
            && id == nextId
            && Lookup(rows', rec.url) == Some(Row(id, rec.title, rec.url, rec.content, rec.source, None, rec.fetchedAt, now)))
      && (old_.Some? ==>
            && |rows'| == |rows|
            && id == old_.value.id
            && Lookup(rows', rec.url) == Some(old_.value.(title := rec.title, content := rec.content, fetchedAt := rec.fetchedAt)))
      && (forall u :: u != rec.url ==> Lookup(rows', u) == Lookup(rows, u))
  {
    var k := Find(rows, rec.url);
    var rows' := Upsert(rows, nextId, rec, now);
    if k == |rows| {
      FindAppend(rows, rows'[|rows|], rec.url);
      forall u | u != rec.url ensures Lookup(rows', u) == Lookup(rows, u) {
        FindAppend(rows, rows'[|rows|], u);
      }
    } else {
      FindUpdate(rows, k, rows'[k], rec.url);
      forall u | u != rec.url ensures Lookup(rows', u) == Lookup(rows, u) {
        FindUpdate(rows, k, rows'[k], u);
      }
    }
  }

  /**
   * Inserting the same record again leaves the table as it was and returns the
   * same id: the dedup on url the repeated insert relies on. Only the id counter
   * moves on, past the id the conflicting insert used up.
   */
  lemma UpsertAgain(rows: seq<Row>, nextId: nat, rec: Record, now: int, later: int)
    requires TableValid(rows, nextId)
    ensures var rows1 := Upsert(rows, nextId, rec, now);
      var next1 := UpsertNextId(rows, nextId, rec);
      && UpsertId(rows1, next1, rec) == UpsertId(rows, nextId, rec)
      && Upsert(rows1, next1, rec, later) == rows1
      && UpsertNextId(rows1, next1, rec) == next1 + 1
  {
    var k := Find(rows, rec.url);
    var rows1 := Upsert(rows, nextId, rec, now);
    if k == |rows| {
      FindAppend(rows, rows1[|rows|], rec.url);
    } else {
      FindUpdate(rows, k, rows1[k], rec.url);
    }
    assert rows1[Find(rows1, rec.url)].(title := rec.title, content := rec.content, fetchedAt := rec.fetchedAt)
      == rows1[Find(rows1, rec.url)];
  }

  lemma {:induction false} FindAppend(rows: seq<Row>, r: Row, url: string)
    ensures Find(rows, url) < |rows| ==> Find(rows + [r], url) == Find(rows, url)
    ensures Find(rows, url) == |rows| && r.url == url ==> Find(rows + [r], url) == |rows|
    ensures Find(rows, url) == |rows| && r.url != url ==> Find(rows + [r], url) == |rows| + 1
  {
    if rows != [] {
      assert (rows + [r])[1..] == rows[1..] + [r];
      FindAppend(rows[1..], r, url);
    }
  }

  lemma {:induction false} FindUpdate(rows: seq<Row>, k: nat, r: Row, url: string)
    requires k < |rows| && r.url == rows[k].url
    ensures Find(rows[k := r], url) == Find(rows, url)
  {
    if rows != [] && k > 0 {
      assert rows[k := r][1..] == rows[1..][k - 1 := r];
      FindUpdate(rows[1..], k - 1, r, url);
    }
  }

  /** The source filter of `get_articles`: `None` and `""` mean every row. */
  function BySource(rows: seq<Row>, source: Option<string>): (r: seq<Row>)
    ensures forall x :: x in r ==> x in rows
    ensures source.Some? && source.value != "" ==> forall x :: x in r ==> x.source == source.value
    ensures source.None? || source.value == "" ==> r == rows
  {
    if source.None? || source.value == "" then rows
    else if rows == [] then []
    else (if rows[0].source == source.value then [rows[0]] else []) + BySource(rows[1..], source)
  }

  /** The source filter keeps every row of the source asked for, and every row when there is none. */
  lemma {:induction false} BySourceKeeps(rows: seq<Row>, source: Option<string>)
    ensures forall x :: x in rows && (source.None? || source.value == "" || x.source == source.value) ==>
      x in BySource(rows, source)
  {
    if source.Some? && source.value != "" && rows != [] {
      BySourceKeeps(rows[1..], source);
      forall x | x in rows && x.source == source.value ensures x in BySource(rows, source) {
        if x != rows[0] {
          assert x in rows[1..];
        }
      }
    }
  }

  function CreatedAt(r: Row): int
  {
    r.createdAt
  }

  /** `ORDER BY created_at DESC` over the rows in rowid order. */
  function Newest(rows: seq<Row>): (r: seq<Row>)
    ensures |r| == |rows|
  {
    var r := SortDesc(rows, CreatedAt);
    assert |multiset(r)| == |multiset(rows)|;
    r
  }

  /**
   * `LIMIT limit OFFSET offset` as SQLite reads them: a negative offset is zero and
   * a negative limit is no limit at all.
   */
  function Window(s: seq<Row>, limit: int, offset: int): (r: seq<Row>)
    ensures limit >= 0 ==> |r| <= limit
    ensures r <= s[Min(Max(offset, 0), |s|)..]
    ensures limit < 0 ==> |r| == |s| - Min(Max(offset, 0), |s|)
  {
    var start := Min(Max(offset, 0), |s|);
    if limit < 0 then s[start..] else Prefix(s[start..], limit)
  }

  /** A window runs from the offset to the end of the rows or to `limit` rows, whichever comes first. */
  lemma WindowEnds(s: seq<Row>, limit: int, offset: int, i: int)
    requires Min(Max(offset, 0), |s|) <= i <= |s|
    requires i == |s| || (limit >= 0 && i - Min(Max(offset, 0), |s|) == limit)
    requires limit >= 0 ==> i - Min(Max(offset, 0), |s|) <= limit
    ensures Window(s, limit, offset) == s[Min(Max(offset, 0), |s|)..i]
  {
  }

  /** The pattern `search_by_keyword` hands to `LIKE`. */
  function Pattern(keyword: string): string
  {
    "%" + keyword + "%"
  }

  /** `title LIKE pattern OR content LIKE pattern`. */
  predicate Matches(row: Row, keyword: string)
  {
    Like(Pattern(keyword), row.title) || Like(Pattern(keyword), row.content)
  }

  function Matching(rows: seq<Row>, keyword: string): (r: seq<Row>)
    ensures forall x :: x in r ==> x in rows && Matches(x, keyword)
    ensures forall x :: x in rows && Matches(x, keyword) ==> x in r
  {
    if rows == [] then []
    else (if Matches(rows[0], keyword) then [rows[0]] else []) + Matching(rows[1..], keyword)
  }

  /** The rows `delete_old_articles` keeps: those fetched at or after the cutoff. */
  function Kept(rows: seq<Row>, cutoff: int): (r: seq<Row>)
    ensures forall x :: x in r ==> x in rows && x.fetchedAt >= cutoff
    ensures forall x :: x in rows && x.fetchedAt >= cutoff ==> x in r
  {
    if rows == [] then []
    else (if rows[0].fetchedAt >= cutoff then [rows[0]] else []) + Kept(rows[1..], cutoff)
  }

  /** How many rows were fetched before the cutoff. */
  function CountOlder(rows: seq<Row>, cutoff: int): nat
  {
    if rows == [] then 0 else (if rows[0].fetchedAt < cutoff then 1 else 0) + CountOlder(rows[1..], cutoff)
  }

  /** The purge removes exactly the rows fetched before the cutoff. */
  lemma {:induction false} KeptCount(rows: seq<Row>, cutoff: int)
    ensures |Kept(rows, cutoff)| == |rows| - CountOlder(rows, cutoff)
  {
    if rows != [] {
      KeptCount(rows[1..], cutoff);
    }
  }

  /** What the purge keeps is still a valid table under the same next id. */
  lemma KeptValid(rows: seq<Row>, nextId: nat, cutoff: int)
    requires TableValid(rows, nextId)
    ensures TableValid(Kept(rows, cutoff), nextId)
  {
    var kept := Kept(rows, cutoff);
    forall i | 0 <= i < |kept| ensures 1 <= kept[i].id < nextId {
      assert kept[i] in rows;
    }
    KeptRising(rows, cutoff);
    KeptUnique(rows, cutoff);
  }

  lemma {:induction false} KeptRising(rows: seq<Row>, cutoff: int)
    requires IdsRising(rows)
    ensures IdsRising(Kept(rows, cutoff))
  {
    if rows != [] {
      assert IdsRising(rows[1..]);
      KeptRising(rows[1..], cutoff);
      var tail := Kept(rows[1..], cutoff);
      if rows[0].fetchedAt >= cutoff {
        assert Kept(rows, cutoff) == [rows[0]] + tail;
        forall i | 0 <= i < |tail| ensures rows[0].id < tail[i].id {
          assert tail[i] in rows[1..];
        }
      }
    }
  }

  lemma {:induction false} KeptUnique(rows: seq<Row>, cutoff: int)
    requires UrlsUnique(rows)
    ensures UrlsUnique(Kept(rows, cutoff))
  {
    if rows != [] {
      assert UrlsUnique(rows[1..]);
      KeptUnique(rows[1..], cutoff);
      var tail := Kept(rows[1..], cutoff);
      if rows[0].fetchedAt >= cutoff {
        assert Kept(rows, cutoff) == [rows[0]] + tail;
        forall i | 0 <= i < |tail| ensures rows[0].url != tail[i].url {
          assert tail[i] in rows[1..];
        }
      }
    }
  }

  /** A url keeps its row through the purge exactly when that row was fetched at or after the cutoff. */
  lemma {:induction false} KeptLookup(rows: seq<Row>, cutoff: int, url: string)
    requires UrlsUnique(rows)
    ensures Lookup(Kept(rows, cutoff), url) ==
      if Lookup(rows, url).Some? && Lookup(rows, url).value.fetchedAt >= cutoff then Lookup(rows, url) else None
  {
    if rows != [] {
      var tail := Kept(rows[1..], cutoff);
      var kept := Kept(rows, cutoff);
      var keep := rows[0].fetchedAt >= cutoff;
      assert kept == if keep then [rows[0]] + tail else tail;
      LookupFirst(rows, url);
      if keep {
        assert kept[0] == rows[0] && kept[1..] == tail;
        LookupFirst(kept, url);
      }
      if rows[0].url == url {
        if !keep {
          assert Lookup(tail, url) == None by {
            forall k | 0 <= k < |tail| ensures tail[k].url != url {
              assert tail[k] in tail;
              var i :| 1 <= i < |rows| && rows[i] == tail[k];
            }
            LookupAbsent(tail, url);
          }
        }
      } else {
        assert UrlsUnique(rows[1..]);
        KeptLookup(rows[1..], cutoff, url);
      }
    }
  }

  /** A lookup checks the first row, then the rest. */
  lemma LookupFirst(rows: seq<Row>, url: string)
    requires rows != []
    ensures Lookup(rows, url) == if rows[0].url == url then Some(rows[0]) else Lookup(rows[1..], url)
  {
  }

  /** No row holding `url` means nothing is found. */
  lemma LookupAbsent(rows: seq<Row>, url: string)
    requires forall i :: 0 <= i < |rows| ==> rows[i].url != url
    ensures Lookup(rows, url) == None
  {
  }

  /** How many rows have source `s`. */
  function CountSource(rows: seq<Row>, s: string): nat
  {
    if rows == [] then 0 else CountSource(rows[..|rows| - 1], s) + (if rows[|rows| - 1].source == s then 1 else 0)
  }

  /** `SELECT source, COUNT(*) ... GROUP BY source` as the dictionary `get_stats` builds. */
  function CountBySource(rows: seq<Row>): map<string, nat>
  {
    if rows == [] then map[]
    else
      var m := CountBySource(rows[..|rows| - 1]);
      var s := rows[|rows| - 1].source;
      m[s := (if s in m then m[s] else 0) + 1]
  }

  /** A source no row has counts zero. */
  lemma {:induction false} CountSourceAbsent(rows: seq<Row>, s: string)
    requires forall i :: 0 <= i < |rows| ==> rows[i].source != s
    ensures CountSource(rows, s) == 0
  {
    if rows != [] {
      CountSourceAbsent(rows[..|rows| - 1], s);
    }
  }

  /** The statistics map has a key for every source present, and its count. */
  lemma {:induction false} CountBySourceSpec(rows: seq<Row>)
    ensures forall s :: s in CountBySource(rows) <==> exists i :: 0 <= i < |rows| && rows[i].source == s
    ensures forall s :: s in CountBySource(rows) ==> CountBySource(rows)[s] == CountSource(rows, s)
  {
    if rows != [] {
      var init := rows[..|rows| - 1];
      CountBySourceSpec(init);
      var m := CountBySource(init);
      var last := rows[|rows| - 1].source;
      assert forall i :: 0 <= i < |init| ==> init[i] == rows[i];
      forall s ensures s in CountBySource(rows) <==> exists i :: 0 <= i < |rows| && rows[i].source == s {
        if s in CountBySource(rows) && s != last {
          var i :| 0 <= i < |init| && init[i].source == s;
          assert rows[i].source == s;
        }
        if s != last && exists i :: 0 <= i < |rows| && rows[i].source == s {
          var i :| 0 <= i < |rows| && rows[i].source == s;
          assert init[i].source == s;
        }
      }
      if last !in m {
        CountSourceAbsent(init, last);
      }
    }
  }

  /** The sum of a map's values. */
  ghost function SumValues(m: map<string, nat>): nat
    decreases |m|
  {
    if m == map[] then 0
    else
      var k :| k in m;
      m[k] + SumValues(m - {k})
  }

  lemma {:induction false} SumValuesRemove(m: map<string, nat>, k: string)
    requires k in m
    ensures SumValues(m) == m[k] + SumValues(m - {k})
    decreases |m|
  {
    var j :| j in m && SumValues(m) == m[j] + SumValues(m - {j});
    if j != k {
      var mj := m - {j};
      var mk := m - {k};
      assert k in mj && j in mk;
      SumValuesRemove(mj, k);
      SumValuesRemove(mk, j);
      assert mj - {k} == mk - {j};
    }
  }

  /** The counts by source add up to the number of rows. */
  lemma {:induction false} CountsAddUp(rows: seq<Row>)
    ensures SumValues(CountBySource(rows)) == |rows|
  {
    if rows != [] {
      var init := rows[..|rows| - 1];
      var m := CountBySource(init);
      var s := rows[|rows| - 1].source;
      CountsAddUp(init);
      var m' := m[s := (if s in m then m[s] else 0) + 1];
      SumValuesRemove(m', s);
      if s in m {
        SumValuesRemove(m, s);
        assert m' - {s} == m - {s};
      } else {
        assert m' - {s} == m;
      }
    }
  }

  /** A window of the newest-first order is itself newest first and drawn from the rows. */
  lemma WindowOfNewest(rows: seq<Row>, limit: int, offset: int)
    ensures SortedDesc(Window(Newest(rows), limit, offset), CreatedAt)
    ensures forall x :: x in Window(Newest(rows), limit, offset) ==> x in rows
    ensures limit < 0 || |Window(Newest(rows), limit, offset)| < limit ==>
      Window(Newest(rows), limit, offset) == Newest(rows)[Min(Max(offset, 0), |rows|)..]
  {
    var s := Newest(rows);
    var w := Window(s, limit, offset);
    SortDescSorted(rows, CreatedAt);
    forall x | x in w ensures x in rows {
      assert x in multiset(s);
    }
  }

  /** A page that starts at the top and is shorter than the limit holds every selected row. */
  lemma WindowComplete(rows: seq<Row>, source: Option<string>, limit: int, offset: int)
    ensures var page := Window(Newest(BySource(rows, source)), limit, offset);
      offset <= 0 && (limit < 0 || |page| < limit) ==>
        forall x :: x in rows && (source.None? || source.value == "" || x.source == source.value) ==> x in page
  {
    var selected := BySource(rows, source);
    var page := Window(Newest(selected), limit, offset);
    if offset <= 0 && (limit < 0 || |page| < limit) {
      BySourceKeeps(rows, source);
      WindowOfNewest(selected, limit, offset);
      assert page == Newest(selected);
      forall x | x in rows && (source.None? || source.value == "" || x.source == source.value)
        ensures x in page
      {
        assert x in multiset(selected);
      }
    }
  }

  /** What the keyword search returns, in terms of the rows and the keyword. */
  lemma SearchSpec(rows: seq<Row>, keyword: string, limit: int)
    ensures var found := Window(Newest(Matching(rows, keyword)), limit, 0);
      && (forall x :: x in found ==> x in rows && Matches(x, keyword))
      && (Literal(keyword) ==> forall x :: x in found ==>
            ContainsFolded(x.title, keyword) || ContainsFolded(x.content, keyword))
      && (limit < 0 || |found| < limit ==> multiset(found) == multiset(Matching(rows, keyword)))
  {
    var hits := Matching(rows, keyword);
    var found := Window(Newest(hits), limit, 0);
    WindowOfNewest(hits, limit, 0);
    if Literal(keyword) {
      forall x | x in found
        ensures ContainsFolded(x.title, keyword) || ContainsFolded(x.content, keyword)
      {
        LikeContains(keyword, x.title);
        LikeContains(keyword, x.content);
      }
    }
  }

  /** The article table and the operations `ArticleDatabase` issues against it. */
  class ArticleDatabase {
    /** The rows in rowid order. */
    var rows: seq<Row>
    /** The id AUTOINCREMENT hands out next; it never goes back. */
    var nextId: nat

    ghost predicate Valid()
      reads this
    {
      TableValid(rows, nextId)
    }

    /** `_init_tables` on a fresh database file: an empty table. */
    constructor ()
      ensures Valid() && rows == [] && nextId == 1
    {
      rows, nextId := [], 1;
    }

    /**
     * `insert_article`: the upsert, or `None` and no change when the storage layer
     * raises `sqlite3.Error` (`fault`). `now` is the store's clock for `created_at`.
     */
    method InsertArticle(rec: Record, now: int, fault: bool) returns (id: Option<nat>)
      requires Valid()
      modifies this
      ensures Valid()
      ensures fault ==> id == None && rows == old(rows) && nextId == old(nextId)
      ensures !fault ==> (&& id == Some(UpsertId(old(rows), old(nextId), rec))
                          && rows == Upsert(old(rows), old(nextId), rec, now)
                          && nextId == UpsertNextId(old(rows), old(nextId), rec))
      ensures id.Some? ==> id.value >= 1
    {
      if fault {
        return None;
      }
      UpsertSpec(rows, nextId, rec, now);
      var k := Find(rows, rec.url);
      if k == |rows| {
        rows := rows + [Row(nextId, rec.title, rec.url, rec.content, rec.source, None, rec.fetchedAt, now)];
        id := Some(nextId);
        nextId := nextId + 1;
      } else {
        rows := rows[k := rows[k].(title := rec.title, content := rec.content, fetchedAt := rec.fetchedAt)];
        id := Some(rows[k].id);
        nextId := nextId + 1;
      }
    }

    /**
     * `get_articles`: the rows of one source (every row for `None` or `""`), newest
     * `created_at` first, after skipping `offset` rows and at most `limit` of them.
     */
    method GetArticles(source: Option<string>, limit: int, offset: int) returns (page: seq<Row>)
      requires Valid()
      ensures page == Window(Newest(BySource(rows, source)), limit, offset)
      ensures limit >= 0 ==> |page| <= limit
      ensures SortedDesc(page, CreatedAt)
      ensures forall x :: x in page ==> x in rows
      ensures source.Some? && source.value != "" ==> forall x :: x in page ==> x.source == source.value
      ensures source.None? || source.value == "" ==> page == Window(Newest(rows), limit, offset)
      ensures offset <= 0 && (limit < 0 || |page| < limit) ==>
        forall x :: x in rows && (source.None? || source.value == "" || x.source == source.value) ==> x in page
    {
      var selected := Newest(BySource(rows, source));
      var start := Min(Max(offset, 0), |selected|);
      page := [];
      var i := start;
      while i < |selected| && (limit < 0 || |page| < limit)
        invariant start <= i <= |selected|
        invariant page == selected[start..i]
        invariant |page| == i - start
        invariant limit >= 0 ==> |page| <= limit
      {
        assert selected[start..i + 1] == selected[start..i] + [selected[i]];
        page := page + [selected[i]];
        i := i + 1;
      }
      WindowEnds(selected, limit, offset, i);
      WindowOfNewest(BySource(rows, source), limit, offset);
      WindowComplete(rows, source, limit, offset);
    }

    /**
     * `search_by_keyword`: rows whose title or content is `LIKE '%keyword%'`, newest
     * first, at most `limit`. For a keyword without `%` or `_` that is exactly the
     * rows containing it, ASCII case ignored; fewer than `limit` means all of them.
     */
    method SearchByKeyword(keyword: string, limit: int) returns (found: seq<Row>)
      requires Valid()
      ensures found == Window(Newest(Matching(rows, keyword)), limit, 0)
      ensures limit >= 0 ==> |found| <= limit
      ensures forall x :: x in found ==> x in rows && Matches(x, keyword)
      ensures Literal(keyword) ==> forall x :: x in found ==>
        ContainsFolded(x.title, keyword) || ContainsFolded(x.content, keyword)
      ensures limit < 0 || |found| < limit ==> multiset(found) == multiset(Matching(rows, keyword))
    {
      found := Window(Newest(Matching(rows, keyword)), limit, 0);
      SearchSpec(rows, keyword, limit);
    }

    /** `get_stats`: the row count and the count per source, which add up to it. */
    method GetStats() returns (total: nat, bySource: map<string, nat>)
      requires Valid()
      ensures total == |rows|
      ensures forall s :: s in bySource <==> exists i :: 0 <= i < |rows| && rows[i].source == s
      ensures forall s :: s in bySource ==> bySource[s] == CountSource(rows, s)
      ensures SumValues(bySource) == total
    {
      total := |rows|;
      bySource := CountBySource(rows);
      CountBySourceSpec(rows);
      CountsAddUp(rows);
    }

    /**
     * `delete_old_articles`: removes the rows fetched before `cutoff` (the time
     * `days` days ago) and returns how many went; the rest keep their order and values.
     */
    method DeleteOldArticles(cutoff: int) returns (deleted: nat)
      requires Valid()
      modifies this
      ensures Valid()
      ensures rows == Kept(old(rows), cutoff) && nextId == old(nextId)
      ensures deleted == CountOlder(old(rows), cutoff) == |old(rows)| - |rows|
    {
      KeptCount(rows, cutoff);
      KeptValid(rows, nextId, cutoff);
      deleted := CountOlder(rows, cutoff);
      rows := Kept(rows, cutoff);
    }
  }
}
