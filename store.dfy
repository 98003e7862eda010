/**
 * The news table and the statements NewsModel runs against it
 * (internal/data/news.go, NewsModel and MockNewsModel; the error values of
 * internal/data/database/models.go). The table is a map from id to row and
 * the id sequence is a counter. Each statement takes the database clock's
 * reading `now` where the SQL calls now(), and a flag `fault` standing for a
 * failure of the connection, the 3-second timeout or a constraint.
 */
module NewsStorage {
  import opened Wrappers
  import opened Text
  import opened Filters
  import opened NewsRecord
  import opened NewsOrder

  /** ErrRecordNotFound, ErrEditConflict, and any other error the database reports. */
  datatype StoreError = RecordNotFound | EditConflict | StorageFailure

  /** The version a new row starts at. */
  const INITIAL_VERSION: int := 1

  /** Every row sits under its own id, and the id sequence is past every id in use. */
  predicate TableValid(rows: map<int, News>, nextId: int) {
    && nextId >= 1
    && forall id :: id in rows ==> 1 <= id < nextId && rows[id].id == id
  }

  /** The row INSERT ... RETURNING stores for `news` under `id`. */
  function InsertedRow(news: News, id: int, now: Time): News {
    news.(id := id, createdAt := now, updatedAt := now, version := INITIAL_VERSION)
  }

  /** The WHERE clause of the conditional update: the row exists and still has the caller's version. */
  predicate VersionMatches(rows: map<int, News>, news: News) {
    news.id in rows && rows[news.id].version == news.version
  }

  /** The SET clause: the five editable fields, updated_at = now(), version = version + 1. */
  function UpdatedRow(stored: News, news: News, now: Time): News {
    stored.(title := news.title, content := news.content, categories := news.categories,
            status := news.status, imageUrl := news.imageUrl, updatedAt := now,
            version := stored.version + 1)
  }

  /** The table and the error after the conditional UPDATE; no matching row is an edit conflict. */
  function UpdateRows(rows: map<int, News>, news: News, now: Time): (map<int, News>, Option<StoreError>) {
    if VersionMatches(rows, news) then (rows[news.id := UpdatedRow(rows[news.id], news, now)], None)
    else (rows, Some(EditConflict))
  }

  /** Get's lookup: ids below 1 and missing ids are not found. */
  function GetRow(rows: map<int, News>, id: int): Result<News, StoreError> {
    if id < 1 || id !in rows then Failure(RecordNotFound) else Success(rows[id])
  }

  /** The table and the error after Delete; nothing deleted is not found. */
  function DeleteRows(rows: map<int, News>, id: int): (map<int, News>, Option<StoreError>) {
    if id < 1 || id !in rows then (rows, Some(RecordNotFound)) else (rows - {id}, None)
  }

  /**
   * A conditional update succeeds exactly when the caller's version is the
   * stored one. Then it bumps the version by one, keeps id and created_at,
   * takes the five editable fields from the caller and stamps updated_at; a
   * stale or unknown row leaves the table as it was.
   */
  lemma UpdateOutcome(rows: map<int, News>, news: News, now: Time)
    ensures UpdateRows(rows, news, now).1 == None <==> VersionMatches(rows, news)
    ensures UpdateRows(rows, news, now).1 != None ==>
      UpdateRows(rows, news, now) == (rows, Some(EditConflict))
    ensures UpdateRows(rows, news, now).1 == None ==>
      var after, stored := UpdateRows(rows, news, now).0, rows[news.id];
      && after.Keys == rows.Keys
      && after[news.id].version == stored.version + 1
      && after[news.id].id == stored.id && after[news.id].createdAt == stored.createdAt
      && after[news.id].updatedAt == now
      && after[news.id].title == news.title && after[news.id].content == news.content
      && after[news.id].categories == news.categories && after[news.id].status == news.status
      && after[news.id].imageUrl == news.imageUrl
      && forall id :: id in rows && id != news.id ==> after[id] == rows[id]
  {
  }

  /**
   * Two updates of one row that read the same version race: once the first
   * succeeds the second is an edit conflict that changes nothing, so the row
   * ends one version up with the winner's fields. If the first loses, so does
   * the second.
   */
  lemma RacingUpdates(rows: map<int, News>, a: News, b: News, t1: Time, t2: Time)
    requires a.id == b.id && a.version == b.version
    ensures var (r1, e1) := UpdateRows(rows, a, t1);
      && (e1 == None ==>
           && UpdateRows(r1, b, t2) == (r1, Some(EditConflict))
           && r1[a.id].version == rows[a.id].version + 1
           && r1[a.id] == UpdatedRow(rows[a.id], a, t1))
      && (e1 != None ==> UpdateRows(r1, b, t2) == (rows, Some(EditConflict)))
  {
    var (r1, e1) := UpdateRows(rows, a, t1);
    if e1 == None {
      assert r1[a.id].version == a.version + 1;
    }
  }

  /** A writer who lost a race and re-reads the row gets its update through. */
  lemma RetryAfterConflict(rows: map<int, News>, b: News, now: Time)
    requires GetRow(rows, b.id).Success?
    ensures UpdateRows(rows, b.(version := GetRow(rows, b.id).value.version), now).1 == None
  {
  }

  /** After a successful delete the row is not found; every other row stays. */
  lemma DeleteThenGet(rows: map<int, News>, id: int)
    ensures DeleteRows(rows, id).1 == None <==> GetRow(rows, id).Success?
    ensures DeleteRows(rows, id).1 != None ==> DeleteRows(rows, id) == (rows, Some(RecordNotFound))
    ensures DeleteRows(rows, id).1 == None ==>
      && GetRow(DeleteRows(rows, id).0, id) == Failure(RecordNotFound)
      && forall other :: other != id ==> GetRow(DeleteRows(rows, id).0, other) == GetRow(rows, other)
  {
  }

  /** The row an insert stores under the next id is what Get then returns; no other row moves. */
  lemma InsertThenGet(rows: map<int, News>, nextId: int, news: News, now: Time)
    requires TableValid(rows, nextId)
    ensures nextId !in rows
    ensures TableValid(rows[nextId := InsertedRow(news, nextId, now)], nextId + 1)
    ensures GetRow(rows[nextId := InsertedRow(news, nextId, now)], nextId) == Success(InsertedRow(news, nextId, now))
    ensures InsertedRow(news, nextId, now).version == 1
    ensures InsertedRow(news, nextId, now).createdAt == InsertedRow(news, nextId, now).updatedAt
    ensures forall id :: id != nextId ==> GetRow(rows[nextId := InsertedRow(news, nextId, now)], id) == GetRow(rows, id)
  {
  }

  /** Update and Delete keep every row under its own id below the id sequence. */
  lemma StatementsKeepTableValid(rows: map<int, News>, nextId: int, news: News, id: int, now: Time)
    requires TableValid(rows, nextId)
    ensures TableValid(UpdateRows(rows, news, now).0, nextId)
    ensures TableValid(DeleteRows(rows, id).0, nextId)
  {
  }

  /** The title, categories and status filters of the listing query. */
  predicate Matches(n: News, title: string, categories: seq<string>, status: string,
                    matcher: (string, string) -> bool) {
    && (title == "" || matcher(n.title, title))
    && (categories == [] || forall c :: c in categories ==> c in n.categories)
    && (status == "" || n.status == status)
  }

  /** The rows with ids 1 .. n-1, in id order. */
  function RowsBelow(rows: map<int, News>, n: int): seq<News>
    decreases n
  {
    if n <= 1 then [] else RowsBelow(rows, n - 1) + (if n - 1 in rows then [rows[n - 1]] else [])
  }

  lemma {:induction false} RowsBelowContents(rows: map<int, News>, nextId: int, n: int)
    requires TableValid(rows, nextId)
    ensures forall x :: x in RowsBelow(rows, n) <==> x.id in rows && rows[x.id] == x && x.id < n
    ensures forall i :: 0 <= i < |RowsBelow(rows, n)| ==> RowsBelow(rows, n)[i].id < n
    ensures forall i, j :: 0 <= i < j < |RowsBelow(rows, n)| ==> RowsBelow(rows, n)[i].id < RowsBelow(rows, n)[j].id
    decreases n
  {
    if n > 1 {
      RowsBelowContents(rows, nextId, n - 1);
    }
  }

  /** The rows of the table that pass the filters, in the order given. */
  function Filter(s: seq<News>, title: string, categories: seq<string>, status: string,
                  matcher: (string, string) -> bool): (r: seq<News>)
    ensures forall x :: x in r <==> x in s && Matches(x, title, categories, status, matcher)
    ensures DistinctIds(s) ==> DistinctIds(r)
  {
    if s == [] then []
    else
      var rest := Filter(s[1..], title, categories, status, matcher);
      assert DistinctIds(s) ==> DistinctIds(s[1..]) && forall x :: x in rest ==> x.id != s[0].id by {
        if DistinctIds(s) {
          forall x | x in rest ensures x.id != s[0].id {
            var k :| 0 <= k < |s[1..]| && s[1..][k] == x;
            assert s[k + 1] == x;
          }
          forall i, j | 0 <= i < j < |s[1..]| ensures s[1..][i].id != s[1..][j].id {
            assert s[1..][i] == s[i + 1] && s[1..][j] == s[j + 1];
          }
        }
      }
      assert s == [s[0]] + s[1..];
      if Matches(s[0], title, categories, status, matcher) then [s[0]] + rest else rest
  }

  /** Every row of the table that passes the filters, in listing order. */
  function Listing(rows: map<int, News>, nextId: int, title: string, categories: seq<string>, status: string,
                   column: string, dir: Direction, matcher: (string, string) -> bool): seq<News>
    requires Sortable(column)
  {
    SortRows(column, dir, Filter(RowsBelow(rows, nextId), title, categories, status, matcher))
  }

  /** LIMIT `limit` OFFSET `offset`. */
  function Window(s: seq<News>, offset: int, limit: int): (r: seq<News>)
    requires offset >= 0 && limit >= 0
  {
    var lo := if offset < |s| then offset else |s|;
    var hi := if offset + limit < |s| then offset + limit else |s|;
    s[lo..hi]
  }

  /** A page holds min(limit, what is left after the offset) rows, all taken in order from after the offset. */
  lemma WindowSize(s: seq<News>, offset: int, limit: int)
    requires offset >= 0 && limit >= 0
    ensures |Window(s, offset, limit)| == if offset >= |s| then 0 else if limit < |s| - offset then limit else |s| - offset
    ensures forall k :: 0 <= k < |Window(s, offset, limit)| ==> Window(s, offset, limit)[k] == s[offset + k]
  {
  }

  /** Everything listed matches the filters and is a row of the table, the listing has no row twice and is in order. */
  lemma ListingProperties(rows: map<int, News>, nextId: int, title: string, categories: seq<string>, status: string,
                          column: string, dir: Direction, matcher: (string, string) -> bool)
    requires TableValid(rows, nextId)
    requires Sortable(column)
    ensures var all := Listing(rows, nextId, title, categories, status, column, dir, matcher);
      && SortedBy(column, dir, all)
      && (forall x :: x in all <==> x.id in rows && rows[x.id] == x && Matches(x, title, categories, status, matcher))
  {
    var base := RowsBelow(rows, nextId);
    RowsBelowContents(rows, nextId, nextId);
    assert DistinctIds(base) by {
      forall i, j | 0 <= i < j < |base| ensures base[i].id != base[j].id {
      }
    }
    var matching := Filter(base, title, categories, status, matcher);
    SortRowsSorted(column, dir, matching);
    var all := SortRows(column, dir, matching);
    forall x ensures x in all <==> x in matching {
      assert x in all <==> x in multiset(all);
    }
  }

  /** A slice of a sorted listing is sorted. */
  lemma WindowSorted(column: string, dir: Direction, s: seq<News>, offset: int, limit: int)
    requires Sortable(column) && offset >= 0 && limit >= 0
    requires SortedBy(column, dir, s)
    ensures SortedBy(column, dir, Window(s, offset, limit))
    ensures forall x :: x in Window(s, offset, limit) ==> x in s
  {
    var w := Window(s, offset, limit);
    WindowSize(s, offset, limit);
    forall i, j | 0 <= i < j < |w| ensures Before(column, dir, w[i], w[j]) {
      assert w[i] == s[offset + i] && w[j] == s[offset + j];
    }
  }

  /**
   * A page of the listing holds at most `limit` rows, keeps the listing's
   * order, and every row on it is a row of the table that matches the filters.
   */
  lemma PageProperties(rows: map<int, News>, nextId: int, title: string, categories: seq<string>, status: string,
                       column: string, dir: Direction, matcher: (string, string) -> bool, offset: int, limit: int)
    requires TableValid(rows, nextId)
    requires Sortable(column) && offset >= 0 && limit >= 0
    ensures var page := Window(Listing(rows, nextId, title, categories, status, column, dir, matcher), offset, limit);
      && |page| <= limit
      && SortedBy(column, dir, page)
      && forall x :: x in page ==> x.id in rows && rows[x.id] == x && Matches(x, title, categories, status, matcher)
  {
    var all := Listing(rows, nextId, title, categories, status, column, dir, matcher);
    ListingProperties(rows, nextId, title, categories, status, column, dir, matcher);
    WindowSorted(column, dir, all, offset, limit);
    WindowSize(all, offset, limit);
  }

  /** The news table of the PostgreSQL database behind NewsModel. */
  class NewsModel {
    var rows: map<int, News>
    var nextId: int

    predicate Valid()
      reads this
    {
      TableValid(rows, nextId)
    }

    /** An empty table whose id sequence starts at 1. */
    constructor ()
      ensures rows == map[] && nextId == 1 && Valid()
    {
      rows := map[];
      nextId := 1;
    }

    /**
     * Insert: stores the item under the next id with created_at = updated_at =
     * now and version 1, and writes id, created_at and version back into the
     * caller's record (returned as `written`); updated_at is not read back.
     */
    method Insert(news: News, now: Time, fault: bool) returns (written: News, err: Option<StoreError>)
      requires Valid()
      modifies this
      ensures Valid()
      ensures fault ==> err == Some(StorageFailure) && written == news && rows == old(rows) && nextId == old(nextId)
      ensures !fault ==>
        && err == None
        && written == news.(id := old(nextId), createdAt := now, version := INITIAL_VERSION)
        && old(nextId) !in old(rows)
        && rows == old(rows)[old(nextId) := InsertedRow(news, old(nextId), now)]
        && nextId == old(nextId) + 1
    {
      if fault {
        return news, Some(StorageFailure);
      }
      var id := nextId;
      rows := rows[id := InsertedRow(news, id, now)];
      nextId := nextId + 1;
      written := news.(id := id, createdAt := now, version := INITIAL_VERSION);
      err := None;
    }

    /** Get: an id below 1 is not found without a query; otherwise the stored row or not found. */
    method Get(id: int, fault: bool) returns (r: Result<News, StoreError>)
      ensures id < 1 ==> r == Failure(RecordNotFound)
      ensures id >= 1 && fault ==> r == Failure(StorageFailure)
      ensures id >= 1 && !fault ==> r == GetRow(rows, id)
      ensures id >= 1 && !fault ==> (r.Success? <==> id in rows) && (r.Success? ==> r.value == rows[id])
    {
      if id < 1 {
        return Failure(RecordNotFound);
      }
      if fault {
        return Failure(StorageFailure);
      }
      if id in rows {
        r := Success(rows[id]);
      } else {
        r := Failure(RecordNotFound);
      }
    }

    /**
     * Update: the conditional UPDATE ... WHERE id = $6 AND version = $7. On a
     * match the row gets the caller's fields, updated_at = now and the next
     * version, which is written back into the caller's record; otherwise the
     * table is unchanged and the error is an edit conflict.
     */
    method Update(news: News, now: Time, fault: bool) returns (written: News, err: Option<StoreError>)
      requires Valid()
      modifies this
      ensures Valid() && nextId == old(nextId)
      ensures fault ==> err == Some(StorageFailure) && written == news && rows == old(rows)
      ensures !fault ==> (rows, err) == UpdateRows(old(rows), news, now)
      ensures !fault && err == None ==> written == news.(version := old(rows)[news.id].version + 1)
      ensures !fault && err != None ==> written == news
    {
      if fault {
        return news, Some(StorageFailure);
      }
      if news.id in rows && rows[news.id].version == news.version {
        var stored := UpdatedRow(rows[news.id], news, now);
        rows := rows[news.id := stored];
        written := news.(version := stored.version);
        err := None;
      } else {
        written := news;
        err := Some(EditConflict);
      }
    }

    /** Delete: an id below 1, or no row deleted, is not found; otherwise exactly that row goes. */
    method Delete(id: int, fault: bool) returns (err: Option<StoreError>)
      requires Valid()
      modifies this
      ensures Valid() && nextId == old(nextId)
      ensures id < 1 ==> err == Some(RecordNotFound) && rows == old(rows)
      ensures id >= 1 && fault ==> err == Some(StorageFailure) && rows == old(rows)
      ensures id >= 1 && !fault ==> (rows, err) == DeleteRows(old(rows), id)
    {
      if id < 1 {
        return Some(RecordNotFound);
      }
      if fault {
        return Some(StorageFailure);
      }
      if id in rows {
        rows := rows - {id};
        err := None;
      } else {
        err := Some(RecordNotFound);
      }
    }

    /**
     * GetAll: the filtered, ordered page of the listing and its metadata. The
     * sort key must be in the safelist (sortColumn panics otherwise). The
     * database refuses an unknown or unsortable column and a negative LIMIT or
     * OFFSET. Each returned row carries count(*) OVER(), the number of all
     * matches, so the total is known only when the page is not empty; a page
     * past the last match yields the empty metadata.
     */
    method GetAll(title: string, categories: seq<string>, status: string, f: Filters,
                  matcher: (string, string) -> bool, fault: bool)
      returns (news: seq<News>, metadata: Metadata, err: Option<StoreError>)
      requires Valid()
      requires f.sort in f.sortSafelist
      ensures err.None? <==> !fault && Sortable(TrimPrefix(f.sort, '-')) && Limit(f) >= 0 && Offset(f) >= 0
      ensures err.Some? ==> err == Some(StorageFailure) && news == [] && metadata == EMPTY_METADATA
      ensures err.None? ==>
        var all := Listing(rows, nextId, title, categories, status, TrimPrefix(f.sort, '-'), SortDirection(f), matcher);
        && news == Window(all, Offset(f), Limit(f))
        && metadata == CalculateMetadata(if news == [] then 0 else |all|, f.page, f.pageSize)
    {
      var column := SortColumn(f);
      var dir := SortDirection(f);
      if fault || !Sortable(column.value) || Limit(f) < 0 || Offset(f) < 0 {
        return [], EMPTY_METADATA, Some(StorageFailure);
      }
      var all := Listing(rows, nextId, title, categories, status, column.value, dir, matcher);
      var result := Window(all, Offset(f), Limit(f));
      var totalRecords := 0;
      news := [];
      var i := 0;
      while i < |result|
        invariant 0 <= i <= |result|
        invariant news == result[..i]
        invariant totalRecords == if i == 0 then 0 else |all|
      {
        totalRecords := |all|;
        news := news + [result[i]];
        i := i + 1;
      }
      assert news == result;
      metadata := CalculateMetadata(totalRecords, f.page, f.pageSize);
      err := None;
    }
  }

  /** A page that starts past the last match is empty and carries the empty metadata. */
  lemma PastLastPage(all: seq<News>, f: Filters)
    requires Limit(f) >= 0 && Offset(f) >= |all|
    ensures Window(all, Offset(f), Limit(f)) == []
    ensures CalculateMetadata(0, f.page, f.pageSize) == EMPTY_METADATA
  {
  }

  /** MockNewsModel: every statement succeeds and returns nothing. */
  class MockNewsModel {
    constructor ()
    {
    }

    method Insert(news: News) returns (written: News, err: Option<StoreError>)
      ensures written == news && err == None
    {
      return news, None;
    }

    /** Returns neither a row nor an error. */
    method Get(id: int) returns (news: Option<News>, err: Option<StoreError>)
      ensures news == None && err == None
    {
      return None, None;
    }

    method Update(news: News) returns (written: News, err: Option<StoreError>)
      ensures written == news && err == None
    {
      return news, None;
    }

    method Delete(id: int) returns (err: Option<StoreError>)
      ensures err == None
    {
      return None;
    }

    method GetAll(title: string, categories: seq<string>, status: string, f: Filters)
      returns (news: seq<News>, metadata: Metadata, err: Option<StoreError>)
      ensures news == [] && metadata == EMPTY_METADATA && err == None
    {
      return [], EMPTY_METADATA, None;
    }
  }
}
