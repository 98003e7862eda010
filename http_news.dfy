/**
 * The decisions of the JSON API's news handlers (cmd/api/news.go): which
 * response each request gets and which statement reaches the news table.
 * Decoding the body is a parameter (None for a body that does not decode);
 * the response is a value instead of bytes written to the connection.
 */
module HttpNews {
  import opened Wrappers
  import opened Text
  import opened Validation
  import opened Filters
  import opened NewsRecord
  import opened NewsOrder
  import opened NewsStorage
  import opened RequestParams

  /** The response a handler sends. */
  datatype Response =
    | Created(location: string, news: News)
    | Shown(news: News)
    | Deleted
    | Listed(items: seq<News>, metadata: Metadata)
    | BadRequest
    | NotFound
    | Conflict
    | FailedValidation(errors: map<string, string>)
    | ServerError

  /** The body of a create request. */
  datatype CreateInput = CreateInput(title: string, content: string, categories: seq<string>,
                                     status: string, imageUrl: Option<string>)

  /** The body of an update request: each field may be left out. */
  datatype UpdateInput = UpdateInput(title: Option<string>, content: Option<string>,
                                     categories: Option<seq<string>>, status: Option<string>,
                                     imageUrl: Option<string>)

  /** The sort keys a listing accepts. */
  const LIST_SAFELIST: seq<string> := ["id", "title", "status", "-id", "-title", "-status"]

  /** The new item a create request describes; the other fields hold Go's zero values. */
  function NewsOfInput(input: CreateInput): News {
    News(0, 0, 0, input.title, input.content, input.categories, input.status, input.imageUrl, 0)
  }

  /** The Location header of a created item. */
  function Location(id: int): string {
    "/v1/news/" + FormatInt(id)
  }

  /** The Location header names the item: its last segment reads back as the id. */
  lemma LocationNamesItem(id: int)
    requires 1 <= id < INT64_CUTOFF
    ensures HasPrefix(Location(id), "/v1/news/")
    ensures ReadIDParam(Location(id)[|"/v1/news/"|..]) == (id, None)
  {
    assert Location(id)[|"/v1/news/"|..] == FormatInt(id);
    ReadIDParamOfFormatInt(id);
  }

  /**
   * createNewsHandler: an undecodable body is a bad request, an invalid item
   * is a failed validation, and only a valid item is inserted; the response
   * carries the item as Insert wrote it back and its Location.
   */
  method CreateNews(store: NewsModel, input: Option<CreateInput>, now: Time, fault: bool) returns (resp: Response)
    requires store.Valid()
    modifies store
    ensures store.Valid()
    ensures !resp.Created? ==> store.nextId == old(store.nextId)
    ensures input.None? ==> resp == BadRequest && store.rows == old(store.rows)
    ensures input.Some? && !NewsValid(NewsOfInput(input.value)) ==>
      && resp == FailedValidation(RecordAll(map[], NewsChecks(NewsOfInput(input.value))))
      && store.rows == old(store.rows)
    ensures input.Some? && NewsValid(NewsOfInput(input.value)) && fault ==> resp == ServerError && store.rows == old(store.rows)
    ensures input.Some? && NewsValid(NewsOfInput(input.value)) && !fault ==>
      var n, id := NewsOfInput(input.value), old(store.nextId);
      && resp == Created(Location(id), n.(id := id, createdAt := now, version := INITIAL_VERSION))
      && store.rows == old(store.rows)[id := InsertedRow(n, id, now)]
  {
    if input.None? {
      return BadRequest;
    }
    var news := NewsOfInput(input.value);
    var v := new Validator();
    ValidateNews(v, news);
    NewsValidationOutcome(map[], news);
    if !v.Valid() {
      return FailedValidation(v.errors);
    }
    var written, err := store.Insert(news, now, fault);
    if err.Some? {
      return ServerError;
    }
    resp := Created(Location(written.id), written);
  }

  /** showNewsHandler: a bad id or a missing row is not found, a failing database a server error. */
  method ShowNews(store: NewsModel, idParam: string, fault: bool) returns (resp: Response)
    ensures ReadIDParam(idParam).1.Some? ==> resp == NotFound
    ensures ReadIDParam(idParam).1.None? && fault ==> resp == ServerError
    ensures ReadIDParam(idParam).1.None? && !fault ==>
      var id := ReadIDParam(idParam).0;
      && (resp.Shown? <==> id in store.rows)
      && (resp.Shown? ==> resp.news == store.rows[id])
      && (!resp.Shown? ==> resp == NotFound)
  {
    var (id, bad) := ReadIDParam(idParam);
    if bad.Some? {
      return NotFound;
    }
    var r := store.Get(id, fault);
    match r
    case Success(news) => resp := Shown(news);
    case Failure(e) => resp := if e == RecordNotFound then NotFound else ServerError;
  }

  /** The X-Expected-Version header, when given, must be the stored version written in decimal. */
  predicate VersionHeaderConflict(header: string, stored: News) {
    header != "" && FormatInt(stored.version) != header
  }

  /** A header naming version `w` conflicts exactly when `w` is not the stored version; no header never conflicts. */
  lemma VersionHeaderIff(w: int, stored: News)
    ensures !VersionHeaderConflict("", stored)
    ensures VersionHeaderConflict(FormatInt(w), stored) <==> w != stored.version
  {
    if FormatInt(w) == FormatInt(stored.version) {
      FormatIntInjective(w, stored.version);
    }
  }

  /** The partial update: every field given in the body replaces the stored one. */
  function Merge(stored: News, input: UpdateInput): News {
    stored.(
      title := if input.title.Some? then input.title.value else stored.title,
      content := if input.content.Some? then input.content.value else stored.content,
      categories := if input.categories.Some? then input.categories.value else stored.categories,
      status := if input.status.Some? then input.status.value else stored.status,
      imageUrl := if input.imageUrl.Some? then input.imageUrl else stored.imageUrl)
  }

  /**
   * Each editable field is overwritten iff it is given; id, timestamps and
   * version stay. Merging the same body twice changes nothing more, and an
   * empty body changes nothing.
   */
  lemma MergeFields(stored: News, input: UpdateInput)
    ensures var m := Merge(stored, input);
      && (input.title.Some? ==> m.title == input.title.value) && (input.title.None? ==> m.title == stored.title)
      && (input.content.Some? ==> m.content == input.content.value) && (input.content.None? ==> m.content == stored.content)
      && (input.categories.Some? ==> m.categories == input.categories.value)
      && (input.categories.None? ==> m.categories == stored.categories)
      && (input.status.Some? ==> m.status == input.status.value) && (input.status.None? ==> m.status == stored.status)
      && (input.imageUrl.Some? ==> m.imageUrl == input.imageUrl) && (input.imageUrl.None? ==> m.imageUrl == stored.imageUrl)
      && m.id == stored.id && m.createdAt == stored.createdAt && m.updatedAt == stored.updatedAt
      && m.version == stored.version
    ensures Merge(Merge(stored, input), input) == Merge(stored, input)
    ensures Merge(stored, UpdateInput(None, None, None, None, None)) == stored
  {
  }

  /** A write by another request: an update of an item, or a delete of an id. */
  datatype Write = Put(news: News) | Remove(id: int)

  /** The table after a write by another request that lands between this handler's read and its write. */
  function Interleave(rows: map<int, News>, concurrent: Option<Write>, now: Time): map<int, News> {
    match concurrent
    case None => rows
    case Some(Put(news)) => UpdateRows(rows, news, now).0
    case Some(Remove(id)) => DeleteRows(rows, id).0
  }

  /**
   * Without a concurrent writer the handler's conditional update always
   * succeeds, since it writes the version it read; if another request that
   * read the same version updated the item first, or another request deleted
   * it, the update finds no row and it is an edit conflict.
   */
  lemma HandlerUpdateRace(rows: map<int, News>, stored: News, input: UpdateInput, other: News, now: Time)
    requires stored.id in rows && rows[stored.id] == stored
    ensures UpdateRows(rows, Merge(stored, input), now).1 == None
    ensures other.id == stored.id && other.version == stored.version ==>
      UpdateRows(Interleave(rows, Some(Put(other)), now), Merge(stored, input), now).1 == Some(EditConflict)
    ensures stored.id >= 1 ==>
      UpdateRows(Interleave(rows, Some(Remove(stored.id)), now), Merge(stored, input), now).1 == Some(EditConflict)
  {
    if other.id == stored.id && other.version == stored.version {
      RacingUpdates(rows, other, Merge(stored, input), now, now);
    }
  }

  /**
   * updateNewsHandler: reads the item, refuses a mismatching
   * X-Expected-Version before the body is read, merges the body, validates
   * the result and writes it with the conditional update. `concurrent` is a
   * write by another request (an update or a delete) that the database
   * applies between the read and the write.
   */
  method UpdateNews(store: NewsModel, idParam: string, expectedVersion: string, input: Option<UpdateInput>,
                    concurrent: Option<Write>, now: Time, getFault: bool, updateFault: bool)
    returns (resp: Response)
    requires store.Valid()
    modifies store
    ensures store.Valid() && store.nextId == old(store.nextId)
    ensures ReadIDParam(idParam).1.Some? ==> resp == NotFound && store.rows == old(store.rows)
    ensures ReadIDParam(idParam).1.None? && getFault ==> resp == ServerError && store.rows == old(store.rows)
    ensures ReadIDParam(idParam).1.None? && !getFault && ReadIDParam(idParam).0 !in old(store.rows) ==>
      resp == NotFound && store.rows == old(store.rows)
    ensures ReadIDParam(idParam).1.None? && !getFault && ReadIDParam(idParam).0 in old(store.rows) ==>
      var stored := old(store.rows)[ReadIDParam(idParam).0];
      && (VersionHeaderConflict(expectedVersion, stored) ==> resp == Conflict && store.rows == old(store.rows))
      && (!VersionHeaderConflict(expectedVersion, stored) && input.None? ==> resp == BadRequest && store.rows == old(store.rows))
      && (!VersionHeaderConflict(expectedVersion, stored) && input.Some? && !NewsValid(Merge(stored, input.value)) ==>
            resp == FailedValidation(RecordAll(map[], NewsChecks(Merge(stored, input.value)))) && store.rows == old(store.rows))
      && (!VersionHeaderConflict(expectedVersion, stored) && input.Some? && NewsValid(Merge(stored, input.value)) ==>
            var merged := Merge(stored, input.value);
            var mid := Interleave(old(store.rows), concurrent, now);
            var (after, err) := UpdateRows(mid, merged, now);
            if updateFault then resp == ServerError && store.rows == mid
            else store.rows == after && resp == (if err == None then Shown(merged.(version := stored.version + 1)) else Conflict))
  {
    var (id, bad) := ReadIDParam(idParam);
    if bad.Some? {
      return NotFound;
    }
    var r := store.Get(id, getFault);
    if r.Failure? {
      return if r.error == RecordNotFound then NotFound else ServerError;
    }
    var news := r.value;
    if expectedVersion != "" {
      if FormatInt(news.version) != expectedVersion {
        return Conflict;
      }
    }
    if input.None? {
      return BadRequest;
    }
    news := ApplyBody(news, input.value);
    resp := SaveMerged(store, news, r.value.version, concurrent, now, updateFault);
  }

  /** The field-by-field overwrite of the stored item with what the body gives. */
  method ApplyBody(stored: News, body: UpdateInput) returns (news: News)
    ensures news == Merge(stored, body)
  {
    news := stored;
    if body.title.Some? {
      news := news.(title := body.title.value);
    }
    if body.content.Some? {
      news := news.(content := body.content.value);
    }
    if body.categories.Some? {
      news := news.(categories := body.categories.value);
    }
    if body.status.Some? {
      news := news.(status := body.status.value);
    }
    if body.imageUrl.Some? {
      news := news.(imageUrl := body.imageUrl);
    }
  }

  /** The second half of updateNewsHandler: validate the merged item, then write it. */
  method SaveMerged(store: NewsModel, news: News, version: int, concurrent: Option<Write>, now: Time, updateFault: bool)
    returns (resp: Response)
    requires store.Valid() && news.version == version
    modifies store
    ensures store.Valid() && store.nextId == old(store.nextId)
    ensures !NewsValid(news) ==> resp == FailedValidation(RecordAll(map[], NewsChecks(news))) && store.rows == old(store.rows)
    ensures NewsValid(news) ==>
      var mid := Interleave(old(store.rows), concurrent, now);
      var (after, err) := UpdateRows(mid, news, now);
      if updateFault then resp == ServerError && store.rows == mid
      else store.rows == after && resp == (if err == None then Shown(news.(version := version + 1)) else Conflict)
  {
    var v := new Validator();
    ValidateNews(v, news);
    NewsValidationOutcome(map[], news);
    if !v.Valid() {
      return FailedValidation(v.errors);
    }
    match concurrent {
      case None =>
      case Some(Put(other)) =>
        var _, _ := store.Update(other, now, false);
      case Some(Remove(id)) =>
        var _ := store.Delete(id, false);
    }
    var written, err := store.Update(news, now, updateFault);
    if err.Some? {
      return if err.value == EditConflict then Conflict else ServerError;
    }
    resp := Shown(written);
  }

  /** deleteNewsHandler: a bad id or a row already gone is not found; otherwise exactly that row goes. */
  method DeleteNews(store: NewsModel, idParam: string, fault: bool) returns (resp: Response)
    requires store.Valid()
    modifies store
    ensures store.Valid() && store.nextId == old(store.nextId)
    ensures ReadIDParam(idParam).1.Some? ==> resp == NotFound && store.rows == old(store.rows)
    ensures ReadIDParam(idParam).1.None? && fault ==> resp == ServerError && store.rows == old(store.rows)
    ensures ReadIDParam(idParam).1.None? && !fault ==>
      var (after, err) := DeleteRows(old(store.rows), ReadIDParam(idParam).0);
      && store.rows == after
      && resp == (if err == None then Deleted else NotFound)
  {
    var (id, bad) := ReadIDParam(idParam);
    if bad.Some? {
      return NotFound;
    }
    var err := store.Delete(id, fault);
    if err.Some? {
      return if err.value == RecordNotFound then NotFound else ServerError;
    }
    resp := Deleted;
  }

  /** The filters a listing reads from the query string, with their defaults. */
  function ListFilters(qs: Query): Filters {
    Filters(IntParam(qs, "page", 1), IntParam(qs, "page_size", 20), ReadString(qs, "sort", "id"), LIST_SAFELIST)
  }

  /** The query string is acceptable: both numbers parse and the filters are within bounds. */
  predicate ListQueryValid(qs: Query) {
    IntParamOk(qs, "page") && IntParamOk(qs, "page_size") && ValidFilters(ListFilters(qs))
  }

  /** The checks a listing runs, in order: the two integer readings, then the filter bounds. */
  function ListChecks(qs: Query): seq<Rule> {
    [Rule(IntParamOk(qs, "page"), "page", MSG_NOT_INTEGER), Rule(IntParamOk(qs, "page_size"), "page_size", MSG_NOT_INTEGER)]
      + FilterChecks(ListFilters(qs))
  }

  /** A refused listing reports "page", "page_size" or "sort" for exactly the readings and bounds that fail. */
  lemma ListErrorKeys(qs: Query)
    ensures RecordAll(map[], ListChecks(qs)).Keys ==
      (if IntParamOk(qs, "page") then {} else {"page"}) + (if IntParamOk(qs, "page_size") then {} else {"page_size"})
        + FailedKeys(FilterChecks(ListFilters(qs)))
  {
    var two := [Rule(IntParamOk(qs, "page"), "page", MSG_NOT_INTEGER), Rule(IntParamOk(qs, "page_size"), "page_size", MSG_NOT_INTEGER)];
    RecordAllAppend(map[], two, FilterChecks(ListFilters(qs)));
    RecordAllKeys(map[], two);
    RecordAllKeys(RecordAll(map[], two), FilterChecks(ListFilters(qs)));
    assert FailedKeys(two) == (if IntParamOk(qs, "page") then {} else {"page"}) + (if IntParamOk(qs, "page_size") then {} else {"page_size"}) by {
      assert two[0].key == "page" && two[1].key == "page_size";
    }
  }

  /**
   * An empty query string lists page 1 of 20 items by id, and every accepted
   * sort key names a column the listing can order by.
   */
  lemma ListDefaults(qs: Query)
    ensures qs == map[] ==> ListFilters(qs) == Filters(1, 20, "id", LIST_SAFELIST) && ListQueryValid(qs)
    ensures ListQueryValid(qs) ==>
      && Sortable(TrimPrefix(ListFilters(qs).sort, '-'))
      && Limit(ListFilters(qs)) >= 1 && Offset(ListFilters(qs)) >= 0
  {
    var f := ListFilters(qs);
    if ListQueryValid(qs) {
      OffsetOfValidFilters(f);
    }
  }

  /**
   * The answer to a valid listing request: the page of every matching item
   * in listing order after the offset, and the metadata of the count of all
   * matches, which is known only when the page is not empty.
   */
  function ListResult(rows: map<int, News>, nextId: int, qs: Query, matcher: (string, string) -> bool): Response
    requires ListQueryValid(qs)
  {
    ListDefaults(qs);
    var f := ListFilters(qs);
    var all := Listing(rows, nextId, ReadString(qs, "title", ""), ReadCSV(qs, "categories", []),
                       ReadString(qs, "status", ""), TrimPrefix(f.sort, '-'), SortDirection(f), matcher);
    var page := Window(all, Offset(f), Limit(f));
    Listed(page, CalculateMetadata(if page == [] then 0 else |all|, f.page, f.pageSize))
  }

  /**
   * listNewsHandler: reads the filters with their defaults, refuses the
   * request on any validation error, and otherwise answers with the page
   * GetAll returns.
   */
  method ListNews(store: NewsModel, qs: Query, matcher: (string, string) -> bool, fault: bool) returns (resp: Response)
    requires store.Valid()
    ensures resp.FailedValidation? <==> !ListQueryValid(qs)
    ensures resp.FailedValidation? ==> resp.errors == RecordAll(map[], ListChecks(qs))
    ensures resp.FailedValidation? ==>
      resp.errors.Keys == (if IntParamOk(qs, "page") then {} else {"page"})
                          + (if IntParamOk(qs, "page_size") then {} else {"page_size"})
                          + FailedKeys(FilterChecks(ListFilters(qs)))
    ensures ListQueryValid(qs) && fault ==> resp == ServerError
    ensures ListQueryValid(qs) && !fault ==> resp == ListResult(store.rows, store.nextId, qs, matcher)
  {
    var v := new Validator();
    var title := ReadString(qs, "title", "");
    var categories := ReadCSV(qs, "categories", []);
    var status := ReadString(qs, "status", "");
    var page := ReadInt(qs, "page", 1, v);
    var pageSize := ReadInt(qs, "page_size", 20, v);
    var sort := ReadString(qs, "sort", "id");
    var f := Filters(page, pageSize, sort, LIST_SAFELIST);
    assert f == ListFilters(qs);
    assert v.Valid() <==> IntParamOk(qs, "page") && IntParamOk(qs, "page_size") by {
      var e1 := Record(map[], Rule(IntParamOk(qs, "page"), "page", MSG_NOT_INTEGER));
      assert !IntParamOk(qs, "page") ==> "page" in e1;
      assert !IntParamOk(qs, "page_size") ==> "page_size" in v.errors;
    }
    assert v.errors == RecordAll(map[], ListChecks(qs)[..2]) by {
      RecordAllStep(map[], ListChecks(qs), 2);
      RecordAllStep(map[], ListChecks(qs), 1);
      assert ListChecks(qs)[..0] == [];
    }
    ValidateFilters(v, f);
    RecordAllAppend(map[], ListChecks(qs)[..2], FilterChecks(f));
    assert ListChecks(qs)[..2] + FilterChecks(f) == ListChecks(qs);
    if !v.Valid() {
      ListErrorKeys(qs);
      return FailedValidation(v.errors);
    }
    ListDefaults(qs);
    var news, metadata, err := store.GetAll(title, categories, status, f, matcher, fault);
    if err.Some? {
      return ServerError;
    }
    resp := Listed(news, metadata);
  }
}
