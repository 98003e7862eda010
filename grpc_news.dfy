/**
 * The gRPC news service (internal/data/grpc_service/news/news_grpc_handler.go):
 * the same store behind a second front end, with its own defaults, its own
 * partial-update rule and protobuf messages. A reply is a value; the errors
 * the store returns are passed through unchanged.
 */
module GrpcNews {
  import opened Wrappers
  import opened Text
  import opened Validation
  import opened Filters
  import opened NewsRecord
  import opened NewsOrder
  import opened NewsStorage
  import HttpNews

  /** The protobuf News message; a timestamp is absent in the empty message. */
  datatype PbNews = PbNews(id: int, title: string, content: string, categories: seq<string>, status: string,
                           imageUrl: Option<string>, createdAt: Option<Time>, updatedAt: Option<Time>, version: int)

  /** The protobuf Metadata message: five int32 fields. */
  datatype PbMetadata = PbMetadata(currentPage: int, pageSize: int, firstPage: int, lastPage: int, totalRecords: int)

  const EMPTY_PB_NEWS: PbNews := PbNews(0, "", "", [], "", None, None, None, 0)

  /** What a handler answers: a message, or an error. */
  datatype Reply =
    | NewsReply(news: PbNews)
    | EmptyReply
    | ListReply(items: seq<PbNews>, metadata: PbMetadata)
    | Aborted
    | InvalidInput
    | InvalidFilters
    | StoreFailed(error: StoreError)

  datatype CreateRequest = CreateRequest(title: string, content: string, categories: seq<string>,
                                         status: string, imageUrl: Option<string>)

  /** An update request: the id and version are always sent, the other fields may be left out. */
  datatype UpdateRequest = UpdateRequest(id: int, version: int, title: Option<string>, content: Option<string>,
                                         categories: seq<string>, status: Option<string>, imageUrl: Option<string>)

  datatype ListRequest = ListRequest(title: string, categories: seq<string>, status: string,
                                     page: int, pageSize: int, sort: string)

  /** convertNewsToPB: no item gives the empty message; an item is copied field by field. */
  function ConvertNewsToPB(n: Option<News>): PbNews {
    match n
    case None => EMPTY_PB_NEWS
    case Some(x) => PbNews(x.id, x.title, x.content, x.categories, x.status, x.imageUrl,
                           Some(x.createdAt), Some(x.updatedAt), x.version)
  }

  /** The item a message carries back. */
  function NewsOfPB(pb: PbNews): News
    requires pb.createdAt.Some? && pb.updatedAt.Some?
  {
    News(pb.id, pb.createdAt.value, pb.updatedAt.value, pb.title, pb.content, pb.categories, pb.status,
         pb.imageUrl, pb.version)
  }

  /** The message of an item holds both timestamps and gives the item back, so no field is lost. */
  lemma ConvertNewsToPBRoundTrip(n: News)
    ensures ConvertNewsToPB(None) == EMPTY_PB_NEWS
    ensures ConvertNewsToPB(Some(n)).createdAt.Some? && ConvertNewsToPB(Some(n)).updatedAt.Some?
    ensures NewsOfPB(ConvertNewsToPB(Some(n))) == n
    ensures ConvertNewsToPB(Some(n)) != EMPTY_PB_NEWS
  {
  }

  /** Go's int32(x): the low 32 bits as a signed number. */
  function Int32Wrap(x: int): (r: int)
    ensures -0x8000_0000 <= r < 0x8000_0000
    ensures (r - x) % 0x1_0000_0000 == 0
  {
    (x + 0x8000_0000) % 0x1_0000_0000 - 0x8000_0000
  }

  lemma Int32WrapInRange(x: int)
    requires -0x8000_0000 <= x < 0x8000_0000
    ensures Int32Wrap(x) == x
  {
  }

  function MetadataToPB(m: Metadata): PbMetadata {
    PbMetadata(Int32Wrap(m.currentPage), Int32Wrap(m.pageSize), Int32Wrap(m.firstPage),
               Int32Wrap(m.lastPage), Int32Wrap(m.totalRecords))
  }

  lemma {:induction false} ProductAtLeast(k: nat, b: int)
    requires b >= 1
    ensures k * b >= k
  {
    if k > 0 {
      ProductAtLeast(k - 1, b);
      assert k * b == (k - 1) * b + b;
    }
  }

  /** The last page number never exceeds the number of records. */
  lemma LastPageAtMostTotal(totalRecords: nat, page: int, pageSize: int)
    requires totalRecords > 0 && pageSize >= 1
    ensures CalculateMetadata(totalRecords, page, pageSize).lastPage <= totalRecords
  {
    var m := CalculateMetadata(totalRecords, page, pageSize);
    ProductAtLeast(m.lastPage - 1, pageSize);
  }

  /** For validated filters and fewer than 2^31 matches, the metadata is copied without wrapping. */
  lemma MetadataFitsInt32(totalRecords: nat, f: Filters)
    requires ValidFilters(f) && totalRecords < 0x8000_0000
    ensures var m := CalculateMetadata(totalRecords, f.page, f.pageSize);
      MetadataToPB(m) == PbMetadata(m.currentPage, m.pageSize, m.firstPage, m.lastPage, m.totalRecords)
  {
    var m := CalculateMetadata(totalRecords, f.page, f.pageSize);
    if totalRecords > 0 {
      LastPageAtMostTotal(totalRecords, f.page, f.pageSize);
    }
    Int32WrapInRange(m.currentPage);
    Int32WrapInRange(m.pageSize);
    Int32WrapInRange(m.firstPage);
    Int32WrapInRange(m.lastPage);
    Int32WrapInRange(m.totalRecords);
  }

  /** The item a create request describes: the image URL is always set, to "" when it was left out. */
  function NewsOfCreateRequest(req: CreateRequest): (n: News)
    ensures n.imageUrl.Some?
    ensures req.imageUrl.None? ==> n.imageUrl == Some("")
    ensures req.imageUrl.Some? ==> n.imageUrl == req.imageUrl
  {
    var imageUrl := if req.imageUrl.Some? then req.imageUrl.value else "";
    News(0, 0, 0, req.title, req.content, req.categories, req.status, Some(imageUrl), 0)
  }

  /** CreateNewsHandler: only a valid item is inserted; the reply is the item as Insert wrote it back. */
  method CreateNews(store: NewsModel, req: CreateRequest, now: Time, fault: bool) returns (reply: Reply)
    requires store.Valid()
    modifies store
    ensures store.Valid()
    ensures !NewsValid(NewsOfCreateRequest(req)) ==>
      reply == InvalidInput && store.rows == old(store.rows) && store.nextId == old(store.nextId)
    ensures NewsValid(NewsOfCreateRequest(req)) && fault ==>
      reply == StoreFailed(StorageFailure) && store.rows == old(store.rows) && store.nextId == old(store.nextId)
    ensures NewsValid(NewsOfCreateRequest(req)) && !fault ==>
      var n, id := NewsOfCreateRequest(req), old(store.nextId);
      && reply == NewsReply(ConvertNewsToPB(Some(n.(id := id, createdAt := now, version := INITIAL_VERSION))))
      && store.rows == old(store.rows)[id := InsertedRow(n, id, now)]
  {
    var news := NewsOfCreateRequest(req);
    var v := new Validator();
    ValidateNews(v, news);
    NewsValidationOutcome(map[], news);
    if !v.Valid() {
      return InvalidInput;
    }
    var written, err := store.Insert(news, now, fault);
    if err.Some? {
      return StoreFailed(err.value);
    }
    reply := NewsReply(ConvertNewsToPB(Some(written)));
  }

  /** ShowNewsHandler: the stored item, or the store's error as it is. */
  method ShowNews(store: NewsModel, id: int, fault: bool) returns (reply: Reply)
    ensures id < 1 ==> reply == StoreFailed(RecordNotFound)
    ensures id >= 1 && fault ==> reply == StoreFailed(StorageFailure)
    ensures id >= 1 && !fault ==>
      && (reply.NewsReply? <==> id in store.rows)
      && (reply.NewsReply? ==> reply.news == ConvertNewsToPB(Some(store.rows[id])))
      && (!reply.NewsReply? ==> reply == StoreFailed(RecordNotFound))
  {
    var r := store.Get(id, fault);
    match r
    case Success(news) => reply := NewsReply(ConvertNewsToPB(Some(news)));
    case Failure(e) => reply := StoreFailed(e);
  }

  /** The gRPC partial update: the fields that are present replace the stored ones; categories only when the list is not empty. */
  function GrpcMerge(stored: News, req: UpdateRequest): News {
    stored.(
      title := if req.title.Some? then req.title.value else stored.title,
      content := if req.content.Some? then req.content.value else stored.content,
      categories := if |req.categories| > 0 then req.categories else stored.categories,
      status := if req.status.Some? then req.status.value else stored.status,
      imageUrl := if req.imageUrl.Some? then req.imageUrl else stored.imageUrl)
  }

  /**
   * An update request can never empty the categories of an item that has
   * some, and it keeps id, timestamps and version; the other fields change
   * iff they are present.
   */
  lemma GrpcMergeFields(stored: News, req: UpdateRequest)
    ensures var m := GrpcMerge(stored, req);
      && (|stored.categories| > 0 ==> |m.categories| > 0)
      && (m.categories == req.categories || m.categories == stored.categories)
      && (req.categories == [] ==> m.categories == stored.categories)
      && (req.title.Some? ==> m.title == req.title.value) && (req.title.None? ==> m.title == stored.title)
      && (req.content.Some? ==> m.content == req.content.value) && (req.content.None? ==> m.content == stored.content)
      && (req.status.Some? ==> m.status == req.status.value) && (req.status.None? ==> m.status == stored.status)
      && (req.imageUrl.None? ==> m.imageUrl == stored.imageUrl)
      && (req.imageUrl.Some? ==> m.imageUrl == req.imageUrl)
      && m.id == stored.id && m.createdAt == stored.createdAt && m.updatedAt == stored.updatedAt
      && m.version == stored.version
  {
  }

  /** The field-by-field overwrite of the stored item with what the request holds. */
  method ApplyRequest(stored: News, req: UpdateRequest) returns (news: News)
    ensures news == GrpcMerge(stored, req)
  {
    news := stored;
    if req.title.Some? {
      news := news.(title := req.title.value);
    }
    if req.content.Some? {
      news := news.(content := req.content.value);
    }
    if |req.categories| > 0 {
      news := news.(categories := req.categories);
    }
    if req.status.Some? {
      news := news.(status := req.status.value);
    }
    if req.imageUrl.Some? {
      news := news.(imageUrl := Some(req.imageUrl.value));
    }
  }

  /**
   * UpdateNewsHandler: reads the item, aborts when the request's version is
   * not the stored one before anything is applied, merges, validates and
   * writes with the conditional update.
   */
  method UpdateNews(store: NewsModel, req: UpdateRequest, now: Time, getFault: bool, updateFault: bool)
    returns (reply: Reply)
    requires store.Valid()
    modifies store
    ensures store.Valid() && store.nextId == old(store.nextId)
    ensures req.id < 1 ==> reply == StoreFailed(RecordNotFound) && store.rows == old(store.rows)
    ensures req.id >= 1 && getFault ==> reply == StoreFailed(StorageFailure) && store.rows == old(store.rows)
    ensures req.id >= 1 && !getFault && req.id !in old(store.rows) ==>
      reply == StoreFailed(RecordNotFound) && store.rows == old(store.rows)
    ensures req.id >= 1 && !getFault && req.id in old(store.rows) ==>
      var stored := old(store.rows)[req.id];
      var merged := GrpcMerge(stored, req);
      && (req.version != stored.version ==> reply == Aborted && store.rows == old(store.rows))
      && (req.version == stored.version && !NewsValid(merged) ==> reply == InvalidInput && store.rows == old(store.rows))
      && (req.version == stored.version && NewsValid(merged) && updateFault ==>
            reply == StoreFailed(StorageFailure) && store.rows == old(store.rows))
      && (req.version == stored.version && NewsValid(merged) && !updateFault ==>
            && store.rows == old(store.rows)[req.id := UpdatedRow(stored, merged, now)]
            && reply == NewsReply(ConvertNewsToPB(Some(merged.(version := stored.version + 1)))))
  {
    var r := store.Get(req.id, getFault);
    if r.Failure? {
      return StoreFailed(r.error);
    }
    if req.version != r.value.version {
      return Aborted;
    }
    var news := ApplyRequest(r.value, req);
    reply := SaveRequest(store, news, r.value.version, now, updateFault);
  }

  /** The second half of UpdateNewsHandler: validate the merged item, then write it. */
  method SaveRequest(store: NewsModel, news: News, version: int, now: Time, updateFault: bool) returns (reply: Reply)
    requires store.Valid() && news.version == version
    modifies store
    ensures store.Valid() && store.nextId == old(store.nextId)
    ensures !NewsValid(news) ==> reply == InvalidInput && store.rows == old(store.rows)
    ensures NewsValid(news) && updateFault ==> reply == StoreFailed(StorageFailure) && store.rows == old(store.rows)
    ensures NewsValid(news) && !updateFault ==>
      var (after, err) := UpdateRows(old(store.rows), news, now);
      && store.rows == after
      && reply == (if err == None then NewsReply(ConvertNewsToPB(Some(news.(version := version + 1)))) else StoreFailed(err.value))
  {
    var v := new Validator();
    ValidateNews(v, news);
    NewsValidationOutcome(map[], news);
    if !v.Valid() {
      return InvalidInput;
    }
    var written, err := store.Update(news, now, updateFault);
    if err.Some? {
      return StoreFailed(err.value);
    }
    reply := NewsReply(ConvertNewsToPB(Some(written)));
  }

  /** DeleteNewsHandler: the store's error as it is, or the empty reply. */
  method DeleteNews(store: NewsModel, id: int, fault: bool) returns (reply: Reply)
    requires store.Valid()
    modifies store
    ensures store.Valid() && store.nextId == old(store.nextId)
    ensures id < 1 ==> reply == StoreFailed(RecordNotFound) && store.rows == old(store.rows)
    ensures id >= 1 && fault ==> reply == StoreFailed(StorageFailure) && store.rows == old(store.rows)
    ensures id >= 1 && !fault ==>
      var (after, err) := DeleteRows(old(store.rows), id);
      && store.rows == after
      && reply == (if err == None then EmptyReply else StoreFailed(err.value))
  {
    var err := store.Delete(id, fault);
    if err.Some? {
      return StoreFailed(err.value);
    }
    reply := EmptyReply;
  }

  /** The filters of a list request: a page or page size that is not positive takes its default; the sort has none. */
  function GrpcFilters(req: ListRequest): Filters {
    Filters(if req.page <= 0 then 1 else req.page, if req.pageSize <= 0 then 20 else req.pageSize,
            req.sort, HttpNews.LIST_SAFELIST)
  }

  /**
   * Missing numbers take their defaults and positive ones are kept, so a page
   * or page size above the limit is still refused; an empty sort is refused,
   * and every accepted sort names a column the listing can order by.
   */
  lemma GrpcFiltersDefaults(req: ListRequest)
    ensures req.page <= 0 ==> GrpcFilters(req).page == 1
    ensures req.page > 0 ==> GrpcFilters(req).page == req.page
    ensures req.pageSize <= 0 ==> GrpcFilters(req).pageSize == 20
    ensures req.pageSize > 0 ==> GrpcFilters(req).pageSize == req.pageSize
    ensures req.page > MAX_PAGE || req.pageSize > MAX_PAGE_SIZE || req.sort == "" ==> !ValidFilters(GrpcFilters(req))
    ensures ValidFilters(GrpcFilters(req)) ==>
      Sortable(TrimPrefix(req.sort, '-')) && Limit(GrpcFilters(req)) >= 1 && Offset(GrpcFilters(req)) >= 0
  {
    var f := GrpcFilters(req);
    if ValidFilters(f) {
      OffsetOfValidFilters(f);
    }
  }

  /** The rows and metadata GetAll returns for a list request whose filters are valid. */
  function GrpcPage(rows: map<int, News>, nextId: int, req: ListRequest, matcher: (string, string) -> bool): (seq<News>, Metadata)
    requires ValidFilters(GrpcFilters(req))
  {
    GrpcFiltersDefaults(req);
    var f := GrpcFilters(req);
    var all := Listing(rows, nextId, req.title, req.categories, req.status, TrimPrefix(f.sort, '-'), SortDirection(f), matcher);
    var page := Window(all, Offset(f), Limit(f));
    (page, CalculateMetadata(if page == [] then 0 else |all|, f.page, f.pageSize))
  }

  /**
   * ListNewsHandler: defaults the numbers, validates the filters, calls
   * GetAll, converts every row in order and copies the metadata into int32
   * fields.
   */
  method ListNews(store: NewsModel, req: ListRequest, matcher: (string, string) -> bool, fault: bool) returns (reply: Reply)
    requires store.Valid()
    ensures reply == InvalidFilters <==> !ValidFilters(GrpcFilters(req))
    ensures ValidFilters(GrpcFilters(req)) && fault ==> reply == StoreFailed(StorageFailure)
    ensures ValidFilters(GrpcFilters(req)) && !fault ==>
      var (page, metadata) := GrpcPage(store.rows, store.nextId, req, matcher);
      && reply.ListReply?
      && |reply.items| == |page|
      && (forall i :: 0 <= i < |page| ==> reply.items[i] == ConvertNewsToPB(Some(page[i])))
      && reply.metadata == MetadataToPB(metadata)
  {
    var page := req.page;
    if page <= 0 {
      page := 1;
    }
    var pageSize := req.pageSize;
    if pageSize <= 0 {
      pageSize := 20;
    }
    var f := Filters(page, pageSize, req.sort, HttpNews.LIST_SAFELIST);
    assert f == GrpcFilters(req);
    var v := new Validator();
    ValidateFilters(v, f);
    if !v.Valid() {
      return InvalidFilters;
    }
    GrpcFiltersDefaults(req);
    var news, metadata, err := store.GetAll(req.title, req.categories, req.status, f, matcher, fault);
    if err.Some? {
      return StoreFailed(err.value);
    }
    var items := ConvertAll(news);
    reply := ListReply(items, MetadataToPB(metadata));
  }

  /** The append loop that turns the rows into messages, one for one and in order. */
  method ConvertAll(news: seq<News>) returns (items: seq<PbNews>)
    ensures |items| == |news|
    ensures forall i :: 0 <= i < |news| ==> items[i] == ConvertNewsToPB(Some(news[i]))
  {
    items := [];
    var i := 0;
    while i < |news|
      invariant 0 <= i <= |news|
      invariant |items| == i
      invariant forall k :: 0 <= k < i ==> items[k] == ConvertNewsToPB(Some(news[k]))
    {
      items := items + [ConvertNewsToPB(Some(news[i]))];
      i := i + 1;
    }
  }
}
