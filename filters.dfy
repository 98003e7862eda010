/**
 * The list-query parameters (page, page size, sort key and its safelist), the
 * checks that make them safe to put into SQL, and the pagination metadata
 * returned with every page (internal/data/database/filters.go).
 */
module Filters {
  import opened Wrappers
  import opened Text
  import opened Validation

  const MAX_PAGE: int := 10_000_000
  const MAX_PAGE_SIZE: int := 100

  datatype Filters = Filters(page: int, pageSize: int, sort: string, sortSafelist: seq<string>)

  datatype Direction = Asc | Desc

  /** f.limit(): the SQL LIMIT. */
  function Limit(f: Filters): int {
    f.pageSize
  }

  /** f.offset(): the SQL OFFSET, the number of matches on the pages before this one. */
  function Offset(f: Filters): int {
    (f.page - 1) * f.pageSize
  }

  /** What ValidateFilters accepts. */
  predicate ValidFilters(f: Filters) {
    && 1 <= f.page <= MAX_PAGE
    && 1 <= f.pageSize <= MAX_PAGE_SIZE
    && f.sort in f.sortSafelist
  }

  lemma ProductOrder(x: int, y: int, b: int)
    requires b > 0 && x * b < y * b
    ensures x < y
  {
  }

  lemma MultipleOf(k: int, b: int)
    requires b > 0
    ensures (k * b) / b == k && (k * b) % b == 0
  {
    var q, r := (k * b) / b, (k * b) % b;
    assert k * b == q * b + r;
    assert (k - q) * b == k * b - q * b;
    ProductOrder(k - q, 1, b);
    ProductOrder(-1, k - q, b);
  }

  /** For validated filters the offset is a non-negative multiple of the page size: page - 1 whole pages. */
  lemma OffsetOfValidFilters(f: Filters)
    requires ValidFilters(f)
    ensures Offset(f) >= 0 && Limit(f) >= 1
    ensures Offset(f) % Limit(f) == 0 && Offset(f) / Limit(f) == f.page - 1
  {
    MultipleOf(f.page - 1, f.pageSize);
  }

  /**
   * f.sortColumn(): scans the safelist for the sort key and, on a hit, returns it
   * without its leading "-". Go panics when the key is not in the safelist; that
   * outcome is None here.
   */
  method SortColumn(f: Filters) returns (column: Option<string>)
    ensures column.Some? <==> f.sort in f.sortSafelist
    ensures column.Some? ==> column.value == TrimPrefix(f.sort, '-')
    ensures column.Some? && HasPrefix(f.sort, "-") ==> "-" + column.value == f.sort
    ensures column.Some? && !HasPrefix(f.sort, "-") ==> column.value == f.sort
  {
    var i := 0;
    while i < |f.sortSafelist|
      invariant 0 <= i <= |f.sortSafelist|
      invariant f.sort !in f.sortSafelist[..i]
    {
      if f.sort == f.sortSafelist[i] {
        return Some(TrimPrefix(f.sort, '-'));
      }
      assert f.sortSafelist[..i + 1] == f.sortSafelist[..i] + [f.sortSafelist[i]];
      i := i + 1;
    }
    assert f.sortSafelist[..i] == f.sortSafelist;
    return None;
  }

  /** f.sortDirection(): descending exactly when the key starts with "-". */
  function SortDirection(f: Filters): (d: Direction)
    ensures d == Desc <==> |f.sort| > 0 && f.sort[0] == '-'
  {
    if HasPrefix(f.sort, "-") then Desc else Asc
  }

  /** The checks ValidateFilters makes, in order. */
  function FilterChecks(f: Filters): seq<Rule> {
    [ Rule(f.page > 0, "page", "must be greater than zero"),
      Rule(f.page <= MAX_PAGE, "page", "must be a maximum of 10 million"),
      Rule(f.pageSize > 0, "page_size", "must be greater than zero"),
      Rule(f.pageSize <= MAX_PAGE_SIZE, "page_size", "must be a maximum of 100"),
      Rule(PermittedValue(f.sort, f.sortSafelist), "sort", "invalid sort value") ]
  }

  /** The filter checks all pass exactly for the bounds and the safelist. */
  lemma FilterChecksPass(f: Filters)
    ensures FailedKeys(FilterChecks(f)) == {} <==> ValidFilters(f)
  {
    var cs := FilterChecks(f);
    if !ValidFilters(f) {
      if !cs[0].ok {
        assert cs[0].key in FailedKeys(cs);
      } else if !cs[1].ok {
        assert cs[1].key in FailedKeys(cs);
      } else if !cs[2].ok {
        assert cs[2].key in FailedKeys(cs);
      } else if !cs[3].ok {
        assert cs[3].key in FailedKeys(cs);
      } else {
        assert cs[4].key in FailedKeys(cs);
      }
    }
  }

  /**
   * ValidateFilters: records an error under "page", "page_size" or "sort" for
   * each bound or safelist check that fails.
   */
  method ValidateFilters(v: Validator, f: Filters)
    modifies v
    ensures v.errors == RecordAll(old(v.errors), FilterChecks(f))
    ensures v.errors.Keys == old(v.errors.Keys) + FailedKeys(FilterChecks(f))
    ensures v.Valid() <==> old(v.Valid()) && ValidFilters(f)
  {
    ghost var cs := FilterChecks(f);
    ghost var e0 := v.errors;
    assert cs[..0] == [];
    v.Check(f.page > 0, "page", "must be greater than zero");
    assert cs[..1][..0] == cs[..0];
    assert v.errors == RecordAll(e0, cs[..1]);
    v.Check(f.page <= MAX_PAGE, "page", "must be a maximum of 10 million");
    assert cs[..2][..1] == cs[..1];
    assert v.errors == RecordAll(e0, cs[..2]);
    v.Check(f.pageSize > 0, "page_size", "must be greater than zero");
    assert cs[..3][..2] == cs[..2];
    assert v.errors == RecordAll(e0, cs[..3]);
    v.Check(f.pageSize <= MAX_PAGE_SIZE, "page_size", "must be a maximum of 100");
    assert cs[..4][..3] == cs[..3];
    assert v.errors == RecordAll(e0, cs[..4]);
    v.Check(PermittedValue(f.sort, f.sortSafelist), "sort", "invalid sort value");
    assert cs[..5][..4] == cs[..4] && cs[..5] == cs;
    RecordAllKeys(e0, cs);
    RecordAllEmpty(e0, cs);
    FilterChecksPass(f);
  }

  /** Pagination metadata; every field is zero when it is empty. */
  datatype Metadata = Metadata(currentPage: int, pageSize: int, firstPage: int, lastPage: int, totalRecords: int)

  const EMPTY_METADATA: Metadata := Metadata(0, 0, 0, 0, 0)

  /** Integer ceiling of a / b. */
  function CeilDiv(a: nat, b: int): int
    requires b > 0
  {
    (a + b - 1) / b
  }

  lemma CeilDivBounds(a: nat, b: int)
    requires a > 0 && b > 0
    ensures CeilDiv(a, b) >= 1
    ensures (CeilDiv(a, b) - 1) * b < a <= CeilDiv(a, b) * b
  {
    var q, r := (a + b - 1) / b, (a + b - 1) % b;
    assert a + b - 1 == q * b + r;
    assert (q - 1) * b == q * b - b;
  }

  /**
   * calculateMetadata: the empty metadata when nothing matched; otherwise the
   * current page and size, first page 1, the total, and the last page, the
   * fewest pages of `pageSize` that hold `totalRecords` rows.
   */
  function CalculateMetadata(totalRecords: nat, page: int, pageSize: int): (m: Metadata)
    requires totalRecords == 0 || pageSize > 0
    ensures totalRecords == 0 ==> m == EMPTY_METADATA
    ensures totalRecords > 0 ==>
      && m.currentPage == page && m.pageSize == pageSize && m.firstPage == 1
      && m.totalRecords == totalRecords && m.lastPage >= 1
      && (m.lastPage - 1) * pageSize < totalRecords <= m.lastPage * pageSize
  {
    if totalRecords == 0 then EMPTY_METADATA
    else
      CeilDivBounds(totalRecords, pageSize);
      Metadata(page, pageSize, 1, CeilDiv(totalRecords, pageSize), totalRecords)
  }

  /** The lower bound pins the last page down: no other page count satisfies both bounds. */
  lemma LastPageUnique(totalRecords: nat, pageSize: int, last: int)
    requires totalRecords > 0 && pageSize > 0
    requires (last - 1) * pageSize < totalRecords <= last * pageSize
    ensures last == CalculateMetadata(totalRecords, 1, pageSize).lastPage
  {
    var q := CalculateMetadata(totalRecords, 1, pageSize).lastPage;
    ProductOrder(q - 1, last, pageSize);
    ProductOrder(last - 1, q, pageSize);
  }

  /** The worked example of the source's documentation: 12 records in pages of 5 need 3 pages. */
  lemma TwelveRecordsInPagesOfFive()
    ensures CalculateMetadata(12, 1, 5).lastPage == 3
  {
    LastPageUnique(12, 5, 3);
  }
}
