/** The transaction store's paged query `findAllBySenderAccountIdOrReceiverAccountId`
    and the Spring `Page` metadata the services copy into a `PageProjection`.
    The store is a sequence of rows in insertion order; the query keeps the rows
    that involve the account, orders them newest first (`Sort.by(DESC,
    "transactionDate")`) and cuts out the window `[offset, offset + limit)`. */
module TransactionPages {
  import opened Outcomes
  import opened JavaInt
  import opened OffsetLimitPaging
  import Arith

  const NANOS_PER_DAY: int := 86_400_000_000_000

  /** `java.time.LocalDateTime`, as nanoseconds since 1970-01-01T00:00 (no zone). */
  datatype LocalDateTime = LocalDateTime(epochNano: int)

  /** `java.time.LocalDate`, as days since 1970-01-01. */
  datatype LocalDate = LocalDate(epochDay: int)

  /** `toLocalDate()`: the day the instant falls in. */
  function ToLocalDate(t: LocalDateTime): (d: LocalDate)
    ensures d.epochDay * NANOS_PER_DAY <= t.epochNano < (d.epochDay + 1) * NANOS_PER_DAY
  {
    LocalDate(t.epochNano / NANOS_PER_DAY)
  }

  /** The sort the services request: newest first. */
  const ByDateDescending: Sort := Sort([SortOrder(Descending, "transactionDate")])

  predicate NewestFirst<T>(s: seq<T>, date: T -> LocalDateTime) {
    forall i, j :: 0 <= i < j < |s| ==> date(s[j]).epochNano <= date(s[i]).epochNano
  }

  /** Places `x` before the first row that is not newer than it. */
  function Insert<T>(x: T, s: seq<T>, date: T -> LocalDateTime): seq<T> {
    if s == [] || date(s[0]).epochNano <= date(x).epochNano then [x] + s
    else [s[0]] + Insert(x, s[1..], date)
  }

  /** Newest first; rows with equal dates keep their stored order. */
  function SortNewestFirst<T>(s: seq<T>, date: T -> LocalDateTime): seq<T> {
    if s == [] then [] else Insert(s[0], SortNewestFirst(s[1..], date), date)
  }

  /** No row of `s` is newer than `t`. */
  predicate NoneNewerThan<T>(s: seq<T>, date: T -> LocalDateTime, t: int) {
    forall i :: 0 <= i < |s| ==> date(s[i]).epochNano <= t
  }

  lemma {:induction false} InsertBounded<T>(x: T, s: seq<T>, date: T -> LocalDateTime, t: int)
    requires NoneNewerThan(s, date, t) && date(x).epochNano <= t
    ensures NoneNewerThan(Insert(x, s, date), date, t)
  {
    if s != [] && date(s[0]).epochNano > date(x).epochNano {
      InsertBounded(x, s[1..], date, t);
    }
  }

  lemma {:induction false} InsertSorted<T>(x: T, s: seq<T>, date: T -> LocalDateTime)
    requires NewestFirst(s, date)
    ensures NewestFirst(Insert(x, s, date), date)
  {
    if s != [] && date(s[0]).epochNano > date(x).epochNano {
      var rest := Insert(x, s[1..], date);
      InsertSorted(x, s[1..], date);
      InsertBounded(x, s[1..], date, date(s[0]).epochNano);
      assert Insert(x, s, date) == [s[0]] + rest;
    }
  }

  lemma {:induction false} InsertPermutes<T>(x: T, s: seq<T>, date: T -> LocalDateTime)
    ensures multiset(Insert(x, s, date)) == multiset(s) + multiset{x}
  {
    if s != [] && date(s[0]).epochNano > date(x).epochNano {
      InsertPermutes(x, s[1..], date);
      assert s == [s[0]] + s[1..];
    }
  }

  /** The query's order is a newest-first permutation of the selected rows. */
  lemma {:induction false} SortNewestFirstSorts<T>(s: seq<T>, date: T -> LocalDateTime)
    ensures NewestFirst(SortNewestFirst(s, date), date)
    ensures multiset(SortNewestFirst(s, date)) == multiset(s)
  {
    if s != [] {
      SortNewestFirstSorts(s[1..], date);
      InsertSorted(s[0], SortNewestFirst(s[1..], date), date);
      InsertPermutes(s[0], SortNewestFirst(s[1..], date), date);
      assert s == [s[0]] + s[1..];
    }
  }

  /** Rows already newest first come back in their stored order. */
  lemma {:induction false} SortNewestFirstKeepsSorted<T>(s: seq<T>, date: T -> LocalDateTime)
    requires NewestFirst(s, date)
    ensures SortNewestFirst(s, date) == s
  {
    if s != [] {
      assert NewestFirst(s[1..], date);
      SortNewestFirstKeepsSorted(s[1..], date);
      assert s == [s[0]] + s[1..];
    }
  }

  function Min(a: int, b: int): int { if a <= b then a else b }

  /** The rows `[offset, offset + limit)` of `s`, as far as they exist. */
  function Window<T>(s: seq<T>, offset: nat, limit: nat): (r: seq<T>)
    ensures |r| == if offset >= |s| then 0 else Min(limit, |s| - offset)
    ensures forall k :: 0 <= k < |r| ==> r[k] == s[offset + k]
  {
    if offset >= |s| then [] else s[offset..Min(offset + limit, |s|)]
  }

  /** Spring's `Page`: the content of one request and the total number of matching rows. */
  datatype Page<T> = Page(content: seq<T>, pageable: PageRequest, totalElements: nat)

  /** A page the store can have produced: its request addresses rows. */
  predicate ValidPage<T>(page: Page<T>) {
    page.pageable.offset >= 0 && page.pageable.limit > 0
  }

  /** The rows of `rows` that satisfy `involves`, newest first. */
  function Matching<T>(rows: seq<T>, involves: T -> bool, date: T -> LocalDateTime): seq<T> {
    SortNewestFirst(Filter(rows, involves), date)
  }

  function Filter<T>(s: seq<T>, keep: T -> bool): (r: seq<T>)
    ensures |r| <= |s|
    ensures multiset(r) <= multiset(s)
    ensures forall i :: 0 <= i < |r| ==> keep(r[i])
  {
    if s == [] then []
    else
      assert s == [s[0]] + s[1..];
      (if keep(s[0]) then [s[0]] else []) + Filter(s[1..], keep)
  }

  /** `Filter` drops no row it should keep: each kept value occurs as often as in `s`,
      each other value not at all. */
  lemma {:induction false} FilterCounts<T>(s: seq<T>, keep: T -> bool)
    ensures forall i :: 0 <= i < |s| ==>
              multiset(Filter(s, keep))[s[i]] == if keep(s[i]) then multiset(s)[s[i]] else 0
  {
    if s != [] {
      FilterCounts(s[1..], keep);
      assert s == [s[0]] + s[1..];
      var head := if keep(s[0]) then [s[0]] else [];
      assert Filter(s, keep) == head + Filter(s[1..], keep);
      forall i | 0 <= i < |s|
        ensures multiset(Filter(s, keep))[s[i]] == if keep(s[i]) then multiset(s)[s[i]] else 0
      {
        var x := s[i];
        if x !in s[1..] {
          assert multiset(s[1..])[x] == 0;
          assert multiset(Filter(s[1..], keep))[x] == 0;
        }
      }
    }
  }

  /** The paged query: the window of the matching rows, newest first, that `request`
      addresses. A request with a negative offset or a non-positive limit is refused
      by the persistence layer. */
  function FindPage<T>(rows: seq<T>, involves: T -> bool, date: T -> LocalDateTime, request: PageRequest)
    : (r: Result<Page<T>>)
    ensures r.Err? <==> request.offset < 0 || request.limit <= 0
    ensures r.Err? ==> r.failure == PersistenceFailure
    ensures r.Ok? ==> r.value.pageable == request && ValidPage(r.value)
    ensures r.Ok? ==> r.value.totalElements == |Filter(rows, involves)|
    ensures r.Ok? ==> |r.value.content| <= request.limit
    ensures r.Ok? ==> NewestFirst(r.value.content, date)
    ensures r.Ok? ==> forall t :: t in r.value.content ==> t in multiset(rows) && involves(t)
    ensures r.Ok? ==> r.value.content == Window(Matching(rows, involves, date), request.offset, request.limit)
  {
    if request.offset < 0 || request.limit <= 0 then Err(PersistenceFailure)
    else
      var all := Matching(rows, involves, date);
      SortNewestFirstSorts(Filter(rows, involves), date);
      var content := Window(all, request.offset, request.limit);
      assert forall t :: t in content ==> t in multiset(all);
      Ok(Page(content, request, |all|))
  }

  /** The order the pages are cut from holds every row that involves the account, as
      often as the table does, and nothing else. */
  lemma MatchingCountsInvolvedRows<T>(rows: seq<T>, involves: T -> bool, date: T -> LocalDateTime)
    ensures forall i :: 0 <= i < |rows| ==>
              multiset(Matching(rows, involves, date))[rows[i]]
              == if involves(rows[i]) then multiset(rows)[rows[i]] else 0
    ensures forall t :: t in Matching(rows, involves, date) ==> t in rows && involves(t)
  {
    SortNewestFirstSorts(Filter(rows, involves), date);
    FilterCounts(rows, involves);
    var all := Matching(rows, involves, date);
    forall t | t in all ensures t in rows && involves(t) {
      assert t in multiset(Filter(rows, involves));
      var k :| 0 <= k < |Filter(rows, involves)| && Filter(rows, involves)[k] == t;
    }
  }

  /** Every row of the order lies on the page whose offset is the multiple of the
      limit at or below its position. */
  lemma RowOnItsPage<T>(rows: seq<T>, involves: T -> bool, date: T -> LocalDateTime,
                        limit: Int32, sort: Sort, k: int)
    requires limit > 0 && |rows| <= MAX && 0 <= k < |Matching(rows, involves, date)|
    ensures exists offset: Int32 :: offset % limit == 0 && 0 <= offset <= k < offset + limit
              && FindPage(rows, involves, date, PageRequest(offset, limit, sort)).Ok?
              && Matching(rows, involves, date)[k]
                 in FindPage(rows, involves, date, PageRequest(offset, limit, sort)).value.content
  {
    var all := Matching(rows, involves, date);
    SortNewestFirstSorts(Filter(rows, involves), date);
    assert |all| == |Filter(rows, involves)| <= |rows| by {
      assert |multiset(all)| == |multiset(Filter(rows, involves))|;
    }
    var offset := (k / limit) * limit;
    PageStart(k, limit);
    Arith.MultipleHasZeroRemainder(offset, limit, k / limit);
    var content := Window(all, offset, limit);
    assert content[k - offset] == all[k];
    assert FindPage(rows, involves, date, PageRequest(offset, limit, sort)).value.content == content;
  }

  lemma PageStart(k: nat, limit: int)
    requires limit > 0
    ensures 0 <= (k / limit) * limit <= k < (k / limit) * limit + limit
  {
    var q := k / limit;
    assert k == q * limit + k % limit;
    assert q >= 0;
    Arith.MulMonotone(0, q, limit);
  }

  lemma {:induction false} FilterKeepsAll<T>(s: seq<T>, keep: T -> bool)
    requires forall x :: keep(x)
    ensures Filter(s, keep) == s
  {
    if s != [] {
      FilterKeepsAll(s[1..], keep);
      assert s == [s[0]] + s[1..];
    }
  }

  /** `findAll(pageable)`: the paged query over every row. */
  function FindAll<T>(rows: seq<T>, date: T -> LocalDateTime, request: PageRequest): (r: Result<Page<T>>)
    ensures r.Err? <==> request.offset < 0 || request.limit <= 0
    ensures r.Err? ==> r.failure == PersistenceFailure
    ensures r.Ok? ==> r.value.pageable == request && r.value.totalElements == |rows|
    ensures r.Ok? ==> r.value.content == Window(SortNewestFirst(rows, date), request.offset, request.limit)
  {
    FilterKeepsAll(rows, (t: T) => true);
    FindPage(rows, (t: T) => true, date, request)
  }

  /** A first page at least as large as the table holds every row, newest first. */
  lemma WholeTableInOnePage<T>(rows: seq<T>, date: T -> LocalDateTime, request: PageRequest)
    requires request.offset == 0 && request.limit > 0 && |rows| <= request.limit
    ensures FindAll(rows, date, request).Ok?
    ensures var content := FindAll(rows, date, request).value.content;
      multiset(content) == multiset(rows) && NewestFirst(content, date)
  {
    SortNewestFirstSorts(rows, date);
    var all := SortNewestFirst(rows, date);
    assert |all| == |rows| by {
      assert |multiset(all)| == |multiset(rows)|;
    }
    if rows != [] {
      assert Window(all, 0, request.limit) == all;
    }
  }

  /** The page after this one continues it: two consecutive pages are the window of
      twice the size. */
  lemma NextPageContinues<T>(rows: seq<T>, involves: T -> bool, date: T -> LocalDateTime, p: PageRequest)
    requires p.offset >= 0 && p.limit > 0 && p.offset + 2 * p.limit <= MAX
    ensures var doubled := PageRequest(p.offset, 2 * p.limit, p.sort);
            FindPage(rows, involves, date, p).Ok? && FindPage(rows, involves, date, Next(p)).Ok? &&
            FindPage(rows, involves, date, p).value.content + FindPage(rows, involves, date, Next(p)).value.content
            == FindPage(rows, involves, date, doubled).value.content
  {
    var all := Matching(rows, involves, date);
    var next := Next(p);
    var doubled := PageRequest(p.offset, 2 * p.limit, p.sort);
    assert next.offset == p.offset + p.limit && next.limit == p.limit;
    assert FindPage(rows, involves, date, p).value.content == Window(all, p.offset, p.limit);
    assert FindPage(rows, involves, date, next).value.content == Window(all, p.offset + p.limit, p.limit);
    assert FindPage(rows, involves, date, doubled).value.content == Window(all, p.offset, 2 * p.limit);
    AdjacentWindows(all, p.offset, p.limit);
  }

  /** Two adjacent windows of one size make up the window of twice the size. */
  lemma AdjacentWindows<T>(s: seq<T>, offset: nat, limit: nat)
    ensures Window(s, offset, limit) + Window(s, offset + limit, limit) == Window(s, offset, 2 * limit)
  {
    var a := Window(s, offset, limit);
    var b := Window(s, offset + limit, limit);
    var c := Window(s, offset, 2 * limit);
    assert |a + b| == |c|;
    forall k | 0 <= k < |c| ensures (a + b)[k] == c[k] {
      if k >= |a| {
        assert (a + b)[k] == b[k - |a|];
      }
    }
  }

  /** `getNumber()`: the page index of the request. */
  function Number<T>(page: Page<T>): (n: Int32)
    requires ValidPage(page)
    ensures n >= 0 && n * page.pageable.limit <= page.pageable.offset < (n + 1) * page.pageable.limit
  {
    var o, l := page.pageable.offset, page.pageable.limit;
    Arith.DivBounds(o, l);
    o / l
  }

  /** `getTotalPages()`: `ceil(total / size)`, or 1 for a size of 0. */
  function TotalPages<T>(page: Page<T>): (n: int)
    requires ValidPage(page)
    ensures n >= 0
    ensures forall m: nat {:trigger m * page.pageable.limit} :: m >= n <==> m * page.pageable.limit >= page.totalElements
  {
    CeilDiv(page.totalElements, page.pageable.limit)
  }

  function CeilDiv(t: nat, l: int): (n: nat)
    requires l > 0
    ensures forall m: nat {:trigger m * l} :: m >= n <==> m * l >= t
  {
    var n := (t + l - 1) / l;
    var rem := (t + l - 1) % l;
    assert t + l - 1 == n * l + rem && 0 <= rem < l;
    forall m: nat ensures m >= n <==> m * l >= t {
      if m >= n {
        assert m * l >= n * l by { Arith.MulMonotone(n, m, l); }
      } else {
        assert m + 1 <= n;
        assert (m + 1) * l <= n * l by { Arith.MulMonotone(m + 1, n, l); }
      }
    }
    n
  }

  /** `isFirst()`: no page index before this one. */
  predicate IsFirst<T>(page: Page<T>)
    requires ValidPage(page)
  {
    !(Number(page) > 0)
  }

  /** `isLast()`: no page index after this one. */
  predicate IsLast<T>(page: Page<T>)
    requires ValidPage(page)
  {
    !(Number(page) + 1 < TotalPages(page))
  }

  /** The service's `PageProjection`. */
  datatype PageProjection<T> = PageProjection(
    content: seq<T>,
    offset: int,
    pageSize: int,
    pageNumber: int,
    totalPages: int,
    numberOfElements: int,
    totalElements: int,
    isFirst: bool,
    isLast: bool)

  /** `new PageProjection<>(records, page.getPageable().getOffset(), page.getSize(), ...)`:
      the mapped records with the page's metadata. */
  function Project<T, U>(page: Page<T>, records: seq<U>): (r: PageProjection<U>)
    requires ValidPage(page)
    ensures r.content == records
    ensures r.offset == page.pageable.offset && r.pageSize == page.pageable.limit
    ensures r.numberOfElements == |page.content| && r.totalElements == page.totalElements
    ensures r.pageNumber == page.pageable.offset / page.pageable.limit
    ensures r.isFirst <==> page.pageable.offset < page.pageable.limit
    ensures r.isLast <==> (r.pageNumber + 1) * page.pageable.limit >= page.totalElements
    ensures r.totalPages == TotalPages(page) && r.totalPages >= 0
    ensures forall m: nat {:trigger m * page.pageable.limit} ::
              m >= r.totalPages <==> m * page.pageable.limit >= page.totalElements
  {
    var n := Number(page);
    var total := TotalPages(page);
    var l := page.pageable.limit;
    assert n == page.pageable.offset / l;
    assert (n + 1) * l >= page.totalElements <==> n + 1 >= total;
    assert total * l >= page.totalElements;
    assert n > 0 <==> page.pageable.offset >= l by {
      if n > 0 { Arith.MulMonotone(1, n, l); }
    }
    PageProjection(records, page.pageable.offset, page.pageable.limit, n, total,
                   |page.content|, page.totalElements, IsFirst(page), IsLast(page))
  }
}
