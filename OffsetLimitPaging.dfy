/** OffsetLimitPageRequest: a page request addressed by a row offset rather
    than a page index. Its three fields are final and every navigation step
    builds a new request, so the class is a value here. Offset and limit are
    Java `int`s: the arithmetic wraps at 32 bits. */
module OffsetLimitPaging {
  import opened Outcomes
  import opened JavaInt
  import Arith

  datatype SortDirection = Ascending | Descending

  datatype SortOrder = SortOrder(direction: SortDirection, property: string)

  /** Spring's `Sort`, kept as the list of its orders; the request only carries it along. */
  datatype Sort = Sort(orders: seq<SortOrder>)

  datatype PageRequest = PageRequest(offset: Int32, limit: Int32, sort: Sort)

  /** `OffsetLimitPageRequest.of(offset, limit, sort)`. */
  function Of(offset: Int32, limit: Int32, sort: Sort): (p: PageRequest)
    ensures p.offset == offset && p.limit == limit && p.sort == sort
  {
    PageRequest(offset, limit, sort)
  }

  /** `getPageNumber()`: `offset / limit`, an ArithmeticException when the limit is 0. */
  function PageNumber(p: PageRequest): (r: Result<Int32>)
    ensures r.Err? <==> p.limit == 0
    ensures r.Err? ==> r.failure == ArithmeticError("/ by zero")
    ensures r.Ok? && p.offset >= 0 && p.limit > 0 ==> r.value == p.offset / p.limit
  {
    Div(p.offset, p.limit)
  }

  /** For every sign of offset and limit the page number is Java's truncating quotient:
      the remainder is smaller than the limit and has the offset's sign; MIN / -1 wraps. */
  lemma PageNumberTruncates(p: PageRequest)
    ensures PageNumber(p).Ok? && !(p.offset == MIN && p.limit == -1) ==>
      var rem := p.offset - PageNumber(p).value * p.limit;
      JavaInt.Abs(rem) < JavaInt.Abs(p.limit) && (rem == 0 || (rem < 0) == (p.offset < 0))
    ensures p.offset == MIN && p.limit == -1 ==> PageNumber(p) == Ok(MIN)
  {
    DivTruncates(p.offset, p.limit);
  }

  /** `getPageSize()`. */
  function PageSize(p: PageRequest): Int32 { p.limit }

  /** `getOffset()`. */
  function Offset(p: PageRequest): int { p.offset }

  /** `next()`: the rows right after this page. */
  function Next(p: PageRequest): (r: PageRequest)
    ensures r.limit == p.limit && r.sort == p.sort
    ensures MIN <= p.offset + p.limit <= MAX ==> r.offset == p.offset + p.limit
  {
    PageRequest(Add(p.offset, p.limit), p.limit, p.sort)
  }

  /** `previousOrFirst()`: the rows right before this page, floored at the first row. */
  function PreviousOrFirst(p: PageRequest): (r: PageRequest)
    ensures r.limit == p.limit && r.sort == p.sort
    ensures r.offset >= 0
    ensures MIN <= p.offset - p.limit <= MAX ==>
              r.offset == (if p.offset - p.limit > 0 then p.offset - p.limit else 0)
  {
    PageRequest(Max(Sub(p.offset, p.limit), 0), p.limit, p.sort)
  }

  /** `first()`. */
  function First(p: PageRequest): (r: PageRequest)
    ensures r.offset == 0 && r.limit == p.limit && r.sort == p.sort
  {
    PageRequest(0, p.limit, p.sort)
  }

  /** `withPage(pageNumber)`: the request whose offset starts page `pageNumber`. */
  function WithPage(p: PageRequest, pageNumber: Int32): (r: PageRequest)
    ensures r.limit == p.limit && r.sort == p.sort
    ensures MIN <= pageNumber * p.limit <= MAX ==> r.offset == pageNumber * p.limit
  {
    PageRequest(Mul(pageNumber, p.limit), p.limit, p.sort)
  }

  /** `hasPrevious()`. */
  function HasPrevious(p: PageRequest): (b: bool)
    ensures b <==> p.offset > 0
  {
    p.offset > 0
  }

  /** Stepping forward then back returns to the same offset from any non-negative
      offset, even when `next()` overflows the 32-bit offset. */
  lemma PreviousOrFirstUndoesNext(p: PageRequest)
    requires p.offset >= 0
    ensures PreviousOrFirst(Next(p)) == p
  {
    WrapAddCongruent(p.offset + p.limit, -(p.limit as int));
    assert Sub(Next(p).offset, p.limit) == Wrap(p.offset);
  }

  /** Stepping back then forward returns to the same request when a whole page lies
      before this one. */
  lemma NextUndoesPreviousOrFirst(p: PageRequest)
    requires p.offset >= p.limit >= 0
    ensures Next(PreviousOrFirst(p)) == p
  {
  }

  /** The request for page n reports page number n. */
  lemma {:induction false} PageNumberOfWithPage(p: PageRequest, n: Int32)
    requires p.limit > 0 && n >= 0 && n * p.limit <= MAX
    ensures PageNumber(WithPage(p, n)) == Ok(n)
  {
    var o := n * p.limit;
    assert WithPage(p, n).offset == o;
    DivOfMultiple(n, p.limit);
  }

  /** `next()` moves the page number up by exactly one while the offset does not overflow. */
  lemma {:induction false} PageNumberOfNext(p: PageRequest)
    requires p.limit > 0 && p.offset >= 0 && p.offset + p.limit <= MAX
    ensures PageNumber(Next(p)).Ok? && PageNumber(p).Ok?
    ensures PageNumber(Next(p)).value == PageNumber(p).value + 1
  {
    var o, l := p.offset, p.limit;
    var q, r := o / l, o % l;
    assert o == q * l + r && 0 <= r < l;
    assert o + l == (q + 1) * l + r;
    Arith.ModuloUnique(o + l, l, q + 1, r);
  }

  /** The first page has nothing before it and every step forward from it has. */
  lemma HasPreviousOfFirstAndNext(p: PageRequest)
    requires p.offset >= 0 && p.limit > 0 && p.offset + p.limit <= MAX
    ensures !HasPrevious(First(p))
    ensures HasPrevious(Next(p))
  {
  }

  lemma DivOfMultiple(n: nat, l: int)
    requires l > 0
    ensures (n * l) / l == n
  {
    Arith.ModuloUnique(n * l, l, n, 0);
  }
}
