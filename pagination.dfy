/**
 * The `pagination` middleware (src/middleware/pagination.js): the `page` and
 * `size` query parameters, parsed with `Number.parseInt`, clamped to a
 * non-negative page and a size between 1 and 10. An absent parameter is
 * `undefined`, which parses to NaN.
 */
module Pagination {
  import opened Wrappers
  import JsNumbers

  datatype Paging = Paging(size: nat, page: nat)

  const DefaultSize: nat := 10
  const MaxSize: nat := 10

  function Parse(query: Option<string>): Option<int> {
    if query.None? then None else JsNumbers.ParseInt(query.value)
  }

  /** What the middleware stores in `req.pagination`. */
  function Paginate(pageQuery: Option<string>, sizeQuery: Option<string>): (r: Paging)
    ensures r.page == (if Parse(pageQuery).Some? && Parse(pageQuery).value >= 0 then Parse(pageQuery).value else 0)
    ensures r.size == (if Parse(sizeQuery).Some? && 1 <= Parse(sizeQuery).value <= MaxSize
                       then Parse(sizeQuery).value else DefaultSize)
    ensures 1 <= r.size <= MaxSize
  {
    var pageNum := Parse(pageQuery);
    var sizeNum := Parse(sizeQuery);
    var page := if pageNum.None? then 0 else pageNum.value;
    var page := if page < 0 then 0 else page;
    var size := if sizeNum.None? then DefaultSize else sizeNum.value;
    var size := if size > MaxSize || size < 1 then DefaultSize else size;
    Paging(size, page)
  }

  /** Without query parameters the first page of ten is requested. */
  lemma NoQueryIsFirstPage()
    ensures Paginate(None, None) == Paging(10, 0)
  {
  }

  /** Feeding the middleware's output back in as query strings gives the same paging. */
  lemma PaginateIdempotent(pageQuery: Option<string>, sizeQuery: Option<string>)
    ensures var r := Paginate(pageQuery, sizeQuery);
      Paginate(Some(JsNumbers.DecimalString(r.page)), Some(JsNumbers.DecimalString(r.size))) == r
  {
    var r := Paginate(pageQuery, sizeQuery);
    JsNumbers.ParseDecimal(r.page);
    JsNumbers.ParseDecimal(r.size);
  }
}
