/**
 * The listing endpoint (`src/app/api/newsletter/route.ts`): query
 * parameters with their defaults, the call into the Supabase adapter, and
 * the pagination block with `totalPages = ceil(totalCount / pageSize)`.
 */
module ListingRoute {
  import opened Js
  import opened Numeric
  import opened Store
  import Supabase

  const DefaultPage := "1"
  const DefaultPageSize := "21"
  const FetchError := "Failed to fetch newsletters"

  /** The parameters after parsing: filters that were absent or empty are `None`. */
  datatype Params = Params(page: nat, pageSize: nat, category: Option<string>, search: Option<string>)

  datatype Pagination = Pagination(page: nat, pageSize: nat, totalCount: nat, totalPages: nat)

  datatype ListingResponse =
    | Listed(newsletters: seq<Newsletter>, pagination: Pagination)
    | Failed(status: int, error: string)

  /** A numeric parameter the model reads: absent, empty, or a string of digits. */
  predicate NumericParam(p: Option<string>) {
    !Present(p) || IsDigits(p.value)
  }

  /** `searchParams.get(name) || undefined`. */
  function Filter(p: Option<string>): (r: Option<string>)
    ensures r.Some? <==> Present(p)
    ensures r.Some? ==> r == p
  {
    if Present(p) then p else None
  }

  /** `parseInt(searchParams.get(name) || fallback)` on a digit string. */
  function NumberParam(p: Option<string>, fallback: string): (n: nat)
    requires NumericParam(p) && IsDigits(fallback)
    ensures Present(p) ==> n == DecimalValue(p.value)
    ensures !Present(p) ==> n == DecimalValue(fallback)
  {
    DecimalValue(OrElse(p, fallback))
  }

  /** The GET handler's reading of its query string. */
  function ParseParams(page: Option<string>, pageSize: Option<string>,
                       category: Option<string>, search: Option<string>): (p: Params)
    requires NumericParam(page) && NumericParam(pageSize)
    ensures !Present(page) ==> p.page == 1
    ensures !Present(pageSize) ==> p.pageSize == 21
    ensures Present(page) ==> p.page == DecimalValue(page.value)
    ensures Present(pageSize) ==> p.pageSize == DecimalValue(pageSize.value)
    ensures p.category.Some? <==> Present(category)
    ensures p.search.Some? <==> Present(search)
  {
    Params(NumberParam(page, DefaultPage), NumberParam(pageSize, DefaultPageSize), Filter(category), Filter(search))
  }

  /** `Math.ceil(totalCount / pageSize)`: the fewest pages of `pageSize` that hold every row. */
  function TotalPages(totalCount: nat, pageSize: nat): (n: nat)
    requires pageSize > 0
    ensures totalCount == 0 ==> n == 0
    ensures totalCount > 0 ==> (n - 1) * pageSize < totalCount <= n * pageSize
  {
    var r := CeilDiv(totalCount, pageSize);
    assert r >= 0 by {
      if r < 0 { MulMonotone(r, -1, pageSize); }
    }
    assert totalCount == 0 ==> r == 0 by {
      if totalCount == 0 && r > 0 { MulMonotone(0, r - 1, pageSize); }
    }
    r
  }

  /** The pagination block: the parsed page and size, the adapter's total, and the page count. */
  function PaginationOf(p: Params, totalCount: nat): (b: Pagination)
    requires p.pageSize > 0
    ensures b.page == p.page && b.pageSize == p.pageSize && b.totalCount == totalCount
    ensures b.totalPages == TotalPages(totalCount, p.pageSize)
  {
    Pagination(p.page, p.pageSize, totalCount, TotalPages(totalCount, p.pageSize))
  }

  /**
   * GET: parse the parameters, ask the adapter for the page, and answer with
   * the page and its pagination block, or with status 500 and a generic
   * error when the adapter fails.
   */
  method Get(page: Option<string>, pageSize: Option<string>, category: Option<string>, search: Option<string>,
             table: seq<Supabase.NewsletterRow>, storeFails: bool)
    returns (resp: ListingResponse)
    requires NumericParam(page) && NumericParam(pageSize)
    requires ParseParams(page, pageSize, category, search).pageSize > 0
    ensures resp.Failed? <==> storeFails
    ensures resp.Failed? ==> resp.status == 500 && resp.error == FetchError
    ensures resp.Listed? ==>
      var p := ParseParams(page, pageSize, category, search);
      var l := Supabase.ListApproved(table, p.page, p.pageSize, p.category, p.search);
      resp.newsletters == l.newsletters && resp.pagination == PaginationOf(p, l.totalCount)
  {
    var p := ParseParams(page, pageSize, category, search);
    var r := Supabase.GetApprovedNewsletters(table, p.page, p.pageSize, p.category, p.search, storeFails);
    if r.Err? {
      return Failed(500, FetchError);
    }
    resp := Listed(r.value.newsletters, PaginationOf(p, r.value.totalCount));
  }

  /** Asking for a page past `totalPages` gives an empty list, not an error. */
  lemma PageBeyondTotalPagesIsEmpty(table: seq<Supabase.NewsletterRow>, p: Params)
    requires p.pageSize > 0 && p.page >= 1
    requires p.page > TotalPages(Supabase.ListApproved(table, p.page, p.pageSize, p.category, p.search).totalCount, p.pageSize)
    ensures Supabase.ListApproved(table, p.page, p.pageSize, p.category, p.search).newsletters == []
  {
    var total := Supabase.ListApproved(table, p.page, p.pageSize, p.category, p.search).totalCount;
    var n := TotalPages(total, p.pageSize);
    MulMonotone(n, p.page - 1, p.pageSize);
    assert total <= n * p.pageSize;
    Supabase.PastLastPageIsEmpty(table, p.page, p.pageSize, p.category, p.search);
  }

  /** Every page up to `totalPages` starts at a row that exists: no page before the last is empty. */
  lemma PagesUpToTotalStartInside(totalCount: nat, pageSize: nat, page: nat)
    requires pageSize > 0 && 1 <= page <= TotalPages(totalCount, pageSize)
    ensures (page - 1) * pageSize < totalCount
  {
    var n := TotalPages(totalCount, pageSize);
    MulMonotone(page - 1, n - 1, pageSize);
  }
}
