/**
 * The home page (`src/app/page.tsx`): the page and filter state, the
 * handlers that change it, the query string it sends to the listing
 * endpoint, and the category list it extracts from the first page it loads.
 */
module HomePage {
  import opened Js
  import opened Text
  import opened Numeric
  import Store
  import ListingRoute

  const PageSize := "21"
  const LoadError := "Failed to load newsletters. Please try again later."

  /** A query string as an ordered list of name/value pairs, as `URLSearchParams` keeps it. */
  type QueryString = seq<(string, string)>

  /** `params.get(name)`: the value of the first pair with that name. */
  function Lookup(q: QueryString, name: string): (v: Option<string>)
    ensures v.None? <==> forall i :: 0 <= i < |q| ==> q[i].0 != name
    ensures v.Some? ==>
      exists k :: (0 <= k < |q| && q[k] == (name, v.value) && forall i :: 0 <= i < k ==> q[i].0 != name)
  {
    if q == [] then None
    else if q[0].0 == name then Some(q[0].1)
    else
      var rest := Lookup(q[1..], name);
      assert rest.Some? ==>
        exists k :: (0 <= k < |q| && q[k] == (name, rest.value) && forall i :: 0 <= i < k ==> q[i].0 != name) by {
        if rest.Some? {
          var k :| 0 <= k < |q[1..]| && q[1..][k] == (name, rest.value) && forall i :: 0 <= i < k ==> q[1..][i].0 != name;
          assert q[k + 1] == (name, rest.value) && forall i :: 0 <= i < k + 1 ==> q[i].0 != name;
        }
      }
      rest
  }

  /** The query string of a fetch: page and page size always, category and search only when truthy. */
  function QueryParams(page: nat, category: Option<string>, search: string): (q: QueryString)
    ensures |q| >= 2 && q[0] == ("page", ShowNat(page)) && q[1] == ("pageSize", PageSize)
    ensures forall i, j :: 0 <= i < j < |q| ==> q[i].0 != q[j].0
    ensures (exists i :: 0 <= i < |q| && q[i].0 == "category") <==> Present(category)
    ensures (exists i :: 0 <= i < |q| && q[i].0 == "search") <==> search != ""
  {
    var q := [("page", ShowNat(page)), ("pageSize", PageSize)]
      + (if Present(category) then [("category", category.value)] else [])
      + (if search != "" then [("search", search)] else []);
    assert Present(category) ==> q[2].0 == "category";
    assert search != "" ==> q[|q| - 1].0 == "search";
    q
  }

  /**
   * The listing endpoint reads back exactly the state the page sent: its
   * page, 21 rows per page, and the category and search filters when they
   * were set.
   */
  lemma QueryParamsRoundTrip(page: nat, category: Option<string>, search: string)
    ensures var q := QueryParams(page, category, search);
      && ListingRoute.NumericParam(Lookup(q, "page")) && ListingRoute.NumericParam(Lookup(q, "pageSize"))
      && ListingRoute.ParseParams(Lookup(q, "page"), Lookup(q, "pageSize"), Lookup(q, "category"), Lookup(q, "search"))
         == ListingRoute.Params(page, 21, if Present(category) then category else None,
                                if search != "" then Some(search) else None)
  {
    var q := QueryParams(page, category, search);
    LookupPageNumbers(page, category, search);
    DecimalValueOfShowNat(page);
    PageSizeValue();
    LookupFilters(page, category, search);
  }

  lemma LookupPageNumbers(page: nat, category: Option<string>, search: string)
    ensures var q := QueryParams(page, category, search);
      Lookup(q, "page") == Some(ShowNat(page)) && Lookup(q, "pageSize") == Some(PageSize)
  {
    var q := QueryParams(page, category, search);
    assert q[0] == ("page", ShowNat(page)) && q[1] == ("pageSize", PageSize);
    assert q[1..][0] == ("pageSize", PageSize);
  }

  lemma PageSizeValue()
    ensures IsDigits(PageSize) && DecimalValue(PageSize) == 21
  {
    assert PageSize[..1] == "2";
  }

  lemma LookupFilters(page: nat, category: Option<string>, search: string)
    ensures var q := QueryParams(page, category, search);
      && Lookup(q, "category") == (if Present(category) then category else None)
      && Lookup(q, "search") == (if search != "" then Some(search) else None)
  {
    var q := QueryParams(page, category, search);
    if Present(category) {
      assert q[2] == ("category", category.value);
      assert Lookup(q, "category") == category;
    } else {
      assert Lookup(q, "category") == None;
    }
    if search != "" {
      assert q[|q| - 1] == ("search", search);
      assert Lookup(q, "search") == Some(search);
    } else {
      assert Lookup(q, "search") == None;
    }
  }

  /** The first position of `x` in `xs`. */
  function FirstIndex<T(==)>(xs: seq<T>, x: T): (k: nat)
    requires x in xs
    ensures k < |xs| && xs[k] == x && x !in xs[..k]
  {
    if xs[0] == x then 0
    else
      var k := FirstIndex(xs[1..], x);
      assert xs[..k + 1] == [xs[0]] + xs[1..][..k];
      k + 1
  }

  lemma FirstIndexUnique<T>(xs: seq<T>, x: T, k: nat)
    requires k < |xs| && xs[k] == x && x !in xs[..k]
    ensures FirstIndex(xs, x) == k
  {
  }

  /** An element of a prefix has the same first position in the whole sequence. */
  lemma FirstIndexInPrefix<T>(xs: seq<T>, n: nat, x: T)
    requires n <= |xs| && x in xs[..n]
    ensures x in xs && FirstIndex(xs, x) == FirstIndex(xs[..n], x)
  {
    var k := FirstIndex(xs[..n], x);
    assert xs[..n][..k] == xs[..k];
    FirstIndexUnique(xs, x, k);
  }

  /** `Array.from(new Set(xs))`: each value once, in the order it is first seen. */
  function UniqueInOrder(xs: seq<string>): (r: seq<string>)
    ensures NoDuplicates(r)
    ensures forall x :: x in r <==> x in xs
  {
    if xs == [] then []
    else
      var r := UniqueInOrder(xs[..|xs| - 1]);
      var last := xs[|xs| - 1];
      assert xs == xs[..|xs| - 1] + [last];
      if last in r then r else r + [last]
  }

  /** Each value of `r` occurs in `xs`, and their first occurrences in `xs` come in the order of `r`. */
  ghost predicate InFirstSeenOrder(r: seq<string>, xs: seq<string>) {
    forall i, j :: 0 <= i < j < |r| ==> r[i] in xs && r[j] in xs && FirstIndex(xs, r[i]) < FirstIndex(xs, r[j])
  }

  /** The values of `UniqueInOrder(xs)` come in the order of their first occurrence in `xs`. */
  lemma {:induction false} UniqueInOrderKeepsFirstSeenOrder(xs: seq<string>)
    ensures InFirstSeenOrder(UniqueInOrder(xs), xs)
  {
    if xs != [] {
      var n := |xs| - 1;
      var p := xs[..n];
      var rp := UniqueInOrder(p);
      var r := UniqueInOrder(xs);
      UniqueInOrderKeepsFirstSeenOrder(p);
      forall i, j | 0 <= i < j < |r|
        ensures r[i] in xs && r[j] in xs && FirstIndex(xs, r[i]) < FirstIndex(xs, r[j])
      {
        assert r[i] in r && r[j] in r;
        assert r[i] == rp[i] && r[i] in p;
        FirstIndexInPrefix(xs, n, r[i]);
        if j < |rp| {
          assert r[j] == rp[j] && r[j] in p;
          FirstIndexInPrefix(xs, n, r[j]);
          assert FirstIndex(p, rp[i]) < FirstIndex(p, rp[j]);
        } else {
          assert r[j] == xs[n] && xs[n] !in p;
          assert xs[..n] == p;
          FirstIndexUnique(xs, xs[n], n);
          assert FirstIndex(xs, r[i]) == FirstIndex(p, r[i]) < n;
        }
      }
    }
  }

  /** The categories of a list of newsletters, in list order. */
  function CategoriesOf(ns: seq<Store.Newsletter>): (cs: seq<string>)
    ensures |cs| == |ns| && forall i :: 0 <= i < |ns| ==> cs[i] == ns[i].category
  {
    seq(|ns|, i requires 0 <= i < |ns| => ns[i].category)
  }

  /** The category list extracted from a page: no duplicates, and exactly the categories that occur on it. */
  lemma ExtractedCategories(ns: seq<Store.Newsletter>)
    ensures var cs := UniqueInOrder(CategoriesOf(ns));
      && NoDuplicates(cs)
      && (forall c :: c in cs <==> exists i :: 0 <= i < |ns| && ns[i].category == c)
  {
    var cats := CategoriesOf(ns);
    forall c ensures c in cats <==> exists i :: 0 <= i < |ns| && ns[i].category == c {
      if c in cats {
        var i :| 0 <= i < |cats| && cats[i] == c;
        assert ns[i].category == c;
      }
      if exists i :: 0 <= i < |ns| && ns[i].category == c {
        var i :| 0 <= i < |ns| && ns[i].category == c;
        assert cats[i] == c;
      }
    }
  }

  /** With `totalPages` from the endpoint, Next never moves to a page past the last row. */
  lemma NextPageStartsInside(page: nat, totalCount: nat, pageSize: nat)
    requires pageSize > 0 && 1 <= page < ListingRoute.TotalPages(totalCount, pageSize)
    ensures page * pageSize < totalCount
  {
    ListingRoute.PagesUpToTotalStartInside(totalCount, pageSize, page + 1);
  }

  /** The page's React state. */
  class HomePage {
    var newsletters: seq<Store.Newsletter>
    var error: Option<string>
    var categories: seq<string>
    var selectedCategory: Option<string>
    var searchQuery: string
    var page: nat
    var totalPages: nat

    /** The page number never drops below 1. */
    ghost predicate Valid()
      reads this
    {
      page >= 1
    }

    constructor ()
      ensures Valid()
      ensures newsletters == [] && error == None && categories == []
      ensures selectedCategory == None && searchQuery == "" && page == 1 && totalPages == 1
    {
      newsletters := [];
      error := None;
      categories := [];
      selectedCategory := None;
      searchQuery := "";
      page := 1;
      totalPages := 1;
    }

    /** The query string `fetchNewsletters` sends for the current state. */
    function Query(): QueryString
      reads this
    {
      QueryParams(page, selectedCategory, searchQuery)
    }

    /** `handleNextPage`: one page on, only while there is a later page. */
    method HandleNextPage()
      requires Valid()
      modifies this
      ensures Valid()
      ensures old(page) < old(totalPages) ==> page == old(page) + 1
      ensures old(page) >= old(totalPages) ==> page == old(page)
      ensures totalPages == old(totalPages) && selectedCategory == old(selectedCategory)
      ensures searchQuery == old(searchQuery) && categories == old(categories)
      ensures newsletters == old(newsletters) && error == old(error)
    {
      if page < totalPages {
        page := page + 1;
      }
    }

    /** `handlePrevPage`: one page back, only while past the first page. */
    method HandlePrevPage()
      requires Valid()
      modifies this
      ensures Valid()
      ensures old(page) > 1 ==> page == old(page) - 1
      ensures old(page) <= 1 ==> page == old(page)
      ensures totalPages == old(totalPages) && selectedCategory == old(selectedCategory)
      ensures searchQuery == old(searchQuery) && categories == old(categories)
      ensures newsletters == old(newsletters) && error == old(error)
    {
      if page > 1 {
        page := page - 1;
      }
    }

    /** `handleCategoryChange`: the new category, back to page 1. */
    method HandleCategoryChange(category: Option<string>)
      modifies this
      ensures Valid()
      ensures selectedCategory == category && page == 1
      ensures totalPages == old(totalPages) && searchQuery == old(searchQuery) && categories == old(categories)
      ensures newsletters == old(newsletters) && error == old(error)
    {
      selectedCategory := category;
      page := 1;
    }

    /** `handleSearchChange`: the new search text, back to page 1. */
    method HandleSearchChange(search: string)
      modifies this
      ensures Valid()
      ensures searchQuery == search && page == 1
      ensures totalPages == old(totalPages) && selectedCategory == old(selectedCategory)
      ensures categories == old(categories)
      ensures newsletters == old(newsletters) && error == old(error)
    {
      searchQuery := search;
      page := 1;
    }

    /** The Clear Filters button: no category, no search, page 1. */
    method ClearFilters()
      modifies this
      ensures Valid()
      ensures selectedCategory == None && searchQuery == "" && page == 1
      ensures Query() == [("page", "1"), ("pageSize", PageSize)]
      ensures totalPages == old(totalPages) && categories == old(categories)
      ensures newsletters == old(newsletters) && error == old(error)
    {
      selectedCategory := None;
      searchQuery := "";
      page := 1;
    }

    /**
     * The second half of `fetchNewsletters`: the endpoint's answer (`None`
     * when the request itself failed) replaces the list and the page count,
     * and the category list is filled from it only while it is still empty;
     * a failure leaves the list and sets the error message.
     */
    method ApplyFetchResult(answer: Option<ListingRoute.ListingResponse>)
      modifies this
      ensures answer.Some? && answer.value.Listed? ==>
        && newsletters == answer.value.newsletters
        && totalPages == answer.value.pagination.totalPages
        && error == None
        && categories == (if old(categories) == [] then UniqueInOrder(CategoriesOf(newsletters)) else old(categories))
      ensures !(answer.Some? && answer.value.Listed?) ==>
        && newsletters == old(newsletters) && totalPages == old(totalPages)
        && categories == old(categories) && error == Some(LoadError)
      ensures page == old(page) && selectedCategory == old(selectedCategory) && searchQuery == old(searchQuery)
    {
      error := None;
      if answer.None? || answer.value.Failed? {
        error := Some(LoadError);
        return;
      }
      var data := answer.value;
      newsletters := data.newsletters;
      totalPages := data.pagination.totalPages;
      if |categories| == 0 {
        categories := UniqueInOrder(CategoriesOf(data.newsletters));
      }
    }
  }
}
