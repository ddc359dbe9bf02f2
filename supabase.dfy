/**
 * The Supabase store adapter (`src/lib/supabase/index.ts`): the listing
 * query it builds for `getApprovedNewsletters`, the mapping of returned rows,
 * and the tag normalisation and row defaults of `submitNewsletter`. The
 * remote table is a sequence of rows and the query is evaluated by a
 * reference semantics; the client library itself is not modelled.
 */
module Supabase {
  import opened Js
  import opened Text
  import opened Store
  import Numeric

  /** A row of the `newsletters` table as the client returns it; `tags` may be null. */
  datatype NewsletterRow = NewsletterRow(
    id: string,
    title: string,
    description: string,
    url: string,
    category: string,
    tags: Option<seq<string>>,
    approved: bool)

  /** A submission as the submit route passes it on; `tags` is whatever JSON the client sent. */
  datatype Submission = Submission(
    title: string,
    url: string,
    description: string,
    category: string,
    tags: JsValue,
    email: Option<string>)

  /** The row inserted into the `submissions` table. */
  datatype SubmissionRow = SubmissionRow(
    title: string,
    url: string,
    description: string,
    category: string,
    tags: seq<string>,
    email: Option<string>,
    approved: bool)

  /** The query the adapter sends: which rows, in which order, which inclusive range of positions. */
  datatype Query = Query(
    approvedOnly: bool,
    from: int,
    to: int,
    category: Option<string>,
    search: Option<string>)

  const FetchFailed := "Failed to fetch newsletters"
  const SubmitFailed := "Failed to submit newsletter"

  // ---------------------------------------------------------------------------
  // Tag normalisation in submitNewsletter

  /** Each piece trimmed, in order. */
  function TrimAll(xs: seq<string>): (r: seq<string>)
    ensures |r| == |xs|
  {
    seq(|xs|, i requires 0 <= i < |xs| => Trim(xs[i]))
  }

  /**
   * The non-empty pieces, in order. DropEmptyCounts says a non-empty piece is
   * kept as often as it occurs (no de-duplication) and DropEmptyKeepsOrder
   * that the order is kept.
   */
  function DropEmpty(xs: seq<string>): (r: seq<string>)
    ensures |r| <= |xs|
    ensures forall i :: 0 <= i < |r| ==> r[i] != ""
    ensures (forall i :: 0 <= i < |xs| ==> xs[i] != "") ==> r == xs
    ensures |xs| == 1 ==> r == (if xs[0] == "" then [] else xs)
  {
    if xs == [] then []
    else if xs[0] == "" then DropEmpty(xs[1..])
    else [xs[0]] + DropEmpty(xs[1..])
  }

  /** Filtering the concatenation of two lists filters each part and keeps them in order. */
  lemma {:induction false} DropEmptyKeepsOrder(a: seq<string>, b: seq<string>)
    ensures DropEmpty(a + b) == DropEmpty(a) + DropEmpty(b)
    decreases |a|
  {
    if a == [] {
      assert a + b == b;
    } else {
      var head := if a[0] == "" then [] else [a[0]];
      calc {
        DropEmpty(a + b);
      == { assert a + b == [a[0]] + (a[1..] + b); DropEmptyCons(a[0], a[1..] + b); }
        head + DropEmpty(a[1..] + b);
      == { DropEmptyKeepsOrder(a[1..], b); }
        head + (DropEmpty(a[1..]) + DropEmpty(b));
      ==
        (head + DropEmpty(a[1..])) + DropEmpty(b);
      == { assert a == [a[0]] + a[1..]; DropEmptyCons(a[0], a[1..]); }
        DropEmpty(a) + DropEmpty(b);
      }
    }
  }

  lemma DropEmptyCons(x: string, rest: seq<string>)
    ensures DropEmpty([x] + rest) == (if x == "" then [] else [x]) + DropEmpty(rest)
  {
    assert ([x] + rest)[1..] == rest;
  }
  /** Every kept piece is one of the input pieces. */
  lemma {:induction false} DropEmptyKeepsOnlyInput(xs: seq<string>, i: nat)
    requires i < |DropEmpty(xs)|
    ensures DropEmpty(xs)[i] in xs
    decreases |xs|
  {
    assert xs == [xs[0]] + xs[1..];
    if xs[0] == "" {
      DropEmptyKeepsOnlyInput(xs[1..], i);
    } else if i > 0 {
      DropEmptyKeepsOnlyInput(xs[1..], i - 1);
    }
  }

  /** Each non-empty piece is kept exactly as often as it occurs, and no empty piece is kept. */
  lemma {:induction false} DropEmptyCounts(xs: seq<string>)
    ensures forall x :: x != "" ==> multiset(DropEmpty(xs))[x] == multiset(xs)[x]
    ensures multiset(DropEmpty(xs))[""] == 0
    decreases |xs|
  {
    if xs != [] {
      DropEmptyCounts(xs[1..]);
      assert xs == [xs[0]] + xs[1..];
      assert multiset(xs) == multiset([xs[0]]) + multiset(xs[1..]);
      if xs[0] != "" {
        assert multiset(DropEmpty(xs)) == multiset([xs[0]]) + multiset(DropEmpty(xs[1..]));
      }
    }
  }

  /**
   * `tags.split(',').map(tag => tag.trim()).filter(tag => tag.length > 0)`:
   * one tag per comma-separated piece that is not blank, none of them empty.
   */
  function NormaliseTagText(s: string): (tags: seq<string>)
    ensures forall i :: 0 <= i < |tags| ==> tags[i] != ""
    ensures |tags| <= |Split(s, ',')|
  {
    DropEmpty(TrimAll(Split(s, ',')))
  }

  /** Every tag that comes out of a comma-separated string is non-empty, trimmed and comma-free. */
  lemma NormalisedTagsAreClean(s: string)
    ensures forall i :: 0 <= i < |NormaliseTagText(s)| ==>
      var t := NormaliseTagText(s)[i]; t != "" && IsTrimmed(t) && ',' !in t
  {
    var pieces := Split(s, ',');
    var trimmed := TrimAll(pieces);
    forall i | 0 <= i < |NormaliseTagText(s)|
      ensures var t := NormaliseTagText(s)[i]; t != "" && IsTrimmed(t) && ',' !in t
    {
      var t := NormaliseTagText(s)[i];
      DropEmptyKeepsOnlyInput(trimmed, i);
      var k :| 0 <= k < |trimmed| && trimmed[k] == t;
      TrimIsInnerPiece(pieces[k]);
      if ',' in t {
        TrimKeepsOnlyInputChars(pieces[k], ',');
      }
    }
  }

  /** The comma-joined list the forms send comes back unchanged, when every tag is non-empty, trimmed and comma-free. */
  lemma NormaliseJoinRoundTrip(tags: seq<string>)
    requires forall i :: 0 <= i < |tags| ==> tags[i] != "" && IsTrimmed(tags[i]) && ',' !in tags[i]
    ensures NormaliseTagText(Join(tags, ",")) == tags
  {
    if tags == [] {
      EmptyTextHasNoTags();
    } else {
      SplitJoin(tags, ',');
      TrimAllOfTrimmed(tags);
    }
  }

  /** An empty tag text gives no tags. */
  lemma EmptyTextHasNoTags()
    ensures NormaliseTagText("") == []
  {
    assert Split("", ',') == [""];
    assert Trim("") == "";
    assert TrimAll([""]) == [""];
  }

  /** Trimming pieces that are already trimmed leaves them. */
  lemma TrimAllOfTrimmed(xs: seq<string>)
    requires forall i :: 0 <= i < |xs| ==> IsTrimmed(xs[i])
    ensures TrimAll(xs) == xs
  {
    forall i | 0 <= i < |xs| ensures Trim(xs[i]) == xs[i] {
      TrimOfTrimmed(xs[i]);
    }
  }

  /** Tags as stored: an array passes through, a string is normalised, anything else becomes `[]`. */
  function NormaliseTags(v: JsValue): (tags: seq<string>)
    ensures v.StrList? ==> tags == v.items
    ensures !v.StrList? && !v.Str? ==> tags == []
  {
    match v
    case StrList(items) => items
    case Str(s) => NormaliseTagText(s)
    case _ => []
  }

  /** The row `submitNewsletter` inserts: always unapproved, and an absent or empty email stored as null. */
  function InsertedRow(sub: Submission): (row: SubmissionRow)
    ensures !row.approved
    ensures row.email.Some? <==> Present(sub.email)
    ensures row.email.Some? ==> row.email == sub.email
    ensures row.tags == NormaliseTags(sub.tags)
    ensures row.title == sub.title && row.url == sub.url
    ensures row.description == sub.description && row.category == sub.category
  {
    SubmissionRow(sub.title, sub.url, sub.description, sub.category, NormaliseTags(sub.tags),
                  if Present(sub.email) then sub.email else None, false)
  }

  /**
   * `submitNewsletter`: the store answers with the new row's id, or with an
   * error (`None`), which the adapter turns into its own generic error.
   */
  function SubmitNewsletter(sub: Submission, storeAnswer: Option<string>): (r: Result<string>)
    ensures r.Ok? <==> storeAnswer.Some?
    ensures r.Ok? ==> r.value == storeAnswer.value
    ensures r.Err? ==> r.message == SubmitFailed
  {
    if storeAnswer.Some? then Ok(storeAnswer.value) else Err(SubmitFailed)
  }

  // ---------------------------------------------------------------------------
  // getApprovedNewsletters

  /** The inclusive range of positions of a page: `from = (page-1)*pageSize`, `to = from + pageSize - 1`. */
  function PageRange(page: int, pageSize: int): (range: (int, int))
    ensures range.1 - range.0 + 1 == pageSize
    ensures page == 1 ==> range == (0, pageSize - 1)
    ensures page >= 1 && pageSize >= 0 ==> range.0 >= 0
  {
    var from := (page - 1) * pageSize;
    (from, from + pageSize - 1)
  }

  /** Consecutive pages are adjacent: the next page starts one position after this one ends. */
  lemma ConsecutivePagesAdjacent(page: int, pageSize: int)
    ensures PageRange(page + 1, pageSize).0 == PageRange(page, pageSize).1 + 1
  {
  }

  /**
   * The pages partition the positions: with a positive page size, every
   * position from 0 on lies in exactly one page, the page numbered
   * `position / pageSize + 1`.
   */
  lemma PositionOnOnePage(position: nat, pageSize: int, page: int)
    requires pageSize > 0
    ensures var p := position / pageSize + 1;
      p >= 1 && PageRange(p, pageSize).0 <= position <= PageRange(p, pageSize).1
    ensures PageRange(page, pageSize).0 <= position <= PageRange(page, pageSize).1 ==>
      page == position / pageSize + 1
  {
    var q := position / pageSize;
    assert position == q * pageSize + position % pageSize;
    assert PageRange(q + 1, pageSize).0 == q * pageSize;
    if PageRange(page, pageSize).0 <= position <= PageRange(page, pageSize).1 {
      SameBlock(page - 1, q, pageSize, position);
    }
  }

  /** Two blocks of `s` consecutive positions that share a position start at the same multiple of `s`. */
  lemma SameBlock(x: int, y: int, s: int, n: int)
    requires s > 0 && x * s <= n < x * s + s && y * s <= n < y * s + s
    ensures x == y
  {
    if x < y {
      assert (x + 1) * s == x * s + s;
      Numeric.MulMonotone(x + 1, y, s);
    } else if x > y {
      assert (y + 1) * s == y * s + s;
      Numeric.MulMonotone(y + 1, x, s);
    }
  }


  /** A case-insensitive infix match, the reference meaning of `column.ilike.%term%`. */
  predicate ILike(text: string, term: string) {
    Contains(Lower(text), Lower(term))
  }

  /** Whether a row satisfies the query's filters. */
  predicate Matches(q: Query, row: NewsletterRow) {
    && (q.approvedOnly ==> row.approved)
    && (q.category.Some? ==> row.category == q.category.value)
    && (q.search.Some? ==> ILike(row.title, q.search.value) || ILike(row.description, q.search.value))
  }

  /** The rows of the table that satisfy the query's filters, in table order. */
  function Matching(table: seq<NewsletterRow>, q: Query): (rows: seq<NewsletterRow>)
    ensures forall row :: row in rows <==> row in table && Matches(q, row)
    ensures |rows| <= |table|
  {
    if table == [] then []
    else
      var rest := Matching(table[1..], q);
      assert forall row :: row in table <==> row == table[0] || row in table[1..];
      if Matches(q, table[0]) then [table[0]] + rest else rest
  }

  function RowTitle(row: NewsletterRow): string {
    row.title
  }

  /** The store's answer to a query: the exact count of matching rows and the requested range of them, by title. */
  function Execute(table: seq<NewsletterRow>, q: Query): (answer: (Option<nat>, seq<NewsletterRow>))
    ensures answer.0.Some? && |answer.1| <= answer.0.value <= |table|
    ensures q.from <= q.to ==> |answer.1| <= q.to - q.from + 1
  {
    assert |SortByTitle(Matching(table, q), RowTitle)| == |multiset(Matching(table, q))|;
    var rows := Matching(table, q);
    (Some(|rows|), Window(SortByTitle(rows, RowTitle), q.from, q.to + 1))
  }

  /** A returned row as a Newsletter: a null `tags` becomes `[]`. */
  function MapRow(row: NewsletterRow): (n: Newsletter)
    ensures n.tags == (if row.tags.Some? then row.tags.value else [])
    ensures n.approved == row.approved && n.title == row.title && n.category == row.category
    ensures n.id == row.id && n.url == row.url && n.description == row.description
  {
    Newsletter(row.id, row.title, row.description, row.url, row.category,
               if row.tags.Some? then row.tags.value else [], row.approved)
  }

  function MapRows(rows: seq<NewsletterRow>): (ns: seq<Newsletter>)
    ensures |ns| == |rows|
    ensures forall i :: 0 <= i < |rows| ==> ns[i] == MapRow(rows[i])
  {
    seq(|rows|, i requires 0 <= i < |rows| => MapRow(rows[i]))
  }

  /** `count || 0`: a missing count reads as zero. */
  function CountOrZero(count: Option<nat>): (n: nat)
    ensures count.Some? ==> n == count.value
    ensures count.None? ==> n == 0
  {
    if count.Some? then count.value else 0
  }

  /** The query getApprovedNewsletters sends for these arguments. */
  function ListingQuery(page: int, pageSize: int, category: Option<string>, searchQuery: Option<string>): Query {
    var range := PageRange(page, pageSize);
    Query(true, range.0, range.1,
          if Present(category) then category else None,
          if Present(searchQuery) then searchQuery else None)
  }

  /** What getApprovedNewsletters returns when the store answers. */
  function ListApproved(table: seq<NewsletterRow>, page: int, pageSize: int,
                        category: Option<string>, searchQuery: Option<string>): (l: Listing)
    ensures |l.newsletters| <= l.totalCount <= |table|
    ensures pageSize >= 0 ==> |l.newsletters| <= pageSize
  {
    var answer := Execute(table, ListingQuery(page, pageSize, category, searchQuery));
    Listing(MapRows(answer.1), CountOrZero(answer.0))
  }

  /**
   * getApprovedNewsletters: builds the query step by step, as the source
   * reassigns its query builder, then runs it. `storeFails` stands for the
   * client reporting an error, which surfaces as the generic fetch error.
   */
  method GetApprovedNewsletters(table: seq<NewsletterRow>, page: int, pageSize: int,
                                category: Option<string>, searchQuery: Option<string>,
                                storeFails: bool)
    returns (r: Result<Listing>)
    ensures r.Err? <==> storeFails
    ensures r.Err? ==> r.message == FetchFailed
    ensures r.Ok? ==> r.value == ListApproved(table, page, pageSize, category, searchQuery)
  {
    var range := PageRange(page, pageSize);
    var query := Query(true, range.0, range.1, None, None);
    if Present(category) {
      query := query.(category := category);
    }
    if Present(searchQuery) {
      query := query.(search := searchQuery);
    }
    if storeFails {
      return Err(FetchFailed);
    }
    var answer := Execute(table, query);
    r := Ok(Listing(MapRows(answer.1), CountOrZero(answer.0)));
  }

  /** The rows a query returns all match it, come from the table, and are ordered by title. */
  lemma ExecuteRows(table: seq<NewsletterRow>, q: Query)
    ensures var w := Execute(table, q).1;
      && (forall k :: 0 <= k < |w| ==> w[k] in table && Matches(q, w[k]))
      && (forall i, j :: 0 <= i < j < |w| ==> TitleLeq(w[i].title, w[j].title))
  {
    ExecuteRowsMatch(table, q);
    ExecuteRowsOrdered(table, q);
  }

  lemma ExecuteRowsMatch(table: seq<NewsletterRow>, q: Query)
    ensures var w := Execute(table, q).1;
      forall k :: 0 <= k < |w| ==> w[k] in table && Matches(q, w[k])
  {
    var rows := Matching(table, q);
    var w := Window(SortByTitle(rows, RowTitle), q.from, q.to + 1);
    assert Execute(table, q).1 == w;
    SortedWindowMembers(rows, q.from, q.to + 1, RowTitle);
    forall k | 0 <= k < |w| ensures w[k] in table && Matches(q, w[k]) {
      assert w[k] in w;
      assert w[k] in rows;
    }
  }

  lemma ExecuteRowsOrdered(table: seq<NewsletterRow>, q: Query)
    ensures var w := Execute(table, q).1;
      forall i, j :: 0 <= i < j < |w| ==> TitleLeq(w[i].title, w[j].title)
  {
    var sorted := SortByTitle(Matching(table, q), RowTitle);
    var w := Window(sorted, q.from, q.to + 1);
    assert Execute(table, q).1 == w;
    WindowSorted(sorted, q.from, q.to + 1, RowTitle);
    forall i, j | 0 <= i < j < |w| ensures TitleLeq(w[i].title, w[j].title) {
      assert TitleLeq(RowTitle(w[i]), RowTitle(w[j]));
    }
  }

  /** The store's count is the number of matching rows, and at most a range's worth of rows comes back. */
  lemma ExecuteCount(table: seq<NewsletterRow>, q: Query)
    ensures Execute(table, q).0 == Some(|Matching(table, q)|)
    ensures |Execute(table, q).1| <= |Matching(table, q)|
    ensures q.from <= q.to + 1 ==> |Execute(table, q).1| <= q.to + 1 - q.from
    ensures q.from >= |Matching(table, q)| ==> Execute(table, q).1 == []
  {
    var rows := Matching(table, q);
    var sorted := SortByTitle(rows, RowTitle);
    assert |sorted| == |multiset(sorted)| == |multiset(rows)| == |rows|;
  }

  /**
   * A listing contains only approved rows, only rows of the requested
   * category, ordered by title, at most a page of them; and its total is
   * the number of matching rows, whatever the page.
   */
  lemma ListApprovedContents(table: seq<NewsletterRow>, page: int, pageSize: int,
                             category: Option<string>, searchQuery: Option<string>)
    requires pageSize >= 0
    ensures var l := ListApproved(table, page, pageSize, category, searchQuery);
      && (forall i :: 0 <= i < |l.newsletters| ==> l.newsletters[i].approved)
      && (Present(category) ==> forall i :: 0 <= i < |l.newsletters| ==> l.newsletters[i].category == category.value)
      && (forall i, j :: 0 <= i < j < |l.newsletters| ==> TitleLeq(l.newsletters[i].title, l.newsletters[j].title))
      && l.totalCount == |Matching(table, ListingQuery(page, pageSize, category, searchQuery))|
      && |l.newsletters| <= pageSize
  {
    var q := ListingQuery(page, pageSize, category, searchQuery);
    ExecuteRows(table, q);
    ExecuteCount(table, q);
  }

  /**
   * A page that starts inside the matching rows is full, or holds every
   * row from its start to the end when fewer than `pageSize` are left.
   */
  lemma PageLength(table: seq<NewsletterRow>, page: int, pageSize: int,
                   category: Option<string>, searchQuery: Option<string>)
    requires pageSize >= 0
    ensures var l := ListApproved(table, page, pageSize, category, searchQuery);
      var from := PageRange(page, pageSize).0;
      0 <= from < l.totalCount ==>
        |l.newsletters| == (if pageSize < l.totalCount - from then pageSize else l.totalCount - from)
  {
    var q := ListingQuery(page, pageSize, category, searchQuery);
    var rows := Matching(table, q);
    var sorted := SortByTitle(rows, RowTitle);
    assert |sorted| == |multiset(sorted)| == |multiset(rows)| == |rows|;
    assert Execute(table, q).0 == Some(|rows|) && Execute(table, q).1 == Window(sorted, q.from, q.to + 1);
    assert q.to + 1 == q.from + pageSize;
  }

  /** A page that starts at or past the end of the matching rows is empty, without error. */
  lemma PastLastPageIsEmpty(table: seq<NewsletterRow>, page: int, pageSize: int,
                            category: Option<string>, searchQuery: Option<string>)
    requires PageRange(page, pageSize).0 >= ListApproved(table, page, pageSize, category, searchQuery).totalCount
    ensures ListApproved(table, page, pageSize, category, searchQuery).newsletters == []
  {
    ExecuteCount(table, ListingQuery(page, pageSize, category, searchQuery));
  }
}
