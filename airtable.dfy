/**
 * The Airtable store adapter (`src/lib/airtable/index.ts`): the
 * `filterByFormula` string it builds, the quote escaping of the search term,
 * the page offset, the mapping of records, and the fields of a created
 * submission. The base is a sequence of records and the formula is
 * evaluated by a reference semantics; the Airtable SDK is not modelled.
 */
module Airtable {
  import opened Js
  import opened Text
  import opened Store

  /** A record of the newsletters table: `Tags` may be missing and `Approved` is whatever the cell holds. */
  datatype AirtableRecord = AirtableRecord(
    id: string,
    title: string,
    description: string,
    url: string,
    category: string,
    tags: Option<seq<string>>,
    approved: JsValue)

  /** A submission as this adapter's callers pass it. */
  datatype Submission = Submission(
    title: string,
    url: string,
    description: string,
    category: string,
    tags: seq<string>,
    email: Option<string>)

  /** The fields of a record created in the submissions table. */
  datatype SubmissionFields = SubmissionFields(
    title: string,
    url: string,
    description: string,
    category: string,
    tags: seq<string>,
    email: string,
    approved: bool,
    submittedAt: string)

  /** One conjunct of the filter formula; a search carries the user's text before escaping. */
  datatype Condition = ApprovedIsOne | CategoryIs(category: string) | SearchAny(query: string)

  /** A filter formula: a first condition, wrapped by `AND(previous, condition)` once per extra condition. */
  datatype Formula = Only(first: Condition) | And(previous: Formula, next: Condition)

  const FetchFailed := "Failed to fetch newsletters"
  const SubmitFailed := "Failed to submit newsletter"
  const ApprovedText := "{Approved} = 1"

  // ---------------------------------------------------------------------------
  // Quote escaping: searchQuery.replace(/'/g, "\\'")

  function QuoteCount(s: string): nat {
    if s == [] then 0 else (if s[0] == '\'' then 1 else 0) + QuoteCount(s[1..])
  }

  /** Every `'` becomes `\'`; every other character is kept as it is. */
  function EscapeQuotes(s: string): (r: string)
    ensures |r| == |s| + QuoteCount(s)
    ensures r == [] || r[0] != '\''
    ensures forall i :: 0 <= i < |r| && r[i] == '\'' ==> i > 0 && r[i - 1] == '\\'
    ensures QuoteCount(s) == 0 ==> r == s
  {
    if s == [] then []
    else if s[0] == '\'' then ['\\', '\''] + EscapeQuotes(s[1..])
    else [s[0]] + EscapeQuotes(s[1..])
  }

  /** How the formula language reads an escaped string back: `\'` stands for `'`. */
  function UnescapeQuotes(r: string): string {
    if |r| >= 2 && r[0] == '\\' && r[1] == '\'' then ['\''] + UnescapeQuotes(r[2..])
    else if r == [] then []
    else [r[0]] + UnescapeQuotes(r[1..])
  }

  /** The bare escaped term reads back as the user's text (the literal's closing quote is another matter: see ReadLiteral). */
  lemma {:induction false} UnescapeEscape(s: string)
    ensures UnescapeQuotes(EscapeQuotes(s)) == s
  {
    if s != [] {
      UnescapeEscape(s[1..]);
      var rest := EscapeQuotes(s[1..]);
      if s[0] == '\'' {
        UnescapeEscapedQuote(rest);
        assert EscapeQuotes(s) == ['\\', '\''] + rest;
      } else {
        UnescapePlainChar(s[0], rest);
        assert EscapeQuotes(s) == [s[0]] + rest;
      }
      assert [s[0]] + s[1..] == s;
    }
  }

  /** `\'` reads back as one quote. */
  lemma UnescapeEscapedQuote(rest: string)
    ensures UnescapeQuotes(['\\', '\''] + rest) == ['\''] + UnescapeQuotes(rest)
  {
    assert (['\\', '\''] + rest)[2..] == rest;
  }

  /** A character that no quote follows reads back as itself. */
  lemma UnescapePlainChar(c: char, rest: string)
    requires rest == [] || rest[0] != '\''
    ensures UnescapeQuotes([c] + rest) == [c] + UnescapeQuotes(rest)
  {
    assert ([c] + rest)[1..] == rest;
  }

  /**
   * How the formula language reads a `'…'` literal, from just after its
   * opening quote: `\'` stands for `'`, a bare `'` closes the literal, and
   * every other character stands for itself. The answer is the literal's
   * value and the text after the closing quote, or None when no quote
   * closes it.
   */
  function ReadLiteral(r: string): Option<(string, string)>
    decreases |r|
  {
    if r == [] then None
    else if r[0] == '\'' then Some(([], r[1..]))
    else if |r| >= 2 && r[0] == '\\' && r[1] == '\'' then Prepend("'", ReadLiteral(r[2..]))
    else Prepend([r[0]], ReadLiteral(r[1..]))
  }

  function Prepend(p: string, read: Option<(string, string)>): Option<(string, string)> {
    match read
    case Some((value, rest)) => Some((p + value, rest))
    case None => None
  }

  /** An escaped term that does not end in `\` is read as itself, and the reader goes on with what follows it. */
  lemma {:induction false} ReadEscaped(p: string, t: string)
    requires p == [] || p[|p| - 1] != '\\'
    ensures ReadLiteral(EscapeQuotes(p) + t) == Prepend(p, ReadLiteral(t))
    decreases |p|
  {
    if p == [] {
      assert EscapeQuotes(p) + t == t;
      PrependNothing(ReadLiteral(t));
    } else {
      var rest := EscapeQuotes(p[1..]);
      var head := if p[0] == '\'' then ['\\', '\''] else [p[0]];
      assert EscapeQuotes(p) == head + rest;
      calc {
        ReadLiteral(EscapeQuotes(p) + t);
      == { assert EscapeQuotes(p) + t == head + (rest + t); }
        ReadLiteral(head + (rest + t));
      == { if p[0] == '\'' {
             ReadQuoteStep(rest + t);
           } else {
             if p[0] == '\\' {
               EscapedStart(p[1..]);
             }
             ReadPlainStep(p[0], rest + t);
           }
         }
        Prepend([p[0]], ReadLiteral(rest + t));
      == { ReadEscaped(p[1..], t); }
        Prepend([p[0]], Prepend(p[1..], ReadLiteral(t)));
      == { PrependTwice([p[0]], p[1..], ReadLiteral(t)); assert [p[0]] + p[1..] == p; }
        Prepend(p, ReadLiteral(t));
      }
    }
  }

  lemma PrependNothing(read: Option<(string, string)>)
    ensures Prepend([], read) == read
  {
    match read
    case Some((value, rest)) => assert [] + value == value;
    case None =>
  }

  /** `\'` reads as one quote. */
  lemma ReadQuoteStep(x: string)
    ensures ReadLiteral(['\\', '\''] + x) == Prepend("'", ReadLiteral(x))
  {
    assert (['\\', '\''] + x)[2..] == x;
  }

  /** A character that neither closes the literal nor starts `\'` reads as itself. */
  lemma ReadPlainStep(c: char, x: string)
    requires c != '\''
    requires c == '\\' ==> x == [] || x[0] != '\''
    ensures ReadLiteral([c] + x) == Prepend([c], ReadLiteral(x))
  {
    assert ([c] + x)[1..] == x;
  }

  /** The escaped form of a non-empty term is non-empty and never starts with a quote. */
  lemma EscapedStart(p: string)
    requires p != []
    ensures EscapeQuotes(p) != [] && EscapeQuotes(p)[0] != '\''
  {
  }

  lemma PrependTwice(a: string, b: string, read: Option<(string, string)>)
    ensures Prepend(a, Prepend(b, read)) == Prepend(a + b, read)
  {
    match read
    case Some((value, rest)) => assert a + (b + value) == (a + b) + value;
    case None =>
  }

  /**
   * The search literal round-trips: for a term that does not end in `\`,
   * the literal `'<escaped term>'` reads back as the term, and reading
   * resumes right after its closing quote.
   */
  lemma LiteralRoundTrip(term: string, after: string)
    requires term == [] || term[|term| - 1] != '\\'
    ensures ReadLiteral(EscapeQuotes(term) + "'" + after) == Some((term, after))
  {
    ReadEscaped(term, "'" + after);
    assert EscapeQuotes(term) + "'" + after == EscapeQuotes(term) + ("'" + after);
    assert ("'" + after)[1..] == after;
    assert term + [] == term;
  }

  /**
   * A term ending in `\` is not escaped enough: its last `\` and the
   * literal's closing quote read as one escaped quote, so the literal does
   * not end where the formula means it to, and its value is not the term.
   */
  lemma TrailingBackslashSwallowsQuote(after: string)
    ensures ReadLiteral(EscapeQuotes("ab\\") + "'" + after) == Prepend("ab'", ReadLiteral(after))
    ensures ReadLiteral(EscapeQuotes("ab\\") + "'" + after) != Some(("ab\\", after))
  {
    ReadEscaped("ab", "\\'" + after);
    assert EscapeQuotes("ab\\") == EscapeQuotes("ab") + "\\";
    assert EscapeQuotes("ab\\") + "'" + after == EscapeQuotes("ab") + ("\\'" + after);
    assert "\\'" + after == ['\\', '\''] + after;
    ReadQuoteStep(after);
    PrependTwice("ab", "'", ReadLiteral(after));
    assert "ab" + "'" == "ab'";
    assert ReadLiteral(EscapeQuotes("ab\\") + "'" + after)
        == Prepend("ab", ReadLiteral(['\\', '\''] + after))
        == Prepend("ab", Prepend("'", ReadLiteral(after)));
    match ReadLiteral(after)
    case Some((value, rest)) => assert ("ab'" + value)[2] != "ab\\"[2];
    case None =>
  }

  // ---------------------------------------------------------------------------
  // The filter formula

  /** The formula getApprovedNewsletters asks for. */
  function FormulaFor(category: Option<string>, searchQuery: Option<string>): Formula {
    var withCategory := if Present(category) then And(Only(ApprovedIsOne), CategoryIs(category.value))
                        else Only(ApprovedIsOne);
    if Present(searchQuery) then And(withCategory, SearchAny(searchQuery.value)) else withCategory
  }

  function RenderCondition(c: Condition): string {
    match c
    case ApprovedIsOne => ApprovedText
    case CategoryIs(category) => CategoryFilter(category)
    case SearchAny(query) => SearchFilter(query)
  }

  const CategoryOpen := "{Category} = '"

  /**
   * The category clause: the category between quotes, unescaped. A category
   * without `'` that does not end in `\` reads back from its literal, which
   * closes at the clause's end; QuoteInCategoryClosesLiteral shows what a
   * quote in it does.
   */
  function CategoryFilter(category: string): (r: string)
    ensures |r| > |CategoryOpen| && r[..|CategoryOpen|] == CategoryOpen
    ensures '\'' !in category && (category == [] || category[|category| - 1] != '\\') ==>
      ReadLiteral(r[|CategoryOpen|..]) == Some((category, []))
  {
    var r := CategoryOpen + category + "'";
    assert r[|CategoryOpen|..] == category + "'" + [];
    if '\'' !in category && (category == [] || category[|category| - 1] != '\\') then
      QuoteFreeUnescaped(category);
      LiteralRoundTrip(category, []);
      r
    else r
  }

  /** A text without `'` is left as it is by the escaping. */
  lemma {:induction false} QuoteFreeUnescaped(s: string)
    requires '\'' !in s
    ensures EscapeQuotes(s) == s
  {
    if s != [] {
      assert s[1..] == s[1..];
      assert forall c :: c in s[1..] ==> c in s;
      QuoteFreeUnescaped(s[1..]);
    }
  }

  /**
   * The search clause: the escaped term looked up in the lower-cased title,
   * description and joined tags. When the term does not end in `\`, the
   * first `SEARCH` literal reads back as the term.
   */
  function SearchFilter(query: string): (r: string)
    ensures |r| > |SearchInTitle| && r[..|SearchInTitle|] == SearchInTitle
    ensures query == [] || query[|query| - 1] != '\\' ==>
      ReadLiteral(r[|SearchInTitle|..]).Some? && ReadLiteral(r[|SearchInTitle|..]).value.0 == query
  {
    var term := EscapeQuotes(query);
    var r := SearchInTitle + term + SearchInDescription + term + SearchInTags + term + SearchClose;
    assert SearchInDescription[0] == '\'';
    FirstLiteralAt(SearchInTitle, term, SearchInDescription, SearchInTags, SearchClose);
    if query == [] || query[|query| - 1] != '\\' then
      LiteralRoundTrip(query, SearchInDescription[1..] + term + SearchInTags + term + SearchClose);
      r
    else r
  }

  /** In `a + t + b + …` with `b` opening with a quote, what follows `a` is `t`, that quote, and the rest. */
  lemma FirstLiteralAt(a: string, t: string, b: string, c: string, d: string)
    requires b != [] && b[0] == '\''
    ensures var r := a + t + b + t + c + t + d;
      && |r| > |a| && r[..|a|] == a
      && r[|a|..] == t + "'" + (b[1..] + t + c + t + d)
  {
    var r := a + t + b + t + c + t + d;
    assert b == "'" + b[1..];
    assert r == a + (t + "'" + (b[1..] + t + c + t + d));
  }

  /**
   * A category holding `'` (and no `\` before it) closes its literal at its
   * first quote: the literal's value is the part before the quote, and the
   * rest of the category is read as formula text. "O'Reilly" is read as
   * "O" followed by `Reilly'`.
   */
  lemma QuoteInCategoryClosesLiteral(category: string, i: nat)
    requires i < |category| && category[i] == '\''
    requires forall k :: 0 <= k < i ==> category[k] != '\'' && category[k] != '\\'
    ensures ReadLiteral(CategoryFilter(category)[|CategoryOpen|..])
         == Some((category[..i], category[i + 1..] + "'"))
    ensures ReadLiteral(CategoryFilter(category)[|CategoryOpen|..]) != Some((category, []))
  {
    var x := category + "'";
    assert CategoryFilter(category)[|CategoryOpen|..] == x;
    ReadStopsAtFirstQuote(x, i);
    assert x[..i] == category[..i] && x[i + 1..] == category[i + 1..] + "'";
  }

  /** The reader stops at the first quote when no quote or backslash comes before it. */
  lemma {:induction false} ReadStopsAtFirstQuote(x: string, i: nat)
    requires i < |x| && x[i] == '\''
    requires forall k :: 0 <= k < i ==> x[k] != '\'' && x[k] != '\\'
    ensures ReadLiteral(x) == Some((x[..i], x[i + 1..]))
    decreases i
  {
    if i > 0 {
      ReadStopsAtFirstQuote(x[1..], i - 1);
      ReadPlainStep(x[0], x[1..]);
      assert [x[0]] + x[1..] == x;
      assert [x[0]] + x[1..][..i - 1] == x[..i];
      assert x[1..][i..] == x[i + 1..];
    }
  }

  const SearchInTitle := "OR(\n        SEARCH('"
  const SearchInDescription := "', LOWER({Title})),\n        SEARCH('"
  const SearchInTags := "', LOWER({Description})),\n        SEARCH('"
  const SearchClose := "', LOWER(ARRAYJOIN({Tags}, \",\")))\n      )"

  /** The formula's text: a lone condition as itself, a conjunction as `AND(…)`. */
  function Render(f: Formula): (r: string)
    ensures f.Only? ==> r == RenderCondition(f.first)
    ensures f.And? ==> |r| >= 5 && r[..4] == "AND(" && r[|r| - 1] == ')'
  {
    RenderWith(f, RenderCondition)
  }

  lemma RenderOnly(c: Condition)
    ensures Render(Only(c)) == RenderCondition(c)
  {
  }

  /** A wrapper's text: `AND(<previous>, <condition>)`. */
  lemma RenderAnd(previous: Formula, next: Condition)
    ensures Render(And(previous, next)) == "AND(" + Render(previous) + ", " + RenderCondition(next) + ")"
  {
  }

  /** The formula's text, each condition written by `text`. */
  function RenderWith(f: Formula, text: Condition -> string): string {
    match f
    case Only(c) => text(c)
    case And(previous, next) => "AND(" + RenderWith(previous, text) + ", " + text(next) + ")"
  }

  /** The innermost condition of a formula. */
  function Innermost(f: Formula): Condition {
    match f
    case Only(c) => c
    case And(previous, _) => Innermost(previous)
  }

  /** The number of `AND(` wrappers. */
  function Depth(f: Formula): nat {
    match f
    case Only(_) => 0
    case And(previous, _) => 1 + Depth(previous)
  }

  function Repeat(s: string, n: nat): string {
    if n == 0 then "" else s + Repeat(s, n - 1)
  }

  /** What follows the innermost condition: `, <condition>)` once per wrapper, innermost wrapper first. */
  function Tail(f: Formula, text: Condition -> string): string {
    match f
    case Only(_) => ""
    case And(previous, next) => Tail(previous, text) + ", " + text(next) + ")"
  }

  /**
   * The rendered text is one `AND(` per extra condition, then the innermost
   * condition's own text, then the closing parts of the wrappers.
   */
  lemma {:induction false} RenderShape(f: Formula, text: Condition -> string)
    ensures RenderWith(f, text) == Repeat("AND(", Depth(f)) + text(Innermost(f)) + Tail(f, text)
  {
    match f
    case Only(c) =>
    case And(previous, next) =>
      RenderShape(previous, text);
      WrapShape(RenderWith(previous, text), text(next), Depth(previous), text(Innermost(previous)), Tail(previous, text));
  }

  /** One more wrapper adds an `AND(` in front and the new condition's closing part behind. */
  lemma WrapShape(p: string, n: string, k: nat, inner: string, tail: string)
    requires p == Repeat("AND(", k) + inner + tail
    ensures "AND(" + p + ", " + n + ")" == Repeat("AND(", k + 1) + inner + (tail + ", " + n + ")")
  {
    assert Repeat("AND(", k + 1) == "AND(" + Repeat("AND(", k);
  }

  /** Whatever the filters, the formula opens with its `AND(` wrappers and then `{Approved} = 1`. */
  lemma ApprovedIsInnermost(category: Option<string>, searchQuery: Option<string>)
    ensures var f := FormulaFor(category, searchQuery);
      && Innermost(f) == ApprovedIsOne
      && Depth(f) == (if Present(category) then 1 else 0) + (if Present(searchQuery) then 1 else 0)
      && Render(f) == Repeat("AND(", Depth(f)) + ApprovedText + Tail(f, RenderCondition)
  {
    var f := FormulaFor(category, searchQuery);
    var g := if Present(category) then And(Only(ApprovedIsOne), CategoryIs(category.value)) else Only(ApprovedIsOne);
    assert Innermost(g) == ApprovedIsOne;
    assert Depth(g) == if Present(category) then 1 else 0;
    RenderShape(f, RenderCondition);
  }

  /** A category alone wraps the approval test as `AND({Approved} = 1, {Category} = '<category>')`. */
  lemma CategoryOnlyFormula(category: string)
    requires category != ""
    ensures Render(FormulaFor(Some(category), None)) == "AND({Approved} = 1, {Category} = '" + category + "')"
  {
    CategoryOnlyIsOneWrapper(category);
    RenderCategoryWrapper(category);
    RegroupAround("AND(" + ApprovedText + ", ", "{Category} = '", category, "'", ")");
    CategoryFormulaOpening();
  }

  lemma CategoryOnlyIsOneWrapper(category: string)
    requires category != ""
    ensures FormulaFor(Some(category), None) == And(Only(ApprovedIsOne), CategoryIs(category))
  {
  }

  lemma RenderCategoryWrapper(category: string)
    ensures Render(And(Only(ApprovedIsOne), CategoryIs(category)))
         == "AND(" + ApprovedText + ", " + ("{Category} = '" + category + "'") + ")"
  {
    RenderAnd(Only(ApprovedIsOne), CategoryIs(category));
    RenderOnly(ApprovedIsOne);
  }

  lemma CategoryFormulaOpening()
    ensures "AND(" + ApprovedText + ", " + "{Category} = '" == "AND({Approved} = 1, {Category} = '"
  {
  }

  lemma RegroupAround(a: string, b: string, x: string, c: string, d: string)
    ensures a + (b + x + c) + d == (a + b) + x + (c + d)
  {
  }

  /**
   * getApprovedNewsletters' formula, built as the source builds it: a string
   * that each present filter wraps once more.
   */
  method BuildFilterFormula(category: Option<string>, searchQuery: Option<string>) returns (formula: string)
    ensures formula == Render(FormulaFor(category, searchQuery))
  {
    ghost var f := Only(ApprovedIsOne);
    formula := ApprovedText;
    RenderOnly(ApprovedIsOne);
    if Present(category) {
      var categoryFilter := "{Category} = '" + category.value + "'";
      RenderAnd(f, CategoryIs(category.value));
      f := And(f, CategoryIs(category.value));
      formula := "AND(" + formula + ", " + categoryFilter + ")";
    }
    assert formula == Render(f);
    if Present(searchQuery) {
      var searchTerm := EscapeQuotes(searchQuery.value);
      var searchFilter := "OR(\n        SEARCH('" + searchTerm + "', LOWER({Title})),\n        SEARCH('" + searchTerm
        + "', LOWER({Description})),\n        SEARCH('" + searchTerm + "', LOWER(ARRAYJOIN({Tags}, \",\")))\n      )";
      RenderAnd(f, SearchAny(searchQuery.value));
      f := And(f, SearchAny(searchQuery.value));
      formula := "AND(" + formula + ", " + searchFilter + ")";
    }
  }

  // ---------------------------------------------------------------------------
  // Reference evaluation of the formula

  /** `SEARCH(needle, haystack)` is truthy when the needle occurs in the haystack. */
  predicate Search(needle: string, haystack: string) {
    Contains(haystack, needle)
  }

  /** `{Approved} = 1` holds of a checked checkbox (or the number 1). */
  predicate ApprovedCell(v: JsValue) {
    v == Bool(true) || v == Num(1)
  }

  predicate EvalCondition(c: Condition, rec: AirtableRecord) {
    match c
    case ApprovedIsOne => ApprovedCell(rec.approved)
    case CategoryIs(category) => rec.category == category
    case SearchAny(query) =>
      || Search(query, Lower(rec.title))
      || Search(query, Lower(rec.description))
      || Search(query, Lower(Join(if rec.tags.Some? then rec.tags.value else [], ",")))
  }

  predicate Eval(f: Formula, rec: AirtableRecord) {
    match f
    case Only(c) => EvalCondition(c, rec)
    case And(previous, next) => Eval(previous, rec) && EvalCondition(next, rec)
  }

  /** A record passes the formula exactly when it is approved and passes each filter that was given. */
  lemma {:induction false} EvalFormulaFor(category: Option<string>, searchQuery: Option<string>, rec: AirtableRecord)
    ensures Eval(FormulaFor(category, searchQuery), rec) <==>
      && ApprovedCell(rec.approved)
      && (Present(category) ==> rec.category == category.value)
      && (Present(searchQuery) ==> EvalCondition(SearchAny(searchQuery.value), rec))
  {
    var g := if Present(category) then And(Only(ApprovedIsOne), CategoryIs(category.value)) else Only(ApprovedIsOne);
    assert Eval(g, rec) <==> ApprovedCell(rec.approved) && (Present(category) ==> rec.category == category.value);
  }

  /** The search is applied to lower-cased fields only, so a term with an upper-case letter matches no record. */
  lemma UpperCaseSearchMatchesNothing(query: string, k: nat, rec: AirtableRecord)
    requires k < |query| && IsUpper(query[k])
    ensures !EvalCondition(SearchAny(query), rec)
  {
    UpperNeverInLower(rec.title, query, k);
    UpperNeverInLower(rec.description, query, k);
    UpperNeverInLower(Join(if rec.tags.Some? then rec.tags.value else [], ","), query, k);
  }

  /** The records of the base that pass the formula, in base order (the count query). */
  function Select(table: seq<AirtableRecord>, f: Formula): (rows: seq<AirtableRecord>)
    ensures forall rec :: rec in rows <==> rec in table && Eval(f, rec)
  {
    if table == [] then []
    else
      var rest := Select(table[1..], f);
      assert forall rec :: rec in table <==> rec == table[0] || rec in table[1..];
      if Eval(f, table[0]) then [table[0]] + rest else rest
  }

  function RecordTitle(rec: AirtableRecord): string {
    rec.title
  }

  // ---------------------------------------------------------------------------
  // getApprovedNewsletters

  /** `offset = (page - 1) * pageSize`. */
  function Offset(page: int, pageSize: int): (offset: int)
    ensures page == 1 ==> offset == 0
    ensures page >= 1 && pageSize >= 0 ==> offset >= 0
  {
    (page - 1) * pageSize
  }

  /** Each page's offset is the previous one's plus a page: consecutive pages neither overlap nor leave a gap. */
  lemma OffsetsAdjacent(page: int, pageSize: int)
    ensures Offset(page + 1, pageSize) == Offset(page, pageSize) + pageSize
  {
  }

  /** A record as a Newsletter: missing tags become `[]`, and `approved` is the truthiness of the cell. */
  function MapRecord(rec: AirtableRecord): (n: Newsletter)
    ensures n.tags == (if rec.tags.Some? then rec.tags.value else [])
    ensures n.approved <==> Truthy(rec.approved)
    ensures n.id == rec.id && n.title == rec.title && n.category == rec.category
    ensures n.url == rec.url && n.description == rec.description
  {
    Newsletter(rec.id, rec.title, rec.description, rec.url, rec.category,
               if rec.tags.Some? then rec.tags.value else [], Truthy(rec.approved))
  }

  function MapRecords(recs: seq<AirtableRecord>): (ns: seq<Newsletter>)
    ensures |ns| == |recs|
    ensures forall i :: 0 <= i < |recs| ==> ns[i] == MapRecord(recs[i])
  {
    seq(|recs|, i requires 0 <= i < |recs| => MapRecord(recs[i]))
  }

  /** What getApprovedNewsletters returns when both store calls answer. */
  function ListApproved(table: seq<AirtableRecord>, page: int, pageSize: int,
                        category: Option<string>, searchQuery: Option<string>): (l: Listing)
    ensures |l.newsletters| <= l.totalCount
  {
    var f := FormulaFor(category, searchQuery);
    var all := Select(table, f);
    var offset := Offset(page, pageSize);
    assert |SortByTitle(all, RecordTitle)| == |multiset(all)|;
    Listing(MapRecords(Window(SortByTitle(all, RecordTitle), offset, offset + pageSize)), |all|)
  }

  /**
   * getApprovedNewsletters: builds the formula, counts every matching
   * record, then fetches one page of them by title. `storeFails` stands for
   * either call failing, which surfaces as the generic fetch error.
   */
  method GetApprovedNewsletters(table: seq<AirtableRecord>, page: int, pageSize: int,
                                category: Option<string>, searchQuery: Option<string>,
                                storeFails: bool)
    returns (r: Result<Listing>)
    ensures r.Err? <==> storeFails
    ensures r.Err? ==> r.message == FetchFailed
    ensures r.Ok? ==> r.value == ListApproved(table, page, pageSize, category, searchQuery)
  {
    // The text sent as `filterByFormula`; BuildFilterFormula's contract makes it
    // the rendering of FormulaFor, so the selection below evaluates FormulaFor.
    var formula := BuildFilterFormula(category, searchQuery);
    assert formula == Render(FormulaFor(category, searchQuery));
    var offset := Offset(page, pageSize);
    if storeFails {
      return Err(FetchFailed);
    }
    var f := FormulaFor(category, searchQuery);
    var countResult := Select(table, f);
    var totalCount := |countResult|;
    var records := Window(SortByTitle(Select(table, f), RecordTitle), offset, offset + pageSize);
    r := Ok(Listing(MapRecords(records), totalCount));
  }

  /** Every record the formula selects is approved and of the requested category. */
  lemma SelectedRecords(table: seq<AirtableRecord>, category: Option<string>, searchQuery: Option<string>)
    ensures forall rec :: rec in Select(table, FormulaFor(category, searchQuery)) ==>
      ApprovedCell(rec.approved) && (Present(category) ==> rec.category == category.value)
  {
    forall rec | rec in Select(table, FormulaFor(category, searchQuery))
      ensures ApprovedCell(rec.approved) && (Present(category) ==> rec.category == category.value)
    {
      EvalFormulaFor(category, searchQuery, rec);
    }
  }

  /** The records of one page of the ordered selection: records of the selection, ordered by title, at most a page of them. */
  lemma PageRecords(all: seq<AirtableRecord>, sorted: seq<AirtableRecord>, offset: int, pageSize: nat)
    requires multiset(sorted) == multiset(all) && SortedByTitle(sorted, RecordTitle)
    ensures var w := Window(sorted, offset, offset + pageSize);
      && (forall k :: 0 <= k < |w| ==> w[k] in all)
      && (forall i, j :: 0 <= i < j < |w| ==> TitleLeq(w[i].title, w[j].title))
      && |w| <= pageSize
  {
    var w := Window(sorted, offset, offset + pageSize);
    forall k | 0 <= k < |w| ensures w[k] in all {
      assert w[k] == sorted[offset + k];
      assert w[k] in multiset(sorted);
    }
    WindowSorted(sorted, offset, offset + pageSize, RecordTitle);
    SortedRecordsByTitle(w);
  }

  /** Sorted by the title key means sorted by the `title` field. */
  lemma SortedRecordsByTitle(w: seq<AirtableRecord>)
    requires SortedByTitle(w, RecordTitle)
    ensures forall i, j :: 0 <= i < j < |w| ==> TitleLeq(w[i].title, w[j].title)
  {
    forall i, j | 0 <= i < j < |w| ensures TitleLeq(w[i].title, w[j].title) {
      assert TitleLeq(RecordTitle(w[i]), RecordTitle(w[j]));
    }
  }

  /**
   * Every listed newsletter is approved and of the requested category, the
   * page is ordered by title and holds at most `pageSize` newsletters, and
   * the total is the size of the whole filtered set, which does not depend
   * on the page.
   */
  lemma ListApprovedContents(table: seq<AirtableRecord>, page: int, pageSize: int,
                             category: Option<string>, searchQuery: Option<string>)
    requires pageSize >= 0
    ensures var l := ListApproved(table, page, pageSize, category, searchQuery);
      && (forall i :: 0 <= i < |l.newsletters| ==> l.newsletters[i].approved)
      && (Present(category) ==> forall i :: 0 <= i < |l.newsletters| ==> l.newsletters[i].category == category.value)
      && (forall i, j :: 0 <= i < j < |l.newsletters| ==> TitleLeq(l.newsletters[i].title, l.newsletters[j].title))
      && l.totalCount == |Select(table, FormulaFor(category, searchQuery))|
      && |l.newsletters| <= pageSize
  {
    var all := Select(table, FormulaFor(category, searchQuery));
    var offset := Offset(page, pageSize);
    var w := Window(SortByTitle(all, RecordTitle), offset, offset + pageSize);
    var ns := MapRecords(w);
    assert ListApproved(table, page, pageSize, category, searchQuery) == Listing(ns, |all|);
    SelectedRecords(table, category, searchQuery);
    PageRecords(all, SortByTitle(all, RecordTitle), offset, pageSize);
    forall k | 0 <= k < |ns|
      ensures ns[k].approved
      ensures Present(category) ==> ns[k].category == category.value
    {
      assert w[k] in all;
      assert ns[k] == MapRecord(w[k]);
    }
    forall i, j | 0 <= i < j < |ns| ensures TitleLeq(ns[i].title, ns[j].title) {
      assert ns[i].title == w[i].title && ns[j].title == w[j].title;
    }
  }

  /**
   * A page whose offset lies inside the selection is full, or holds every
   * record from the offset to the end when fewer than `pageSize` are left.
   */
  lemma PageLength(table: seq<AirtableRecord>, page: int, pageSize: int,
                   category: Option<string>, searchQuery: Option<string>)
    requires pageSize >= 0
    ensures var l := ListApproved(table, page, pageSize, category, searchQuery);
      var offset := Offset(page, pageSize);
      0 <= offset < l.totalCount ==>
        |l.newsletters| == (if pageSize < l.totalCount - offset then pageSize else l.totalCount - offset)
  {
    var all := Select(table, FormulaFor(category, searchQuery));
    var sorted := SortByTitle(all, RecordTitle);
    var offset := Offset(page, pageSize);
    assert |sorted| == |multiset(sorted)| == |multiset(all)| == |all|;
    assert ListApproved(table, page, pageSize, category, searchQuery)
        == Listing(MapRecords(Window(sorted, offset, offset + pageSize)), |all|);
  }

  // ---------------------------------------------------------------------------
  // submitNewsletter

  /** The fields of the created record: always unapproved, and an absent or empty email stored as `''`. */
  function CreatedFields(sub: Submission, submittedAt: string): (fields: SubmissionFields)
    ensures !fields.approved
    ensures fields.email == (if Present(sub.email) then sub.email.value else "")
    ensures fields.tags == sub.tags && fields.title == sub.title && fields.url == sub.url
    ensures fields.description == sub.description && fields.category == sub.category
    ensures fields.submittedAt == submittedAt
  {
    SubmissionFields(sub.title, sub.url, sub.description, sub.category, sub.tags,
                     OrElse(sub.email, ""), false, submittedAt)
  }

  /** `submitNewsletter`: the new record's id, or the generic error when the store fails (`None`). */
  function SubmitNewsletter(sub: Submission, storeAnswer: Option<string>): (r: Result<string>)
    ensures r.Ok? <==> storeAnswer.Some?
    ensures r.Ok? ==> r.value == storeAnswer.value
    ensures r.Err? ==> r.message == SubmitFailed
  {
    if storeAnswer.Some? then Ok(storeAnswer.value) else Err(SubmitFailed)
  }
}
