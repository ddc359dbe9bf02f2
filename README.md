# patchnotes — a Dafny model of the submission pipeline and the listing

patchnotes is a directory of tech newsletters. Visitors browse approved
newsletters page by page, filtered by category and search text. They submit
new ones through a form, and the submissions wait for review. This project
models the parts of it that carry logic:

- **The submission endpoint** (`SubmitRoute`, `submit_route.dfy`). This is a per-address rate limiter:
  - a class whose one field is the module-level `ipSubmissions` map;
  - the periodic sweep of expired entries;
  - the client key taken from the proxy headers;
  - the POST chain: rate limit, then honeypot, then required fields in a fixed order, then URL, then description length, then the store.
- **The Supabase adapter** (`Supabase`, `supabase.dfy`):
  - tag normalisation (`split(',')`, `trim`, drop empty);
  - the inserted row;
  - the page range;
  - the listing query, built step by step;
  - row mapping and `count || 0`.
- **The Airtable adapter** (`Airtable`, `airtable.dfy`):
  - the `filterByFormula` text, its quote escaping and its nesting;
  - a reference evaluation of the formula;
  - the page offset, record mapping and the fields of a created submission.
- **The store's listing semantics** (`Store`, `store.dfy`): filter the rows, sort them stably by title (character-code order), cut out a window of positions.
- **The listing endpoint** (`ListingRoute`, `listing_route.dfy`): parameter defaults, the pagination block, and `totalPages = ceil(totalCount / pageSize)`.
- **The home page** (`HomePage`, `home_page.dfy`):
  - a class over its React state, with the next, previous, category, search and clear-filter handlers;
  - the query string it sends;
  - the category list it extracts from the first page it loads.
- **The submission form** (`SubmitForm`, `submit_form.dfy`). The source has it twice with the same logic, in `src/app/submit/page.tsx` and `src/components/forms/NewsletterSubmissionForm.tsx`. The model covers:
  - the tag editor, as a class;
  - the client schema;
  - the request body;
  - what a submit does with the answer.
- **The newsletter card's tag row** (`NewsletterCard`, `newsletter_card.dfy`): five badges, then "+k more".
- **Supporting modules**: JavaScript value semantics (`Js`: truthiness, `||`), string operations (`Text`), and integer arithmetic (`Numeric`: `Math.ceil` of a quotient, `toString`, `parseInt` on digits).

Some inputs come from outside the program. Each becomes a parameter:

| input | parameter |
|---|---|
| the clock | `now` |
| `new URL(...)` and zod's `.url()` | `urlParses` / `isUrl` |
| zod's `.email()` | `isEmail` |
| the store's answer to an insert | `storeAnswer` (the new id, or `None` when it throws) |
| a failing listing call | `storeFails` |
| the stored tables | sequences of rows |

Several behaviours of the code are proved as they are written:

- The rate limiter's window test is strict (`now - timestamp > RATE_WINDOW`). For an address that has already used its 10 submissions, a check made exactly one window after the first of them is still refused, with a retry hint of 0 minutes (`RetryHintZeroAtWindowEnd`). An address below the limit is counted as usual at that instant.
- The limiter runs before anything else, so a honeypot request and an invalid request both use up quota.
- The presence check is JavaScript truthiness: an empty tag string fails it, and an empty tag array passes (`PresenceIsTruthiness`).
- The server has no lower bound on the description. Only the client schema asks for at least 10 characters (`ServerAcceptsShortDescription`).
- The form joins its tags with `,` and the server splits on `,`. A tag pasted with a comma in it reaches the store as two tags (`PastedCommaSplitsTag`). A list of comma-free tags arrives unchanged (`TagsSurviveSubmission`).
- The Airtable formula lower-cases the fields but not the search term. A term that holds an upper-case letter matches no record (`UpperCaseSearchMatchesNothing`).
- The Airtable formula puts the category between quotes without escaping it. A category that holds no `'` and does not end in `\` reads back from its literal (`CategoryFilter`). A category that holds a `'` closes the literal at that quote, and the rest of the category is read as formula text (`QuoteInCategoryClosesLiteral`).
- The Airtable search escapes `'` but not `\`. A term that does not end in `\` reads back exactly from its `'…'` literal (`LiteralRoundTrip`). A term that ends in `\` turns the literal's closing quote into an escaped quote, so the literal does not close where the formula means it to (`TrailingBackslashSwallowsQuote`).

## Model

| member | source | states |
|---|---|---|
| Text.TrimStart | src/app/submit/page.tsx:73 | the start-trimmed text is a suffix of the input and does not start with whitespace |
| Text.TrimEnd | src/app/submit/page.tsx:73 | the end-trimmed text is a prefix of the input and does not end with whitespace |
| Text.TrimStartDropsOnlySpace | src/app/submit/page.tsx:73 | everything `trim()` drops at the start is whitespace |
| Text.TrimEndDropsOnlySpace | src/app/submit/page.tsx:73 | everything `trim()` drops at the end is whitespace |
| Text.TrimIsInnerPiece | src/app/submit/page.tsx:73-74 | `trim()` returns a contiguous piece of its input with no whitespace at either end |
| Text.TrimDropsIdeographicSpace | src/app/submit/page.tsx:73 | an example, not a general property: `trim()` strips the Unicode space separators too, so a tag typed after U+3000 loses it |
| Text.TrimKeepsOnlyInputChars | src/app/submit/page.tsx:74 | every character of a trimmed tag occurs in the text typed |
| Text.TrimOfTrimmed | src/lib/supabase/index.ts:96 | trimming an already trimmed piece leaves it unchanged |
| Text.Split | src/lib/supabase/index.ts:96 | `split(',')` gives at least one piece and no piece holds the separator |
| Text.JoinSplit | src/lib/supabase/index.ts:96 | joining the pieces of a split with the separator gives back the input |
| Text.SplitJoin | src/lib/supabase/index.ts:96 | splitting undoes joining for a non-empty list of separator-free pieces |
| Text.Lower | src/lib/airtable/index.ts:56-58 | `LOWER` keeps the length and lower-cases each character |
| Text.UpperNeverInLower | src/lib/airtable/index.ts:56-58 | a term holding an upper-case letter never occurs in a lower-cased text |
| Numeric.CeilDiv | src/app/api/newsletter/route.ts:30 | `Math.ceil(a / b)` is the least r with a ≤ r·b, i.e. (r−1)·b < a ≤ r·b |
| Numeric.CeilDivUnique | src/app/api/newsletter/route.ts:30 | those bounds determine the ceiling uniquely |
| Numeric.ShowNat | src/app/page.tsx:39 | `page.toString()` is a digit string without a leading zero |
| Numeric.ShowIntReadsBack | src/app/api/newsletter/submit/route.ts:70 | `String(n)` of a non-negative number is a digit string that reads back as n |
| Numeric.DecimalValueOfShowNat | src/app/api/newsletter/route.ts:10 | `parseInt` reads back exactly the number the page rendered |
| Store.TitleLeqTotal | src/lib/supabase/index.ts:47 | any two titles are comparable in the title order |
| Store.TitleLeqTransitive | src/lib/supabase/index.ts:47 | the title order is transitive |
| Store.SortByTitle | src/lib/supabase/index.ts:47 | ordering by title ascending returns a permutation of the rows that is sorted by title |
| Store.Window | src/lib/supabase/index.ts:48 | a range returns the rows at its positions: all of them when it ends inside the rows, every row from its start to the end when it runs past the end, none when it starts past the end |
| Store.WindowSorted | src/lib/airtable/index.ts:74-79 | a page of a sorted result is sorted |
| Store.SortedWindowMembers | src/lib/supabase/index.ts:45-48 | every row of a page of the ordered result is one of the matching rows |
| Store.AdjacentWindows | src/lib/supabase/index.ts:39-48 | two adjacent ranges together return what the range spanning both returns |
| Supabase.DropEmpty | src/lib/supabase/index.ts:96 | the filter keeps only non-empty pieces, never more than it was given, and keeps all pieces when none is empty |
| Supabase.DropEmptyKeepsOrder | src/lib/supabase/index.ts:96 | filtering a concatenation filters each part and keeps the parts in order |
| Supabase.DropEmptyKeepsOnlyInput | src/lib/supabase/index.ts:96 | every kept piece is one of the input pieces |
| Supabase.DropEmptyCounts | src/lib/supabase/index.ts:96 | each non-empty piece is kept exactly as often as it occurs (no de-duplication), and no empty piece is kept |
| Supabase.NormaliseTagText | src/lib/supabase/index.ts:93-97 | a string of tags gives non-empty tags, no more than its comma-separated pieces |
| Supabase.NormalisedTagsAreClean | src/lib/supabase/index.ts:96 | every stored tag from a text is non-empty, trimmed and comma-free |
| Supabase.NormaliseJoinRoundTrip | src/lib/supabase/index.ts:96 | normalising the comma-join of non-empty, trimmed, comma-free tags returns the same list, so the forms' `tags.join(',')` is undone |
| Supabase.NormaliseTags | src/lib/supabase/index.ts:93-97 | an array is kept as it is; anything that is neither an array nor a string gives `[]` |
| Supabase.InsertedRow | src/lib/supabase/index.ts:100-110 | the inserted row is always unapproved; `email` is the given email when truthy and null otherwise; tags are the normalised tags |
| Supabase.SubmitNewsletter | src/lib/supabase/index.ts:114-120 | the call returns the new id exactly when the store answers, else the generic submit error |
| Supabase.PageRange | src/lib/supabase/index.ts:39-40 | page 1 is positions 0 to `pageSize − 1`; every page spans exactly `pageSize` positions, starting at 0 or later for page ≥ 1 |
| Supabase.ConsecutivePagesAdjacent | src/lib/supabase/index.ts:39-40 | the next page starts one position after this page ends |
| Supabase.PositionOnOnePage | src/lib/supabase/index.ts:39-40 | the pages of size `pageSize` > 0 partition the positions: position n lies on page `n / pageSize + 1` and on no other page |
| Supabase.Matching | src/lib/supabase/index.ts:43-61 | a row is in the result iff it is in the table and passes the approved, category and search filters |
| Supabase.MapRow | src/lib/supabase/index.ts:69-77 | a null `tags` becomes `[]`; every other field is copied |
| Supabase.MapRows | src/lib/supabase/index.ts:69-77 | the mapping is element-wise and keeps the length |
| Supabase.CountOrZero | src/lib/supabase/index.ts:81 | `count || 0` is the count when there is one and 0 otherwise |
| Supabase.GetApprovedNewsletters | src/lib/supabase/index.ts:31-87 | the query built step by step gives the reference listing; a store error gives the generic fetch error |
| Supabase.Execute | src/lib/supabase/index.ts:43-82 | the exact count is present, at most the table size, and at least the number of rows returned; a range returns at most its length of rows |
| Supabase.ListApproved | src/lib/supabase/index.ts:43-82 | the listing holds at most `totalCount` rows, `totalCount` is at most the table size, and a page holds at most `pageSize` rows |
| Supabase.ExecuteRows | src/lib/supabase/index.ts:43-61 | every returned row comes from the table and matches the query, and the rows are ordered by title |
| Supabase.ExecuteCount | src/lib/supabase/index.ts:45-48 | the exact count is the number of matching rows, and the range bounds the returned rows |
| Supabase.ListApprovedContents | src/lib/supabase/index.ts:43-82 | a listing holds only approved rows of the requested category, sorted by title, at most `pageSize` of them; its total is the number of matching rows |
| Supabase.PageLength | src/lib/supabase/index.ts:39-48 | a page starting inside the matching rows holds `min(pageSize, totalCount − from)` rows: full, or the rest of the rows on the last page |
| Supabase.PastLastPageIsEmpty | src/lib/supabase/index.ts:39-48 | with the reference store, a page starting at or after the total is an empty list |
| Airtable.EscapeQuotes | src/lib/airtable/index.ts:54 | every `'` becomes `\'`, the length grows by the number of quotes, and a text without quotes is unchanged |
| Airtable.UnescapeEscape | src/lib/airtable/index.ts:54 | reading the bare escaped term back gives the user's text |
| Airtable.LiteralRoundTrip | src/lib/airtable/index.ts:54-58 | a search term not ending in `\` reads back from its quoted literal exactly, and the formula resumes after the closing quote |
| Airtable.TrailingBackslashSwallowsQuote | src/lib/airtable/index.ts:54-58 | a term ending in `\` does not read back: its last `\` and the closing quote read as one quote character |
| Airtable.CategoryFilter | src/lib/airtable/index.ts:48-49 | the condition starts `{Category} = '`, and a category with no `'` that does not end in `\` reads back from its literal as exactly itself, closing the condition |
| Airtable.QuoteInCategoryClosesLiteral | src/lib/airtable/index.ts:48-49 | a category holding a `'` (with no `'` or `\` before it) is read only up to that quote; the rest of it, and the intended closing quote, are read as formula text |
| Airtable.SearchFilter | src/lib/airtable/index.ts:53-59 | the condition starts `OR(` and the title search, and a term not ending in `\` reads back from its first literal as exactly itself |
| Airtable.Render | src/lib/airtable/index.ts:45-61 | a lone condition is written as itself; a conjunction is written `AND(…)` |
| Airtable.RenderShape | src/lib/airtable/index.ts:45-61 | whatever text each condition is written as, the formula is one `AND(` per extra condition, the innermost condition, then the wrappers' closing parts |
| Airtable.ApprovedIsInnermost | src/lib/airtable/index.ts:45 | `{Approved} = 1` is always the innermost conjunct, wrapped once per filter given |
| Airtable.CategoryOnlyFormula | src/lib/airtable/index.ts:48-50 | with only a category the formula is exactly `AND({Approved} = 1, {Category} = '<category>')` |
| Airtable.BuildFilterFormula | src/lib/airtable/index.ts:44-61 | the string reassigned step by step is the rendering of the formula for the given filters |
| Airtable.EvalFormulaFor | src/lib/airtable/index.ts:45-61 | a record passes the formula iff it is approved, has the given category, and matches the given search |
| Airtable.UpperCaseSearchMatchesNothing | src/lib/airtable/index.ts:54-58 | a search term with an upper-case letter matches no record |
| Airtable.Select | src/lib/airtable/index.ts:67-71 | the count query returns exactly the records that pass the formula |
| Airtable.Offset | src/lib/airtable/index.ts:64 | page 1 starts at offset 0, and no offset is negative for page ≥ 1 |
| Airtable.OffsetsAdjacent | src/lib/airtable/index.ts:64 | each page's offset is the previous page's plus `pageSize` |
| Airtable.MapRecord | src/lib/airtable/index.ts:82-90 | missing tags become `[]`, and `approved` is the truthiness of the cell |
| Airtable.MapRecords | src/lib/airtable/index.ts:82-90 | the mapping is element-wise and keeps the length |
| Airtable.GetApprovedNewsletters | src/lib/airtable/index.ts:37-97 | the listing is the reference listing; a failing store call gives the generic fetch error |
| Airtable.SelectedRecords | src/lib/airtable/index.ts:45-50 | every selected record is approved and of the requested category |
| Airtable.PageRecords | src/lib/airtable/index.ts:74-79 | a page of a title-ordered permutation of the selection holds selected records, ordered by title, at most `pageSize` of them |
| Airtable.ListApproved | src/lib/airtable/index.ts:63-92 | the listing never holds more records than its `totalCount` |
| Airtable.ListApprovedContents | src/lib/airtable/index.ts:63-92 | listed newsletters are approved, of the category, ordered, at most a page; `totalCount` is the whole filtered set whatever the page |
| Airtable.PageLength | src/lib/airtable/index.ts:64-79 | a page whose offset lies inside the selection holds `min(pageSize, totalCount − offset)` records |
| Airtable.CreatedFields | src/lib/airtable/index.ts:102-111 | a created record is always unapproved, with `Email` `''` when absent or empty |
| Airtable.SubmitNewsletter | src/lib/airtable/index.ts:100-118 | the call returns the record id exactly when the store answers, else the generic submit error |
| ListingRoute.Filter | src/app/api/newsletter/route.ts:14-15 | an absent or empty filter becomes "no filter", and any other value is kept |
| ListingRoute.NumberParam | src/app/api/newsletter/route.ts:10-11 | an absent or empty parameter reads as its default, anything else as its decimal value |
| ListingRoute.ParseParams | src/app/api/newsletter/route.ts:9-15 | page defaults to 1 and pageSize to 21; category and search are set iff given non-empty |
| ListingRoute.TotalPages | src/app/api/newsletter/route.ts:30 | 0 pages for 0 rows; otherwise the fewest pages that hold every row |
| ListingRoute.PaginationOf | src/app/api/newsletter/route.ts:24-32 | the block echoes page and pageSize, carries the adapter's total and its page count |
| ListingRoute.Get | src/app/api/newsletter/route.ts:5-40 | 500 with the generic error iff the adapter fails; otherwise the adapter's page and the pagination block |
| ListingRoute.PageBeyondTotalPagesIsEmpty | src/app/api/newsletter/route.ts:17-30 | with the reference store, a page past `totalPages` is an empty list |
| ListingRoute.PagesUpToTotalStartInside | src/app/api/newsletter/route.ts:30 | every page from 1 to `totalPages` starts at an existing row |
| SubmitRoute.RemainingMinutes | src/app/api/newsletter/submit/route.ts:32 | the hint is the ceiling of the minutes left: between 0 and 60 for a live record not in the future |
| SubmitRoute.Check | src/app/api/newsletter/submit/route.ts:15-39 | only the checked key's entry may change; a refusal changes nothing; counts stay within 1..10 |
| SubmitRoute.CheckStartsWindow | src/app/api/newsletter/submit/route.ts:17-23 | no record or an expired one: not limited, entry becomes `{count: 1, timestamp: now}` |
| SubmitRoute.CheckCountsOneMore | src/app/api/newsletter/submit/route.ts:26-29 | within the window and under the limit: count + 1, same timestamp, not limited |
| SubmitRoute.CheckRefusesAtLimit | src/app/api/newsletter/submit/route.ts:31-38 | at the limit within the window: limited, map unchanged, hint 0..60 minutes |
| SubmitRoute.RetryHintZeroAtWindowEnd | src/app/api/newsletter/submit/route.ts:20-32 | exactly one window after the first submission the check is still limited, with a hint of 0 |
| SubmitRoute.Unexpired | src/app/api/newsletter/submit/route.ts:42-49 | the sweep keeps exactly the entries not past the window, unchanged |
| SubmitRoute.ClientKey | src/app/api/newsletter/submit/route.ts:55-57 | the key is x-forwarded-for, else x-real-ip, else "unknown", by truthiness |
| SubmitRoute.FirstMissing | src/app/api/newsletter/submit/route.ts:89-97 | none missing iff every field is present; otherwise the first missing field in list order |
| SubmitRoute.AllPresentIsNoneMissing | src/app/api/newsletter/submit/route.ts:88-97 | the required-fields loop passes iff title, url, description, category and tags are all truthy |
| SubmitRoute.Validate | src/app/api/newsletter/submit/route.ts:79-115 | a truthy honeypot discards; an accepted body has every field, a parsable URL, at most 300 description characters, and is forwarded unchanged |
| SubmitRoute.CheckBody | src/app/api/newsletter/submit/route.ts:79-115 | the checks run one after another, with the required-fields loop, reach exactly the verdict `Validate` describes |
| SubmitRoute.Respond | src/app/api/newsletter/submit/route.ts:52-131 | the status is 429 iff rate limited, only 429 carries Retry-After, and every answer is 200, 400, 429 or 500 |
| SubmitRoute.Inserted | src/app/api/newsletter/submit/route.ts:117-118 | a row reaches the store iff the limiter lets the request through and validation accepts the body, and it is unapproved |
| SubmitRoute.AcceptedIsCreated | src/app/api/newsletter/submit/route.ts:117-124 | past the limiter with a valid body and a store that answers: 200 with `success`, the new id and the review message; the row inserted is the submission's, whose title, url, description and category are the body's |
| SubmitRoute.RateLimitResponse | src/app/api/newsletter/submit/route.ts:62-73 | 429, the hint in minutes in the body, and a Retry-After that reads back as the hint × 60 |
| SubmitRoute.HoneypotIsDiscarded | src/app/api/newsletter/submit/route.ts:82-86 | a truthy honeypot answers `{success: true}` and inserts nothing |
| SubmitRoute.RateLimitedComesFirst | src/app/api/newsletter/submit/route.ts:59-74 | a refused check answers 429 whatever the body, with the hint in minutes and Retry-After the hint × 60 |
| SubmitRoute.MissingFieldReported | src/app/api/newsletter/submit/route.ts:88-97 | a missing field answers 400 naming the first missing of title, url, description, category, tags |
| SubmitRoute.PresenceIsTruthiness | src/app/api/newsletter/submit/route.ts:91 | an empty tag array is present, an empty string is not |
| SubmitRoute.DescriptionLengthBoundary | src/app/api/newsletter/submit/route.ts:109-115 | 300 characters are accepted and 301 rejected with the length error |
| SubmitRoute.InvalidUrlRejected | src/app/api/newsletter/submit/route.ts:99-107 | a URL that does not parse answers 400 "Invalid URL format" |
| SubmitRoute.FailuresAreGeneric | src/app/api/newsletter/submit/route.ts:125-131 | an unreadable body or a failing store answers 500 with the generic message |
| SubmitRoute.SubmitEndpoint.constructor | src/app/api/newsletter/submit/route.ts:7 | the map starts empty |
| SubmitRoute.SubmitEndpoint.IsRateLimited | src/app/api/newsletter/submit/route.ts:15-39 | the in-place update of the map and the answer are those of `Check` |
| SubmitRoute.SubmitEndpoint.SweepExpired | src/app/api/newsletter/submit/route.ts:42-49 | the delete loop leaves exactly `Unexpired` of the old map |
| SubmitRoute.SubmitEndpoint.Post | src/app/api/newsletter/submit/route.ts:52-131 | the map is updated by the check for the client key; the response and the inserted row are those of `Respond` and `Inserted` |
| SubmitRoute.EleventhSubmissionIsLimited | src/app/api/newsletter/submit/route.ts:5-38 | within one window the first 10 submissions pass and the 11th is refused with a hint of at most 60 minutes |
| HomePage.Lookup | src/app/api/newsletter/route.ts:10-15 | `searchParams.get` is absent iff no pair has the name, else the value of the first such pair |
| HomePage.QueryParams | src/app/page.tsx:38-49 | page then pageSize come first; no name repeats; a `category` pair is there iff the category is truthy, a `search` pair iff the search is non-empty |
| HomePage.QueryParamsRoundTrip | src/app/page.tsx:38-49 | the endpoint parses back the page, page size 21, and the category and search exactly when they were truthy |
| HomePage.UniqueInOrder | src/app/page.tsx:66-68 | no duplicates, and exactly the values of the input |
| HomePage.UniqueInOrderKeepsFirstSeenOrder | src/app/page.tsx:66-68 | the values come in the order of their first occurrence |
| HomePage.CategoriesOf | src/app/page.tsx:67 | the i-th entry is the i-th newsletter's category |
| HomePage.ExtractedCategories | src/app/page.tsx:65-70 | the extracted list has no duplicates and holds exactly the categories on the page |
| HomePage.NextPageStartsInside | src/app/page.tsx:98-103 | with `totalPages` from the endpoint, Next never goes to a page past the last row |
| HomePage.HomePage.constructor | src/app/page.tsx:14-25 | page 1, one page, no filters, nothing loaded |
| HomePage.HomePage.HandleNextPage | src/app/page.tsx:98-103 | page + 1 only when page < totalPages, else unchanged; page stays ≥ 1 |
| HomePage.HomePage.HandlePrevPage | src/app/page.tsx:105-110 | page − 1 only when page > 1, so it never drops below 1 |
| HomePage.HomePage.HandleCategoryChange | src/app/page.tsx:86-89 | sets the category and resets to page 1 |
| HomePage.HomePage.HandleSearchChange | src/app/page.tsx:92-95 | sets the search text and resets to page 1 |
| HomePage.HomePage.ClearFilters | src/app/page.tsx:265-269 | no category, empty search, page 1; the next query carries only page and page size |
| HomePage.HomePage.ApplyFetchResult | src/app/page.tsx:54-77 | a listing replaces the list and page count, and fills the categories only while empty; a failure sets the error and keeps the rest |
| SubmitForm.AddedTags | src/app/submit/page.tsx:72-81 | the list is unchanged or gains the trimmed input at the end, and it changes iff the trimmed input is non-empty and not yet listed |
| SubmitForm.AddedTagsCases | src/app/submit/page.tsx:72-85 | blank input adds nothing; a new trimmed tag is appended at the end; a duplicate is not added |
| SubmitForm.AddedTagsStayClean | src/app/submit/page.tsx:72-85 | adding keeps the list free of duplicates, blanks and untrimmed tags |
| SubmitForm.Without | src/app/submit/page.tsx:89 | the filter keeps exactly the other tags |
| SubmitForm.WithoutAbsent | src/app/submit/page.tsx:89 | removing a tag that is not listed changes nothing |
| SubmitForm.WithoutAt | src/app/submit/page.tsx:88-89 | removing a listed tag keeps the others in their order |
| SubmitForm.WithoutStaysClean | src/app/submit/page.tsx:88-92 | removing keeps the list clean |
| SubmitForm.JoinedTagsNonEmpty | src/app/submit/page.tsx:31 | for a clean list, the schema's non-empty `tags` means at least one tag |
| SubmitForm.RequestBody | src/app/submit/page.tsx:108-116 | the posted body is the form fields with `tags` the list joined by `,` |
| SubmitForm.SchemaAccepts | src/app/submit/page.tsx:24-34 | an accepted form has a title, a URL that parses, a category, at least one tag, and a description within the server's 300 characters |
| SubmitForm.SchemaAcceptedPassesServer | src/app/submit/page.tsx:24-34 | a schema-accepted form with an empty honeypot passes the server's validation |
| SubmitForm.ServerAcceptsShortDescription | src/app/submit/page.tsx:27-29 | a description the schema refuses as too short is accepted by the server |
| SubmitForm.TagsSurviveSubmission | src/app/submit/page.tsx:109 | the store records exactly the editor's list when no tag holds a comma |
| SubmitForm.PastedCommaSplitsTag | src/app/submit/page.tsx:109 | a clean tag `a,b` is stored as the two tags `a` and `b` |
| SubmitForm.SubmissionForm.constructor | src/app/submit/page.tsx:51-69 | no tags, empty input and form value, no outcome |
| SubmitForm.SubmissionForm.SetTagInput | src/app/submit/page.tsx:389 | only the input box changes |
| SubmitForm.SubmissionForm.HandleAddTag | src/app/submit/page.tsx:72-85 | the list becomes `AddedTags`, the box is cleared unless blank, the form value stays the joined list; the form component repeats it at lines 68-81 of `NewsletterSubmissionForm.tsx` |
| SubmitForm.SubmissionForm.HandleRemoveTag | src/app/submit/page.tsx:88-92 | the list becomes `Without` the tag, and the form value stays the joined list; the form component repeats it at lines 84-88 of `NewsletterSubmissionForm.tsx` |
| SubmitForm.SubmissionForm.HandleTagKeyPress | src/app/submit/page.tsx:95-100 | only Enter and `,` add a tag; other keys change nothing; the form component repeats it at lines 91-96 of `NewsletterSubmissionForm.tsx` |
| SubmitForm.SubmissionForm.OnSubmit | src/app/submit/page.tsx:103-132 | sends iff the schema accepts; success empties the list and form value; failure records the server's error or the default and keeps the list, form value and success flag; the form component repeats it at lines 99-128 of `NewsletterSubmissionForm.tsx` |
| SubmitForm.SubmissionForm.SubmitAnother | src/app/submit/page.tsx:191 | clears the success flag only |
| NewsletterCard.ShownTags | src/components/newsletter/NewsletterCard.tsx:27 | the shown tags are the first min(5, n) tags, in order |
| NewsletterCard.HiddenCount | src/components/newsletter/NewsletterCard.tsx:32-36 | a count exists iff n > 5, and it is n − 5, at least 1 |
| NewsletterCard.MoreBadge | src/components/newsletter/NewsletterCard.tsx:32-36 | the badge appears iff there is a hidden count, and reads `+{n − 5} more` |
| NewsletterCard.MoreBadgeCountsHidden | src/components/newsletter/NewsletterCard.tsx:32-36 | the badge is `+`, a digit string, ` more`, and its number plus the shown badges is the number of tags |
| NewsletterCard.ShownPlusHiddenIsAll | src/components/newsletter/NewsletterCard.tsx:27-36 | shown plus hidden is n, and the shown tags followed by the rest are the whole list |
| NewsletterCard.FewTagsAllShown | src/components/newsletter/NewsletterCard.tsx:27-36 | with 5 tags or fewer, all are shown and there is no badge |

## Left out

- The Supabase client, the Airtable SDK and the duplicate-check RPC are foreign network calls. The model's stand-in for a store is a reference filter, sort and window over a sequence of rows, plus an "answer or fail" parameter.
- Store.Window: the reference store answers a range that starts before the first row or at or after the last with an empty list. PostgREST answers an offset past an exact count with an error (HTTP 416), which the adapter turns into the fetch error and the listing route into a 500; that path, and PostgREST's answer to a negative start from a page number of 0 or below, are not modelled. `PastLastPageIsEmpty` and `PageBeyondTotalPagesIsEmpty` hold for the reference store only.
- Airtable.UnescapeEscape: the formula language's reading of a `'…'` literal is modelled by `ReadLiteral`, with `\'` as the only escape. A search term ending in `\` yields a formula whose literals close in the wrong places. `EvalFormulaFor` and `GetApprovedNewsletters` still evaluate that search as the plain substring test; the error the Airtable API answers such a formula with is not modelled.
- Airtable.EvalFormulaFor: the category goes into the formula unescaped. A category holding `'` closes its literal early (`QuoteInCategoryClosesLiteral`). The model evaluates the category condition as plain equality, so the malformed formula (which the API refuses, giving the fetch error) is not modelled, nor is an injected formula text such as `') + OR(1, '`, which could let unapproved records through.
- Airtable.SelectedRecords: "approved and of the requested category" holds for the formula as the model evaluates it. A category that injects formula text can make the real formula pass other records; that is not modelled.
- Airtable.ListApprovedContents: the same limit applies. The listing is proved approved and of the category only for categories whose literal reads back (no `'`, not ending in `\`). A malformed or injected formula is not modelled.
- Store.TitleLeq: titles are ordered by character code. PostgreSQL's `order('title')` uses the database collation and Airtable sorts by its own rules, and both generally order mixed-case and accented titles differently. The proved ordering properties hold for the character-code order only.
- Server-side `ilike` and Airtable `SEARCH`/`LOWER` are given only a reference meaning: substring match after ASCII lower-casing. The unescaped `%` and `,` in the Supabase `.or()` string are not modelled.
- Airtable's `offset` option is modelled as a number of records to skip, as the source passes it. The SDK's own meaning of that option is not modelled.
- URL and e-mail parsing (`new URL`, zod's `.url()` and `.email()`) are function parameters. The model does not reimplement the WHATWG URL Standard.
- The clock and timers are left out. `Date.now()` is the `now` parameter. The sweep is modelled as its loop body, without the `setInterval` timer.
- `SubmittedAt` in the Airtable adapter is the ISO date text passed in by the caller.
- The process-local map is modelled as one object's field. Sharing between server instances and concurrent requests is not modelled.
- `fetch`, async/await and JSON parsing are left out, and so are `window.scrollTo`, animation, theming, page metadata and the `isLoading`/`isRefreshing`/`isSubmitting` flags. A body that cannot be parsed is the `None` body.
- The forms' fixed category lists are left out. The schema only asks that the category be non-empty, and that is what the model checks.
- ListingRoute.NumberParam: `parseInt` is modelled on digit strings only. Anything but a digit string is excluded by the precondition: signs, spaces and trailing text, which `parseInt` partly reads, as well as text it cannot read at all (`NaN`).
- ListingRoute.Get: the model requires a page size above 0. The source divides by it, and a page size of 0 is excluded.
- SubmitRoute.Validate: the description length is counted in characters. JavaScript counts UTF-16 code units, which differ for characters outside the Basic Multilingual Plane.
- SubmitRoute.Body: the string fields are modelled as absent or strings. JSON of another type in them (a number for `description`, say) is not modelled.
- SubmitForm.SchemaAccepts: zod's length bounds are counted in characters, not UTF-16 code units.
- Presentation-only files are left out: the header, footer, layout, theme provider, sitemap, the about pages, the routes/submit wrapper, the newsletter grid and the filter bar. They hold markup and callback wiring with no logic of their own.
