# Solr book search: verified model of the page logic and the proxy logic

The repository is a browser search page (`search.js`) in front of a FastAPI proxy (`app.py`),
which is in front of Solr. This project models the small pieces of logic inside that glue:

- **The search page.** It keeps a `currentSearchParams` record (`q`, `category`, `author`,
  `published`, `page`) and overwrites it on every search. It then builds the query string
  `key=encodeURIComponent(value)` for every truthy field, in field order, joined with `&`.
  The rendering decisions are modelled as records: the no-results message or one card per
  book, the "All" option before one radio per filter value, and the author radio's id slug.
  The autocomplete guard (at least two characters after trimming) and the show/hide decision
  for the suggestion list are modelled too.
  Module `SearchPage` holds the page state as a class `Page`. Its fields are the record and
  the contents of the results, suggestion and filter containers. Its methods loop the way
  the source does.
  The modules beside it hold the pure parts:
  - `QueryParams`: the query string as a function, with a reader for the round-trip proof;
  - `Render`: the render records;
  - `Uri`: `encodeURIComponent` over ASCII;
  - `Text`: `trim`, `join`, `split` and the `/\s+/g` replacement.
- **The proxy.** Module `SolrApi` covers three pieces:
  - the Solr query that `search` assembles from conditional clauses joined by `" AND "`;
  - the empty-prefix guard and title list of `suggest`;
  - the even-index extraction of facet values in `get_facet_values`, with its fallbacks for a
    non-200 status or missing keys.

HTTP is not modelled. The page's API is a parameter `api` that maps a request path to the
parsed reply or a failure. Solr is a parameter `solr` that maps a `/select` request to a
status code and a parsed body.

Choosing a suggestion sends the trimmed suggestion as `q`, because `performSearch` trims the
text box (search.js:116, 143). `SelectSuggestion` states both: `q == Trim(suggestion)`, and
`q == suggestion` for a suggestion without surrounding whitespace.

Lengths are JavaScript lengths: `query.length` counts UTF-16 code units, so a character beyond
U+FFFF counts twice (`Text.Utf16Length`).

## Model

| member | source | states |
|---|---|---|
| `Text.TrimIsCore` | search.js:97 | the trimmed text is a slice of the input with only whitespace before it and only whitespace after it, and it has no whitespace at either end (ECMAScript WhiteSpace and LineTerminator code points) |
| `Text.TrimmedAtLeastTwo` | search.js:97-99 | the trimmed text has at least two characters iff the text holds two non-whitespace characters at different positions |
| `Text.TrimmedUtf16AtLeastTwo` | search.js:97-99 | the trimmed text's `length` (UTF-16 code units) is at least 2 iff the text holds two non-whitespace characters, or one non-whitespace character beyond U+FFFF |
| `Text.TrimIdempotent` | search.js:143 | trimming an already trimmed value changes nothing |
| `Text.SplitJoin` | search.js:159 | splitting `parts.join('&')` on `&` gives back the parts when no part contains `&` |
| `Text.ReplaceSpaceRuns` | search.js:75 | the `/\s+/g` → `-` replacement leaves no whitespace and never lengthens the name |
| `Text.ReplaceSpaceRunsFixed` | search.js:75 | a name is unchanged by the replacement iff it holds no whitespace |
| `Text.ReplaceSpaceRunsIdempotent` | search.js:75 | applying the replacement twice equals applying it once |
| `Text.ReplaceSpaceRunsJoinsWords` | search.js:75 | words separated by whitespace runs of any length come out joined by single `-`; the first and last word may be empty, so leading and trailing whitespace each become one `-` |
| `Uri.Encode` | search.js:155 | `encodeURIComponent` output holds only unreserved characters and `%`, and is at least as long as its input |
| `Uri.EncodeHasNoSeparators` | search.js:155 | an encoded value contains no `&`, `=` or space |
| `Uri.DecodeEncode` | search.js:155 | percent-decoding the encoding gives back the value |
| `Uri.EncodeInjective` | search.js:155 | two different values never share an encoding |
| `Uri.EncodeIdentity` | search.js:155 | a value is its own encoding iff all its characters are unreserved |
| `QueryParams.QueryStringRoundTrip` | search.js:152-159 | the query string is empty iff no entry is truthy; otherwise splitting it on `&` gives exactly the emitted pairs, and reading it back gives exactly the truthy entries with their values, in order |
| `QueryParams.SearchQueryRoundTrip` | search.js:14-20 | the page's query string, read back, is exactly the non-empty fields among q, category, author and published, in that order |
| `QueryParams.SearchQueryEmpty` | search.js:152-159 | the page's query string is empty iff all four string fields are empty |
| `QueryParams.PageNeverSent` | search.js:153-155 | no key of the query string is `page`: `page` is 0, which is falsy |
| `SearchPage.Page.constructor` | search.js:14-20 | the initial record has every string field `''` and `page` 0; the panels are empty and the suggestions hidden |
| `SearchPage.Page.UpdateParams` | search.js:143-146 | `q` becomes the trimmed input, each filter becomes the checked value or `''`; `page` is not touched and stays 0 |
| `SearchPage.Page.BuildQueryString` | search.js:152-159 | the `for…of` loop and `join('&')` produce exactly the query string of the record's entries |
| `SearchPage.Page.DisplayResults` | search.js:173-200 | the results panel becomes the rendering of the reply: the message alone, or one card per book |
| `SearchPage.Page.ShowSearchReply` | search.js:161-169 | a reply is rendered by `displayResults`; a failed request or parse leaves only the error message |
| `SearchPage.Page.PerformSearch` | search.js:136-170 | the record is overwritten, the suggestions hidden, `/search/?<query string>` requested, and the panel shows the rendered reply or the error message on failure |
| `SearchPage.Page.SelectSuggestion` | search.js:115-119 | choosing a suggestion hides the panel and searches with `q` equal to the trimmed suggestion, so `q` equals the suggestion when it has no surrounding whitespace; the filters are the checked values or `''`, and the panel shows the rendered reply to `/search/?<query string>` or the error message |
| `SearchPage.Page.HandleInputChange` | search.js:96-133 | below two trimmed characters, nothing is requested and the panel is hidden with its items kept; otherwise `/suggest/?q=<encoded trimmed text>` is requested, and a non-empty list is shown while a missing or empty list or a failure hides the panel |
| `SearchPage.Page.LoadFilters` | search.js:45-93 | each group becomes "All" then the old children then one option per value; on empty panels both groups are well-formed filter groups; a failure changes nothing |
| `SearchPage.Page.AppendCategories` | search.js:51-59 | the `forEach` appends one category option per value, in server order, after the existing children |
| `SearchPage.Page.AppendAuthors` | search.js:71-79 | the `forEach` appends one author option per value, in server order, after the existing children |
| `Render.RenderResultsSpec` | search.js:176-200 | the no-results message appears iff the response is absent or `numFound` is 0, and then alone; otherwise one card per book in order, with title, `by` author, category, `ID:` id, and the badge "Published" iff the book is published |
| `Render.AuthorId` | search.js:75-76 | an author radio id never contains whitespace |
| `Render.CategoryGroup` | search.js:50-68 | the category group has N+1 options: "All" (value `''`, checked) first, then one per category in server order |
| `Render.AuthorGroup` | search.js:70-88 | the author group has M+1 options: "All" first, then one per author in server order; no option id contains whitespace |
| `Render.FilterGroupOneChecked` | search.js:64-65 | in a filter group exactly one option is checked: the first, whose value is `''` |
| `Render.SuggestQuery` | search.js:97-102 | a suggestion request goes out iff the text holds two non-whitespace characters, or one beyond U+FFFF (two UTF-16 units); the request carries the trimmed text, whose `length` is at least 2 |
| `Render.ShownSuggestions` | search.js:108-127 | the panel shows a list iff the reply has a non-empty `suggestions` list, and then shows exactly that list |
| `SolrApi.SolrQuery` | app.py:32-48 | the conditional appends to `query_parts`, joined with `" AND "`, give the specified clause list joined with `" AND "` |
| `SolrApi.ClausesSpec` | app.py:34-46 | there is one clause plus one per supplied filter; the first is `(title:q* OR author:q*)` or `*:*`; category, author and published follow in that order; the author is quoted and the category is not |
| `SolrApi.PublishedFalseFilters` | app.py:45-46 | `published=False` adds `published:false` and `True` adds `published:true`; each appears only for that value |
| `SolrApi.MatchAllOnlyWithoutCriteria` | app.py:34-48 | the query is exactly `*:*` iff there is no text and no filter |
| `SolrApi.Search` | app.py:22-63 | the request carries the query, `wt=json`, `rows` (default 10) and `start` (default 0); a non-200 status returns the fixed error object, a 200 returns Solr's body |
| `SolrApi.Suggest` | app.py:65-88 | an empty prefix returns no suggestions without a request; otherwise a title prefix query for 5 rows, and the suggestions are the docs' titles in doc order, or none on a non-200 status |
| `SolrApi.EvenIndexedSpec` | app.py:118-120 | the recursive extraction keeps ceil(n/2) items, item i being input item 2i, as the comprehension over even indices does |
| `SolrApi.EvenIndexedInterleave` | app.py:116-120 | from a `[value, count, value, count, …]` list, extraction recovers exactly the values, in order |
| `SolrApi.FacetValues` | app.py:101-122 | a non-200 status, or a missing `facet_counts`, `facet_fields` or field entry, yields `[]` |
| `SolrApi.FiltersAreFacetValues` | app.py:90-99 | when Solr answers both facet requests with value/count lists, `/filters/` returns exactly the category and author values in Solr's order |

## Left out

- HTTP: `fetch`, `response.json()`, `requests.get`, `async`/`await` and the hard-coded origins. Replies are given as parsed datatypes through the `api` and `solr` parameters. Request paths are relative to the API origin.
- Out-of-order suggestion replies overwriting one another: this is a race between concurrent requests, and the code enforces no ordering.
- DOM mutation, `innerHTML` templating, HTML escaping, event-listener wiring, the loading indicator and the handler that hides suggestions on outside clicks. Rendering is modelled as records of what each node shows.
- The startup sequence: loading the filters and running the first search on `DOMContentLoaded`. Each handler is modelled on its own.
- Uri.Encode: covers ASCII only. The UTF-8 percent-encoding of other characters is not modelled.
- SearchPage.Page.UpdateParams: requires ASCII text-box and radio values, because the model's percent-encoding covers ASCII only.
- SearchPage.Page.PerformSearch: requires ASCII input, for the same reason.
- SearchPage.Page.SelectSuggestion: requires an ASCII suggestion, for the same reason.
- SearchPage.Page.HandleInputChange: requires ASCII input, for the same reason.
- SearchPage.Page.LoadFilters: the reply always carries both lists. The case where `categories` is present and `authors` is missing is not modelled: there the source fills the category panel and then throws.
- SearchPage.Page.DisplayResults: a response with `numFound` non-zero but no `docs` is not modelled. The source throws there, and `performSearch` then shows the error message.
- Book fields are modelled as strings, and `published` as a boolean. Other JSON values rendered through templates are not modelled.
- Proxy: FastAPI's parsing and validation of query arguments (rejecting a missing `q` on `/suggest/`, converting `published` to a boolean), JSON values that are explicitly `null`, the CORS middleware and uvicorn start-up.
- Solr's reading of the query string. The proxy does no escaping of Lucene special characters; the model covers only the string that is built.
- `Uri.Decode`, `QueryParams.ParseQuery`, `Text.Split`, `Text.Interleave` and `SolrApi.Interleave` are reference definitions used to state round trips and word splits. They have no counterpart in the source.
