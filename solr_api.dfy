/**
 * The FastAPI proxy in front of Solr: the Solr query built by `GET /search/`, the prefix query
 * and title extraction of `GET /suggest/`, and the facet values behind `GET /filters/`. Solr is
 * a parameter `solr` that maps a `/select` request to its status code and parsed body.
 */
module SolrApi {
  import opened Options
  import opened Text

  /** A value of the `params` dict handed to `requests.get`. */
  datatype Param = PStr(s: string) | PInt(n: int)

  /** A `GET {SOLR_URL}/select` request: its `params` dict. */
  datatype SelectRequest = SelectRequest(params: map<string, Param>)

  /** An entry of a Solr facet list, which interleaves values with their counts. */
  datatype FacetItem = FacetValue(value: string) | FacetCount(count: int)

  /** A document of a Solr reply; only its `title` matters here, and it may be missing. */
  datatype SolrDoc = SolrDoc(title: Option<string>)

  datatype ResponseSection = ResponseSection(docs: Option<seq<SolrDoc>>)
  datatype FacetCounts = FacetCounts(facetFields: Option<map<string, seq<FacetItem>>>)

  /** The parsed JSON body of a Solr reply; each key may be missing. */
  datatype SolrBody = SolrBody(response: Option<ResponseSection>, facetCounts: Option<FacetCounts>)

  datatype SolrReply = SolrReply(status: int, body: SolrBody)

  /** The query arguments of `GET /search/` as FastAPI passes them; `None` when not supplied. */
  datatype SearchArgs = SearchArgs(q: Option<string>, category: Option<string>, author: Option<string>,
                                   published: Option<bool>, rows: Option<int>, start: Option<int>)

  /** Python truthiness of an `Optional[str]`: supplied and not empty. */
  predicate Given(s: Option<string>) {
    s.Some? && s.value != ""
  }

  /** `str(b).lower()`. */
  function BoolText(b: bool): string {
    if b then "true" else "false"
  }

  /** The clause that is always present: a prefix match on title or author, or match-all. */
  function FirstClause(q: Option<string>): string {
    if Given(q) then "(title:" + q.value + "* OR author:" + q.value + "*)" else "*:*"
  }

  function CategoryClause(c: string): string { "category:" + c }
  function AuthorClause(a: string): string { "author:\"" + a + "\"" }
  function PublishedClause(p: bool): string { "published:" + BoolText(p) }

  /** The number of filters that add a clause. */
  function FilterCount(args: SearchArgs): nat {
    (if Given(args.category) then 1 else 0) + (if Given(args.author) then 1 else 0)
    + (if args.published.Some? then 1 else 0)
  }

  /** The `query_parts` list `search` builds, as a specification. */
  function Clauses(args: SearchArgs): seq<string> {
    [FirstClause(args.q)]
    + (if Given(args.category) then [CategoryClause(args.category.value)] else [])
    + (if Given(args.author) then [AuthorClause(args.author.value)] else [])
    + (if args.published.Some? then [PublishedClause(args.published.value)] else [])
  }

  /**
   * One clause first, then one per supplied filter, in the order category, author, published:
   * each filter's clause sits after the first clause and the earlier supplied filters.
   */
  lemma ClausesSpec(args: SearchArgs)
    ensures var cl := Clauses(args);
            |cl| == 1 + FilterCount(args)
            && cl[0] == (if Given(args.q) then "(title:" + args.q.value + "* OR author:" + args.q.value + "*)" else "*:*")
            && (Given(args.category) ==> cl[1] == "category:" + args.category.value)
            && (Given(args.author) ==>
                  cl[1 + (if Given(args.category) then 1 else 0)] == "author:\"" + args.author.value + "\"")
            && (args.published.Some? ==>
                  cl[|cl| - 1] == "published:" + (if args.published.value then "true" else "false"))
  {
  }

  /** `published=False` still filters, on `published:false`; only an absent `published` does not. */
  lemma PublishedFalseFilters(args: SearchArgs)
    ensures PublishedClause(false) in Clauses(args) <==> args.published == Some(false)
    ensures PublishedClause(true) in Clauses(args) <==> args.published == Some(true)
  {
    var cl := Clauses(args);
    forall k | 0 <= k < |cl| && k < |cl| - (if args.published.Some? then 1 else 0)
      ensures cl[k] != PublishedClause(false) && cl[k] != PublishedClause(true)
    {
      var pf, pt := PublishedClause(false), PublishedClause(true);
      assert pf[..3] == "pub" && pt[..3] == "pub";
      if k == 0 {
        if !Given(args.q) {
          assert cl[k] == "*:*";
        } else {
          assert cl[k][0] == '(';
        }
      } else {
        assert cl[k][..3] == "cat" || cl[k][..3] == "aut";
      }
    }
  }

  /** With no text and no filter the query is exactly `*:*`, and only then. */
  lemma MatchAllOnlyWithoutCriteria(args: SearchArgs)
    ensures Join(Clauses(args), " AND ") == "*:*" <==> !Given(args.q) && FilterCount(args) == 0
  {
    var cl := Clauses(args);
    JoinStartsWithFirst(cl, " AND ");
    if Given(args.q) {
      var j := Join(cl, " AND ");
      assert cl[0][0] == '(';
      assert j[0] == cl[0][0];
    }
  }

  /** `search`: the clauses appended one by one to `query_parts`, then joined with " AND ". */
  method SolrQuery(args: SearchArgs) returns (query: string)
    ensures query == Join(Clauses(args), " AND ")
  {
    var parts: seq<string> := [];
    if Given(args.q) {
      parts := parts + ["(title:" + args.q.value + "* OR author:" + args.q.value + "*)"];
    } else {
      parts := parts + ["*:*"];
    }
    assert parts == [FirstClause(args.q)];
    if Given(args.category) {
      parts := parts + ["category:" + args.category.value];
    }
    assert parts == [FirstClause(args.q)] + (if Given(args.category) then [CategoryClause(args.category.value)] else []);
    if Given(args.author) {
      parts := parts + ["author:\"" + args.author.value + "\""];
    }
    assert parts == [FirstClause(args.q)]
                    + (if Given(args.category) then [CategoryClause(args.category.value)] else [])
                    + (if Given(args.author) then [AuthorClause(args.author.value)] else []);
    if args.published.Some? {
      parts := parts + ["published:" + BoolText(args.published.value)];
    }
    assert parts == Clauses(args);
    query := Join(parts, " AND ");
  }

  /** The `/select` request of `search`: the query, `wt=json`, `rows` (default 10), `start` (default 0). */
  function SearchRequest(args: SearchArgs, query: string): SelectRequest
  {
    SelectRequest(map["q" := PStr(query), "wt" := PStr("json"),
                      "rows" := PInt(args.rows.GetOr(10)), "start" := PInt(args.start.GetOr(0))])
  }

  /** What `search` returns: the fixed error object, or Solr's body passed through. */
  datatype SearchResult = SolrError(error: string) | SolrJson(body: SolrBody)

  const SearchErrorMessage: string := "Failed to fetch results from Solr"

  /** `GET /search/`: builds the query, asks Solr, and returns its body or the error object. */
  method Search(args: SearchArgs, solr: SelectRequest -> SolrReply)
    returns (result: SearchResult, request: SelectRequest)
    ensures request.params == map["q" := PStr(Join(Clauses(args), " AND ")), "wt" := PStr("json"),
                                  "rows" := PInt(args.rows.GetOr(10)), "start" := PInt(args.start.GetOr(0))]
    ensures solr(request).status != 200 ==> result == SolrError(SearchErrorMessage)
    ensures solr(request).status == 200 ==> result == SolrJson(solr(request).body)
  {
    var query := SolrQuery(args);
    request := SearchRequest(args, query);
    var reply := solr(request);
    if reply.status != 200 {
      return SolrError(SearchErrorMessage), request;
    }
    result := SolrJson(reply.body);
  }

  /** `response.json().get("response", {}).get("docs", [])`. */
  function DocsOf(body: SolrBody): seq<SolrDoc> {
    match body.response
    case None => []
    case Some(section) => section.docs.GetOr([])
  }

  /** The `/select` request of `suggest`: a title prefix query for five titles. */
  function SuggestRequest(q: string): SelectRequest
  {
    SelectRequest(map["q" := PStr("title:" + q + "*"), "wt" := PStr("json"), "rows" := PInt(5), "fl" := PStr("title")])
  }

  /** What `suggest` did: the request it sent, if any, and the suggestion list it returned. */
  datatype SuggestOutcome = SuggestOutcome(request: Option<SelectRequest>, suggestions: seq<Option<string>>)

  /**
   * `GET /suggest/`: an empty prefix returns no suggestions without asking Solr; a failed
   * request returns none; otherwise the suggestions are the documents' titles in order
   * (`None` standing for a document without a title).
   */
  function Suggest(q: string, solr: SelectRequest -> SolrReply): (r: SuggestOutcome)
    ensures q == "" ==> r.request.None? && r.suggestions == []
    ensures q != "" ==> r.request == Some(SuggestRequest(q))
    ensures q != "" ==> r.request.value.params["q"] == PStr("title:" + q + "*")
                        && r.request.value.params["rows"] == PInt(5)
    ensures q != "" && solr(SuggestRequest(q)).status != 200 ==> r.suggestions == []
    ensures q != "" && solr(SuggestRequest(q)).status == 200 ==>
              var docs := DocsOf(solr(SuggestRequest(q)).body);
              |r.suggestions| == |docs| && forall i :: 0 <= i < |docs| ==> r.suggestions[i] == docs[i].title
  {
    if q == "" then SuggestOutcome(None, [])
    else
      var reply := solr(SuggestRequest(q));
      if reply.status != 200 then SuggestOutcome(Some(SuggestRequest(q)), [])
      else
        var docs := DocsOf(reply.body);
        SuggestOutcome(Some(SuggestRequest(q)), seq(|docs|, i requires 0 <= i < |docs| => docs[i].title))
  }

  /** `[xs[i] for i in range(0, len(xs), 2)]`: take an item, skip the next, repeat. */
  function EvenIndexed<T>(xs: seq<T>): seq<T> {
    if |xs| == 0 then []
    else if |xs| == 1 then [xs[0]]
    else [xs[0]] + EvenIndexed(xs[2..])
  }

  /** Solr's facet list for the given values and counts: `[v0, c0, v1, c1, …]`. */
  function Interleave(values: seq<string>, counts: seq<int>): (r: seq<FacetItem>)
    requires |values| == |counts|
    ensures |r| == 2 * |values|
  {
    if values == [] then []
    else [FacetValue(values[0]), FacetCount(counts[0])] + Interleave(values[1..], counts[1..])
  }

  lemma {:induction false} InterleaveAt(values: seq<string>, counts: seq<int>, i: nat)
    requires |values| == |counts| && i < |values|
    ensures Interleave(values, counts)[2 * i] == FacetValue(values[i])
    ensures Interleave(values, counts)[2 * i + 1] == FacetCount(counts[i])
  {
    if i > 0 {
      InterleaveAt(values[1..], counts[1..], i - 1);
    }
  }

  /** Keeping the even positions of a facet list recovers exactly the values, in order. */
  lemma EvenIndexedInterleave(values: seq<string>, counts: seq<int>)
    requires |values| == |counts|
    ensures EvenIndexed(Interleave(values, counts)) ==
            seq(|values|, i requires 0 <= i < |values| => FacetValue(values[i]))
  {
    var r := EvenIndexed(Interleave(values, counts));
    EvenIndexedSpec(Interleave(values, counts));
    forall i | 0 <= i < |values| ensures r[i] == FacetValue(values[i]) {
      InterleaveAt(values, counts, i);
    }
  }

  /** The kept items: ceil(n/2) of them, item i being input item 2i. */
  lemma {:induction false} EvenIndexedSpec<T>(xs: seq<T>)
    ensures |EvenIndexed(xs)| == (|xs| + 1) / 2
    ensures forall i :: 0 <= i < |EvenIndexed(xs)| ==> 2 * i < |xs| && EvenIndexed(xs)[i] == xs[2 * i]
  {
    if |xs| >= 2 {
      var rest := xs[2..];
      EvenIndexedSpec(rest);
      var r := EvenIndexed(xs);
      assert r == [xs[0]] + EvenIndexed(rest);
      forall i | 0 <= i < |r| ensures 2 * i < |xs| && r[i] == xs[2 * i] {
        if i > 0 {
          assert r[i] == EvenIndexed(rest)[i - 1];
          assert rest[2 * (i - 1)] == xs[2 * i];
        }
      }
    }
  }

  /** The facet request of `get_facet_values`: all documents, no rows, every value of `field`. */
  function FacetRequest(field: string): SelectRequest
  {
    SelectRequest(map["q" := PStr("*:*"), "facet" := PStr("true"), "facet.field" := PStr(field),
                      "facet.limit" := PInt(-1), "rows" := PInt(0), "wt" := PStr("json")])
  }

  /** `response.json().get("facet_counts", {}).get("facet_fields", {}).get(field, [])`. */
  function FacetData(body: SolrBody, field: string): seq<FacetItem> {
    match body.facetCounts
    case None => []
    case Some(fc) =>
      match fc.facetFields
      case None => []
      case Some(fields) => if field in fields then fields[field] else []
  }

  /** `get_facet_values(field)`: the even-indexed facet items, or `[]` when Solr failed. */
  function FacetValues(field: string, solr: SelectRequest -> SolrReply): (r: seq<FacetItem>)
    ensures solr(FacetRequest(field)).status != 200 ==> r == []
    ensures FacetData(solr(FacetRequest(field)).body, field) == [] ==> r == []
  {
    var reply := solr(FacetRequest(field));
    if reply.status != 200 then [] else EvenIndexed(FacetData(reply.body, field))
  }

  /** The body of `GET /filters/`. */
  datatype Filters = Filters(categories: seq<FacetItem>, authors: seq<FacetItem>)

  /** `get_filters`: the category values and the author values. */
  function GetFilters(solr: SelectRequest -> SolrReply): Filters {
    Filters(FacetValues("category", solr), FacetValues("author", solr))
  }

  /**
   * When Solr answers both facet requests with value/count lists, the filters are exactly the
   * values, in Solr's order, without the counts.
   */
  lemma FiltersAreFacetValues(solr: SelectRequest -> SolrReply,
                              categories: seq<string>, categoryCounts: seq<int>,
                              authors: seq<string>, authorCounts: seq<int>)
    requires |categories| == |categoryCounts| && |authors| == |authorCounts|
    requires solr(FacetRequest("category")).status == 200
    requires solr(FacetRequest("author")).status == 200
    requires FacetData(solr(FacetRequest("category")).body, "category") == Interleave(categories, categoryCounts)
    requires FacetData(solr(FacetRequest("author")).body, "author") == Interleave(authors, authorCounts)
    ensures GetFilters(solr).categories == seq(|categories|, i requires 0 <= i < |categories| => FacetValue(categories[i]))
    ensures GetFilters(solr).authors == seq(|authors|, i requires 0 <= i < |authors| => FacetValue(authors[i]))
  {
    EvenIndexedInterleave(categories, categoryCounts);
    EvenIndexedInterleave(authors, authorCounts);
  }
}
