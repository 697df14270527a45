/**
 * The search page's state and event handlers: the `currentSearchParams` record, the results
 * panel, the suggestion panel and the two filter panels. The HTTP API is a parameter `api` that
 * maps a request path to what `fetch` and `response.json()` yield for it.
 */
module SearchPage {
  import opened Options
  import opened Text
  import opened Uri
  import opened QueryParams
  import opened Render

  /** The outcome of `fetch` followed by `response.json()`: a failure, or the parsed body. */
  datatype Fetch<T> = Failed | Received(data: T)

  /** The parsed body of `GET /filters/`. */
  datatype FiltersData = FiltersData(categories: seq<string>, authors: seq<string>)

  predicate OptionAscii(o: Option<string>) {
    o.Some? ==> IsAsciiString(o.value)
  }

  lemma TrimAscii(s: string)
    requires IsAsciiString(s)
    ensures IsAsciiString(Trim(s))
  {
    var t := TrimStart(s);
    assert forall k :: 0 <= k < |t| ==> t[k] == s[|s| - |t| + k];
  }

  class Page {
    // currentSearchParams
    var q: string
    var category: string
    var author: string
    var published: string
    var page: int
    // the results container's children
    var results: seq<PanelItem>
    // the suggestions container: its children and whether it is displayed
    var suggestions: seq<string>
    var suggestionsShown: bool
    // the two filter containers' children
    var categoryOptions: seq<FilterOption>
    var authorOptions: seq<FilterOption>

    /** `page` keeps its initial 0 (nothing assigns it) and the fields hold ASCII text. */
    ghost predicate Valid()
      reads this`page, this`q, this`category, this`author, this`published
    {
      page == 0 && IsAsciiString(q) && IsAsciiString(category)
      && IsAsciiString(author) && IsAsciiString(published)
    }

    /** `Object.entries(currentSearchParams)`. */
    function Entries(): seq<Entry>
      reads this`q, this`category, this`author, this`published, this`page
    {
      RecordEntries(q, category, author, published, page)
    }

    /** The page as loaded: the initial record, empty panels, suggestions hidden. */
    constructor ()
      ensures Valid()
      ensures q == "" && category == "" && author == "" && published == "" && page == 0
      ensures results == [] && suggestions == [] && !suggestionsShown
      ensures categoryOptions == [] && authorOptions == []
    {
      q, category, author, published, page := "", "", "", "", 0;
      results, suggestions, suggestionsShown := [], [], false;
      categoryOptions, authorOptions := [], [];
    }

    /**
     * The update at the start of `performSearch`: `q` is the trimmed text box and each filter is
     * the checked radio's value, or '' when none is checked. Every string field is overwritten.
     */
    method UpdateParams(input: string, checkedCategory: Option<string>,
                        checkedAuthor: Option<string>, checkedPublished: Option<string>)
      requires Valid()
      requires IsAsciiString(input) && OptionAscii(checkedCategory)
      requires OptionAscii(checkedAuthor) && OptionAscii(checkedPublished)
      modifies this`q, this`category, this`author, this`published
      ensures Valid()
      ensures q == Trim(input)
      ensures category == checkedCategory.GetOr("")
      ensures author == checkedAuthor.GetOr("")
      ensures published == checkedPublished.GetOr("")
    {
      TrimAscii(input);
      q := Trim(input);
      category := checkedCategory.GetOr("");
      author := checkedAuthor.GetOr("");
      published := checkedPublished.GetOr("");
    }

    /** The `for…of` loop over the record's entries and the `join('&')` after it. */
    method BuildQueryString() returns (qs: string)
      requires Valid()
      ensures WellFormed(Entries())
      ensures qs == QueryString(Entries())
    {
      var entries := Entries();
      RecordWellFormed(q, category, author, published);
      WellFormedPrefix(entries, 0);
      var queryParams: seq<string> := [];
      for i := 0 to |entries|
        invariant WellFormed(entries[..i])
        invariant queryParams == Pairs(entries[..i])
      {
        var (key, value) := entries[i];
        PairsStep(entries, i);
        if Truthy(value) {
          queryParams := queryParams + [Pair(key, value)];
        }
      }
      assert entries[..|entries|] == entries;
      qs := Join(queryParams, "&");
    }

    /** `displayResults(data)`: clears the panel, then the message or one card per book. */
    method DisplayResults(data: SearchData)
      modifies this`results
      ensures results == RenderResults(data)
    {
      results := [];
      if ShowsNoResults(data) {
        results := [Message("no-results", NoResultsText)];
        return;
      }
      var docs := data.response.value.docs;
      for i := 0 to |docs|
        invariant |results| == i
        invariant forall k :: 0 <= k < i ==> results[k] == CardFor(docs[k])
      {
        results := results + [CardFor(docs[i])];
      }
    }

    /**
     * `performSearch`: overwrites the record, hides the suggestions, requests
     * `/search/?<query string>` and renders the reply, or the error message when the request
     * or its parsing failed.
     */
    method PerformSearch(input: string, checkedCategory: Option<string>, checkedAuthor: Option<string>,
                         checkedPublished: Option<string>, api: string -> Fetch<SearchData>)
      returns (qs: string)
      requires Valid()
      requires IsAsciiString(input) && OptionAscii(checkedCategory)
      requires OptionAscii(checkedAuthor) && OptionAscii(checkedPublished)
      modifies this`q, this`category, this`author, this`published, this`results, this`suggestionsShown
      ensures Valid()
      ensures q == Trim(input) && category == checkedCategory.GetOr("")
      ensures author == checkedAuthor.GetOr("") && published == checkedPublished.GetOr("")
      ensures WellFormed(Entries()) && qs == QueryString(Entries())
      ensures !suggestionsShown
      ensures results == match api("/search/?" + qs)
                         case Failed => [Message("no-results", SearchErrorText)]
                         case Received(data) => RenderResults(data)
    {
      UpdateParams(input, checkedCategory, checkedAuthor, checkedPublished);
      suggestionsShown := false;
      qs := BuildQueryString();
      ShowSearchReply(api("/search/?" + qs));
    }

    /** The `.then(displayResults)` and `.catch(...)` ends of the search request. */
    method ShowSearchReply(reply: Fetch<SearchData>)
      modifies this`results
      ensures results == match reply
                         case Failed => [Message("no-results", SearchErrorText)]
                         case Received(data) => RenderResults(data)
    {
      match reply
      case Failed =>
        results := [Message("no-results", SearchErrorText)];
      case Received(data) =>
        DisplayResults(data);
    }

    /**
     * A click on a suggestion: it becomes the text box's content, the panel is hidden and a
     * search runs. A suggestion without surrounding whitespace is sent as `q` exactly.
     */
    method SelectSuggestion(suggestion: string, checkedCategory: Option<string>, checkedAuthor: Option<string>,
                            checkedPublished: Option<string>, api: string -> Fetch<SearchData>)
      returns (qs: string)
      requires Valid()
      requires IsAsciiString(suggestion) && OptionAscii(checkedCategory)
      requires OptionAscii(checkedAuthor) && OptionAscii(checkedPublished)
      modifies this`q, this`category, this`author, this`published, this`results, this`suggestionsShown
      ensures Valid()
      ensures q == Trim(suggestion) && category == checkedCategory.GetOr("")
      ensures author == checkedAuthor.GetOr("") && published == checkedPublished.GetOr("")
      ensures (suggestion == [] || (!IsSpace(suggestion[0]) && !IsSpace(suggestion[|suggestion| - 1])))
              ==> q == suggestion
      ensures !suggestionsShown
      ensures WellFormed(Entries()) && qs == QueryString(Entries())
      ensures results == match api("/search/?" + qs)
                         case Failed => [Message("no-results", SearchErrorText)]
                         case Received(data) => RenderResults(data)
    {
      suggestionsShown := false;
      qs := PerformSearch(suggestion, checkedCategory, checkedAuthor, checkedPublished, api);
      if suggestion == [] || (!IsSpace(suggestion[0]) && !IsSpace(suggestion[|suggestion| - 1])) {
        TrimFixedPoint(suggestion);
      }
    }

    /**
     * `handleInputChange`: below two trimmed characters the panel is hidden and nothing is
     * requested; otherwise `/suggest/?q=<encoded text>` is requested and the panel shows the
     * returned list, or is hidden when the list is missing or empty or the request failed.
     */
    method HandleInputChange(value: string, api: string -> Fetch<SuggestData>)
      returns (request: Option<string>)
      requires IsAsciiString(value)
      modifies this`suggestions, this`suggestionsShown
      ensures SuggestQuery(value).None? ==> request.None?
      ensures SuggestQuery(value).Some? ==>
                IsAsciiString(SuggestQuery(value).value)
                && request == Some("/suggest/?q=" + Encode(SuggestQuery(value).value))
      ensures request.None? ==> !suggestionsShown && suggestions == old(suggestions)
      ensures request.Some? ==>
                match api(request.value)
                case Received(data) =>
                  (match ShownSuggestions(data)
                   case Some(list) => suggestionsShown && suggestions == list
                   case None => !suggestionsShown && suggestions == old(suggestions))
                case Failed => !suggestionsShown && suggestions == old(suggestions)
    {
      var query := SuggestQuery(value);
      if query.None? {
        suggestionsShown := false;
        request := None;
        return;
      }
      TrimAscii(value);
      request := Some("/suggest/?q=" + Encode(query.value));
      var reply := api(request.value);
      match reply
      case Received(data) =>
        var shown := ShownSuggestions(data);
        if shown.Some? {
          suggestions := shown.value;
          suggestionsShown := true;
        } else {
          suggestionsShown := false;
        }
      case Failed =>
        suggestionsShown := false;
    }

    /**
     * `loadFilters`: appends one option per category, then puts "All" before the panel's first
     * child; the same for authors. A failed request leaves both panels as they were.
     */
    method LoadFilters(reply: Fetch<FiltersData>)
      modifies this`categoryOptions, this`authorOptions
      ensures reply.Failed? ==> categoryOptions == old(categoryOptions) && authorOptions == old(authorOptions)
      ensures reply.Received? ==>
                categoryOptions == [AllOption("category")] + old(categoryOptions) + CategoryItems(reply.data.categories)
                && authorOptions == [AllOption("author")] + old(authorOptions) + AuthorItems(reply.data.authors)
      ensures reply.Received? && old(categoryOptions) == [] && old(authorOptions) == [] ==>
                IsFilterGroup("category", reply.data.categories, categoryOptions)
                && IsFilterGroup("author", reply.data.authors, authorOptions)
    {
      if reply.Failed? {
        return;
      }
      var cs, authors := reply.data.categories, reply.data.authors;
      AppendCategories(cs);
      categoryOptions := [AllOption("category")] + categoryOptions;
      AppendAuthors(authors);
      authorOptions := [AllOption("author")] + authorOptions;
      assert categoryOptions == [AllOption("category")] + old(categoryOptions) + CategoryItems(cs);
      assert authorOptions == [AllOption("author")] + old(authorOptions) + AuthorItems(authors);
      if old(categoryOptions) == [] && old(authorOptions) == [] {
        assert categoryOptions == [AllOption("category")] + CategoryItems(cs);
        assert authorOptions == [AllOption("author")] + AuthorItems(authors);
        CategoryGroup(cs);
        AuthorGroup(authors);
      }
    }

    /** The `categories.forEach` loop: one option per category, appended in order. */
    method AppendCategories(cs: seq<string>)
      modifies this`categoryOptions
      ensures categoryOptions == old(categoryOptions) + CategoryItems(cs)
    {
      for i := 0 to |cs|
        invariant categoryOptions == old(categoryOptions) + CategoryItems(cs[..i])
      {
        CategoryItemsSnoc(cs, i);
        categoryOptions := categoryOptions + [CategoryOption(cs[i])];
      }
      assert cs[..|cs|] == cs;
    }

    /** The `authors.forEach` loop: one option per author, appended in order. */
    method AppendAuthors(authors: seq<string>)
      modifies this`authorOptions
      ensures authorOptions == old(authorOptions) + AuthorItems(authors)
    {
      for i := 0 to |authors|
        invariant authorOptions == old(authorOptions) + AuthorItems(authors[..i])
      {
        AuthorItemsSnoc(authors, i);
        authorOptions := authorOptions + [AuthorOption(authors[i])];
      }
      assert authors[..|authors|] == authors;
    }
  }
}
