/**
 * The search page's rendering decisions, as records instead of DOM nodes: the result cards or
 * the no-results message, the radio options of the two filter groups, and the autocomplete
 * guard with the decision to show or hide the suggestion list.
 */
module Render {
  import opened Options
  import opened Text

  /** A book as `GET /search/` returns it. */
  datatype Doc = Doc(id: string, title: string, author: string, category: string, published: bool)

  /** The `response` object of the search body. */
  datatype ResponseSection = ResponseSection(numFound: int, docs: seq<Doc>)

  /** The parsed body of `GET /search/`; `response` is absent when the server sent an error object. */
  datatype SearchData = SearchData(response: Option<ResponseSection>)

  /** One child of the results panel. */
  datatype PanelItem =
    | Message(cssClass: string, text: string)
    | Card(title: string, byline: string, category: string, badgeClass: string, badgeText: string, idLine: string)

  const NoResultsText: string := "No books found matching your search criteria."
  const SearchErrorText: string := "An error occurred while searching. Please try again."

  /** The card `displayResults` builds for one book. */
  function CardFor(d: Doc): PanelItem {
    Card(d.title, "by " + d.author, d.category,
         if d.published then "book-published" else "book-unpublished",
         if d.published then "Published" else "Unpublished",
         "ID: " + d.id)
  }

  /** `!data.response || data.response.numFound === 0`. */
  predicate ShowsNoResults(data: SearchData) {
    data.response.None? || data.response.value.numFound == 0
  }

  /** The results panel after `displayResults(data)`: the message alone, or one card per book. */
  function RenderResults(data: SearchData): seq<PanelItem> {
    if ShowsNoResults(data) then [Message("no-results", NoResultsText)]
    else
      var docs := data.response.value.docs;
      seq(|docs|, i requires 0 <= i < |docs| => CardFor(docs[i]))
  }

  /**
   * The no-results message appears exactly when the response is absent or found nothing, and
   * then alone; otherwise there is one card per book, in the response's order, whose badge
   * reads "Published" exactly when the book is published.
   */
  lemma RenderResultsSpec(data: SearchData)
    ensures var r := RenderResults(data);
            (Message("no-results", NoResultsText) in r <==> ShowsNoResults(data))
            && (ShowsNoResults(data) ==> r == [Message("no-results", NoResultsText)])
            && (!ShowsNoResults(data) ==>
                  var docs := data.response.value.docs;
                  |r| == |docs| &&
                  forall i :: 0 <= i < |docs| ==>
                    r[i].Card? && r[i].title == docs[i].title && r[i].byline == "by " + docs[i].author
                    && r[i].category == docs[i].category && r[i].idLine == "ID: " + docs[i].id
                    && (r[i].badgeText == "Published" <==> docs[i].published))
  {
    var r := RenderResults(data);
    if !ShowsNoResults(data) {
      forall k | 0 <= k < |r| ensures r[k] != Message("no-results", NoResultsText) {
        assert r[k].Card?;
      }
    }
  }

  /** One radio input with its label. */
  datatype FilterOption = FilterOption(name: string, id: string, value: string, caption: string, checked: bool)

  /** The "All" radio `loadFilters` puts first in a group: value '' and checked. */
  function AllOption(name: string): FilterOption {
    FilterOption(name, name + "-all", "", "All", true)
  }

  function CategoryOption(c: string): FilterOption {
    FilterOption("category", "category-" + c, c, c, false)
  }

  /** The element id of an author's radio: `author-` and the name with whitespace runs as '-'. */
  function AuthorId(a: string): (id: string)
    ensures NoSpace(id)
  {
    var slug := ReplaceSpaceRuns(a);
    var id := "author-" + slug;
    assert forall k :: 7 <= k < |id| ==> id[k] == slug[k - 7];
    id
  }

  function AuthorOption(a: string): FilterOption {
    FilterOption("author", AuthorId(a), a, a, false)
  }

  /** The options one `forEach` appends, in server order. */
  function CategoryItems(cs: seq<string>): seq<FilterOption> {
    seq(|cs|, i requires 0 <= i < |cs| => CategoryOption(cs[i]))
  }

  function AuthorItems(authors: seq<string>): seq<FilterOption> {
    seq(|authors|, i requires 0 <= i < |authors| => AuthorOption(authors[i]))
  }

  /** One more category appends one more option. */
  lemma CategoryItemsSnoc(cs: seq<string>, i: nat)
    requires i < |cs|
    ensures CategoryItems(cs[..i + 1]) == CategoryItems(cs[..i]) + [CategoryOption(cs[i])]
  {
    var a, b := CategoryItems(cs[..i + 1]), CategoryItems(cs[..i]) + [CategoryOption(cs[i])];
    assert forall k :: 0 <= k < |a| ==> a[k] == b[k];
  }

  /** One more author appends one more option. */
  lemma AuthorItemsSnoc(authors: seq<string>, i: nat)
    requires i < |authors|
    ensures AuthorItems(authors[..i + 1]) == AuthorItems(authors[..i]) + [AuthorOption(authors[i])]
  {
    var a, b := AuthorItems(authors[..i + 1]), AuthorItems(authors[..i]) + [AuthorOption(authors[i])];
    assert forall k :: 0 <= k < |a| ==> a[k] == b[k];
  }

  /** A group as it reads after `loadFilters` on an empty panel: "All" first, then the values. */
  predicate IsFilterGroup(name: string, values: seq<string>, opts: seq<FilterOption>) {
    |opts| == |values| + 1
    && opts[0] == AllOption(name)
    && (forall i :: 0 <= i < |values| ==>
          opts[i + 1].name == name && opts[i + 1].value == values[i]
          && opts[i + 1].caption == values[i] && !opts[i + 1].checked)
  }

  /** Exactly one option of the group is checked: the first, whose value is ''. */
  lemma FilterGroupOneChecked(name: string, values: seq<string>, opts: seq<FilterOption>)
    requires IsFilterGroup(name, values, opts)
    ensures forall k :: 0 <= k < |opts| ==> (opts[k].checked <==> k == 0)
    ensures opts[0].value == ""
  {
    forall k | 0 <= k < |opts| ensures opts[k].checked <==> k == 0 {
      if k > 0 {
        var i := k - 1;
        assert 0 <= i < |values| && opts[i + 1] == opts[k];
        assert opts[i + 1].value == values[i] && !opts[i + 1].checked;
      }
    }
  }

  /** The category group: N+1 options, "All" first, one per category in server order. */
  lemma CategoryGroup(cs: seq<string>)
    ensures IsFilterGroup("category", cs, [AllOption("category")] + CategoryItems(cs))
  {
  }

  /** The author group: M+1 options, "All" first, one per author; no id holds whitespace. */
  lemma AuthorGroup(authors: seq<string>)
    ensures IsFilterGroup("author", authors, [AllOption("author")] + AuthorItems(authors))
    ensures forall k :: 0 <= k < |authors| + 1 ==> NoSpace(([AllOption("author")] + AuthorItems(authors))[k].id)
  {
    var opts := [AllOption("author")] + AuthorItems(authors);
    assert NoSpace(opts[0].id) by {
      assert opts[0].id == "author-all";
    }
  }

  /**
   * `handleInputChange`'s guard: the trimmed text when its `length` (UTF-16 units) is at least
   * two, else nothing. A request goes out exactly when the text holds two non-whitespace
   * characters, or one non-whitespace character beyond U+FFFF.
   */
  function SuggestQuery(value: string): (r: Option<string>)
    ensures r.Some? <==>
              (exists i, j :: 0 <= i < j < |value| && !IsSpace(value[i]) && !IsSpace(value[j]))
              || (exists i :: 0 <= i < |value| && !IsSpace(value[i]) && value[i] as int >= 0x1_0000)
    ensures r.Some? ==> r.value == Trim(value) && Utf16Length(r.value) >= 2
  {
    TrimmedUtf16AtLeastTwo(value);
    var query := Trim(value);
    if Utf16Length(query) < 2 then None else Some(query)
  }

  /** The parsed body of `GET /suggest/`; `suggestions` may be missing. */
  datatype SuggestData = SuggestData(suggestions: Option<seq<string>>)

  /** The list the suggestion panel shows after a reply, or `None` when the panel is hidden. */
  function ShownSuggestions(data: SuggestData): (r: Option<seq<string>>)
    ensures r.Some? <==> data.suggestions.Some? && data.suggestions.value != []
    ensures r.Some? ==> r.value == data.suggestions.value
  {
    match data.suggestions
    case Some(list) => if |list| > 0 then Some(list) else None
    case None => None
  }
}
