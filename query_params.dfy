/**
 * The search page's query string: `key=encodeURIComponent(value)` for every truthy entry of
 * the search-state record, in the record's field order, joined with '&'. `ParseQuery` is the
 * reading a server gives that string; the round-trip lemmas show the encoding is unambiguous.
 */
module QueryParams {
  import opened Options
  import opened Text
  import opened Uri

  /** A field value of the search-state record: a string, or the number `page`. */
  datatype Value = Str(s: string) | Num(n: int)

  /** A `[key, value]` pair of `Object.entries`. */
  type Entry = (string, Value)

  /** JavaScript truthiness: a non-empty string or a non-zero number. */
  predicate Truthy(v: Value) {
    match v
    case Str(s) => s != ""
    case Num(n) => n != 0
  }

  function DigitChar(d: int): (c: char)
    requires 0 <= d < 10
    ensures '0' <= c <= '9'
  {
    ('0' as int + d) as char
  }

  /** The decimal digits of `n`, most significant first. */
  function Digits(n: nat): (r: string)
    ensures r != []
    ensures forall k :: 0 <= k < |r| ==> '0' <= r[k] <= '9'
  {
    if n < 10 then [DigitChar(n)] else Digits(n / 10) + [DigitChar(n % 10)]
  }

  /** `String(n)` for an integer. */
  function DecimalString(n: int): (r: string)
    ensures r != [] && IsAsciiString(r)
  {
    if n < 0 then "-" + Digits(-n) else Digits(n)
  }

  /** The string `encodeURIComponent` is given for a value. */
  function ValueText(v: Value): string {
    match v
    case Str(s) => s
    case Num(n) => DecimalString(n)
  }

  /** Keys are non-empty and free of the separators; value texts are ASCII. */
  predicate WellFormed(es: seq<Entry>) {
    forall k :: 0 <= k < |es| ==>
      es[k].0 != [] && '&' !in es[k].0 && '=' !in es[k].0 && IsAsciiString(ValueText(es[k].1))
  }

  function Pair(key: string, v: Value): string
    requires IsAsciiString(ValueText(v))
  {
    key + "=" + Encode(ValueText(v))
  }

  /** The `queryParams` array the loop builds from `es`. */
  function Pairs(es: seq<Entry>): seq<string>
    requires WellFormed(es)
  {
    if es == [] then []
    else
      var e := es[|es| - 1];
      Pairs(es[..|es| - 1]) + (if Truthy(e.1) then [Pair(e.0, e.1)] else [])
  }

  /** `queryParams.join('&')`. */
  function QueryString(es: seq<Entry>): string
    requires WellFormed(es)
  {
    Join(Pairs(es), "&")
  }

  /** The fields the query string carries: every truthy entry with its text, in order. */
  function Fields(es: seq<Entry>): seq<(string, string)> {
    if es == [] then []
    else
      var e := es[|es| - 1];
      Fields(es[..|es| - 1]) + (if Truthy(e.1) then [(e.0, ValueText(e.1))] else [])
  }

  /** The part before the first `c` and the part after it, if `c` occurs. */
  function SplitAtFirst(s: string, c: char): Option<(string, string)> {
    if s == [] then None
    else if s[0] == c then Some(([], s[1..]))
    else
      match SplitAtFirst(s[1..], c)
      case Some((a, b)) => Some(([s[0]] + a, b))
      case None => None
  }

  /** Reads one `key=value` piece, decoding the value. */
  function ParsePair(p: string): Option<(string, string)> {
    match SplitAtFirst(p, '=')
    case Some((key, enc)) =>
      (match Decode(enc)
       case Some(value) => Some((key, value))
       case None => None)
    case None => None
  }

  function ParsePieces(ps: seq<string>): Option<seq<(string, string)>> {
    if ps == [] then Some([])
    else
      match (ParsePieces(ps[..|ps| - 1]), ParsePair(ps[|ps| - 1]))
      case (Some(init), Some(f)) => Some(init + [f])
      case _ => None
  }

  /** Reads a query string back into its `(key, value)` fields; the empty string has none. */
  function ParseQuery(qs: string): Option<seq<(string, string)>> {
    if qs == "" then Some([]) else ParsePieces(Split(qs, '&'))
  }

  lemma {:induction false} SplitAtFirstPair(key: string, rest: string)
    requires '=' !in key
    ensures SplitAtFirst(key + "=" + rest, '=') == Some((key, rest))
  {
    if key == [] {
      assert key + "=" + rest == "=" + rest;
      assert ("=" + rest)[1..] == rest;
    } else {
      SplitAtFirstPair(key[1..], rest);
      assert (key + "=" + rest)[1..] == key[1..] + "=" + rest;
      assert [key[0]] + key[1..] == key;
    }
  }

  /** One emitted pair reads back as its key and the value's text. */
  lemma ParsePairOf(key: string, v: Value)
    requires '=' !in key && IsAsciiString(ValueText(v))
    ensures ParsePair(Pair(key, v)) == Some((key, ValueText(v)))
  {
    SplitAtFirstPair(key, Encode(ValueText(v)));
    DecodeEncode(ValueText(v));
  }

  lemma WellFormedPrefix(es: seq<Entry>, n: nat)
    requires WellFormed(es) && n <= |es|
    ensures WellFormed(es[..n])
  {
  }

  /** One more entry extends the emitted pairs by its pair, when its value is truthy. */
  lemma PairsStep(es: seq<Entry>, i: nat)
    requires WellFormed(es) && i < |es|
    ensures WellFormed(es[..i]) && WellFormed(es[..i + 1])
    ensures Pairs(es[..i + 1]) ==
            Pairs(es[..i]) + (if Truthy(es[i].1) then [Pair(es[i].0, es[i].1)] else [])
  {
    WellFormedPrefix(es, i);
    WellFormedPrefix(es, i + 1);
    assert es[..i + 1][..i] == es[..i];
  }

  /** Every emitted pair holds '=' and no '&'. */
  lemma {:induction false} PairsShape(es: seq<Entry>)
    requires WellFormed(es)
    ensures forall k :: 0 <= k < |Pairs(es)| ==> '&' !in Pairs(es)[k] && '=' in Pairs(es)[k]
    ensures |Pairs(es)| == |Fields(es)|
  {
    if es != [] {
      var init := es[..|es| - 1];
      var e := es[|es| - 1];
      WellFormedPrefix(es, |es| - 1);
      PairsShape(init);
      if Truthy(e.1) {
        var p := Pair(e.0, e.1);
        EncodeHasNoSeparators(ValueText(e.1));
        assert p[|e.0|] == '=';
        assert forall k :: 0 <= k < |p| ==> p[k] != '&' by {
          forall k | 0 <= k < |p| ensures p[k] != '&' {
            if k < |e.0| { assert p[k] == e.0[k]; }
            else if k > |e.0| { assert p[k] == Encode(ValueText(e.1))[k - |e.0| - 1]; }
          }
        }
      }
    }
  }

  lemma {:induction false} ParsePiecesPairs(es: seq<Entry>)
    requires WellFormed(es)
    ensures ParsePieces(Pairs(es)) == Some(Fields(es))
  {
    if es != [] {
      var init := es[..|es| - 1];
      var e := es[|es| - 1];
      WellFormedPrefix(es, |es| - 1);
      ParsePiecesPairs(init);
      var ps := Pairs(es);
      if Truthy(e.1) {
        assert ps == Pairs(init) + [Pair(e.0, e.1)];
        assert ps[..|ps| - 1] == Pairs(init);
        ParsePairOf(e.0, e.1);
        assert Fields(es) == Fields(init) + [(e.0, ValueText(e.1))];
      } else {
        assert ps == Pairs(init);
        assert Fields(es) == Fields(init);
      }
    }
  }

  lemma JoinNonEmpty(parts: seq<string>, sep: string)
    requires |parts| >= 1 && parts[0] != []
    ensures Join(parts, sep) != []
  {
  }

  /**
   * Splitting the query string on '&' gives back exactly the emitted pairs, and reading it
   * gives back exactly the truthy fields with their values, in order. With no truthy field the
   * query string is empty.
   */
  lemma QueryStringRoundTrip(es: seq<Entry>)
    requires WellFormed(es)
    ensures QueryString(es) == "" <==> Fields(es) == []
    ensures QueryString(es) != "" ==> Split(QueryString(es), '&') == Pairs(es)
    ensures ParseQuery(QueryString(es)) == Some(Fields(es))
  {
    var ps := Pairs(es);
    PairsShape(es);
    ParsePiecesPairs(es);
    if ps != [] {
      assert '=' in ps[0];
      JoinNonEmpty(ps, "&");
      SplitJoin(ps, '&');
    }
  }

  /** `Object.entries(currentSearchParams)`: the record's fields in declaration order. */
  function RecordEntries(q: string, category: string, author: string, published: string, page: int): seq<Entry> {
    [("q", Str(q)), ("category", Str(category)), ("author", Str(author)),
     ("published", Str(published)), ("page", Num(page))]
  }

  /** The record's entries are well formed when its strings are ASCII and `page` is 0. */
  lemma RecordWellFormed(q: string, category: string, author: string, published: string)
    requires IsAsciiString(q) && IsAsciiString(category) && IsAsciiString(author) && IsAsciiString(published)
    ensures WellFormed(RecordEntries(q, category, author, published, 0))
  {
    assert DecimalString(0) == "0";
  }

  /** The fields whose value is not the empty string, in order. */
  function NonEmpty(fs: seq<(string, string)>): (r: seq<(string, string)>)
    ensures forall k :: 0 <= k < |r| ==> r[k] in fs && r[k].1 != ""
  {
    if fs == [] then []
    else (if fs[0].1 != "" then [fs[0]] else []) + NonEmpty(fs[1..])
  }

  lemma {:induction false} NonEmptyNone(fs: seq<(string, string)>)
    ensures NonEmpty(fs) == [] <==> forall k :: 0 <= k < |fs| ==> fs[k].1 == ""
  {
    if fs != [] {
      NonEmptyNone(fs[1..]);
      if fs[0].1 == "" {
        assert forall k :: 1 <= k < |fs| ==> fs[k] == fs[1..][k - 1];
      }
    }
  }

  /**
   * The query string the search page sends, read back, is exactly the non-empty fields among
   * q, category, author and published, in that order; `page` (0) never appears.
   */
  lemma SearchQueryRoundTrip(q: string, category: string, author: string, published: string)
    requires IsAsciiString(q) && IsAsciiString(category) && IsAsciiString(author) && IsAsciiString(published)
    ensures WellFormed(RecordEntries(q, category, author, published, 0))
    ensures ParseQuery(QueryString(RecordEntries(q, category, author, published, 0))) ==
            Some(NonEmpty([("q", q), ("category", category), ("author", author), ("published", published)]))
  {
    var es := RecordEntries(q, category, author, published, 0);
    RecordWellFormed(q, category, author, published);
    QueryStringRoundTrip(es);
    RecordFields(q, category, author, published);
  }

  lemma FieldsSnoc(es: seq<Entry>, e: Entry)
    ensures Fields(es + [e]) == Fields(es) + (if Truthy(e.1) then [(e.0, ValueText(e.1))] else [])
  {
    assert (es + [e])[..|es|] == es;
  }

  lemma RecordFields(q: string, category: string, author: string, published: string)
    ensures Fields(RecordEntries(q, category, author, published, 0)) ==
            NonEmpty([("q", q), ("category", category), ("author", author), ("published", published)])
  {
    RecordFieldsListed(q, category, author, published);
    NonEmptyOfFour(("q", q), ("category", category), ("author", author), ("published", published));
  }

  lemma RecordFieldsListed(q: string, category: string, author: string, published: string)
    ensures Fields(RecordEntries(q, category, author, published, 0)) ==
            (if q != "" then [("q", q)] else []) + (if category != "" then [("category", category)] else [])
            + (if author != "" then [("author", author)] else []) + (if published != "" then [("published", published)] else [])
  {
    var e0, e1, e2, e3, e4 := ("q", Str(q)), ("category", Str(category)), ("author", Str(author)),
                              ("published", Str(published)), ("page", Num(0));
    var a1 := [] + [e0];
    var a2 := a1 + [e1];
    var a3 := a2 + [e2];
    var a4 := a3 + [e3];
    FieldsSnoc([], e0);
    FieldsSnoc(a1, e1);
    FieldsSnoc(a2, e2);
    FieldsSnoc(a3, e3);
    FieldsSnoc(a4, e4);
    assert a4 + [e4] == RecordEntries(q, category, author, published, 0);
  }

  lemma NonEmptyOfFour(f0: (string, string), f1: (string, string), f2: (string, string), f3: (string, string))
    ensures NonEmpty([f0, f1, f2, f3]) ==
            (if f0.1 != "" then [f0] else []) + (if f1.1 != "" then [f1] else [])
            + (if f2.1 != "" then [f2] else []) + (if f3.1 != "" then [f3] else [])
  {
    var b3, b2, b1, b0 := [f3], [f2, f3], [f1, f2, f3], [f0, f1, f2, f3];
    assert b3[1..] == [];
    assert b2[1..] == b3;
    assert b1[1..] == b2;
    assert b0[1..] == b1;
    assert NonEmpty(b3) == (if f3.1 != "" then [f3] else []);
    assert NonEmpty(b2) == (if f2.1 != "" then [f2] else []) + NonEmpty(b3);
    assert NonEmpty(b1) == (if f1.1 != "" then [f1] else []) + NonEmpty(b2);
    assert NonEmpty(b0) == (if f0.1 != "" then [f0] else []) + NonEmpty(b1);
  }

  /** The query string is empty exactly when every string field is empty. */
  lemma SearchQueryEmpty(q: string, category: string, author: string, published: string)
    requires IsAsciiString(q) && IsAsciiString(category) && IsAsciiString(author) && IsAsciiString(published)
    ensures WellFormed(RecordEntries(q, category, author, published, 0))
    ensures QueryString(RecordEntries(q, category, author, published, 0)) == "" <==>
            q == "" && category == "" && author == "" && published == ""
  {
    var es := RecordEntries(q, category, author, published, 0);
    RecordWellFormed(q, category, author, published);
    QueryStringRoundTrip(es);
    RecordFieldsListed(q, category, author, published);
  }

  /** No key of the query string is `page`: the page number 0 is falsy and never sent. */
  lemma PageNeverSent(q: string, category: string, author: string, published: string)
    requires IsAsciiString(q) && IsAsciiString(category) && IsAsciiString(author) && IsAsciiString(published)
    ensures WellFormed(RecordEntries(q, category, author, published, 0))
    ensures var parsed := ParseQuery(QueryString(RecordEntries(q, category, author, published, 0)));
            parsed.Some? && forall k :: 0 <= k < |parsed.value| ==> parsed.value[k].0 != "page"
  {
    SearchQueryRoundTrip(q, category, author, published);
  }
}
