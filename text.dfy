/**
 * String helpers with JavaScript's and Python's meaning: `trim()`, the `/\s+/g` replacement,
 * `Array.prototype.join`, `str.join` and `String.prototype.split` on one character.
 */
module Text {

  /** ECMAScript WhiteSpace and LineTerminator code points: what `trim()` strips and `\s` matches. */
  predicate IsSpace(c: char) {
    c in SpaceChars || '\U{2000}' <= c <= '\U{200A}'
  }

  /** The whitespace code points outside the U+2000..U+200A block. */
  const SpaceChars: set<char> := {'\t', '\n', '\U{B}', '\U{C}', '\r', ' ', '\U{A0}', '\U{1680}', '\U{2028}',
                                  '\U{2029}', '\U{202F}', '\U{205F}', '\U{3000}', '\U{FEFF}'}

  predicate NoSpace(s: string) {
    forall k :: 0 <= k < |s| ==> !IsSpace(s[k])
  }

  predicate AllSpace(s: string) {
    forall k :: 0 <= k < |s| ==> IsSpace(s[k])
  }

  /** Drops the leading whitespace: the result is the suffix of `s` that starts at its first non-space. */
  function TrimStart(s: string): (r: string)
    ensures |r| <= |s| && r == s[|s| - |r|..]
    ensures forall k :: 0 <= k < |s| - |r| ==> IsSpace(s[k])
    ensures r == [] || !IsSpace(r[0])
  {
    if s != [] && IsSpace(s[0]) then TrimStart(s[1..]) else s
  }

  /** Drops the trailing whitespace: the result is the prefix of `s` that ends at its last non-space. */
  function TrimEnd(s: string): (r: string)
    ensures |r| <= |s| && r == s[..|r|]
    ensures forall k :: |r| <= k < |s| ==> IsSpace(s[k])
    ensures r == [] || !IsSpace(r[|r| - 1])
  {
    if s != [] && IsSpace(s[|s| - 1]) then TrimEnd(s[..|s| - 1]) else s
  }

  /** `String.prototype.trim`: the input without its leading and trailing whitespace. */
  function Trim(s: string): (r: string)
    ensures |r| <= |s|
    ensures r == [] || (!IsSpace(r[0]) && !IsSpace(r[|r| - 1]))
  {
    TrimEnd(TrimStart(s))
  }

  /**
   * What `trim()` keeps is a slice of the input with nothing but whitespace before and after
   * it, and the slice neither starts nor ends with whitespace.
   */
  lemma TrimIsCore(s: string)
    ensures exists i :: 0 <= i <= |s| && IsCoreAt(s, Trim(s), i)
    ensures Trim(s) == [] || (!IsSpace(Trim(s)[0]) && !IsSpace(Trim(s)[|Trim(s)| - 1]))
  {
    var t := TrimStart(s);
    var r := TrimEnd(t);
    CoreOfSlices(s, t, r);
    assert IsCoreAt(s, Trim(s), |s| - |t|);
  }

  /** `r` sits in `s` at position `i` with nothing but whitespace before and after it. */
  predicate IsCoreAt(s: string, r: string, i: int) {
    0 <= i <= |s| - |r| && r == s[i..i + |r|] && AllSpace(s[..i]) && AllSpace(s[i + |r|..])
  }

  /** A suffix `t` of `s` after whitespace, and a prefix `r` of `t` before whitespace, is a core of `s`. */
  lemma CoreOfSlices(s: string, t: string, r: string)
    requires |t| <= |s| && t == s[|s| - |t|..] && forall k :: 0 <= k < |s| - |t| ==> IsSpace(s[k])
    requires |r| <= |t| && r == t[..|r|] && forall k :: |r| <= k < |t| ==> IsSpace(t[k])
    ensures IsCoreAt(s, r, |s| - |t|)
  {
    var i := |s| - |t|;
    assert r == s[i..i + |r|];
    AllSpaceSlice(s, 0, i);
    AllSpaceSlice(t, |r|, |t|);
    assert t[|r|..] == s[i + |r|..];
  }

  /** A stretch of whitespace characters, cut out of `s`, is all whitespace. */
  lemma AllSpaceSlice(s: string, lo: int, hi: int)
    requires 0 <= lo <= hi <= |s|
    requires forall k :: lo <= k < hi ==> IsSpace(s[k])
    ensures AllSpace(s[lo..hi])
  {
    var u := s[lo..hi];
    forall k | 0 <= k < |u| ensures IsSpace(u[k]) {
      assert u[k] == s[lo + k];
    }
  }

  /** JavaScript's `length`: UTF-16 code units, two for a code point beyond U+FFFF. */
  function Utf16Length(s: string): (n: nat)
    ensures n >= |s|
  {
    if s == [] then 0 else (if s[0] as int >= 0x1_0000 then 2 else 1) + Utf16Length(s[1..])
  }

  lemma {:induction false} Utf16LengthAstral(s: string, k: nat)
    requires k < |s| && s[k] as int >= 0x1_0000
    ensures Utf16Length(s) >= |s| + 1
  {
    if k > 0 {
      Utf16LengthAstral(s[1..], k - 1);
    }
  }

  /** Trimming twice is trimming once. */
  lemma TrimIdempotent(s: string)
    ensures Trim(Trim(s)) == Trim(s)
  {
    var t := Trim(s);
    if t != [] {
      assert TrimStart(t) == t;
      assert TrimEnd(t) == t;
    }
  }

  /** A string with no surrounding whitespace is its own trim. */
  lemma TrimFixedPoint(s: string)
    requires s == [] || (!IsSpace(s[0]) && !IsSpace(s[|s| - 1]))
    ensures Trim(s) == s
  {
  }

  /**
   * The trimmed string has at least two characters exactly when the string holds two
   * non-whitespace characters at different positions.
   */
  lemma TrimmedAtLeastTwo(s: string)
    ensures |Trim(s)| >= 2 <==>
            exists i, j :: 0 <= i < j < |s| && !IsSpace(s[i]) && !IsSpace(s[j])
  {
    if |Trim(s)| >= 2 {
      TrimmedHasTwo(s);
    }
    if exists i, j :: 0 <= i < j < |s| && !IsSpace(s[i]) && !IsSpace(s[j]) {
      var i, j :| 0 <= i < j < |s| && !IsSpace(s[i]) && !IsSpace(s[j]);
      TwoInTrimmed(s, i, j);
    }
  }

  lemma TrimmedHasTwo(s: string)
    requires |Trim(s)| >= 2
    ensures exists i, j :: 0 <= i < j < |s| && !IsSpace(s[i]) && !IsSpace(s[j])
  {
    var t := TrimStart(s);
    var r := TrimEnd(t);
    var off := |s| - |t|;
    assert r[0] == s[off];
    assert r[|r| - 1] == s[off + |r| - 1];
  }

  lemma TwoInTrimmed(s: string, i: int, j: int)
    requires 0 <= i < j < |s| && !IsSpace(s[i]) && !IsSpace(s[j])
    ensures |Trim(s)| >= 2
  {
    var t := TrimStart(s);
    var r := TrimEnd(t);
    NonSpaceInCore(s, t, r, i);
    NonSpaceInCore(s, t, r, j);
  }

  /**
   * The trimmed text is at least two UTF-16 units long exactly when the text holds two
   * non-whitespace characters, or one non-whitespace character beyond U+FFFF.
   */
  lemma TrimmedUtf16AtLeastTwo(s: string)
    ensures Utf16Length(Trim(s)) >= 2 <==>
            (exists i, j :: 0 <= i < j < |s| && !IsSpace(s[i]) && !IsSpace(s[j]))
            || (exists i :: 0 <= i < |s| && !IsSpace(s[i]) && s[i] as int >= 0x1_0000)
  {
    TrimmedAtLeastTwo(s);
    if Utf16Length(Trim(s)) >= 2 && |Trim(s)| < 2 {
      TrimmedSingleAstral(s);
    }
    if exists i :: 0 <= i < |s| && !IsSpace(s[i]) && s[i] as int >= 0x1_0000 {
      var i :| 0 <= i < |s| && !IsSpace(s[i]) && s[i] as int >= 0x1_0000;
      AstralInTrimmed(s, i);
    }
  }

  lemma TrimmedSingleAstral(s: string)
    requires Utf16Length(Trim(s)) >= 2 && |Trim(s)| < 2
    ensures exists i :: 0 <= i < |s| && !IsSpace(s[i]) && s[i] as int >= 0x1_0000
  {
    var t := TrimStart(s);
    var r := TrimEnd(t);
    var off := |s| - |t|;
    assert |r| == 1;
    assert r[0] == s[off];
    assert r[0] as int >= 0x1_0000;
  }

  lemma AstralInTrimmed(s: string, i: int)
    requires 0 <= i < |s| && !IsSpace(s[i]) && s[i] as int >= 0x1_0000
    ensures Utf16Length(Trim(s)) >= 2
  {
    var t := TrimStart(s);
    var r := TrimEnd(t);
    assert Trim(s) == r;
    NonSpaceInCore(s, t, r, i);
    Utf16LengthAstral(r, i - (|s| - |t|));
  }

  /** A non-space character of `s` lies inside the core that `CoreOfSlices` describes. */
  lemma NonSpaceInCore(s: string, t: string, r: string, i: int)
    requires |t| <= |s| && t == s[|s| - |t|..] && forall k :: 0 <= k < |s| - |t| ==> IsSpace(s[k])
    requires |r| <= |t| && r == t[..|r|] && forall k :: |r| <= k < |t| ==> IsSpace(t[k])
    requires 0 <= i < |s| && !IsSpace(s[i])
    ensures |s| - |t| <= i < |s| - |t| + |r| && r[i - (|s| - |t|)] == s[i]
  {
    var off := |s| - |t|;
    assert off <= i;
    assert t[i - off] == s[i];
  }

  /** `parts.join(sep)` / `sep.join(parts)`: the parts with `sep` between neighbours. */
  function Join(parts: seq<string>, sep: string): string {
    if |parts| == 0 then ""
    else if |parts| == 1 then parts[0]
    else parts[0] + sep + Join(parts[1..], sep)
  }

  /** The first part begins the joined string; with a second part, the separator follows it. */
  lemma JoinStartsWithFirst(parts: seq<string>, sep: string)
    requires |parts| >= 1
    ensures parts[0] <= Join(parts, sep)
    ensures |parts| >= 2 ==> parts[0] + sep <= Join(parts, sep)
  {
  }

  /** `s.split(sep)` for a one-character separator; the empty string splits into `[""]`. */
  function Split(s: string, sep: char): (r: seq<string>)
    ensures |r| >= 1
  {
    if s == [] then [""]
    else
      var rest := Split(s[1..], sep);
      if s[0] == sep then [""] + rest else [[s[0]] + rest[0]] + rest[1..]
  }

  lemma {:induction false} SplitNoSeparator(s: string, sep: char)
    requires sep !in s
    ensures Split(s, sep) == [s]
  {
    if s != [] {
      SplitNoSeparator(s[1..], sep);
      assert [s[0]] + s[1..] == s;
    }
  }

  lemma {:induction false} SplitAfterPart(a: string, sep: char, rest: string)
    requires sep !in a
    ensures Split(a + [sep] + rest, sep) == [a] + Split(rest, sep)
  {
    if a == [] {
      assert a + [sep] + rest == [sep] + rest;
      assert ([sep] + rest)[1..] == rest;
    } else {
      SplitAfterPart(a[1..], sep, rest);
      var s := a + [sep] + rest;
      assert s[1..] == a[1..] + [sep] + rest;
      assert [a[0]] + a[1..] == a;
    }
  }

  /** Splitting on the separator recovers the parts joined with it, when no part contains it. */
  lemma {:induction false} SplitJoin(parts: seq<string>, sep: char)
    requires |parts| >= 1
    requires forall k :: 0 <= k < |parts| ==> sep !in parts[k]
    ensures Split(Join(parts, [sep]), sep) == parts
  {
    if |parts| == 1 {
      SplitNoSeparator(parts[0], sep);
    } else {
      SplitJoin(parts[1..], sep);
      SplitAfterPart(parts[0], sep, Join(parts[1..], [sep]));
      assert [parts[0]] + parts[1..] == parts;
    }
  }

  /** `s.replace(/\s+/g, '-')`: every maximal run of whitespace becomes a single '-'. */
  function ReplaceSpaceRuns(s: string): (r: string)
    ensures NoSpace(r)
    ensures |r| <= |s|
    decreases |s|
  {
    if s == [] then []
    else if IsSpace(s[0]) then "-" + ReplaceSpaceRuns(TrimStart(s[1..]))
    else [s[0]] + ReplaceSpaceRuns(s[1..])
  }

  /** A string without whitespace is left as it is, and only such a string is. */
  lemma {:induction false} ReplaceSpaceRunsFixed(s: string)
    ensures ReplaceSpaceRuns(s) == s <==> NoSpace(s)
  {
    if NoSpace(s) && s != [] {
      ReplaceSpaceRunsFixed(s[1..]);
      assert [s[0]] + s[1..] == s;
    }
  }

  /** Replacing runs a second time changes nothing. */
  lemma ReplaceSpaceRunsIdempotent(s: string)
    ensures ReplaceSpaceRuns(ReplaceSpaceRuns(s)) == ReplaceSpaceRuns(s)
  {
    ReplaceSpaceRunsFixed(ReplaceSpaceRuns(s));
  }

  /** A word followed by anything: the word is copied and the rest replaced on its own. */
  lemma {:induction false} ReplaceSpaceRunsAfterWord(w: string, rest: string)
    requires NoSpace(w)
    ensures ReplaceSpaceRuns(w + rest) == w + ReplaceSpaceRuns(rest)
  {
    if w != [] {
      ReplaceSpaceRunsAfterWord(w[1..], rest);
      assert (w + rest)[0] == w[0];
      assert (w + rest)[1..] == w[1..] + rest;
      assert !IsSpace(w[0]);
      assert [w[0]] + (w[1..] + ReplaceSpaceRuns(rest)) == w + ReplaceSpaceRuns(rest);
    } else {
      assert w + rest == rest;
    }
  }

  /** A non-empty whitespace run followed by a word that starts with a non-space becomes one '-'. */
  lemma ReplaceSpaceRunsAfterGap(gap: string, rest: string)
    requires gap != [] && AllSpace(gap)
    requires rest == [] || !IsSpace(rest[0])
    ensures ReplaceSpaceRuns(gap + rest) == "-" + ReplaceSpaceRuns(rest)
  {
    var s := gap + rest;
    assert s[0] == gap[0] && IsSpace(s[0]);
    assert s[1..] == gap[1..] + rest;
    AllSpaceSlice(gap, 1, |gap|);
    TrimStartAllSpace(gap[1..], rest);
    assert ReplaceSpaceRuns(s) == "-" + ReplaceSpaceRuns(TrimStart(s[1..]));
  }

  lemma {:induction false} TrimStartAllSpace(gap: string, rest: string)
    requires AllSpace(gap)
    requires rest == [] || !IsSpace(rest[0])
    ensures TrimStart(gap + rest) == rest
  {
    var s := gap + rest;
    if gap == [] {
      assert s == rest;
    } else {
      assert s[0] == gap[0] && IsSpace(gap[0]);
      assert s[1..] == gap[1..] + rest;
      AllSpaceSlice(gap, 1, |gap|);
      TrimStartAllSpace(gap[1..], rest);
      assert TrimStart(s) == TrimStart(s[1..]);
    }
  }

  /** `words[0] + gaps[0] + words[1] + … + words[n-1]`. */
  function Interleave(words: seq<string>, gaps: seq<string>): string
    requires |words| >= 1 && |gaps| == |words| - 1
  {
    if |words| == 1 then words[0]
    else words[0] + gaps[0] + Interleave(words[1..], gaps[1..])
  }

  /**
   * Words separated by whitespace runs of any length come out joined by single dashes:
   * the `/\s+/g` replacement described without regular expressions. The first and the last
   * word may be empty, so leading and trailing whitespace each become one '-' as well.
   */
  lemma {:induction false} ReplaceSpaceRunsJoinsWords(words: seq<string>, gaps: seq<string>)
    requires |words| >= 1 && |gaps| == |words| - 1
    requires forall k :: 0 <= k < |words| ==> NoSpace(words[k])
    requires forall k :: 0 < k < |words| - 1 ==> words[k] != []
    requires forall k :: 0 <= k < |gaps| ==> gaps[k] != [] && AllSpace(gaps[k])
    ensures ReplaceSpaceRuns(Interleave(words, gaps)) == Join(words, "-")
  {
    if |words| == 1 {
      ReplaceSpaceRunsFixed(words[0]);
    } else {
      var tail := Interleave(words[1..], gaps[1..]);
      ReplaceSpaceRunsJoinsWords(words[1..], gaps[1..]);
      if |words| == 2 {
        assert tail == words[1];
        assert tail == [] || !IsSpace(tail[0]);
      } else {
        assert words[1] != [];
        InterleaveStartsWithWord(words[1..], gaps[1..]);
      }
      ReplaceSpaceRunsAfterGap(gaps[0], tail);
      assert words[0] + gaps[0] + tail == words[0] + (gaps[0] + tail);
      ReplaceSpaceRunsAfterWord(words[0], gaps[0] + tail);
    }
  }

  lemma InterleaveStartsWithWord(words: seq<string>, gaps: seq<string>)
    requires |words| >= 1 && |gaps| == |words| - 1 && words[0] != []
    ensures |Interleave(words, gaps)| >= 1 && Interleave(words, gaps)[0] == words[0][0]
  {
  }
}
