/** The search and snippet engine: flattening HTML to text, extracting a
    snippet around a term, counting occurrences, the multi-term search over
    sections, subsections and examples, and `<mark>` highlighting. Regular
    expressions of the source are modelled as the literal, left-to-right,
    non-overlapping scans they amount to once the term is escaped. */
module SearchUtils {
  import opened Strings
  import opened Docs
  import StableSort

  // =====================================================================
  // extractTextFromHtml

  /** `replace(/<[^>]*>/g, ' ')`: a `<` followed later by a `>` starts a tag
      that ends at the first such `>`; the whole tag becomes one space. A
      `<` with no `>` after it is kept. */
  function StripTags(s: string): string
    decreases |s|
  {
    if |s| == 0 then ""
    else if s[0] == '<' && '>' in s[1..] then
      var j := CharIndex(s[1..], '>');
      " " + StripTags(s[j + 2..])
    else [s[0]] + StripTags(s[1..])
  }

  /** `replace(/\s+/g, ' ')`: every maximal run of whitespace becomes one
      space. */
  function CollapseSpaces(s: string): string
    decreases |s|
  {
    if |s| == 0 then ""
    else if IsSpace(s[0]) then " " + CollapseSpaces(TrimStart(s[1..]))
    else [s[0]] + CollapseSpaces(s[1..])
  }

  /** `extractTextFromHtml`. */
  function ExtractTextFromHtml(html: string): string {
    Trim(CollapseSpaces(StripTags(html)))
  }

  /** No `<` is followed, anywhere later, by a `>`: no complete tag. */
  predicate HasNoTag(s: string) {
    forall i, j :: 0 <= i < j < |s| && s[i] == '<' ==> s[j] != '>'
  }

  /** No two whitespace characters are adjacent. */
  predicate NoDoubleSpace(s: string) {
    forall i :: 0 <= i < |s| - 1 ==> !(IsSpace(s[i]) && IsSpace(s[i + 1]))
  }

  /** The only whitespace character is the plain space. */
  predicate OnlyPlainSpaces(s: string) {
    forall i :: 0 <= i < |s| ==> IsSpace(s[i]) ==> s[i] == ' '
  }

  predicate NoOuterSpace(s: string) {
    |s| > 0 ==> !IsSpace(s[0]) && !IsSpace(s[|s| - 1])
  }

  /** What flattened text looks like. */
  predicate IsFlat(s: string) {
    HasNoTag(s) && NoDoubleSpace(s) && OnlyPlainSpaces(s) && NoOuterSpace(s)
  }

  lemma ConsNoTag(c: char, x: string)
    requires HasNoTag(x)
    requires c == '<' ==> '>' !in x
    ensures HasNoTag([c] + x)
  {
    var s := [c] + x;
    forall i, j | 0 <= i < j < |s| && s[i] == '<' ensures s[j] != '>' {
      assert s[j] == x[j - 1];
      if i > 0 { assert s[i] == x[i - 1]; }
    }
  }

  lemma SliceKeepsShape(s: string, i: nat, j: nat)
    requires i <= j <= |s|
    ensures HasNoTag(s) ==> HasNoTag(s[i..j])
    ensures NoDoubleSpace(s) ==> NoDoubleSpace(s[i..j])
    ensures OnlyPlainSpaces(s) ==> OnlyPlainSpaces(s[i..j])
  {
    var t := s[i..j];
    assert forall k :: 0 <= k < |t| ==> t[k] == s[i + k];
  }

  /** Stripping tags introduces no character other than the space. */
  lemma {:induction false} StripTagsKeepsAbsent(s: string, x: char)
    requires x != ' ' && x !in s
    ensures x !in StripTags(s)
    decreases |s|
  {
    if |s| > 0 {
      if s[0] == '<' && '>' in s[1..] {
        var j := CharIndex(s[1..], '>');
        var t := s[j + 2..];
        assert x !in t by {
          forall k | 0 <= k < |t| ensures t[k] != x {
            assert t[k] == s[j + 2 + k];
          }
        }
        StripTagsKeepsAbsent(s[j + 2..], x);
      } else {
        assert x !in s[1..] by {
          forall k | 0 <= k < |s| - 1 ensures s[1..][k] != x {
            assert s[1..][k] == s[k + 1];
          }
        }
        StripTagsKeepsAbsent(s[1..], x);
      }
    }
  }

  lemma {:induction false} StripTagsHasNoTag(s: string)
    ensures HasNoTag(StripTags(s))
    decreases |s|
  {
    if |s| > 0 {
      if s[0] == '<' && '>' in s[1..] {
        var j := StripTagsDropsTag(s);
        StripTagsHasNoTag(s[j + 2..]);
        ConsNoTag(' ', StripTags(s[j + 2..]));
      } else {
        StripTagsCopies(s);
        StripTagsHasNoTag(s[1..]);
        if s[0] == '<' {
          StripTagsKeepsAbsent(s[1..], '>');
        }
        ConsNoTag(s[0], StripTags(s[1..]));
      }
    }
  }

  /** A complete tag at the front becomes one space. */
  lemma StripTagsDropsTag(s: string) returns (j: nat)
    requires |s| > 0 && s[0] == '<' && '>' in s[1..]
    ensures j + 2 <= |s| && StripTags(s) == " " + StripTags(s[j + 2..])
  {
    j := CharIndex(s[1..], '>');
    assert j < |s| - 1;
    var rest := s[j + 2..];
    assert StripTags(s) == " " + StripTags(rest);
  }

  lemma {:induction false} StripTagsNoop(s: string)
    requires HasNoTag(s)
    ensures StripTags(s) == s
    decreases |s|
  {
    if |s| > 0 {
      var r := s[1..];
      assert HasNoTag(r) by {
        SliceKeepsShape(s, 1, |s|);
      }
      assert s[0] == '<' ==> '>' !in r by {
        if s[0] == '<' {
          forall k | 0 <= k < |r| ensures r[k] != '>' {
            assert r[k] == s[k + 1];
          }
        }
      }
      StripTagsNoop(r);
      StripTagsCopies(s);
      assert s == [s[0]] + r;
    }
  }

  /** A character that does not open a complete tag is copied. */
  lemma StripTagsCopies(s: string)
    requires |s| > 0 && (s[0] == '<' ==> '>' !in s[1..])
    ensures StripTags(s) == [s[0]] + StripTags(s[1..])
  {
  }

  /** Collapsing whitespace introduces no character other than the space. */
  lemma {:induction false} CollapseKeepsAbsent(s: string, x: char)
    requires x != ' ' && x !in s
    ensures x !in CollapseSpaces(s)
    decreases |s|
  {
    if |s| > 0 {
      var i := 1;
      if IsSpace(s[0]) {
        i := SkipRun(s);
      }
      assert x !in s[i..] by {
        forall k | 0 <= k < |s| - i ensures s[i..][k] != x {
          assert s[i..][k] == s[i + k];
        }
      }
      CollapseKeepsAbsent(s[i..], x);
    }
  }

  /** The collapsed text starts with a space exactly when the input starts
      with whitespace, and otherwise with the input's first character. */
  lemma CollapseFirst(s: string)
    requires |s| > 0
    ensures |CollapseSpaces(s)| > 0
    ensures CollapseSpaces(s)[0] == if IsSpace(s[0]) then ' ' else s[0]
  {
  }

  lemma ConsSpaces(c: char, x: string)
    requires NoDoubleSpace(x) && OnlyPlainSpaces(x)
    requires IsSpace(c) ==> c == ' ' && (|x| > 0 ==> !IsSpace(x[0]))
    ensures NoDoubleSpace([c] + x) && OnlyPlainSpaces([c] + x)
  {
    var r := [c] + x;
    assert forall k :: 0 < k < |r| ==> r[k] == x[k - 1];
  }

  /** `TrimStart(s[1..])` for a string that starts with whitespace is the
      rest after its first run of whitespace. */
  lemma SkipRun(s: string) returns (i: nat)
    requires |s| > 0
    ensures 1 <= i <= |s| && TrimStart(s[1..]) == s[i..]
    ensures i < |s| ==> !IsSpace(s[i])
  {
    var t := s[1..];
    var k := TrimStartIsSuffix(t);
    i := k + 1;
    assert t[k..] == s[i..];
    if i < |s| {
      assert s[i] == t[k];
    }
  }

  lemma {:induction false} CollapseSpacing(s: string)
    ensures NoDoubleSpace(CollapseSpaces(s)) && OnlyPlainSpaces(CollapseSpaces(s))
    decreases |s|
  {
    if |s| > 0 {
      if IsSpace(s[0]) {
        var i := SkipRun(s);
        var t := s[i..];
        CollapseSpacing(t);
        var rest := CollapseSpaces(t);
        assert CollapseSpaces(s) == " " + rest;
        if |t| > 0 {
          CollapseFirst(t);
        }
        ConsSpaces(' ', rest);
      } else {
        var rest := CollapseSpaces(s[1..]);
        assert CollapseSpaces(s) == [s[0]] + rest;
        CollapseSpacing(s[1..]);
        ConsSpaces(s[0], rest);
      }
    }
  }

  lemma {:induction false} CollapseHasNoTag(s: string)
    requires HasNoTag(s)
    ensures HasNoTag(CollapseSpaces(s))
    decreases |s|
  {
    if |s| > 0 {
      if IsSpace(s[0]) {
        var i := SkipRun(s);
        var t := s[i..];
        SliceKeepsShape(s, i, |s|);
        CollapseHasNoTag(t);
        assert CollapseSpaces(s) == " " + CollapseSpaces(t);
        ConsNoTag(' ', CollapseSpaces(t));
      } else {
        var rest := CollapseSpaces(s[1..]);
        assert CollapseSpaces(s) == [s[0]] + rest;
        SliceKeepsShape(s, 1, |s|);
        CollapseHasNoTag(s[1..]);
        if s[0] == '<' {
          forall k | 0 <= k < |s| - 1 ensures s[1..][k] != '>' {
            assert s[1..][k] == s[k + 1];
          }
          CollapseKeepsAbsent(s[1..], '>');
        }
        ConsNoTag(s[0], rest);
      }
    }
  }

  lemma {:induction false} CollapseNoop(s: string)
    requires NoDoubleSpace(s) && OnlyPlainSpaces(s)
    ensures CollapseSpaces(s) == s
    decreases |s|
  {
    if |s| > 0 {
      SliceKeepsShape(s, 1, |s|);
      CollapseNoop(s[1..]);
      if IsSpace(s[0]) {
        if |s| > 1 { assert !IsSpace(s[1..][0]); }
        TrimStartNoop(s[1..]);
      }
      assert s == [s[0]] + s[1..];
    }
  }

  /** Flattened text has no complete tag, no leading or trailing
      whitespace, no two adjacent whitespace characters, and no whitespace
      but the plain space. */
  lemma FlattenIsFlat(html: string)
    ensures IsFlat(ExtractTextFromHtml(html))
  {
    var c := CollapseSpaces(StripTags(html));
    StripTagsHasNoTag(html);
    CollapseSpacing(StripTags(html));
    CollapseHasNoTag(StripTags(html));
    var i, j := TrimSlice(c);
    SliceKeepsShape(c, i, j);
    TrimmedHasNoOuterSpace(c);
  }

  /** Flat text flattens to itself. */
  lemma FlatIsFixpoint(s: string)
    requires IsFlat(s)
    ensures ExtractTextFromHtml(s) == s
  {
    StripTagsNoop(s);
    CollapseNoop(s);
    TrimStartNoop(s);
    TrimEndNoop(s);
  }

  /** Flattening twice is flattening once. */
  lemma FlattenIdempotent(html: string)
    ensures ExtractTextFromHtml(ExtractTextFromHtml(html)) == ExtractTextFromHtml(html)
  {
    FlattenIsFlat(html);
    FlatIsFixpoint(ExtractTextFromHtml(html));
  }

  // =====================================================================
  // countMatches

  /** Non-overlapping, left-to-right occurrences of `p` in `t`. An empty
      pattern matches at every position, `|t| + 1` times, as an empty
      global regular expression does. */
  function CountOcc(t: string, p: string): nat
    decreases |t|
  {
    if |p| == 0 then |t| + 1
    else if |t| < |p| then 0
    else if t[..|p|] == p then 1 + CountOcc(t[|p|..], p)
    else CountOcc(t[1..], p)
  }

  /** `countMatches`: the escaped term as a case-insensitive global regular
      expression, i.e. a literal scan of the lower-cased strings. */
  function CountMatches(text: string, searchTerm: string): nat {
    CountOcc(Lower(text), Lower(searchTerm))
  }

  lemma OccursShift(t: string, p: string)
    requires |t| > 0 && !OccursAt(t, p, 0)
    ensures Occurs(t, p) <==> Occurs(t[1..], p)
  {
    forall k: nat | OccursAt(t, p, k) ensures k >= 1 && OccursAt(t[1..], p, k - 1) {
      assert t[1..][k - 1..k - 1 + |p|] == t[k..k + |p|];
    }
    forall k: nat | OccursAt(t[1..], p, k) ensures OccursAt(t, p, k + 1) {
      assert t[1..][k..k + |p|] == t[k + 1..k + 1 + |p|];
    }
  }

  /** A non-empty pattern is counted zero times exactly when it does not
      occur. */
  lemma {:induction false} CountOccZeroIffAbsent(t: string, p: string)
    requires |p| > 0
    ensures CountOcc(t, p) == 0 <==> !Occurs(t, p)
    decreases |t|
  {
    if |t| < |p| {
      assert forall k: nat :: !OccursAt(t, p, k);
    } else if t[..|p|] == p {
      assert OccursAt(t, p, 0);
    } else {
      CountOccZeroIffAbsent(t[1..], p);
      OccursShift(t, p);
    }
  }

  /** The counted occurrences do not overlap: they fit into the text. */
  lemma {:induction false} CountOccFits(t: string, p: string)
    requires |p| > 0
    ensures CountOcc(t, p) * |p| <= |t|
    decreases |t|
  {
    if |t| >= |p| {
      if t[..|p|] == p {
        CountOccFits(t[|p|..], p);
        assert (1 + CountOcc(t[|p|..], p)) * |p| == |p| + CountOcc(t[|p|..], p) * |p|;
      } else {
        CountOccFits(t[1..], p);
      }
    }
  }

  /** For a non-empty term, `countMatches` is 0 exactly when the lower-cased
      term is not a substring of the lower-cased text. */
  lemma CountMatchesZeroIffAbsent(text: string, searchTerm: string)
    requires |searchTerm| > 0
    ensures CountMatches(text, searchTerm) == 0 <==> !Contains(Lower(text), Lower(searchTerm))
  {
    CountOccZeroIffAbsent(Lower(text), Lower(searchTerm));
  }

  // =====================================================================
  // findSnippet

  /** The characters a snippet boundary may sit on. */
  predicate IsBreak(c: char) {
    c == ' ' || c == '.'
  }

  /** The first loop of `findSnippet`: move `start` left until it is 0 or
      sits on a break; a position past the end reads as no break, as
      `text[start]` is `undefined` there. */
  function WindowStart(text: string, s: nat): (k: nat)
    ensures k <= s
    ensures k == 0 || (k < |text| && IsBreak(text[k]))
    ensures forall m :: k < m <= s ==> m >= |text| || !IsBreak(text[m])
    decreases s
  {
    if s > 0 && (s >= |text| || !IsBreak(text[s])) then WindowStart(text, s - 1) else s
  }

  /** The second loop: move `end` right until it is the text's length or
      sits on a break. */
  function WindowEnd(text: string, e: nat): (k: nat)
    requires e <= |text|
    ensures e <= k <= |text|
    ensures k == |text| || IsBreak(text[k])
    ensures forall m :: e <= m < k ==> !IsBreak(text[m])
    decreases |text| - e
  {
    if e < |text| && !IsBreak(text[e]) then WindowEnd(text, e + 1) else e
  }

  function Min(a: int, b: int): int {
    if a <= b then a else b
  }

  /** The window `[start, end)` around a match at `index` of a term of
      length `termLen`: half the snippet length on each side, widened to
      the nearest breaks. */
  function SnippetWindow(text: string, index: nat, termLen: nat, snippetLength: nat): (w: (nat, nat))
    requires index + termLen <= |text|
    ensures w.0 <= index && index + termLen <= w.1 <= |text|
    ensures w.0 == 0 || (w.0 < |text| && IsBreak(text[w.0]))
    ensures w.1 == |text| || IsBreak(text[w.1])
  {
    var half := snippetLength / 2;
    var s0 := if index >= half then index - half else 0;
    var e0 := Min(|text|, index + termLen + half);
    (WindowStart(text, s0), WindowEnd(text, e0))
  }

  /** `findSnippet` as a value. */
  function Snippet(text: string, searchTerm: string, snippetLength: nat): string {
    match IndexOf(Lower(text), Lower(searchTerm))
    case None => text[..Min(snippetLength, |text|)] + "..."
    case Some(index) =>
      var w := SnippetWindow(text, index, |searchTerm|, snippetLength);
      Framed(text, w.0, w.1)
  }

  /** The trimmed window `[start, end)`, with an ellipsis on each side
      where text was cut off. */
  function Framed(text: string, start: nat, end: nat): string
    requires start <= end <= |text|
  {
    (if start > 0 then "..." else "") + Trim(text[start..end]) + (if end < |text| then "..." else "")
  }

  const DefaultSnippetLength: nat := 150

  /** The first loop of `findSnippet`. */
  method WidenStart(text: string, s: nat) returns (start: nat)
    ensures start == WindowStart(text, s)
  {
    start := s;
    while start > 0 && (start >= |text| || !IsBreak(text[start]))
      invariant start <= s
      invariant WindowStart(text, start) == WindowStart(text, s)
    {
      start := start - 1;
    }
  }

  /** The second loop of `findSnippet`. */
  method WidenEnd(text: string, e: nat) returns (end: nat)
    requires e <= |text|
    ensures end == WindowEnd(text, e)
  {
    end := e;
    while end < |text| && !IsBreak(text[end])
      invariant e <= end <= |text|
      invariant WindowEnd(text, end) == WindowEnd(text, e)
    {
      end := end + 1;
    }
  }

  /** `findSnippet`: the window around the first case-insensitive match,
      widened to breaks and framed by ellipses; the text's first
      `snippetLength` characters and an ellipsis when there is no match. */
  method FindSnippet(text: string, searchTerm: string, snippetLength: nat) returns (snippet: string)
    ensures snippet == Snippet(text, searchTerm, snippetLength)
  {
    var found := IndexOf(Lower(text), Lower(searchTerm));
    if found.None? {
      return text[..Min(snippetLength, |text|)] + "...";
    }
    var index := found.value;
    SnippetAtMatch(text, searchTerm, snippetLength, index);
    var start, end := FindWindow(text, index, |searchTerm|, snippetLength);
    snippet := FrameWindow(text, start, end);
  }

  /** The window computation of `findSnippet`: half the snippet length on
      each side of the match, then the two widening loops. */
  method FindWindow(text: string, index: nat, termLen: nat, snippetLength: nat) returns (start: nat, end: nat)
    requires index + termLen <= |text|
    ensures (start, end) == SnippetWindow(text, index, termLen, snippetLength)
  {
    var halfLength := snippetLength / 2;
    var s0: nat := if index >= halfLength then index - halfLength else 0;
    var e0: nat := Min(|text|, index + termLen + halfLength);
    start := WidenStart(text, s0);
    end := WidenEnd(text, e0);
  }

  /** The string building at the end of `findSnippet`. */
  method FrameWindow(text: string, start: nat, end: nat) returns (snippet: string)
    requires start <= end <= |text|
    ensures snippet == Framed(text, start, end)
  {
    snippet := if start > 0 then "..." else "";
    snippet := snippet + Trim(text[start..end]);
    if end < |text| {
      snippet := snippet + "...";
    }
  }

  /** How `Snippet` reads once the first match is known. */
  lemma SnippetAtMatch(text: string, searchTerm: string, snippetLength: nat, index: nat)
    requires IndexOf(Lower(text), Lower(searchTerm)) == Some(index)
    ensures index + |searchTerm| <= |text|
    ensures var w := SnippetWindow(text, index, |searchTerm|, snippetLength);
      Snippet(text, searchTerm, snippetLength) == Framed(text, w.0, w.1)
  {
  }

  /** Without a match the snippet is the first `snippetLength` characters
      (all of a shorter text) followed by an ellipsis, always. */
  lemma SnippetWithoutMatch(text: string, searchTerm: string, snippetLength: nat)
    requires !Contains(Lower(text), Lower(searchTerm))
    ensures var r := Snippet(text, searchTerm, snippetLength);
      |r| == Min(snippetLength, |text|) + 3
      && r[..|r| - 3] == text[..Min(snippetLength, |text|)]
      && r[|r| - 3..] == "..."
      && (|text| <= snippetLength ==> r == text + "...")
  {
  }

  /** With a match at the first occurrence `index`, the snippet is the
      trimmed window `[start, end)` with an ellipsis before it exactly when
      `start > 0` and after it exactly when `end < |text|`; the window
      covers the match, each end is the text's end or a break, and no break
      lies between an end and its initial position (so it is the closest
      one). */
  lemma SnippetWithMatch(text: string, searchTerm: string, snippetLength: nat)
    returns (index: nat, start: nat, end: nat)
    requires Contains(Lower(text), Lower(searchTerm))
    ensures OccursAt(Lower(text), Lower(searchTerm), index)
    ensures forall k :: 0 <= k < index ==> !OccursAt(Lower(text), Lower(searchTerm), k)
    ensures start <= index && index + |searchTerm| <= end <= |text|
    ensures start == 0 || (start < |text| && IsBreak(text[start]))
    ensures end == |text| || IsBreak(text[end])
    ensures var half := snippetLength / 2;
      && (forall m :: start < m <= index - half ==> !IsBreak(text[m]))
      && (forall m :: Min(|text|, index + |searchTerm| + half) <= m < end ==> !IsBreak(text[m]))
    ensures Snippet(text, searchTerm, snippetLength)
      == (if start > 0 then "..." else "") + Trim(text[start..end]) + (if end < |text| then "..." else "")
  {
    index := IndexOf(Lower(text), Lower(searchTerm)).value;
    var w := SnippetWindow(text, index, |searchTerm|, snippetLength);
    start, end := w.0, w.1;
  }

  // =====================================================================
  // enhancedSearch: query terms

  /** `filter(term => term.length > 1)`. */
  function LongTerms(parts: seq<string>): seq<string> {
    if |parts| == 0 then []
    else LongTerms(parts[..|parts| - 1]) + (if |parts[|parts| - 1]| > 1 then [parts[|parts| - 1]] else [])
  }

  /** `query.toLowerCase().split(' ').filter(term => term.length > 1)`. */
  function QueryTerms(query: string): seq<string> {
    LongTerms(Split(Lower(query), ' '))
  }

  lemma {:induction false} LongTermsMembers(parts: seq<string>)
    ensures forall t :: t in LongTerms(parts) <==> t in parts && |t| > 1
  {
    if |parts| > 0 {
      var init := parts[..|parts| - 1];
      LongTermsMembers(init);
      assert parts == init + [parts[|parts| - 1]];
    }
  }

  /** The filter keeps the parts in their order, duplicates included:
      filtering distributes over concatenation, and a single part of more
      than one character stands for itself while any other is dropped. */
  lemma {:induction false} LongTermsAppend(a: seq<string>, b: seq<string>)
    ensures LongTerms(a + b) == LongTerms(a) + LongTerms(b)
    decreases |b|
  {
    if |b| == 0 {
      assert a + b == a;
    } else {
      var init := b[..|b| - 1];
      assert (a + b)[..|a + b| - 1] == a + init;
      LongTermsAppend(a, init);
    }
  }

  lemma LongTermsSingle(x: string)
    ensures LongTerms([x]) == (if |x| > 1 then [x] else [])
  {
    assert [x][..0] == [];
  }

  /** The terms are exactly the parts of the lower-cased query, split on
      single spaces, that have at least two characters; none contains a
      space and each is already lower-case. */
  lemma QueryTermsSpec(query: string)
    ensures forall t :: t in QueryTerms(query) <==> t in Split(Lower(query), ' ') && |t| >= 2
    ensures forall t :: t in QueryTerms(query) ==> ' ' !in t && Lower(t) == t
  {
    var parts := Split(Lower(query), ' ');
    LongTermsMembers(parts);
    forall t | t in QueryTerms(query) ensures ' ' !in t && Lower(t) == t {
      var k :| 0 <= k < |parts| && parts[k] == t;
      forall m | 0 <= m < |t| ensures LowerChar(t[m]) == t[m] {
        SplitChars(Lower(query), ' ', k, t[m]);
      }
    }
  }

  // =====================================================================
  // enhancedSearch: the searched entries

  datatype Kind = SectionKind | SubsectionKind

  /** A search hit; `parentTitle` is absent for sections. */
  datatype SearchResult = SearchResult(
    id: string,
    kind: Kind,
    title: string,
    parentTitle: Option<string>,
    snippet: string,
    matchCount: nat)

  /** One searchable entry: a section, one of its subsections or one of its
      examples, with the id, tag and parent title its hit carries. */
  datatype Entry = Entry(id: string, kind: Kind, title: string, parentTitle: Option<string>, content: string)

  function SubsectionEntries(sid: string, section: Section): seq<Entry> {
    seq(|section.subsections|, j requires 0 <= j < |section.subsections| =>
      Entry(sid + "-" + section.subsections[j].0, SubsectionKind, section.subsections[j].1.title,
            Some(section.title), section.subsections[j].1.content))
  }

  /** Examples are tagged as subsections and addressed by their index. */
  function ExampleEntries(sid: string, section: Section): seq<Entry> {
    seq(|section.examples|, k requires 0 <= k < |section.examples| =>
      Entry(sid + "-example-" + NatToString(k), SubsectionKind, section.examples[k].title,
            Some(section.title), section.examples[k].content))
  }

  /** The order in which one section's entries are visited: the section,
      then its subsections, then its examples. */
  function SectionEntries(sid: string, section: Section): seq<Entry> {
    [Entry(sid, SectionKind, section.title, None, section.content)]
    + SubsectionEntries(sid, section) + ExampleEntries(sid, section)
  }

  /** All entries of the document, section by section. */
  function Entries(doc: Document): seq<Entry> {
    if |doc| == 0 then []
    else Entries(doc[..|doc| - 1]) + SectionEntries(doc[|doc| - 1].0, doc[|doc| - 1].1)
  }

  // =====================================================================
  // enhancedSearch: matching and the best term

  /** `searchTerms.some(term => titleLower.includes(term) || bodyLower.includes(term))`. */
  predicate AnyTermIn(titleLower: string, bodyLower: string, terms: seq<string>) {
    exists i :: 0 <= i < |terms| && (Contains(titleLower, terms[i]) || Contains(bodyLower, terms[i]))
  }

  /** The entry is a hit: some term occurs in its lower-cased title or in
      its lower-cased flattened body. */
  predicate Matches(e: Entry, terms: seq<string>) {
    AnyTermIn(Lower(e.title), Lower(ExtractTextFromHtml(e.content)), terms)
  }

  /** The `bestTerm`/`maxMatches` pair after the `forEach` over `terms`,
      starting from `(first, 0)`: the count is the largest count of any
      term, and the term is the earliest one reaching it, or `first` when
      every count is 0. */
  function BestTerm(body: string, first: string, terms: seq<string>): (r: (string, nat))
    ensures forall i :: 0 <= i < |terms| ==> CountMatches(body, terms[i]) <= r.1
    ensures r.1 == 0 ==> r.0 == first
    ensures r.1 > 0 ==> exists i :: 0 <= i < |terms| && terms[i] == r.0 && CountMatches(body, terms[i]) == r.1
                                    && forall j :: 0 <= j < i ==> CountMatches(body, terms[j]) < r.1
  {
    if |terms| == 0 then (first, 0)
    else
      var prev := BestTerm(body, first, terms[..|terms| - 1]);
      var last := terms[|terms| - 1];
      var c := CountMatches(body, last);
      if c > prev.1 then
        assert forall j :: 0 <= j < |terms| - 1 ==> CountMatches(body, terms[j]) < c by {
          forall j | 0 <= j < |terms| - 1 ensures CountMatches(body, terms[j]) < c {
            assert terms[j] == terms[..|terms| - 1][j];
          }
        }
        (last, c)
      else
        assert forall i :: 0 <= i < |terms| - 1 ==> CountMatches(body, terms[i]) <= prev.1 by {
          forall i | 0 <= i < |terms| - 1 ensures CountMatches(body, terms[i]) <= prev.1 {
            assert terms[i] == terms[..|terms| - 1][i];
          }
        }
        assert prev.1 > 0 ==> exists i :: 0 <= i < |terms| && terms[i] == prev.0 && CountMatches(body, terms[i]) == prev.1
                                       && forall j :: 0 <= j < i ==> CountMatches(body, terms[j]) < prev.1 by {
          if prev.1 > 0 {
            var init := terms[..|terms| - 1];
            var i :| 0 <= i < |init| && init[i] == prev.0 && CountMatches(body, init[i]) == prev.1
                     && forall j :: 0 <= j < i ==> CountMatches(body, init[j]) < prev.1;
            assert terms[i] == init[i];
            forall j | 0 <= j < i ensures CountMatches(body, terms[j]) < prev.1 {
              assert terms[j] == init[j];
            }
          }
        }
        prev
  }

  /** The hit an entry yields, if it matches. */
  function HitOf(e: Entry, terms: seq<string>): Option<SearchResult> {
    var body := ExtractTextFromHtml(e.content);
    if Matches(e, terms) then
      var best := BestTerm(Lower(body), terms[0], terms);
      Some(SearchResult(e.id, e.kind, e.title, e.parentTitle, Snippet(body, best.0, DefaultSnippetLength), best.1))
    else None
  }

  /** The `results` array before sorting: one hit per matching entry, in
      visiting order. */
  function Hits(es: seq<Entry>, terms: seq<string>): seq<SearchResult> {
    if |es| == 0 then []
    else
      var h := HitOf(es[|es| - 1], terms);
      Hits(es[..|es| - 1], terms) + (if h.Some? then [h.value] else [])
  }

  /** The number of matching entries. */
  function MatchingCount(es: seq<Entry>, terms: seq<string>): nat {
    if |es| == 0 then 0
    else MatchingCount(es[..|es| - 1], terms) + (if Matches(es[|es| - 1], terms) then 1 else 0)
  }

  function MatchCountKey(r: SearchResult): int {
    r.matchCount
  }

  /** `enhancedSearch` as a value. */
  function Search(doc: Document, query: string): seq<SearchResult> {
    if Trim(query) == "" then []
    else StableSort.SortDesc(Hits(Entries(doc), QueryTerms(query)), MatchCountKey)
  }

  // =====================================================================
  // enhancedSearch: the loops

  /** The `forEach` choosing the snippet term. */
  method PickBestTerm(body: string, terms: seq<string>) returns (bestTerm: string, maxMatches: nat)
    requires |terms| > 0
    ensures (bestTerm, maxMatches) == BestTerm(body, terms[0], terms)
  {
    bestTerm, maxMatches := terms[0], 0;
    for i := 0 to |terms|
      invariant (bestTerm, maxMatches) == BestTerm(body, terms[0], terms[..i])
    {
      assert terms[..i + 1][..i] == terms[..i];
      var matches := CountMatches(body, terms[i]);
      if matches > maxMatches {
        maxMatches := matches;
        bestTerm := terms[i];
      }
    }
    assert terms[..|terms|] == terms;
  }

  /** The body of each of the three `forEach` callbacks. */
  method Examine(e: Entry, terms: seq<string>) returns (hit: Option<SearchResult>)
    ensures hit == HitOf(e, terms)
  {
    var textContent := ExtractTextFromHtml(e.content);
    var titleLower := Lower(e.title);
    if AnyTermIn(titleLower, Lower(textContent), terms) {
      var bestTerm, maxMatches := PickBestTerm(Lower(textContent), terms);
      var snippet := FindSnippet(textContent, bestTerm, DefaultSnippetLength);
      hit := Some(SearchResult(e.id, e.kind, e.title, e.parentTitle, snippet, maxMatches));
    } else {
      hit := None;
    }
  }

  lemma HitsAppend(a: seq<Entry>, b: seq<Entry>, terms: seq<string>)
    ensures Hits(a + b, terms) == Hits(a, terms) + Hits(b, terms)
    decreases |b|
  {
    if |b| > 0 {
      assert (a + b)[..|a + b| - 1] == a + b[..|b| - 1];
      HitsAppend(a, b[..|b| - 1], terms);
    } else {
      assert a + b == a;
    }
  }

  /** The hits of one more entry. */
  lemma HitsStep(es: seq<Entry>, terms: seq<string>, j: nat)
    requires j < |es|
    ensures var h := HitOf(es[j], terms);
      Hits(es[..j + 1], terms) == Hits(es[..j], terms) + (if h.Some? then [h.value] else [])
  {
    assert es[..j + 1][..j] == es[..j];
  }

  /** The `forEach` over a section's subsections. */
  method ExamineSubsections(sectionId: string, section: Section, searchTerms: seq<string>)
    returns (results: seq<SearchResult>)
    ensures results == Hits(SubsectionEntries(sectionId, section), searchTerms)
  {
    ghost var subs := SubsectionEntries(sectionId, section);
    results := [];
    for j := 0 to |section.subsections|
      invariant results == Hits(subs[..j], searchTerms)
    {
      var (subsectionId, subsection) := section.subsections[j];
      var entry := Entry(sectionId + "-" + subsectionId, SubsectionKind, subsection.title,
                         Some(section.title), subsection.content);
      assert entry == subs[j];
      var hit := Examine(entry, searchTerms);
      HitsStep(subs, searchTerms, j);
      if hit.Some? {
        results := results + [hit.value];
      }
    }
    assert subs[..|section.subsections|] == subs;
  }

  /** The `forEach` over a section's examples. */
  method ExamineExamples(sectionId: string, section: Section, searchTerms: seq<string>)
    returns (results: seq<SearchResult>)
    ensures results == Hits(ExampleEntries(sectionId, section), searchTerms)
  {
    ghost var exs := ExampleEntries(sectionId, section);
    results := [];
    for k := 0 to |section.examples|
      invariant results == Hits(exs[..k], searchTerms)
    {
      var example := section.examples[k];
      var entry := Entry(sectionId + "-example-" + NatToString(k), SubsectionKind, example.title,
                         Some(section.title), example.content);
      assert entry == exs[k];
      var hit := Examine(entry, searchTerms);
      HitsStep(exs, searchTerms, k);
      if hit.Some? {
        results := results + [hit.value];
      }
    }
    assert exs[..|section.examples|] == exs;
  }

  /** One step of the outer `forEach`: the section itself, then its
      subsections, then its examples. */
  method ExamineSection(sectionId: string, section: Section, searchTerms: seq<string>)
    returns (results: seq<SearchResult>)
    ensures results == Hits(SectionEntries(sectionId, section), searchTerms)
  {
    var own := Entry(sectionId, SectionKind, section.title, None, section.content);
    var hit := Examine(own, searchTerms);
    results := if hit.Some? then [hit.value] else [];
    assert results == Hits([own], searchTerms);
    var fromSubsections := ExamineSubsections(sectionId, section, searchTerms);
    var fromExamples := ExamineExamples(sectionId, section, searchTerms);
    results := results + fromSubsections + fromExamples;
    HitsAppend([own], SubsectionEntries(sectionId, section), searchTerms);
    HitsAppend([own] + SubsectionEntries(sectionId, section), ExampleEntries(sectionId, section), searchTerms);
  }

  /** `enhancedSearch`: the blank-query check, the terms, the outer loop
      pushing hits, then the sort. */
  method EnhancedSearch(doc: Document, query: string) returns (results: seq<SearchResult>)
    ensures results == Search(doc, query)
  {
    if Trim(query) == "" {
      return [];
    }
    var searchTerms := QueryTerms(query);
    results := ExamineDocument(doc, searchTerms);
    results := StableSort.SortDesc(results, MatchCountKey);
  }

  lemma EntriesStep(doc: Document, i: nat)
    requires i < |doc|
    ensures Entries(doc[..i + 1]) == Entries(doc[..i]) + SectionEntries(doc[i].0, doc[i].1)
  {
    assert doc[..i + 1][..i] == doc[..i];
  }

  /** The outer `forEach` over the sections. */
  method ExamineDocument(doc: Document, searchTerms: seq<string>) returns (results: seq<SearchResult>)
    ensures results == Hits(Entries(doc), searchTerms)
  {
    results := [];
    for i := 0 to |doc|
      invariant results == Hits(Entries(doc[..i]), searchTerms)
    {
      var fromSection := ExamineSection(doc[i].0, doc[i].1, searchTerms);
      EntriesStep(doc, i);
      HitsAppend(Entries(doc[..i]), SectionEntries(doc[i].0, doc[i].1), searchTerms);
      results := results + fromSection;
    }
    assert doc[..|doc|] == doc;
  }

  // =====================================================================
  // enhancedSearch: properties

  lemma {:induction false} HitsCount(es: seq<Entry>, terms: seq<string>)
    ensures |Hits(es, terms)| == MatchingCount(es, terms)
  {
    if |es| > 0 {
      HitsCount(es[..|es| - 1], terms);
    }
  }

  lemma {:induction false} HitsComplete(es: seq<Entry>, terms: seq<string>)
    ensures forall i :: 0 <= i < |es| && Matches(es[i], terms) ==> HitOf(es[i], terms).value in Hits(es, terms)
  {
    if |es| > 0 {
      var init := es[..|es| - 1];
      HitsComplete(init, terms);
      forall i | 0 <= i < |es| && Matches(es[i], terms) ensures HitOf(es[i], terms).value in Hits(es, terms) {
        if i < |es| - 1 {
          assert es[i] == init[i];
        }
      }
    }
  }

  lemma {:induction false} HitsSound(es: seq<Entry>, terms: seq<string>)
    ensures forall r :: r in Hits(es, terms) ==>
              exists i :: 0 <= i < |es| && Matches(es[i], terms) && HitOf(es[i], terms) == Some(r)
  {
    if |es| > 0 {
      var init := es[..|es| - 1];
      var last := es[|es| - 1];
      HitsSound(init, terms);
      forall r | r in Hits(es, terms)
        ensures exists i :: 0 <= i < |es| && Matches(es[i], terms) && HitOf(es[i], terms) == Some(r)
      {
        if r in Hits(init, terms) {
          var i :| 0 <= i < |init| && Matches(init[i], terms) && HitOf(init[i], terms) == Some(r);
          assert es[i] == init[i];
        } else {
          assert Matches(last, terms) && HitOf(last, terms) == Some(r);
        }
      }
    }
  }

  /** Before sorting there is one hit per matching entry: a hit for every
      matching entry, and every hit comes from a matching entry. */
  lemma HitsSoundComplete(es: seq<Entry>, terms: seq<string>)
    ensures |Hits(es, terms)| == MatchingCount(es, terms)
    ensures forall i :: 0 <= i < |es| && Matches(es[i], terms) ==> HitOf(es[i], terms).value in Hits(es, terms)
    ensures forall r :: r in Hits(es, terms) ==>
              exists i :: 0 <= i < |es| && Matches(es[i], terms) && HitOf(es[i], terms) == Some(r)
  {
    HitsCount(es, terms);
    HitsComplete(es, terms);
    HitsSound(es, terms);
  }

  /** The hits of a non-blank query: as many as there are matching
      entries, one for each of them and none other, ordered by descending
      `matchCount`, and entries with equal counts in visiting order (the
      section, its subsections, its examples, section after section). */
  lemma SearchSpec(doc: Document, query: string)
    requires Trim(query) != ""
    ensures var terms := QueryTerms(query); var es := Entries(doc); var rs := Search(doc, query);
      && |rs| == MatchingCount(es, terms)
      && (forall i :: 0 <= i < |es| && Matches(es[i], terms) ==> HitOf(es[i], terms).value in rs)
      && (forall r :: r in rs ==> exists i :: 0 <= i < |es| && Matches(es[i], terms) && HitOf(es[i], terms) == Some(r))
      && StableSort.SortedDesc(rs, MatchCountKey)
      && (forall c :: StableSort.WithKey(rs, MatchCountKey, c) == StableSort.WithKey(Hits(es, terms), MatchCountKey, c))
  {
    var terms := QueryTerms(query);
    var hits := Hits(Entries(doc), terms);
    var rs := StableSort.SortDesc(hits, MatchCountKey);
    assert rs == Search(doc, query);
    HitsSoundComplete(Entries(doc), terms);
    StableSort.SortDescIsSorted(hits, MatchCountKey);
    forall c ensures StableSort.WithKey(rs, MatchCountKey, c) == StableSort.WithKey(hits, MatchCountKey, c) {
      StableSort.SortDescIsStable(hits, MatchCountKey, c);
    }
    SamePermutation(rs, hits);
  }

  /** A permutation has the same length and the same members. */
  lemma SamePermutation(rs: seq<SearchResult>, hits: seq<SearchResult>)
    requires rs == StableSort.SortDesc(hits, MatchCountKey)
    ensures |rs| == |hits|
    ensures forall r :: r in rs <==> r in hits
  {
    StableSort.SortDescIsPermutation(hits, MatchCountKey);
    assert |rs| == |multiset(rs)| == |multiset(hits)| == |hits|;
    forall r ensures r in rs <==> r in hits {
      assert r in rs <==> r in multiset(rs);
      assert r in hits <==> r in multiset(hits);
    }
  }

  lemma {:induction false} NoTermNoHit(es: seq<Entry>)
    ensures Hits(es, []) == []
  {
    if |es| > 0 {
      NoTermNoHit(es[..|es| - 1]);
    }
  }

  lemma {:induction false} ShortPartsNoTerms(parts: seq<string>)
    requires forall part :: part in parts ==> |part| <= 1
    ensures LongTerms(parts) == []
  {
    if |parts| > 0 {
      assert parts[|parts| - 1] in parts;
      ShortPartsNoTerms(parts[..|parts| - 1]);
    }
  }

  /** A query with no part of two or more characters finds nothing. */
  lemma ShortQueryFindsNothing(doc: Document, query: string)
    requires forall part :: part in Split(Lower(query), ' ') ==> |part| <= 1
    ensures Search(doc, query) == []
  {
    ShortPartsNoTerms(Split(Lower(query), ' '));
    NoTermNoHit(Entries(doc));
  }

  /** A hit carries its entry's id, tag and titles; its `matchCount` is the
      largest number of body occurrences of any term, reached by the
      snippet term, which is the earliest term reaching it, or the first
      term when no term occurs in the body. */
  lemma HitSpec(e: Entry, terms: seq<string>)
    requires Matches(e, terms)
    ensures |terms| > 0
    ensures var r := HitOf(e, terms).value; var body := ExtractTextFromHtml(e.content);
      exists i :: 0 <= i < |terms|
        && r.snippet == Snippet(body, terms[i], DefaultSnippetLength)
        && r.matchCount == CountMatches(Lower(body), terms[i])
        && (r.matchCount == 0 ==> i == 0)
        && (forall j :: 0 <= j < i ==> CountMatches(Lower(body), terms[j]) < r.matchCount)
        && (forall j :: i < j < |terms| ==> CountMatches(Lower(body), terms[j]) <= r.matchCount)
    ensures var r := HitOf(e, terms).value;
      r.id == e.id && r.kind == e.kind && r.title == e.title && r.parentTitle == e.parentTitle
  {
    var body := ExtractTextFromHtml(e.content);
    var best := BestTerm(Lower(body), terms[0], terms);
    if best.1 == 0 {
      assert CountMatches(Lower(body), terms[0]) == 0;
    }
  }

  /** An entry matched only through its title gets `matchCount` 0 and a
      snippet for the first term. */
  lemma TitleOnlyHit(e: Entry, query: string)
    requires Matches(e, QueryTerms(query))
    requires forall t :: t in QueryTerms(query) ==> !Contains(Lower(ExtractTextFromHtml(e.content)), t)
    ensures var terms := QueryTerms(query); var r := HitOf(e, terms).value;
      && r.matchCount == 0
      && r.snippet == Snippet(ExtractTextFromHtml(e.content), terms[0], DefaultSnippetLength)
      && exists t :: t in terms && Contains(Lower(e.title), t)
  {
    var terms := QueryTerms(query);
    var body := Lower(ExtractTextFromHtml(e.content));
    QueryTermsSpec(query);
    forall t | t in terms ensures CountMatches(body, t) == 0 {
      CountMatchesZeroIffAbsent(body, t);
      LowerIdempotent(ExtractTextFromHtml(e.content));
    }
    assert terms[0] in terms;
    var i :| 0 <= i < |terms| && (Contains(Lower(e.title), terms[i]) || Contains(body, terms[i]));
    assert terms[i] in terms;
  }

  /** Sections are tagged `section` and carry no parent title; subsections
      and examples are tagged `subsection` and carry their section's
      title. */
  lemma {:induction false} EntryTags(doc: Document)
    ensures forall e :: e in Entries(doc) ==>
      (e.kind == SectionKind <==> e.parentTitle.None?)
      && (e.parentTitle.Some? ==> exists i :: 0 <= i < |doc| && e.parentTitle.value == doc[i].1.title)
  {
    if |doc| > 0 {
      var init := doc[..|doc| - 1];
      EntryTags(init);
      forall e | e in Entries(doc)
        ensures (e.kind == SectionKind <==> e.parentTitle.None?)
          && (e.parentTitle.Some? ==> exists i :: 0 <= i < |doc| && e.parentTitle.value == doc[i].1.title)
      {
        if e in Entries(init) {
          if e.parentTitle.Some? {
            var i :| 0 <= i < |init| && e.parentTitle.value == init[i].1.title;
            assert doc[i] == init[i];
          }
        } else {
          assert e in SectionEntries(doc[|doc| - 1].0, doc[|doc| - 1].1);
        }
      }
    }
  }

  // =====================================================================
  // highlightSearchTerms

  /** `text.replace(/(term)/gi, '<mark>$1</mark>')` with `term` escaped:
      every non-overlapping, left-to-right, case-insensitive occurrence is
      wrapped in `<mark>` tags, keeping its own casing. */
  function MarkAll(t: string, p: string): string
    requires |p| > 0
    decreases |t|
  {
    if |t| < |p| then t
    else if Lower(t[..|p|]) == Lower(p) then "<mark>" + t[..|p|] + "</mark>" + MarkAll(t[|p|..], p)
    else [t[0]] + MarkAll(t[1..], p)
  }

  /** One `forEach` step: terms of one character are skipped. */
  function HighlightStep(text: string, term: string): string {
    if |term| > 1 then MarkAll(text, term) else text
  }

  /** `highlightSearchTerms` as a value: the terms applied in order, each to
      the output of the previous one. */
  function Highlighted(text: string, terms: seq<string>): string {
    if |terms| == 0 then text
    else HighlightStep(Highlighted(text, terms[..|terms| - 1]), terms[|terms| - 1])
  }

  method HighlightSearchTerms(text: string, searchTerms: seq<string>) returns (highlightedText: string)
    ensures highlightedText == Highlighted(text, searchTerms)
  {
    if |searchTerms| == 0 {
      return text;
    }
    highlightedText := text;
    for i := 0 to |searchTerms|
      invariant highlightedText == Highlighted(text, searchTerms[..i])
    {
      assert searchTerms[..i + 1][..i] == searchTerms[..i];
      var term := searchTerms[i];
      if |term| > 1 {
        highlightedText := MarkAll(highlightedText, term);
      }
    }
    assert searchTerms[..|searchTerms|] == searchTerms;
  }

  /** Removes `<mark>` and `</mark>` tags. */
  function Unmark(s: string): string
    decreases |s|
  {
    if |s| >= 6 && s[..6] == "<mark>" then Unmark(s[6..])
    else if |s| >= 7 && s[..7] == "</mark>" then Unmark(s[7..])
    else if |s| == 0 then ""
    else [s[0]] + Unmark(s[1..])
  }

  lemma {:induction false} UnmarkPlain(x: string, y: string)
    requires '<' !in x
    ensures Unmark(x + y) == x + Unmark(y)
    decreases |x|
  {
    if |x| > 0 {
      var s := x + y;
      assert s[0] == x[0] && s[0] != '<';
      assert s[1..] == x[1..] + y;
      UnmarkPlain(x[1..], y);
      assert x == [x[0]] + x[1..];
    } else {
      assert x + y == y;
    }
  }

  /** The scan of `MarkAll` and the scan of `CountOcc` on the lower-cased
      strings take the same steps. */
  lemma LowerSteps(t: string, p: string)
    requires 0 < |p| <= |t|
    ensures (Lower(t[..|p|]) == Lower(p)) == (Lower(t)[..|p|] == Lower(p))
    ensures Lower(t)[|p|..] == Lower(t[|p|..]) && Lower(t)[1..] == Lower(t[1..])
  {
    LowerSlice(t, 0, |p|);
    LowerSlice(t, |p|, |t|);
    LowerSlice(t, 1, |t|);
  }

  /** Each wrapped occurrence adds the 13 characters of the two tags. */
  lemma {:induction false} MarkAllLength(t: string, p: string)
    requires |p| > 0
    ensures |MarkAll(t, p)| == |t| + 13 * CountOcc(Lower(t), Lower(p))
    decreases |t|
  {
    if |t| >= |p| {
      LowerSteps(t, p);
      if Lower(t[..|p|]) == Lower(p) {
        MarkAllLength(t[|p|..], p);
      } else {
        MarkAllLength(t[1..], p);
      }
    }
  }

  /** Without an occurrence the text is left as it is. */
  lemma {:induction false} MarkAllAbsent(t: string, p: string)
    requires |p| > 0 && CountOcc(Lower(t), Lower(p)) == 0
    ensures MarkAll(t, p) == t
    decreases |t|
  {
    if |t| >= |p| {
      LowerSteps(t, p);
      MarkAllAbsent(t[1..], p);
      assert t == [t[0]] + t[1..];
    }
  }

  /** The text is left as it is exactly when the term does not occur in
      it. */
  lemma MarkAllNoopIffAbsent(t: string, p: string)
    requires |p| > 0
    ensures MarkAll(t, p) == t <==> !Contains(Lower(t), Lower(p))
  {
    MarkAllLength(t, p);
    CountOccZeroIffAbsent(Lower(t), Lower(p));
    if CountOcc(Lower(t), Lower(p)) == 0 {
      MarkAllAbsent(t, p);
    }
  }

  /** Removing the tags from a wrapped occurrence and what follows it. */
  lemma UnmarkWrapped(m: string, rest: string)
    requires '<' !in m
    ensures Unmark("<mark>" + m + "</mark>" + rest) == m + Unmark(rest)
  {
    var c := "</mark>" + rest;
    var s := "<mark>" + m + c;
    assert "<mark>" + m + "</mark>" + rest == s;
    assert s[..6] == "<mark>" && s[6..] == m + c;
    assert Unmark(s) == Unmark(m + c);
    UnmarkPlain(m, c);
    assert c[..7] == "</mark>" && c[7..] == rest;
    assert c[..6] != "<mark>" by { assert c[..6][1] == '/'; }
    assert Unmark(c) == Unmark(rest);
  }

  /** Removing the tags gives back the text, in its own casing, when the text
      has no `<` of its own. */
  lemma {:induction false} MarkAllUnmark(t: string, p: string)
    requires |p| > 0 && '<' !in t
    ensures Unmark(MarkAll(t, p)) == t
    decreases |t|
  {
    if |t| < |p| {
      UnmarkPlain(t, "");
      assert t + "" == t;
    } else if Lower(t[..|p|]) == Lower(p) {
      var m, r := t[..|p|], t[|p|..];
      assert '<' !in m && '<' !in r by {
        NoCharInSlices(t, '<', |p|);
      }
      MarkAllUnmark(r, p);
      UnmarkWrapped(m, MarkAll(r, p));
      assert t == m + r;
    } else {
      var r := t[1..];
      assert '<' !in r by {
        NoCharInSlices(t, '<', 1);
      }
      assert MarkAll(t, p) == [t[0]] + MarkAll(r, p);
      MarkAllUnmark(r, p);
      UnmarkPlain([t[0]], MarkAll(r, p));
      assert t == [t[0]] + r;
    }
  }

  lemma NoCharInSlices(t: string, c: char, i: nat)
    requires i <= |t| && c !in t
    ensures c !in t[..i] && c !in t[i..]
  {
    assert forall k :: 0 <= k < i ==> t[..i][k] == t[k];
    assert forall k :: 0 <= k < |t| - i ==> t[i..][k] == t[i + k];
  }

  /** Terms of one character (or none) change nothing, so neither does an
      empty term list. */
  lemma {:induction false} ShortTermsKeepText(text: string, terms: seq<string>)
    requires forall t :: t in terms ==> |t| <= 1
    ensures Highlighted(text, terms) == text
  {
    if |terms| > 0 {
      assert terms[|terms| - 1] in terms;
      ShortTermsKeepText(text, terms[..|terms| - 1]);
    }
  }

  /** With one real term, the highlighted text is the text with `<mark>`
      and `</mark>` around exactly the occurrences a left-to-right,
      non-overlapping, case-insensitive scan finds (13 tag characters per
      counted occurrence), and removing the tags restores it when it has no
      `<` of its own. */
  lemma HighlightOneTerm(text: string, term: string)
    requires |term| > 1
    ensures |Highlighted(text, [term])| == |text| + 13 * CountMatches(text, term)
    ensures '<' !in text ==> Unmark(Highlighted(text, [term])) == text
    ensures Highlighted(text, [term]) == WrapAt(text, MatchPositions(Lower(text), Lower(term), 0), |term|, 0)
  {
    assert [term][..0] == [];
    MarkAllLength(text, term);
    MarkAllEnclosesMatches(text, term);
    if '<' !in text {
      MarkAllUnmark(text, term);
    }
  }

  /** A position where no occurrence starts is copied, and the scan moves
      on by one character. */
  lemma MarkAllSkips(t: string, p: string)
    requires |p| > 0 && |t| > 0 && (|t| < |p| || Lower(t[..|p|]) != Lower(p))
    ensures MarkAll(t, p) == [t[0]] + MarkAll(t[1..], p)
  {
    if |t| < |p| {
      assert MarkAll(t[1..], p) == t[1..];
      assert t == [t[0]] + t[1..];
    }
  }

  /** An occurrence at the front is wrapped and the scan resumes after it. */
  lemma MarkAllOpens(m: string, rest: string, p: string)
    requires |m| == |p| > 0 && Lower(m) == Lower(p)
    ensures MarkAll(m + rest, p) == "<mark>" + m + "</mark>" + MarkAll(rest, p)
  {
    var t := m + rest;
    assert t[..|p|] == m && t[|p|..] == rest;
  }

  /** Later terms may match inside earlier markup: highlighting `mark`
      after any other term wraps the `mark` of every `<mark>` tag already
      inserted. */
  lemma MarkupIsMatched(rest: string)
    ensures MarkAll("<mark>" + rest, "mark") == "<" + ("<mark>" + "mark" + "</mark>" + (">" + MarkAll(rest, "mark")))
  {
    var x := MarkAll(rest, "mark");
    var o, m, c := "<mark>", "mark", "</mark>";
    var gr := ['>'] + rest;
    var t := ['<'] + (m + gr);
    assert o + rest == t by {
      assert o == ['<'] + m + ['>'];
    }
    assert MarkAll(gr, m) == ['>'] + x by {
      assert |gr| < |m| || Lower(gr[..|m|])[0] != Lower(m)[0];
      MarkAllSkips(gr, m);
      assert gr[1..] == rest;
    }
    assert MarkAll(m + gr, m) == o + m + c + (['>'] + x) by {
      MarkAllOpens(m, gr, m);
    }
    assert MarkAll(t, m) == ['<'] + (o + m + c + (['>'] + x)) by {
      assert Lower(t[..|m|])[0] != Lower(m)[0];
      MarkAllSkips(t, m);
      assert t[1..] == m + gr;
    }
  }

  // ---------------------------------------------------------------------
  // Where the tags go

  /** The positions at which the left-to-right scan of `t` for `p`, from
      position `i` on, finds an occurrence; after each one the scan resumes
      just past it. */
  function MatchPositions(t: string, p: string, i: nat): seq<nat>
    requires |p| > 0
    decreases |t| - i
  {
    if i + |p| > |t| then []
    else if OccursAt(t, p, i) then [i] + MatchPositions(t, p, i + |p|)
    else MatchPositions(t, p, i + 1)
  }

  /** `t` from position `i` on, with the `len` characters at each listed
      position enclosed in `<mark>` tags. */
  function WrapAt(t: string, ps: seq<nat>, len: nat, i: nat): string
    requires i <= |t|
    decreases |ps|
  {
    if |ps| == 0 || ps[0] < i || ps[0] + len > |t| then t[i..]
    else t[i..ps[0]] + "<mark>" + t[ps[0]..ps[0] + len] + "</mark>" + WrapAt(t, ps[1..], len, ps[0] + len)
  }

  /** Every position found is an occurrence at or after `i`, and the
      occurrences found do not overlap. */
  lemma {:induction false} MatchPositionsSound(t: string, p: string, i: nat)
    requires |p| > 0
    ensures forall k :: 0 <= k < |MatchPositions(t, p, i)| ==>
      i <= MatchPositions(t, p, i)[k] && OccursAt(t, p, MatchPositions(t, p, i)[k])
    ensures forall k :: 0 <= k < |MatchPositions(t, p, i)| - 1 ==>
      MatchPositions(t, p, i)[k] + |p| <= MatchPositions(t, p, i)[k + 1]
    decreases |t| - i
  {
    if i + |p| <= |t| {
      var ps := MatchPositions(t, p, i);
      if OccursAt(t, p, i) {
        var rest := MatchPositions(t, p, i + |p|);
        MatchPositionsSound(t, p, i + |p|);
        assert ps == [i] + rest;
        forall k | 0 <= k < |ps| - 1 ensures ps[k] + |p| <= ps[k + 1] {
          if k > 0 {
            assert ps[k] == rest[k - 1] && ps[k + 1] == rest[k];
          }
        }
      } else {
        MatchPositionsSound(t, p, i + 1);
      }
    }
  }

  /** No occurrence is missed: every occurrence at or after `i` is found or
      starts inside one that is. */
  lemma {:induction false} MatchPositionsComplete(t: string, p: string, i: nat, m: nat)
    requires |p| > 0 && i <= m && OccursAt(t, p, m)
    ensures exists k :: (0 <= k < |MatchPositions(t, p, i)|
                         && MatchPositions(t, p, i)[k] <= m < MatchPositions(t, p, i)[k] + |p|)
    decreases |t| - i
  {
    var ps := MatchPositions(t, p, i);
    assert i + |p| <= |t|;
    if OccursAt(t, p, i) {
      var rest := MatchPositions(t, p, i + |p|);
      assert ps == [i] + rest;
      if m >= i + |p| {
        MatchPositionsComplete(t, p, i + |p|, m);
        var k :| 0 <= k < |rest| && rest[k] <= m < rest[k] + |p|;
        assert ps[k + 1] == rest[k];
      } else {
        assert ps[0] == i;
      }
    } else {
      assert m != i;
      MatchPositionsComplete(t, p, i + 1, m);
    }
  }

  /** The scan finds as many occurrences as `CountOcc` counts. */
  lemma {:induction false} MatchPositionsCount(t: string, p: string, i: nat)
    requires |p| > 0 && i <= |t|
    ensures |MatchPositions(t, p, i)| == CountOcc(t[i..], p)
    decreases |t| - i
  {
    var r := t[i..];
    if i + |p| <= |t| {
      assert r[..|p|] == t[i..i + |p|];
      if OccursAt(t, p, i) {
        assert r[|p|..] == t[i + |p|..];
        MatchPositionsCount(t, p, i + |p|);
      } else {
        assert r[1..] == t[i + 1..];
        MatchPositionsCount(t, p, i + 1);
      }
    }
  }

  /** Copying one character in front of the first listed position. */
  lemma WrapAtCopies(t: string, ps: seq<nat>, len: nat, i: nat)
    requires i < |t| && (|ps| == 0 || i + 1 <= ps[0])
    ensures WrapAt(t, ps, len, i) == [t[i]] + WrapAt(t, ps, len, i + 1)
  {
    if |ps| == 0 || ps[0] + len > |t| {
      assert t[i..] == [t[i]] + t[i + 1..];
    } else {
      assert t[i..ps[0]] == [t[i]] + t[i + 1..ps[0]];
    }
  }

  /** At an occurrence, `MarkAll` wraps it and resumes after it. */
  lemma {:induction false} MarkAllOpensAt(t: string, p: string, i: nat)
    requires |p| > 0 && i + |p| <= |t| && Lower(t[i..i + |p|]) == Lower(p)
    ensures MarkAll(t[i..], p) == "<mark>" + t[i..i + |p|] + "</mark>" + MarkAll(t[i + |p|..], p)
  {
    SliceSplit(t, i, i + |p|);
    MarkAllOpens(t[i..i + |p|], t[i + |p|..], p);
  }

  lemma SliceSplit(t: string, i: nat, j: nat)
    requires i <= j <= |t|
    ensures t[i..] == t[i..j] + t[j..]
  {
  }

  /** Elsewhere, `MarkAll` copies one character. */
  lemma MarkAllSkipsAt(t: string, p: string, i: nat)
    requires |p| > 0 && i + |p| <= |t| && !OccursAt(Lower(t), Lower(p), i)
    ensures MarkAll(t[i..], p) == [t[i]] + MarkAll(t[i + 1..], p)
  {
    var r := t[i..];
    LowerSlice(t, i, i + |p|);
    assert r[..|p|] == t[i..i + |p|];
    assert r[1..] == t[i + 1..];
    MarkAllSkips(r, p);
  }

  /** Wrapping the first listed position. */
  lemma WrapAtOpens(t: string, rest: seq<nat>, len: nat, i: nat)
    requires i + len <= |t|
    ensures WrapAt(t, [i] + rest, len, i) == "<mark>" + t[i..i + len] + "</mark>" + WrapAt(t, rest, len, i + len)
  {
    assert ([i] + rest)[1..] == rest;
    assert t[i..i] == "";
  }

  lemma {:induction false} MarkAllWrapsFrom(t: string, p: string, i: nat)
    requires |p| > 0 && i <= |t|
    ensures MarkAll(t[i..], p) == WrapAt(t, MatchPositions(Lower(t), Lower(p), i), |p|, i)
    decreases |t| - i
  {
    var lt, lp := Lower(t), Lower(p);
    if i + |p| <= |t| {
      if OccursAt(lt, lp, i) {
        LowerSlice(t, i, i + |p|);
        MarkAllOpensAt(t, p, i);
        MarkAllWrapsFrom(t, p, i + |p|);
        WrapAtOpens(t, MatchPositions(lt, lp, i + |p|), |p|, i);
      } else {
        MarkAllSkipsAt(t, p, i);
        MarkAllWrapsFrom(t, p, i + 1);
        MatchPositionsSound(lt, lp, i + 1);
        WrapAtCopies(t, MatchPositions(lt, lp, i + 1), |p|, i);
      }
    } else {
      assert |t[i..]| < |p|;
    }
  }

  /** `replace(/(term)/gi, '<mark>$1</mark>')` encloses exactly the
      occurrences the scan finds, in the text's own casing, and copies the
      rest of the text. */
  lemma MarkAllEnclosesMatches(t: string, p: string)
    requires |p| > 0
    ensures MarkAll(t, p) == WrapAt(t, MatchPositions(Lower(t), Lower(p), 0), |p|, 0)
  {
    MarkAllWrapsFrom(t, p, 0);
    assert t[0..] == t;
  }

  /** Each term of more than one character encloses, in the output of the
      terms before it, the occurrences the scan finds there. */
  lemma HighlightNextTerm(text: string, terms: seq<string>, term: string)
    requires |term| > 1
    ensures var h := Highlighted(text, terms);
      Highlighted(text, terms + [term]) == WrapAt(h, MatchPositions(Lower(h), Lower(term), 0), |term|, 0)
  {
    assert (terms + [term])[..|terms|] == terms;
    MarkAllEnclosesMatches(Highlighted(text, terms), term);
  }
}
