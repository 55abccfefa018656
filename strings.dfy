/** String primitives shared by the model: ASCII case mapping, the JavaScript
    whitespace class (used by `\s` and by `String.prototype.trim`), substring
    search (`indexOf` / `includes`), `split` on one character and decimal
    numerals. */
module Strings {

  datatype Option<+T> = None | Some(value: T)

  // ---------------------------------------------------------------------
  // Characters

  /** The characters JavaScript's `\s` matches; `trim()` strips the same set. */
  predicate IsSpace(c: char) {
    c == ' ' || c == '\t' || c == '\n' || c == '\r' || c == '\U{B}' || c == '\U{C}'
    || c == '\U{A0}' || c == '\U{1680}' || ('\U{2000}' <= c <= '\U{200A}')
    || c == '\U{2028}' || c == '\U{2029}' || c == '\U{202F}' || c == '\U{205F}'
    || c == '\U{3000}' || c == '\U{FEFF}'
  }

  /** The characters `.` in a JavaScript regular expression does not match. */
  predicate IsLineTerminator(c: char) {
    c == '\n' || c == '\r' || c == '\U{2028}' || c == '\U{2029}'
  }

  function LowerChar(c: char): char {
    if 'A' <= c <= 'Z' then (c as int + 32) as char else c
  }

  /** Length-preserving lower-casing of ASCII letters. */
  function Lower(s: string): string {
    seq(|s|, i requires 0 <= i < |s| => LowerChar(s[i]))
  }

  lemma LowerIdempotent(s: string)
    ensures Lower(Lower(s)) == Lower(s)
  {
  }

  lemma LowerSlice(s: string, i: nat, j: nat)
    requires i <= j <= |s|
    ensures Lower(s)[i..j] == Lower(s[i..j])
  {
  }

  lemma LowerAppend(a: string, b: string)
    ensures Lower(a + b) == Lower(a) + Lower(b)
  {
  }

  // ---------------------------------------------------------------------
  // Trimming

  function TrimStart(s: string): (r: string)
    ensures |r| <= |s|
    decreases |s|
  {
    if |s| > 0 && IsSpace(s[0]) then TrimStart(s[1..]) else s
  }

  function TrimEnd(s: string): string
    decreases |s|
  {
    if |s| > 0 && IsSpace(s[|s| - 1]) then TrimEnd(s[..|s| - 1]) else s
  }

  /** `String.prototype.trim`. */
  function Trim(s: string): string {
    TrimEnd(TrimStart(s))
  }

  /** `trimStart` drops the leading run of whitespace. */
  lemma {:induction false} TrimStartIsSuffix(s: string) returns (i: nat)
    ensures i <= |s| && TrimStart(s) == s[i..]
    ensures forall k :: 0 <= k < i ==> IsSpace(s[k])
    ensures i < |s| ==> !IsSpace(s[i])
    decreases |s|
  {
    if |s| > 0 && IsSpace(s[0]) {
      var t := s[1..];
      var i' := TrimStartIsSuffix(t);
      i := i' + 1;
      assert t[i'..] == s[i..];
      forall k | 0 < k < i ensures IsSpace(s[k]) {
        assert s[k] == t[k - 1];
      }
      if i < |s| {
        assert s[i] == t[i'];
      }
    } else {
      i := 0;
    }
  }

  /** `trimEnd` drops the trailing run of whitespace. */
  lemma {:induction false} TrimEndIsPrefix(s: string) returns (j: nat)
    ensures j <= |s| && TrimEnd(s) == s[..j]
    ensures forall k :: j <= k < |s| ==> IsSpace(s[k])
    ensures j > 0 ==> !IsSpace(s[j - 1])
    decreases |s|
  {
    if |s| > 0 && IsSpace(s[|s| - 1]) {
      var t := s[..|s| - 1];
      j := TrimEndIsPrefix(t);
      assert t[..j] == s[..j];
      forall k | j <= k < |s| - 1 ensures IsSpace(s[k]) {
        assert s[k] == t[k];
      }
      if j > 0 {
        assert s[j - 1] == t[j - 1];
      }
    } else {
      j := |s|;
    }
  }

  /** `trim` cuts a slice out of its argument: every character removed is
      whitespace and the result neither starts nor ends with whitespace. */
  lemma TrimSlice(s: string) returns (i: nat, j: nat)
    ensures i <= j <= |s| && Trim(s) == s[i..j]
    ensures forall k :: 0 <= k < i ==> IsSpace(s[k])
    ensures forall k :: j <= k < |s| ==> IsSpace(s[k])
    ensures i < j ==> !IsSpace(s[i]) && !IsSpace(s[j - 1])
  {
    i := TrimStartIsSuffix(s);
    var t := s[i..];
    var j' := TrimEndIsPrefix(t);
    j := i + j';
    assert t[..j'] == s[i..j];
    forall k | j <= k < |s| ensures IsSpace(s[k]) {
      assert s[k] == t[k - i];
    }
    if i < j {
      assert s[j - 1] == t[j' - 1];
    }
  }

  /** The trimmed string neither starts nor ends with whitespace. */
  lemma TrimmedHasNoOuterSpace(s: string)
    ensures var t := Trim(s); |t| > 0 ==> !IsSpace(t[0]) && !IsSpace(t[|t| - 1])
  {
    var i, j := TrimSlice(s);
  }

  lemma {:induction false} TrimStartNoop(s: string)
    requires |s| > 0 ==> !IsSpace(s[0])
    ensures TrimStart(s) == s
  {
  }

  lemma {:induction false} TrimEndNoop(s: string)
    requires |s| > 0 ==> !IsSpace(s[|s| - 1])
    ensures TrimEnd(s) == s
  {
  }

  // ---------------------------------------------------------------------
  // Substring search

  /** `p` occurs in `s` at position `k`. */
  predicate OccursAt(s: string, p: string, k: nat) {
    k + |p| <= |s| && s[k..k + |p|] == p
  }

  ghost predicate Occurs(s: string, p: string) {
    exists k: nat :: OccursAt(s, p, k)
  }

  function IndexFrom(s: string, p: string, from: nat): (r: Option<nat>)
    requires from <= |s|
    ensures r.Some? ==> from <= r.value && OccursAt(s, p, r.value)
    ensures r.Some? ==> forall k :: from <= k < r.value ==> !OccursAt(s, p, k)
    ensures r.None? ==> forall k :: from <= k ==> !OccursAt(s, p, k)
    decreases |s| - from
  {
    if OccursAt(s, p, from) then Some(from)
    else if from + |p| >= |s| then None
    else IndexFrom(s, p, from + 1)
  }

  /** `s.indexOf(p)`: the first position where `p` occurs, `None` for -1. */
  function IndexOf(s: string, p: string): (r: Option<nat>)
    ensures r.Some? ==> OccursAt(s, p, r.value)
    ensures r.Some? ==> forall k :: 0 <= k < r.value ==> !OccursAt(s, p, k)
    ensures r.None? <==> !Occurs(s, p)
  {
    IndexFrom(s, p, 0)
  }

  /** `s.includes(p)`. */
  predicate Contains(s: string, p: string) {
    IndexOf(s, p).Some?
  }

  lemma ContainsIffOccurs(s: string, p: string)
    ensures Contains(s, p) <==> Occurs(s, p)
  {
  }

  // ---------------------------------------------------------------------
  // Splitting on one character

  /** A prefix one element longer. */
  lemma PrefixSnoc<T>(s: seq<T>, i: nat)
    requires i < |s|
    ensures s[..i + 1] == s[..i] + [s[i]]
  {
  }

  lemma Rejoin(s: string, i: nat)
    requires i <= |s|
    ensures s[..i] + s[i..] == s
  {
  }

  /** The position of the first `c` in `s`, or `|s|` when there is none. */
  function CharIndex(s: string, c: char): (i: nat)
    ensures i <= |s|
    ensures i < |s| ==> s[i] == c
    ensures forall k :: 0 <= k < i ==> s[k] != c
    ensures i == |s| <==> c !in s
  {
    if |s| == 0 then 0 else if s[0] == c then 0 else 1 + CharIndex(s[1..], c)
  }

  /** `s.split(c)` for a one-character separator: there is always at least
      one part, and empty parts are kept. */
  function Split(s: string, c: char): (parts: seq<string>)
    ensures |parts| >= 1
    ensures forall k :: 0 <= k < |parts| ==> c !in parts[k]
    decreases |s|
  {
    var i := CharIndex(s, c);
    if i == |s| then [s] else [s[..i]] + Split(s[i + 1..], c)
  }

  /** `parts.join(c)`. */
  function Join(parts: seq<string>, c: char): string
    requires |parts| >= 1
  {
    if |parts| == 1 then parts[0] else parts[0] + [c] + Join(parts[1..], c)
  }

  /** Joining the parts with the separator gives the string back. */
  lemma {:induction false} JoinSplit(s: string, c: char)
    ensures Join(Split(s, c), c) == s
    decreases |s|
  {
    var i := CharIndex(s, c);
    if i < |s| {
      var rest := Split(s[i + 1..], c);
      var parts := Split(s, c);
      assert parts == [s[..i]] + rest;
      assert parts[0] == s[..i] && parts[1..] == rest;
      JoinSplit(s[i + 1..], c);
      assert Join(parts, c) == s[..i] + [c] + s[i + 1..];
      assert s == s[..i] + [c] + s[i + 1..];
    }
  }

  /** Splitting a join of separator-free parts gives the parts back. */
  lemma {:induction false} SplitJoin(parts: seq<string>, c: char)
    requires |parts| >= 1
    requires forall k :: 0 <= k < |parts| ==> c !in parts[k]
    ensures Split(Join(parts, c), c) == parts
    decreases |parts|
  {
    if |parts| > 1 {
      var s := Join(parts, c);
      var rest := Join(parts[1..], c);
      assert s == parts[0] + [c] + rest;
      assert CharIndex(s, c) == |parts[0]| by {
        assert s[|parts[0]|] == c;
        forall k | 0 <= k < |parts[0]| ensures s[k] != c {
          assert s[k] == parts[0][k];
        }
      }
      assert s[..|parts[0]|] == parts[0];
      assert s[|parts[0]| + 1..] == rest;
      SplitJoin(parts[1..], c);
    } else {
      assert c !in parts[0];
    }
  }

  /** The first part is the text before the first separator. */
  lemma SplitFirst(s: string, c: char)
    ensures Split(s, c)[0] == s[..CharIndex(s, c)]
    ensures |Split(s, c)| > 1 <==> c in s
  {
    var i := CharIndex(s, c);
    if i < |s| {
      var rest := Split(s[i + 1..], c);
      assert |rest| >= 1;
    } else {
      assert s[..i] == s;
    }
  }

  /** The second part, when there is one, is the text between the first and
      the second separator. */
  lemma SplitSecond(s: string, c: char)
    requires c in s
    ensures var i := CharIndex(s, c);
      Split(s, c)[1] == s[i + 1..][..CharIndex(s[i + 1..], c)]
  {
    var i := CharIndex(s, c);
    SplitFirst(s[i + 1..], c);
  }

  /** A string with a separator is its first part, the separator, its
      second part and a rest that is empty or starts with the separator. */
  lemma SplitShape(s: string, c: char) returns (rest: string)
    requires c in s
    ensures |Split(s, c)| > 1
    ensures s == Split(s, c)[0] + [c] + Split(s, c)[1] + rest
    ensures rest == [] || rest[0] == c
  {
    var i := CharIndex(s, c);
    var tail := s[i + 1..];
    var j := CharIndex(tail, c);
    var a, b := s[..i], tail[..j];
    rest := tail[j..];
    assert |Split(s, c)| > 1 && Split(s, c)[0] == a && Split(s, c)[1] == b by {
      SplitFirst(s, c);
      SplitSecond(s, c);
    }
    Reassemble(s, i, j);
  }

  lemma Reassemble(s: string, i: nat, j: nat)
    requires i < |s| && j <= |s| - i - 1
    ensures s == s[..i] + [s[i]] + s[i + 1..][..j] + s[i + 1..][j..]
  {
    Rejoin(s[i + 1..], j);
    var x, y, z := s[..i] + [s[i]], s[i + 1..][..j], s[i + 1..][j..];
    assert x + y + z == x + (y + z);
    assert s == s[..i] + [s[i]] + s[i + 1..];
  }

  /** Splitting at a first separator after a separator-free part. */
  lemma SplitFront(a: string, c: char, t: string)
    requires c !in a
    ensures Split(a + [c] + t, c) == [a] + Split(t, c)
  {
    var s := a + [c] + t;
    assert CharIndex(s, c) == |a| by {
      assert s[|a|] == c;
      forall k | 0 <= k < |a| ensures s[k] != c {
        assert s[k] == a[k];
      }
    }
    assert s[..|a|] == a;
    assert s[|a| + 1..] == t;
  }

  /** The first two parts of a string with two separator-free fields in
      front. */
  lemma SplitAround(a: string, b: string, c: char, rest: string)
    requires c !in a && c !in b
    ensures var parts := Split(a + ([c] + b + [c]) + rest, c);
      |parts| > 1 && parts[0] == a && parts[1] == b
  {
    var t := b + [c] + rest;
    assert a + ([c] + b + [c]) + rest == a + [c] + t;
    SplitFront(a, c, t);
    SplitFront(b, c, rest);
  }

  /** Every character of every part is a character of the string. */
  lemma {:induction false} SplitChars(s: string, c: char, k: nat, x: char)
    requires k < |Split(s, c)| && x in Split(s, c)[k]
    ensures x in s
    decreases |s|
  {
    var i := CharIndex(s, c);
    if i < |s| && k > 0 {
      SplitChars(s[i + 1..], c, k - 1, x);
    }
  }

  // ---------------------------------------------------------------------
  // Decimal numerals

  predicate IsDigit(c: char) {
    '0' <= c <= '9'
  }

  predicate AllDigits(s: string) {
    forall k :: 0 <= k < |s| ==> IsDigit(s[k])
  }

  function DigitChar(d: nat): char
    requires d < 10
  {
    ('0' as int + d) as char
  }

  /** The decimal numeral of `n`, as a template literal prints it. */
  function NatToString(n: nat): (s: string)
    ensures |s| >= 1 && AllDigits(s)
  {
    if n < 10 then [DigitChar(n)] else NatToString(n / 10) + [DigitChar(n % 10)]
  }

  /** `parseInt(s, 10)` on a string of decimal digits. */
  function ParseDecimal(s: string): nat
    requires AllDigits(s)
  {
    if |s| == 0 then 0
    else 10 * ParseDecimal(s[..|s| - 1]) + (s[|s| - 1] as int - '0' as int)
  }

  /** Printing a number and parsing it back gives the number. */
  lemma {:induction false} ParsePrinted(n: nat)
    ensures ParseDecimal(NatToString(n)) == n
  {
    if n >= 10 {
      var s := NatToString(n);
      assert s[..|s| - 1] == NatToString(n / 10);
      ParsePrinted(n / 10);
    }
  }
}
