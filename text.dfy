/**
 * Character and string helpers shared by the locator, the parser and the
 * post-processing: ASCII digits, lowercasing, substring search, Python's
 * `str.strip()` and `str.split(sep)`, and the generic first-match search
 * that every "try the candidates in order" loop of the scraper reduces to.
 */
module Text {
  import opened Wrappers

  predicate IsDigit(c: char) {
    '0' <= c <= '9'
  }

  function DigitValue(c: char): (d: nat)
    requires IsDigit(c)
    ensures d < 10
  {
    (c as int) - ('0' as int)
  }

  function DigitChar(d: nat): (c: char)
    requires d < 10
    ensures IsDigit(c) && DigitValue(c) == d
  {
    (('0' as int) + d) as char
  }

  predicate AllDigits(s: string) {
    forall i :: 0 <= i < |s| ==> IsDigit(s[i])
  }

  predicate NoDigits(s: string) {
    forall i :: 0 <= i < |s| ==> !IsDigit(s[i])
  }

  /** ASCII lowercasing of one character; every other character is kept. */
  function LowerChar(c: char): char {
    if 'A' <= c <= 'Z' then (c as int + 32) as char else c
  }

  function Lower(s: string): (r: string)
    ensures |r| == |s|
    ensures forall i :: 0 <= i < |s| ==> r[i] == LowerChar(s[i])
  {
    if s == [] then [] else [LowerChar(s[0])] + Lower(s[1..])
  }

  function LowerAll(words: seq<string>): (r: seq<string>)
    ensures |r| == |words|
    ensures forall i :: 0 <= i < |words| ==> r[i] == Lower(words[i])
  {
    if words == [] then [] else [Lower(words[0])] + LowerAll(words[1..])
  }

  /** `needle` occurs in `s` starting at position `i`. */
  ghost predicate OccursAt(s: string, needle: string, i: nat) {
    i + |needle| <= |s| && s[i..i + |needle|] == needle
  }

  /** `needle in s.lower()`: some window of `s` lowercases to `needle`. */
  lemma ContainsLower(s: string, needle: string)
    ensures Contains(Lower(s), needle) <==>
      exists i, j :: 0 <= i <= j <= |s| && j - i == |needle| && Lower(s[i..j]) == needle
  {
    forall i, j | 0 <= i <= j <= |s|
      ensures Lower(s)[i..j] == Lower(s[i..j])
    {
      var w, v := Lower(s)[i..j], Lower(s[i..j]);
      assert forall k :: 0 <= k < |w| ==> w[k] == v[k];
    }
    if Contains(Lower(s), needle) {
      var i: nat :| OccursAt(Lower(s), needle, i);
      assert Lower(s[i..i + |needle|]) == needle;
    } else {
      forall i, j | 0 <= i <= j <= |s| && j - i == |needle|
        ensures Lower(s[i..j]) != needle
      {
        assert !OccursAt(Lower(s), needle, i);
      }
    }
  }

  /** Python's `needle in s`: substring containment, case-sensitive. */
  function Contains(s: string, needle: string): (b: bool)
    ensures b <==> exists i: nat :: OccursAt(s, needle, i)
  {
    if |needle| > |s| then
      assert forall i: nat :: !OccursAt(s, needle, i);
      false
    else if s[..|needle|] == needle then
      assert OccursAt(s, needle, 0);
      true
    else
      var rest := Contains(s[1..], needle);
      ShiftOccurrence(s, needle);
      rest
  }

  /** An occurrence in `s[1..]` is an occurrence in `s` one position later, and back. */
  lemma ShiftOccurrence(s: string, needle: string)
    requires |s| > 0
    requires |needle| <= |s| && s[..|needle|] != needle
    ensures (exists i: nat :: OccursAt(s[1..], needle, i)) <==> (exists i: nat :: OccursAt(s, needle, i))
  {
    if i: nat :| OccursAt(s[1..], needle, i) {
      assert s[1..][i..i + |needle|] == s[i + 1..i + 1 + |needle|];
      assert OccursAt(s, needle, i + 1);
    }
    if i: nat :| OccursAt(s, needle, i) {
      assert i != 0;
      assert s[1..][i - 1..i - 1 + |needle|] == s[i..i + |needle|];
      assert OccursAt(s[1..], needle, i - 1);
    }
  }

  /** A text that contains a word contains every prefix of that word. */
  lemma ContainsPrefix(s: string, a: string, b: string)
    requires Contains(s, a + b)
    ensures Contains(s, a)
  {
    var i: nat :| OccursAt(s, a + b, i);
    assert s[i..i + |a|] == (a + b)[..|a|] == a;
    assert OccursAt(s, a, i);
  }

  /** Python's `any(k in text for k in keywords)`. */
  function AnyKeywordIn(text: string, keywords: seq<string>): (b: bool)
    ensures b <==> exists k :: 0 <= k < |keywords| && Contains(text, keywords[k])
  {
    if keywords == [] then false
    else Contains(text, keywords[0]) || AnyKeywordIn(text, keywords[1..])
  }

  /** Python's `str.isspace()` for a single character. */
  predicate IsSpace(c: char) {
    c == ' ' || '\t' <= c <= '\r' || '\U{1c}' <= c <= '\U{1f}' || c == '\U{85}' || c == '\U{a0}'
    || c == '\U{1680}' || '\U{2000}' <= c <= '\U{200a}' || c == '\U{2028}' || c == '\U{2029}'
    || c == '\U{202f}' || c == '\U{205f}' || c == '\U{3000}'
  }

  function StripStart(s: string): (r: string)
    ensures |r| <= |s| && r == s[|s| - |r|..]
    ensures r == [] || !IsSpace(r[0])
    ensures forall k :: 0 <= k < |s| - |r| ==> IsSpace(s[k])
  {
    if s != [] && IsSpace(s[0]) then
      var r := StripStart(s[1..]);
      assert forall k :: 1 <= k < |s| - |r| ==> s[k] == s[1..][k - 1];
      r
    else s
  }

  function StripEnd(s: string): (r: string)
    ensures |r| <= |s| && r == s[..|r|]
    ensures r == [] || !IsSpace(r[|r| - 1])
    ensures forall k :: |r| <= k < |s| ==> IsSpace(s[k])
  {
    if s != [] && IsSpace(s[|s| - 1]) then StripEnd(s[..|s| - 1]) else s
  }

  /** `s[i..j]` is `s` without a whitespace prefix `s[..i]` and a whitespace suffix `s[j..]`. */
  ghost predicate TrimmedSlice(s: string, r: string, i: nat, j: nat) {
    i <= j <= |s| && r == s[i..j]
    && (forall k :: 0 <= k < i ==> IsSpace(s[k]))
    && (forall k :: j <= k < |s| ==> IsSpace(s[k]))
  }

  /**
   * Python's `str.strip()`: drops leading and trailing whitespace, and only
   * whitespace, so what is left starts and ends with a non-space character.
   */
  function Strip(s: string): (r: string)
    ensures |r| <= |s|
    ensures r == [] || (!IsSpace(r[0]) && !IsSpace(r[|r| - 1]))
    ensures exists i, j :: TrimmedSlice(s, r, i, j)
  {
    var t := StripStart(s);
    var r := StripEnd(t);
    TrimTwice(s, t, r);
    r
  }

  /** Trimming a whitespace prefix and then a whitespace suffix leaves a trimmed slice. */
  lemma TrimTwice(s: string, t: string, r: string)
    requires |t| <= |s| && t == s[|s| - |t|..] && forall k :: 0 <= k < |s| - |t| ==> IsSpace(s[k])
    requires |r| <= |t| && r == t[..|r|] && forall k :: |r| <= k < |t| ==> IsSpace(t[k])
    ensures TrimmedSlice(s, r, |s| - |t|, |s| - |t| + |r|)
  {
    var i := |s| - |t|;
    assert r == s[i..i + |r|];
    forall k | i + |r| <= k < |s| ensures IsSpace(s[k]) {
      assert s[k] == t[k - i];
    }
  }

  /** Text without whitespace at either end is left as it is; in particular stripping twice is stripping once. */
  lemma StripTrimmed(s: string)
    requires s == [] || (!IsSpace(s[0]) && !IsSpace(s[|s| - 1]))
    ensures Strip(s) == s
    ensures Strip(Strip(s)) == Strip(s)
  {
    assert StripStart(s) == s;
    assert StripEnd(s) == s;
  }

  /** " 95 " strips to "95". */
  lemma StripExample()
    ensures Strip(" 95 ") == "95"
  {
    StripStartExample();
    StripEndExample();
  }

  lemma StripStartExample()
    ensures StripStart(" 95 ") == "95 "
  {
    var s, t := " 95 ", "95 ";
    assert StripStart(t) == t by { assert !IsSpace(t[0]); }
    assert IsSpace(s[0]) && s[1..] == t;
  }

  lemma StripEndExample()
    ensures StripEnd("95 ") == "95"
  {
    var t, r := "95 ", "95";
    assert StripEnd(r) == r by { assert !IsSpace(r[1]); }
    assert IsSpace(t[2]) && t[..2] == r;
  }

  function StripAll(cells: seq<string>): (r: seq<string>)
    ensures |r| == |cells|
    ensures forall i :: 0 <= i < |cells| ==> r[i] == Strip(cells[i])
  {
    if cells == [] then [] else [Strip(cells[0])] + StripAll(cells[1..])
  }

  /** Python's `s.split(sep)` for a one-character separator. */
  function Split(s: string, sep: char): (parts: seq<string>)
    ensures |parts| > 0
    ensures forall k, i :: 0 <= k < |parts| && 0 <= i < |parts[k]| ==> parts[k][i] != sep
  {
    if s == [] then [""]
    else
      var rest := Split(s[1..], sep);
      if s[0] == sep then [""] + rest
      else [[s[0]] + rest[0]] + rest[1..]
  }

  /** Joins parts with the separator between them, the inverse of `Split`. */
  function Join(parts: seq<string>, sep: char): string
    requires |parts| > 0
  {
    if |parts| == 1 then parts[0] else parts[0] + [sep] + Join(parts[1..], sep)
  }

  lemma {:induction false} JoinSplit(s: string, sep: char)
    ensures Join(Split(s, sep), sep) == s
  {
    if s != [] {
      var rest := Split(s[1..], sep);
      JoinSplit(s[1..], sep);
      if s[0] != sep {
        if |rest| == 1 {
        } else {
          assert Join(rest, sep) == rest[0] + [sep] + Join(rest[1..], sep);
        }
      }
    }
  }

  /** The number of occurrences of `c` in `s`. */
  function Count(s: string, c: char): nat {
    if s == [] then 0 else (if s[0] == c then 1 else 0) + Count(s[1..], c)
  }

  /** Splitting yields one more part than there are separators. */
  lemma {:induction false} SplitCount(s: string, sep: char)
    ensures |Split(s, sep)| == Count(s, sep) + 1
  {
    if s != [] {
      SplitCount(s[1..], sep);
    }
  }

  /**
   * The first index whose element satisfies `p`, in sequence order: the
   * shape of every early-exit candidate loop of the scraper.
   */
  function FirstIndex<T>(xs: seq<T>, p: T -> bool): (r: Option<nat>)
    ensures r.Some? ==> r.value < |xs| && p(xs[r.value])
    ensures r.Some? ==> forall j :: 0 <= j < r.value ==> !p(xs[j])
    ensures r.None? <==> forall j :: 0 <= j < |xs| ==> !p(xs[j])
  {
    if xs == [] then None
    else if p(xs[0]) then Some(0)
    else match FirstIndex(xs[1..], p)
      case None => None
      case Some(k) => Some(k + 1)
  }

  /** FirstIndex stops at the first element, in order, that satisfies the test. */
  lemma FirstIndexAt<T>(xs: seq<T>, p: T -> bool, i: nat)
    requires i <= |xs|
    requires forall k :: 0 <= k < i ==> !p(xs[k])
    ensures i < |xs| && p(xs[i]) ==> FirstIndex(xs, p) == Some(i)
    ensures i == |xs| ==> FirstIndex(xs, p).None?
  {
  }

  /** The concatenation of `f` over the elements of `xs`, in order. */
  function FlatMap<T, U>(xs: seq<T>, f: T -> seq<U>): seq<U> {
    if xs == [] then [] else FlatMap(xs[..|xs| - 1], f) + f(xs[|xs| - 1])
  }

  lemma {:induction false} FlatMapAppend<T, U>(a: seq<T>, b: seq<T>, f: T -> seq<U>)
    ensures FlatMap(a + b, f) == FlatMap(a, f) + FlatMap(b, f)
    decreases |b|
  {
    if b == [] {
      assert a + b == a;
    } else {
      var ab := a + b;
      assert ab[..|ab| - 1] == a + b[..|b| - 1];
      assert ab[|ab| - 1] == b[|b| - 1];
      FlatMapAppend(a, b[..|b| - 1], f);
    }
  }
}
