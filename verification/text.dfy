/**
 * The handful of Python `str` operations the core relies on: whitespace
 * stripping, stripping a chosen character, prefix tests and lower-casing.
 */
module Text {

  /** Python's `str.isspace` for one character. */
  predicate IsSpace(c: char) {
    || c == ' ' || c == '\t' || c == '\n' || c == '\r'
    || c == '\U{0B}' || c == '\U{0C}'
    || ('\U{1C}' <= c <= '\U{1F}')
    || c == '\U{85}' || c == '\U{A0}' || c == '\U{1680}'
    || ('\U{2000}' <= c <= '\U{200A}')
    || c == '\U{2028}' || c == '\U{2029}' || c == '\U{202F}' || c == '\U{205F}' || c == '\U{3000}'
  }

  /** Removes the longest prefix of characters satisfying `drop`. */
  function DropLeading(s: string, drop: char -> bool): (r: string)
    ensures |r| <= |s| && r == s[|s| - |r|..]
    ensures forall j :: 0 <= j < |s| - |r| ==> drop(s[j])
    ensures |r| > 0 ==> !drop(r[0])
  {
    if |s| > 0 && drop(s[0]) then DropLeading(s[1..], drop) else s
  }

  /** Removes the longest suffix of characters satisfying `drop`. */
  function DropTrailing(s: string, drop: char -> bool): (r: string)
    ensures |r| <= |s| && r == s[..|r|]
    ensures forall j :: |r| <= j < |s| ==> drop(s[j])
    ensures |r| > 0 ==> !drop(r[|r| - 1])
  {
    if |s| > 0 && drop(s[|s| - 1]) then DropTrailing(s[..|s| - 1], drop) else s
  }

  /** Python's `s.strip(chars)`, with the stripped set given as a predicate. */
  function StripBy(s: string, drop: char -> bool): (r: string)
    ensures |r| > 0 ==> !drop(r[0]) && !drop(r[|r| - 1])
    ensures r == [] <==> forall j :: 0 <= j < |s| ==> drop(s[j])
  {
    var left := DropLeading(s, drop);
    var r := DropTrailing(left, drop);
    StripFacts(s, drop, |s| - |left|, r);
    r
  }

  /** Trailing-stripping the suffix of `s` from `a`, after a dropped prefix, yields a slice with dropped characters on both sides. */
  lemma StripFacts(s: string, drop: char -> bool, a: nat, r: string)
    requires a <= |s| && r == DropTrailing(s[a..], drop)
    requires forall j :: 0 <= j < a ==> drop(s[j])
    requires a < |s| ==> !drop(s[a])
    ensures a + |r| <= |s| && r == s[a..a + |r|]
    ensures forall j :: a + |r| <= j < |s| ==> drop(s[j])
    ensures r == [] <==> forall j :: 0 <= j < |s| ==> drop(s[j])
  {
    var left := s[a..];
    SliceOfSuffix(s, a, |r|);
    forall j | a + |r| <= j < |s|
      ensures drop(s[j])
    {
      assert s[j] == left[j - a];
    }
  }

  /** A prefix of a suffix is a middle slice. */
  lemma SliceOfSuffix(s: string, a: nat, n: nat)
    requires a + n <= |s|
    ensures s[a..][..n] == s[a..a + n]
  {
  }

  /** What `StripBy` leaves is a slice of `s` with only dropped characters around it. */
  lemma StripParts(s: string, drop: char -> bool) returns (a: nat)
    ensures a + |StripBy(s, drop)| <= |s| && StripBy(s, drop) == s[a..a + |StripBy(s, drop)|]
    ensures forall j :: 0 <= j < a ==> drop(s[j])
    ensures forall j :: a + |StripBy(s, drop)| <= j < |s| ==> drop(s[j])
  {
    var left := DropLeading(s, drop);
    a := |s| - |left|;
    StripFacts(s, drop, a, DropTrailing(left, drop));
  }

  /** A stripped character in front of a string is stripped away. */
  lemma StripByCons(c: char, s: string, drop: char -> bool)
    requires drop(c)
    ensures StripBy([c] + s, drop) == StripBy(s, drop)
  {
    assert ([c] + s)[1..] == s;
  }

  /** Appending a stripped character leaves the leading-stripped text as it was, plus that character. */
  lemma {:induction false} DropLeadingSnoc(s: string, c: char, drop: char -> bool)
    requires drop(c)
    ensures DropLeading(s + [c], drop)
      == if DropLeading(s, drop) == [] then [] else DropLeading(s, drop) + [c]
    decreases |s|
  {
    if s == [] {
      assert s + [c] == [c];
      assert [c][1..] == [];
    } else {
      assert (s + [c])[0] == s[0];
      if drop(s[0]) {
        assert (s + [c])[1..] == s[1..] + [c];
        DropLeadingSnoc(s[1..], c, drop);
      }
    }
  }

  /** A stripped character behind a string is stripped away. */
  lemma StripBySnoc(s: string, c: char, drop: char -> bool)
    requires drop(c)
    ensures StripBy(s + [c], drop) == StripBy(s, drop)
  {
    DropLeadingSnoc(s, c, drop);
    var left := DropLeading(s, drop);
    if left != [] {
      assert (left + [c])[..|left + [c]| - 1] == left;
    }
  }

  /** Python's `s.strip()`. */
  function Trim(s: string): (r: string)
    ensures |r| > 0 ==> !IsSpace(r[0]) && !IsSpace(r[|r| - 1])
    ensures r == [] <==> forall j :: 0 <= j < |s| ==> IsSpace(s[j])
  {
    StripBy(s, IsSpace)
  }

  /** Python's `s.startswith(prefix)`. */
  predicate StartsWith(s: string, prefix: string) {
    |prefix| <= |s| && s[..|prefix|] == prefix
  }

  /** A string is the concatenation of its three slices around two cut points. */
  lemma SplitThree(s: string, a: nat, b: nat)
    requires a <= b <= |s|
    ensures s == s[..a] + s[a..b] + s[b..]
  {
    assert s == s[..a] + s[a..];
    assert s[a..] == s[a..b] + s[b..];
  }

  /** A string starts with any of its prefixes. */
  lemma PrefixOfConcat(x: string, y: string)
    ensures StartsWith(x + y, x)
  {
    assert (x + y)[..|x|] == x;
  }

  /** Python's `needle in s` for strings. */
  predicate Contains(s: string, needle: string) {
    StartsWith(s, needle) || (|s| > 0 && Contains(s[1..], needle))
  }

  /** Every character of a contained string occurs in the containing one. */
  lemma {:induction false} ContainsHasChars(s: string, needle: string)
    requires Contains(s, needle)
    ensures forall k :: 0 <= k < |needle| ==> needle[k] in s
  {
    if StartsWith(s, needle) {
      forall k | 0 <= k < |needle|
        ensures needle[k] in s
      {
        assert needle[k] == s[..|needle|][k] == s[k];
      }
    } else {
      ContainsHasChars(s[1..], needle);
      forall k | 0 <= k < |needle|
        ensures needle[k] in s
      {
        var i :| 0 <= i < |s[1..]| && s[1..][i] == needle[k];
        assert s[i + 1] == needle[k];
      }
    }
  }

  /** A string missing one of the needle's characters does not contain it. */
  lemma MissingCharNotContained(s: string, needle: string, k: nat)
    requires k < |needle| && needle[k] !in s
    ensures !Contains(s, needle)
  {
    if Contains(s, needle) {
      ContainsHasChars(s, needle);
    }
  }

  /** ASCII lower-casing of one character. */
  function LowerChar(c: char): char {
    if 'A' <= c <= 'Z' then (c as int + 32) as char else c
  }

  /** Python's `s.lower()` restricted to ASCII letters. */
  function Lower(s: string): (r: string)
    ensures |r| == |s|
    ensures forall i :: 0 <= i < |s| ==> r[i] == LowerChar(s[i])
  {
    seq(|s|, i requires 0 <= i < |s| => LowerChar(s[i]))
  }
}
