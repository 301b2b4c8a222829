/**
  The .NET string operations the masking code relies on: `String.Split(char)`,
  `String.Join(string, string[])` with a one-character separator, and
  `String.Contains(string, StringComparison.OrdinalIgnoreCase)`.
  Ordinal ignore-case comparison is modelled over ASCII letters only.
 */
module Text {

  /** Upper-case mapping used by ordinal ignore-case comparison, restricted to ASCII. */
  function FoldAscii(c: char): (u: char)
    ensures 'a' <= c <= 'z' ==> 'A' <= u <= 'Z' && u as int == c as int - 32
    ensures !('a' <= c <= 'z') ==> u == c
  {
    if 'a' <= c <= 'z' then (c as int - 32) as char else c
  }

  /**
    Two characters compare equal under ordinal ignore-case comparison exactly
    when they are equal or are the two cases of one ASCII letter.
   */
  lemma SameIgnoringCase(c: char, d: char)
    ensures FoldAscii(c) == FoldAscii(d) <==>
            c == d || ('a' <= c <= 'z' && d as int == c as int - 32) || ('a' <= d <= 'z' && c as int == d as int - 32)
  {
  }

  /** `needle` occurs in `s` at offset `i`, comparing characters case-insensitively. */
  ghost predicate MatchesAt(s: string, needle: string, i: nat)
  {
    i + |needle| <= |s| &&
    forall j :: 0 <= j < |needle| ==> FoldAscii(s[i + j]) == FoldAscii(needle[j])
  }

  predicate StartsWithIgnoreCase(s: string, prefix: string)
  {
    |prefix| <= |s| &&
    forall j :: 0 <= j < |prefix| ==> FoldAscii(s[j]) == FoldAscii(prefix[j])
  }

  /** `s.Contains(needle, StringComparison.OrdinalIgnoreCase)` over ASCII case folding. */
  function ContainsIgnoreCase(s: string, needle: string): (r: bool)
    ensures r <==> exists i: nat :: MatchesAt(s, needle, i)
    decreases |s|
  {
    if |s| < |needle| then
      assert forall i: nat :: !MatchesAt(s, needle, i);
      false
    else if StartsWithIgnoreCase(s, needle) then
      assert MatchesAt(s, needle, 0);
      true
    else
      var r := ContainsIgnoreCase(s[1..], needle);
      ShiftMatch(s, needle);
      assert !MatchesAt(s, needle, 0);
      r
  }

  /** A match in `s[1..]` at `i` is a match in `s` at `i + 1`, and conversely. */
  lemma ShiftMatch(s: string, needle: string)
    requires |s| > 0
    ensures forall i: nat :: MatchesAt(s[1..], needle, i) <==> MatchesAt(s, needle, i + 1)
    ensures (exists i: nat :: MatchesAt(s, needle, i)) <==>
            MatchesAt(s, needle, 0) || exists i: nat :: MatchesAt(s[1..], needle, i)
  {
    forall i: nat
      ensures MatchesAt(s[1..], needle, i) <==> MatchesAt(s, needle, i + 1)
    {
    }
    if k: nat :| MatchesAt(s, needle, k) {
      if k > 0 {
        assert MatchesAt(s[1..], needle, k - 1);
      }
    }
  }

  /** A string holding neither case of some ASCII letter of `needle` does not contain `needle`. */
  lemma NoMatchWithoutLetter(s: string, needle: string, j: nat)
    requires j < |needle| && 'A' <= FoldAscii(needle[j]) <= 'Z'
    requires FoldAscii(needle[j]) !in s && (FoldAscii(needle[j]) as int + 32) as char !in s
    ensures !ContainsIgnoreCase(s, needle)
  {
    forall i: nat ensures !MatchesAt(s, needle, i) {
      if i + |needle| <= |s| {
        assert s[i + j] in s;
      }
    }
  }

  /** In `before + [c] + after`, where `c` occurs nowhere else, `c` is found only at `|before|`. */
  lemma OnlyOccurrence(before: string, c: char, after: string, q: nat)
    requires c !in before && c !in after
    requires q < |before| + 1 + |after| && (before + [c] + after)[q] == c
    ensures q == |before|
  {
  }

  /** `s.Split(sep)`: every segment, empty ones included, in order. */
  function Split(s: string, sep: char): (parts: seq<string>)
    ensures |parts| >= 1
    decreases |s|
  {
    if s == [] then [[]]
    else
      var rest := Split(s[1..], sep);
      if s[0] == sep then [[]] + rest
      else [[s[0]] + rest[0]] + rest[1..]
  }

  /** No segment of a split contains the separator. */
  lemma {:induction false} SplitSegmentsLackSeparator(s: string, sep: char)
    ensures forall k :: 0 <= k < |Split(s, sep)| ==> sep !in Split(s, sep)[k]
    decreases |s|
  {
    if s != [] {
      SplitSegmentsLackSeparator(s[1..], sep);
    }
  }

  /** There is one more segment than there are separators. */
  lemma {:induction false} SplitCount(s: string, sep: char)
    ensures |Split(s, sep)| == multiset(s)[sep] + 1
    decreases |s|
  {
    if s != [] {
      assert s == [s[0]] + s[1..];
      SplitCount(s[1..], sep);
    }
  }

  /** `String.Join(sep, parts)` for a one-character separator. */
  function Join(parts: seq<string>, sep: char): (s: string)
  {
    if |parts| == 0 then []
    else if |parts| == 1 then parts[0]
    else parts[0] + [sep] + Join(parts[1..], sep)
  }

  /** Joining separator-free segments puts exactly one separator between neighbours. */
  lemma {:induction false} JoinCount(parts: seq<string>, sep: char)
    requires |parts| > 0
    requires forall k :: 0 <= k < |parts| ==> sep !in parts[k]
    ensures multiset(Join(parts, sep))[sep] == |parts| - 1
    decreases |parts|
  {
    if |parts| > 1 {
      JoinCount(parts[1..], sep);
      assert multiset(parts[0])[sep] == 0;
    } else {
      assert multiset(parts[0])[sep] == 0;
    }
  }

  /** Joining the segments of a split gives back the original string. */
  lemma {:induction false} JoinSplit(s: string, sep: char)
    ensures Join(Split(s, sep), sep) == s
    decreases |s|
  {
    if s != [] {
      JoinSplit(s[1..], sep);
      var rest := Split(s[1..], sep);
      if s[0] != sep && |rest| > 1 {
        assert Join(rest, sep) == rest[0] + [sep] + Join(rest[1..], sep);
        assert rest[1..][1..] == rest[2..];
      }
    }
  }

  /** A string with no separator splits into itself alone. */
  lemma {:induction false} SplitNoSeparator(s: string, sep: char)
    requires sep !in s
    ensures Split(s, sep) == [s]
  {
    assert |Split(s, sep)| == 1 by {
      SplitCount(s, sep);
      assert multiset(s)[sep] == 0;
    }
    JoinSplit(s, sep);
  }

  /** Splitting `a`, a separator and `b` gives the segments of `a` followed by those of `b`. */
  lemma {:induction false} SplitAround(a: string, b: string, sep: char)
    ensures Split(a + [sep] + b, sep) == Split(a, sep) + Split(b, sep)
    decreases |a|
  {
    var s := a + [sep] + b;
    if a == [] {
      assert s[1..] == b;
    } else {
      assert s[1..] == a[1..] + [sep] + b;
      SplitAround(a[1..], b, sep);
    }
  }

  /** A string with exactly one separator splits into the text before it and the text after it. */
  lemma SplitOnce(before: string, after: string, sep: char)
    requires sep !in before && sep !in after
    ensures Split(before + [sep] + after, sep) == [before, after]
  {
    SplitAround(before, after, sep);
    SplitNoSeparator(before, sep);
    SplitNoSeparator(after, sep);
  }

  /** A string whose only separator is at `i` splits at `i`. */
  lemma SplitAtOnlySeparator(s: string, i: nat, sep: char)
    requires i < |s| && s[i] == sep
    requires sep !in s[..i] && sep !in s[i + 1..]
    ensures Split(s, sep) == [s[..i], s[i + 1..]]
  {
    assert s == s[..i] + [sep] + s[i + 1..];
    SplitOnce(s[..i], s[i + 1..], sep);
  }

  /** Joining two non-empty runs of segments puts one separator between their joins. */
  lemma {:induction false} JoinAppend(x: seq<string>, y: seq<string>, sep: char)
    requires |x| > 0 && |y| > 0
    ensures Join(x + y, sep) == Join(x, sep) + [sep] + Join(y, sep)
    decreases |x|
  {
    if |x| > 1 {
      assert (x + y)[1..] == x[1..] + y;
      JoinAppend(x[1..], y, sep);
    }
  }

  /** Splitting the join of separator-free segments gives the segments back. */
  lemma {:induction false} SplitJoin(parts: seq<string>, sep: char)
    requires |parts| > 0
    requires forall k :: 0 <= k < |parts| ==> sep !in parts[k]
    ensures Split(Join(parts, sep), sep) == parts
    decreases |parts|
  {
    SplitNoSeparator(parts[0], sep);
    if |parts| > 1 {
      SplitJoin(parts[1..], sep);
      SplitAround(parts[0], Join(parts[1..], sep), sep);
    }
  }
}
