/**
 * The few functions of Go's `strings` package that the tool relies on:
 * `HasPrefix`, `HasSuffix`, `Join`, `Split` (with a one-character
 * separator) and `ReplaceAll` (with a non-empty pattern), with the
 * semantics Go gives them.
 */
module GoStrings {

  predicate HasPrefix(s: string, prefix: string) {
    |prefix| <= |s| && s[..|prefix|] == prefix
  }

  predicate HasSuffix(s: string, suffix: string) {
    |suffix| <= |s| && s[|s| - |suffix|..] == suffix
  }

  /** `strings.Join`: the elements with `sep` between consecutive ones;
      the empty list joins to the empty string. */
  function Join(xs: seq<string>, sep: string): string
  {
    if |xs| == 0 then ""
    else if |xs| == 1 then xs[0]
    else xs[0] + sep + Join(xs[1..], sep)
  }

  /** `strings.Split(s, sep)` for a one-character separator: the pieces of
      `s` between separators. Splitting the empty string gives `[""]`. */
  function Split(s: string, sep: char): (pieces: seq<string>)
    ensures |pieces| >= 1
  {
    if |s| == 0 then [""]
    else
      var rest := Split(s[1..], sep);
      if s[0] == sep then [""] + rest
      else [[s[0]] + rest[0]] + rest[1..]
  }

  /** `pattern` occurs in `s` starting at index `i`. */
  predicate OccursAt(s: string, pattern: string, i: nat) {
    i + |pattern| <= |s| && s[i..i + |pattern|] == pattern
  }

  /** `strings.ReplaceAll(s, pattern, replacement)` for a non-empty pattern: the
      leftmost occurrences, scanned left to right without overlap, are
      replaced. */
  function ReplaceAll(s: string, pattern: string, replacement: string): string
    requires |pattern| > 0
    decreases |s|
  {
    if |s| < |pattern| then s
    else if s[..|pattern|] == pattern then replacement + ReplaceAll(s[|pattern|..], pattern, replacement)
    else [s[0]] + ReplaceAll(s[1..], pattern, replacement)
  }

  lemma JoinSingleton(x: string, sep: string)
    ensures Join([x], sep) == x
  {
  }

  lemma JoinCons(x: string, xs: seq<string>, sep: string)
    requires |xs| >= 1
    ensures Join([x] + xs, sep) == x + sep + Join(xs, sep)
  {
    assert ([x] + xs)[1..] == xs;
  }

  /** There is exactly one more piece than there are separators, and no
      piece contains the separator. */
  lemma {:induction false} SplitPieces(s: string, sep: char)
    ensures |Split(s, sep)| == multiset(s)[sep] + 1
    ensures forall i :: 0 <= i < |Split(s, sep)| ==> sep !in Split(s, sep)[i]
    decreases |s|
  {
    if |s| > 0 {
      SplitPieces(s[1..], sep);
      assert s == [s[0]] + s[1..];
      assert multiset(s) == multiset{s[0]} + multiset(s[1..]);
    }
  }

  /** Joining the pieces of a split with the same separator gives back the
      original string, for every string. */
  lemma {:induction false} JoinSplit(s: string, sep: char)
    ensures Join(Split(s, sep), [sep]) == s
    decreases |s|
  {
    if |s| > 0 {
      var rest := Split(s[1..], sep);
      JoinSplit(s[1..], sep);
      if s[0] == sep {
        JoinCons("", rest, [sep]);
        assert [s[0]] + s[1..] == s;
      } else {
        JoinPrepend(s[0], rest[0], rest[1..], [sep]);
        assert [rest[0]] + rest[1..] == rest;
        assert [s[0]] + s[1..] == s;
      }
    }
  }

  /** A character put in front of the first of the joined strings. */
  lemma JoinPrepend(c: char, head: string, tail: seq<string>, sep: string)
    ensures Join([[c] + head] + tail, sep) == [c] + Join([head] + tail, sep)
  {
    if |tail| > 0 {
      var joined := Join(tail, sep);
      JoinCons([c] + head, tail, sep);
      JoinCons(head, tail, sep);
      assert ([c] + head) + sep + joined == [c] + (head + sep + joined);
    }
  }

  /** A string with no separator splits into itself alone. */
  lemma {:induction false} SplitNoSeparator(a: string, sep: char)
    requires sep !in a
    ensures Split(a, sep) == [a]
  {
    if |a| > 0 {
      SplitNoSeparator(a[1..], sep);
      assert a == [a[0]] + a[1..];
    }
  }

  /** A separator-free head followed by a separator splits off as one piece. */
  lemma {:induction false} SplitAtSeparator(a: string, b: string, sep: char)
    requires sep !in a
    ensures Split(a + [sep] + b, sep) == [a] + Split(b, sep)
  {
    var s := a + [sep] + b;
    if |a| == 0 {
      assert s == [sep] + b;
      assert s[1..] == b;
    } else {
      assert s[1..] == a[1..] + [sep] + b;
      SplitAtSeparator(a[1..], b, sep);
      assert a == [a[0]] + a[1..];
    }
  }

  /** Splitting a join gives back the list, provided the list is non-empty
      and no element contains the separator (`Split(Join([]))` is `[""]`). */
  lemma {:induction false} SplitJoin(xs: seq<string>, sep: char)
    requires |xs| >= 1
    requires forall i :: 0 <= i < |xs| ==> sep !in xs[i]
    ensures Split(Join(xs, [sep]), sep) == xs
  {
    if |xs| == 1 {
      SplitNoSeparator(xs[0], sep);
    } else {
      SplitJoin(xs[1..], sep);
      SplitAtSeparator(xs[0], Join(xs[1..], [sep]), sep);
      assert xs == [xs[0]] + xs[1..];
    }
  }

  /** A template in which the pattern does not occur is left unchanged. */
  lemma {:induction false} ReplaceAllAbsent(s: string, pattern: string, replacement: string)
    requires |pattern| > 0
    requires forall i: nat :: i < |s| ==> !OccursAt(s, pattern, i)
    ensures ReplaceAll(s, pattern, replacement) == s
    decreases |s|
  {
    if |s| >= |pattern| {
      assert !OccursAt(s, pattern, 0);
      forall i: nat | i < |s| - 1
        ensures !OccursAt(s[1..], pattern, i)
      {
        assert !OccursAt(s, pattern, i + 1);
        if i + |pattern| <= |s| - 1 {
          assert s[1..][i..i + |pattern|] == s[i + 1..i + 1 + |pattern|];
        }
      }
      ReplaceAllAbsent(s[1..], pattern, replacement);
      assert s == [s[0]] + s[1..];
    }
  }

  /** A literal prefix that does not contain the pattern's first character
      is copied, and the occurrence right after it is replaced. */
  lemma {:induction false} ReplaceAllSplice(prefix: string, pattern: string, suffix: string, replacement: string)
    requires |pattern| > 0
    requires pattern[0] !in prefix
    ensures ReplaceAll(prefix + pattern + suffix, pattern, replacement)
         == prefix + replacement + ReplaceAll(suffix, pattern, replacement)
  {
    var s := prefix + pattern + suffix;
    var tail := ReplaceAll(suffix, pattern, replacement);
    if |prefix| == 0 {
      assert s == pattern + suffix;
      assert s[..|pattern|] == pattern;
      assert s[|pattern|..] == suffix;
    } else {
      assert |s| >= |pattern|;
      assert s[..|pattern|] != pattern by {
        assert s[..|pattern|][0] == prefix[0];
      }
      assert ReplaceAll(s, pattern, replacement) == [s[0]] + ReplaceAll(s[1..], pattern, replacement);
      assert s[1..] == prefix[1..] + pattern + suffix;
      ReplaceAllSplice(prefix[1..], pattern, suffix, replacement);
      assert ReplaceAll(s[1..], pattern, replacement) == prefix[1..] + replacement + tail;
      assert [prefix[0]] + (prefix[1..] + replacement + tail) == prefix + replacement + tail;
    }
  }
}
