/**
 * The three functions of Go's `strings` package that the daemon relies on,
 * specialised to a one-character separator: `Split`, `Join` and `HasSuffix`.
 * Go strings are byte strings; here a string is a `seq<char>` and one
 * character stands for one byte.
 */
module Strings {

  /** No part of `parts` contains the character `c`. */
  predicate NoneContains(parts: seq<string>, c: char)
  {
    forall i :: 0 <= i < |parts| ==> c !in parts[i]
  }

  /**
   * `strings.Split(s, string(sep))`: the maximal runs of `s` between
   * occurrences of `sep`. There is one more part than there are separators,
   * so the empty string splits into one empty part.
   */
  function Split(s: string, sep: char): (parts: seq<string>)
    ensures |parts| == multiset(s)[sep] + 1
    ensures NoneContains(parts, sep)
    decreases |s|
  {
    if s == "" then [""]
    else
      var rest := Split(s[1..], sep);
      assert s == [s[0]] + s[1..];
      if s[0] == sep then [""] + rest
      else [[s[0]] + rest[0]] + rest[1..]
  }

  /**
   * `strings.Join(parts, string(sep))`: the parts with `sep` between
   * neighbours. No parts join to the empty string; otherwise the join starts
   * with the first part (`JoinSeparatorCount` counts the separators).
   */
  function Join(parts: seq<string>, sep: char): (s: string)
    ensures |parts| == 0 ==> s == ""
    ensures |parts| >= 1 ==> parts[0] <= s
  {
    if |parts| == 0 then ""
    else if |parts| == 1 then parts[0]
    else parts[0] + [sep] + Join(parts[1..], sep)
  }

  /** Separator-free parts are joined by one separator fewer than there are parts. */
  lemma {:induction false} JoinSeparatorCount(parts: seq<string>, sep: char)
    requires |parts| >= 1 && NoneContains(parts, sep)
    ensures multiset(Join(parts, sep))[sep] == |parts| - 1
    decreases |parts|
  {
    if |parts| > 1 {
      JoinSeparatorCount(parts[1..], sep);
      var tail := Join(parts[1..], sep);
      assert multiset(parts[0] + [sep] + tail) == multiset(parts[0]) + multiset{sep} + multiset(tail);
    }
  }

  /**
   * `strings.HasSuffix(s, suffix)`: `suffix` is a trailing substring of `s`,
   * so `s` is what precedes it followed by `suffix` (`ConcatHasSuffix` is the
   * converse).
   */
  predicate HasSuffix(s: string, suffix: string)
    ensures HasSuffix(s, suffix) ==> |suffix| <= |s| && s[..|s| - |suffix|] + suffix == s
  {
    |suffix| <= |s| && s[|s| - |suffix|..] == suffix
  }

  /** Any string followed by `suffix` has `suffix` as a suffix. */
  lemma ConcatHasSuffix(head: string, suffix: string)
    ensures HasSuffix(head + suffix, suffix)
  {
    assert (head + suffix)[|head|..] == suffix;
  }

  /** Joining a part in front of at least one other adds it and one separator. */
  lemma JoinFront(p: string, rest: seq<string>, sep: char)
    requires |rest| >= 1
    ensures Join([p] + rest, sep) == p + [sep] + Join(rest, sep)
  {
    assert ([p] + rest)[1..] == rest;
  }

  /** Growing the first part by a leading character grows the join by it. */
  lemma JoinGrowFirst(x: char, rest: seq<string>, sep: char)
    requires |rest| >= 1
    ensures Join([[x] + rest[0]] + rest[1..], sep) == [x] + Join(rest, sep)
  {
    if |rest| > 1 {
      JoinFront([x] + rest[0], rest[1..], sep);
      JoinFront(rest[0], rest[1..], sep);
      assert [rest[0]] + rest[1..] == rest;
    }
  }

  /** Joining the parts of a split gives back the string that was split. */
  lemma {:induction false} JoinSplit(s: string, sep: char)
    ensures Join(Split(s, sep), sep) == s
    decreases |s|
  {
    if s != "" {
      var rest := Split(s[1..], sep);
      JoinSplit(s[1..], sep);
      assert [s[0]] + s[1..] == s;
      if s[0] == sep {
        assert Split(s, sep) == [""] + rest;
        JoinFront("", rest, sep);
        assert Join(Split(s, sep), sep) == [sep] + s[1..];
      } else {
        assert Split(s, sep) == [[s[0]] + rest[0]] + rest[1..];
        JoinGrowFirst(s[0], rest, sep);
        assert Join(Split(s, sep), sep) == [s[0]] + s[1..];
      }
    }
  }

  /** A string free of the separator splits into itself alone. */
  lemma {:induction false} SplitWithoutSeparator(s: string, sep: char)
    requires sep !in s
    ensures Split(s, sep) == [s]
    decreases |s|
  {
    if s != "" {
      SplitWithoutSeparator(s[1..], sep);
      assert s == [s[0]] + s[1..];
    }
  }

  /** A separator-free prefix followed by a separator becomes the first part. */
  lemma {:induction false} SplitLeadingPart(p: string, sep: char, t: string)
    requires sep !in p
    ensures Split(p + [sep] + t, sep) == [p] + Split(t, sep)
    decreases |p|
  {
    var s := p + [sep] + t;
    if p == "" {
      assert s[0] == sep && s[1..] == t;
    } else {
      assert s[0] == p[0] && s[1..] == p[1..] + [sep] + t;
      SplitLeadingPart(p[1..], sep, t);
      var rest := Split(s[1..], sep);
      assert rest == [p[1..]] + Split(t, sep);
      assert rest[0] == p[1..] && rest[1..] == Split(t, sep);
      assert [p[0]] + p[1..] == p;
    }
  }

  /** Splitting a join of separator-free parts gives back the parts. */
  lemma {:induction false} SplitJoin(parts: seq<string>, sep: char)
    requires |parts| >= 1 && NoneContains(parts, sep)
    ensures Split(Join(parts, sep), sep) == parts
    decreases |parts|
  {
    if |parts| == 1 {
      SplitWithoutSeparator(parts[0], sep);
    } else {
      SplitJoin(parts[1..], sep);
      SplitLeadingPart(parts[0], sep, Join(parts[1..], sep));
      assert parts == [parts[0]] + parts[1..];
    }
  }

  /** Every character of a part is a character of the string that was split. */
  lemma {:induction false} SplitPartsFromSource(s: string, sep: char, x: char)
    requires x !in s
    ensures NoneContains(Split(s, sep), x)
    decreases |s|
  {
    if s != "" {
      SplitPartsFromSource(s[1..], sep, x);
      assert s == [s[0]] + s[1..];
    }
  }

  /** Joining one more part at the end adds a separator and that part. */
  lemma {:induction false} JoinAppend(parts: seq<string>, sep: char, last: string)
    requires |parts| >= 1
    ensures Join(parts + [last], sep) == Join(parts, sep) + [sep] + last
    decreases |parts|
  {
    var all := parts + [last];
    assert all[1..] == parts[1..] + [last];
    if |parts| > 1 {
      JoinAppend(parts[1..], sep, last);
    }
  }
}
