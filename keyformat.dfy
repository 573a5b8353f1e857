/**
 * The storage key of a container hostname: its dot-separated labels in
 * reverse order, joined by `/` under the root `/internaldns/`
 * (main.go, `reverse` and `formatHostname`).
 */
module KeyFormat {
  import opened Wrappers
  import opened Strings

  /** The root under which every record lives. */
  const Prefix: string := "/internaldns/"

  /** `s` read back to front. */
  function Reversed<T>(s: seq<T>): (r: seq<T>)
    ensures |r| == |s|
  {
    if s == [] then [] else [s[|s| - 1]] + Reversed(s[..|s| - 1])
  }

  /** Element `i` of the reversal is element `|s| - 1 - i` of the original. */
  lemma {:induction false} ReversedAt<T>(s: seq<T>, i: nat)
    requires i < |s|
    ensures Reversed(s)[i] == s[|s| - 1 - i]
    decreases |s|
  {
    if i > 0 {
      ReversedAt(s[..|s| - 1], i - 1);
    }
  }

  /** Reversing twice gives back the original sequence. */
  lemma ReversedTwice<T>(s: seq<T>)
    ensures Reversed(Reversed(s)) == s
  {
    forall i | 0 <= i < |s|
      ensures Reversed(Reversed(s))[i] == s[i]
    {
      ReversedAt(Reversed(s), i);
      ReversedAt(s, |s| - 1 - i);
    }
  }

  /** Reversal keeps every part free of a character that no part contained. */
  lemma ReversedNoneContains(parts: seq<string>, c: char)
    requires NoneContains(parts, c)
    ensures NoneContains(Reversed(parts), c)
  {
    forall i | 0 <= i < |parts|
      ensures c !in Reversed(parts)[i]
    {
      ReversedAt(parts, i);
    }
  }

  /**
   * `reverse(ss)`: reverses the slice in place by swapping `ss[i]` with
   * `ss[last - i]` for every `i` below half the length.
   */
  method Reverse(ss: array<string>)
    modifies ss
    ensures ss[..] == Reversed(old(ss[..]))
    ensures forall i :: 0 <= i < ss.Length ==> ss[i] == old(ss[ss.Length - 1 - i])
  {
    var last := ss.Length - 1;
    var i := 0;
    while i < ss.Length / 2
      invariant 0 <= i <= ss.Length / 2
      invariant forall k :: 0 <= k < i ==> ss[k] == old(ss[last - k]) && ss[last - k] == old(ss[k])
      invariant forall k :: i <= k <= last - i ==> ss[k] == old(ss[k])
    {
      ss[i], ss[last - i] := ss[last - i], ss[i];
      i := i + 1;
    }
    ghost var before := old(ss[..]);
    forall k | 0 <= k < ss.Length
      ensures ss[..][k] == Reversed(before)[k]
    {
      ReversedAt(before, k);
    }
  }

  /**
   * `formatHostname(hostname)`: `/internaldns/` followed by the labels of
   * `hostname` in reverse order, joined by `/`. There is no error case: a
   * hostname without dots is one segment and the empty hostname gives the
   * bare root.
   */
  function FormatHostname(hostname: string): (key: string)
    ensures |key| >= |Prefix| && key[..|Prefix|] == Prefix
  {
    Prefix + Join(Reversed(Split(hostname, '.')), '/')
  }

  /**
   * The inverse of `FormatHostname`: strip the root, split on `/`, reverse
   * and join with `.`. A key outside the root has no hostname.
   */
  function ParseKey(key: string): (hostname: Option<string>)
  {
    if |key| >= |Prefix| && key[..|Prefix|] == Prefix
    then Some(Join(Reversed(Split(key[|Prefix|..], '/')), '.'))
    else None
  }

  /**
   * Reversing the parts of a split and joining them with a second character
   * that appears nowhere, then splitting on that character, gives the
   * reversed parts back.
   */
  lemma SwapSeparators(s: string, from: char, to: char)
    requires to !in s
    ensures Split(Join(Reversed(Split(s, from)), to), to) == Reversed(Split(s, from))
  {
    var parts := Split(s, from);
    SplitPartsFromSource(s, from, to);
    ReversedNoneContains(parts, to);
    SplitJoin(Reversed(parts), to);
  }

  /** For a hostname without `/`, the key gives the hostname back. */
  lemma KeyRoundTrip(hostname: string)
    requires '/' !in hostname
    ensures ParseKey(FormatHostname(hostname)) == Some(hostname)
  {
    var key := FormatHostname(hostname);
    assert key[|Prefix|..] == Join(Reversed(Split(hostname, '.')), '/');
    SwapSeparators(hostname, '.', '/');
    ReversedTwice(Split(hostname, '.'));
    JoinSplit(hostname, '.');
  }

  /** For a key under the root whose tail has no `.`, the hostname gives the key back. */
  lemma HostnameRoundTrip(key: string)
    requires |key| >= |Prefix| && key[..|Prefix|] == Prefix && '.' !in key[|Prefix|..]
    ensures ParseKey(key).Some? && FormatHostname(ParseKey(key).value) == key
  {
    var tail := key[|Prefix|..];
    SwapSeparators(tail, '/', '.');
    ReversedTwice(Split(tail, '/'));
    JoinSplit(tail, '/');
    assert key == Prefix + tail;
  }

  /** Distinct hostnames without `/` get distinct keys. */
  lemma FormatHostnameInjective(h1: string, h2: string)
    requires '/' !in h1 && '/' !in h2
    requires FormatHostname(h1) == FormatHostname(h2)
    ensures h1 == h2
  {
    KeyRoundTrip(h1);
    KeyRoundTrip(h2);
  }

  /** A hostname without dots is a single segment under the root. */
  lemma SingleLabel(hostname: string)
    requires '.' !in hostname
    ensures FormatHostname(hostname) == Prefix + hostname
  {
    SplitWithoutSeparator(hostname, '.');
  }

  /** The empty hostname is not rejected: its key is the bare root. */
  lemma EmptyHostname()
    ensures FormatHostname("") == Prefix
  {
  }

  /** Putting an element in front puts it at the back of the reversal. */
  lemma ReversedCons<T>(x: T, s: seq<T>)
    ensures Reversed([x] + s) == Reversed(s) + [x]
  {
    var l := [x] + s;
    forall i | 0 <= i < |l|
      ensures Reversed(l)[i] == (Reversed(s) + [x])[i]
    {
      ReversedAt(l, i);
      if i < |s| {
        ReversedAt(s, i);
      }
    }
  }

  /**
   * Adding a leading label `first.` to a hostname appends `/first` to its
   * key: the leftmost label is the deepest segment.
   */
  lemma LeadingLabel(first: string, rest: string)
    requires '.' !in first
    ensures FormatHostname(first + "." + rest) == FormatHostname(rest) + "/" + first
  {
    var labels := Split(rest, '.');
    calc {
      FormatHostname(first + "." + rest);
      { SplitLeadingPart(first, '.', rest); }
      Prefix + Join(Reversed([first] + labels), '/');
      { ReversedCons(first, labels); }
      Prefix + Join(Reversed(labels) + [first], '/');
      { JoinAppend(Reversed(labels), '/', first); }
      Prefix + (Join(Reversed(labels), '/') + ['/'] + first);
      FormatHostname(rest) + "/" + first;
    }
  }

  /** A name of three labels becomes the three labels in reverse order. */
  lemma ThreeLabels(a: string, b: string, c: string)
    requires '.' !in a && '.' !in b && '.' !in c
    ensures FormatHostname(a + "." + b + "." + c) == Prefix + c + "/" + b + "/" + a
  {
    SingleLabel(c);
    LeadingLabel(b, c);
    assert a + "." + b + "." + c == a + "." + (b + "." + c);
    LeadingLabel(a, b + "." + c);
  }

  /** The worked example: `a.b.com` is stored under `/internaldns/com/b/a`. */
  lemma ExampleKey(hostname: string)
    requires hostname == "a.b.com"
    ensures FormatHostname(hostname) == "/internaldns/com/b/a"
  {
    var a, b, com := "a", "b", "com";
    assert Prefix + com + "/" + b + "/" + a == "/internaldns/com/b/a";
    assert hostname == a + "." + b + "." + com;
    ThreeLabels(a, b, com);
  }

  /**
   * Labels that contain `/` make the key ambiguous: two different hostnames
   * share one key, so `ParseKey` cannot recover both.
   */
  lemma SlashCollision(h1: string, h2: string)
    requires h1 == "a/b.c" && h2 == "b.a.c"
    ensures h1 != h2 && FormatHostname(h1) == FormatHostname(h2)
  {
    var ab, a, b, c := "a/b", "a", "b", "c";
    assert Prefix + c + "/" + ab == Prefix + c + "/" + a + "/" + b;
    assert h1 == ab + "." + c;
    assert h2 == b + "." + a + "." + c;
    SingleLabel(c);
    LeadingLabel(ab, c);
    ThreeLabels(b, a, c);
  }
}
