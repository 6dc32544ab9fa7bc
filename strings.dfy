/** The parts of Go's `strings` and `unicode` packages that the proxy-list
    parser relies on: `TrimSpace`, `HasPrefix`, `Split` (and its inverse, `Join`). */
module Strings {
  import opened Seqs

  /** The characters Go's `unicode.IsSpace` accepts: `\t \n \v \f \r`, the
      space, U+0085 and U+00A0 from Latin-1, and the Unicode White_Space code
      points above U+00FF (U+1680, U+2000 to U+200A, U+2028, U+2029, U+202F,
      U+205F, U+3000). */
  const Spaces: set<char> := {
    '\t', '\n', '\U{000B}', '\U{000C}', '\r', ' ', '\U{0085}', '\U{00A0}', '\U{1680}',
    '\U{2000}', '\U{2001}', '\U{2002}', '\U{2003}', '\U{2004}', '\U{2005}',
    '\U{2006}', '\U{2007}', '\U{2008}', '\U{2009}', '\U{200A}',
    '\U{2028}', '\U{2029}', '\U{202F}', '\U{205F}', '\U{3000}'}

  /** Go's `unicode.IsSpace`. */
  predicate IsSpace(c: char)
  {
    c in Spaces
  }

  /** How many white-space characters `s` starts with. */
  function LeadingSpaces(s: string): (n: nat)
    ensures n <= |s|
    ensures n < |s| ==> !IsSpace(s[n])
  {
    if s != [] && IsSpace(s[0]) then
      var n := LeadingSpaces(s[1..]);
      assert n < |s| - 1 ==> s[1..][n] == s[n + 1];
      1 + n
    else 0
  }

  /** Where the trailing white space of `s` begins. */
  function ContentEnd(s: string): (n: nat)
    ensures n <= |s|
    ensures n > 0 ==> !IsSpace(s[n - 1])
  {
    if s != [] && IsSpace(s[|s| - 1]) then
      var n := ContentEnd(s[..|s| - 1]);
      assert n > 0 ==> s[..|s| - 1][n - 1] == s[n - 1];
      n
    else |s|
  }

  /** Everything before `LeadingSpaces(s)` is white space. */
  lemma {:induction false} LeadingAreSpaces(s: string)
    ensures forall i :: 0 <= i < LeadingSpaces(s) ==> IsSpace(s[i])
    decreases |s|
  {
    if s != [] && IsSpace(s[0]) {
      LeadingAreSpaces(s[1..]);
      forall i | 1 <= i < LeadingSpaces(s)
        ensures IsSpace(s[i])
      {
        assert s[i] == s[1..][i - 1];
      }
    }
  }

  /** Everything from `ContentEnd(s)` on is white space. */
  lemma {:induction false} TrailingAreSpaces(s: string)
    ensures forall i :: ContentEnd(s) <= i < |s| ==> IsSpace(s[i])
    decreases |s|
  {
    if s != [] && IsSpace(s[|s| - 1]) {
      TrailingAreSpaces(s[..|s| - 1]);
      forall i | ContentEnd(s) <= i < |s| - 1
        ensures IsSpace(s[i])
      {
        assert s[i] == s[..|s| - 1][i];
      }
    }
  }

  /** Go's `strings.TrimSpace`: the slice of `s` between its leading and its
      trailing white space. */
  function TrimSpace(s: string): string
  {
    var lo := LeadingSpaces(s);
    s[lo..lo + ContentEnd(s[lo..])]
  }

  /** `TrimSpace(s)` is the infix of `s` starting after its leading white space:
      only white space lies outside it, and it neither starts nor ends with a space. */
  lemma TrimSpaceInfix(s: string)
    ensures var r, lo := TrimSpace(s), LeadingSpaces(s);
      && lo + |r| <= |s| && r == s[lo..lo + |r|]
      && (forall i :: 0 <= i < lo ==> IsSpace(s[i]))
      && (forall i :: lo + |r| <= i < |s| ==> IsSpace(s[i]))
      && (r != [] ==> !IsSpace(r[0]) && !IsSpace(r[|r| - 1]))
  {
    var lo := LeadingSpaces(s);
    var l := s[lo..];
    var hi := ContentEnd(l);
    LeadingAreSpaces(s);
    TrailingAreSpaces(l);
    forall i | lo + hi <= i < |s|
      ensures IsSpace(s[i])
    {
      assert s[i] == l[i - lo];
    }
    if hi > 0 {
      var r := TrimSpace(s);
      assert r == s[lo..lo + hi];
      assert r[0] == s[lo] && !IsSpace(s[lo]);
      assert r[hi - 1] == l[hi - 1] && !IsSpace(l[hi - 1]);
    }
  }

  /** A string that neither starts nor ends with white space is its own trim. */
  lemma TrimSpaceUnchanged(s: string)
    requires s != [] && !IsSpace(s[0]) && !IsSpace(s[|s| - 1])
    ensures TrimSpace(s) == s
  {
    assert LeadingSpaces(s) == 0;
    assert s[0..] == s && s[0..|s|] == s;
  }

  /** Trimming twice is trimming once. */
  lemma TrimSpaceIdempotent(s: string)
    ensures TrimSpace(TrimSpace(s)) == TrimSpace(s)
  {
    var r := TrimSpace(s);
    TrimSpaceInfix(s);
    if r != [] {
      TrimSpaceUnchanged(r);
    }
  }

  /** Go's `strings.HasPrefix`. */
  predicate HasPrefix(s: string, prefix: string)
  {
    |prefix| <= |s| && s[..|prefix|] == prefix
  }

  /** Go's `strings.Split(s, sep)` for a one-character separator: the pieces of
      `s` between the occurrences of `sep`, in order. */
  function Split(s: string, sep: char): (parts: seq<string>)
    ensures |parts| >= 1
    ensures forall k :: 0 <= k < |parts| ==> sep !in parts[k]
    decreases |s|
  {
    if sep in s then
      var i := IndexOf(s, sep);
      [s[..i]] + Split(s[i + 1..], sep)
    else
      [s]
  }

  /** Go's `strings.Join(parts, sep)`. */
  function Join(parts: seq<string>, sep: char): (s: string)
    requires |parts| >= 1
  {
    if |parts| == 1 then parts[0] else parts[0] + [sep] + Join(parts[1..], sep)
  }

  /** Four pieces joined: the separator between each neighbouring pair. */
  lemma Join4(parts: seq<string>, sep: char)
    requires |parts| == 4
    ensures Join(parts, sep) == parts[0] + [sep] + parts[1] + [sep] + parts[2] + [sep] + parts[3]
  {
    var t := parts[1..];
    var u := t[1..];
    assert Join(u, sep) == parts[2] + [sep] + parts[3] by {
      assert u[1..] == [parts[3]];
    }
    assert Join(t, sep) == parts[1] + [sep] + (parts[2] + [sep] + parts[3]);
    var a, b := parts[0] + [sep], parts[1] + [sep];
    assert a + (b + (parts[2] + [sep] + parts[3])) == a + b + parts[2] + [sep] + parts[3];
  }

  /** `Split` yields one more piece than there are separators. */
  lemma {:induction false} SplitCount(s: string, sep: char)
    ensures |Split(s, sep)| == multiset(s)[sep] + 1
    decreases |s|
  {
    if sep in s {
      var i := IndexOf(s, sep);
      assert s == s[..i] + [sep] + s[i + 1..];
      assert sep !in s[..i];
      SplitCount(s[i + 1..], sep);
    } else {
      assert multiset(s)[sep] == 0;
    }
  }

  /** Joining the pieces back with the separator gives the original string. */
  lemma {:induction false} JoinSplit(s: string, sep: char)
    ensures Join(Split(s, sep), sep) == s
    decreases |s|
  {
    if sep in s {
      var i := IndexOf(s, sep);
      JoinSplit(s[i + 1..], sep);
      assert s == s[..i] + [sep] + s[i + 1..];
      var parts := Split(s, sep);
      assert parts[1..] == Split(s[i + 1..], sep);
    }
  }

  /** `Split` cuts at the first separator. */
  lemma SplitAt(s: string, sep: char, i: nat)
    requires i < |s| && s[i] == sep && sep !in s[..i]
    ensures Split(s, sep) == [s[..i]] + Split(s[i + 1..], sep)
  {
    assert forall j :: 0 <= j < i ==> s[j] == s[..i][j];
    IndexOfUnique(s, sep, i);
  }

  /** Splitting a join of separator-free pieces gives the pieces back. */
  lemma {:induction false} SplitJoin(parts: seq<string>, sep: char)
    requires |parts| >= 1
    requires forall k :: 0 <= k < |parts| ==> sep !in parts[k]
    ensures Split(Join(parts, sep), sep) == parts
  {
    if |parts| > 1 {
      var head, tail := parts[0], Join(parts[1..], sep);
      var s := head + [sep] + tail;
      assert Join(parts, sep) == s;
      assert s[..|head|] == head;
      assert s[|head| + 1..] == tail;
      SplitAt(s, sep, |head|);
      SplitJoin(parts[1..], sep);
      assert parts == [head] + parts[1..];
    }
  }
}
