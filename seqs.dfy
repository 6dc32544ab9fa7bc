/** Generic facts about sequences used to model Go slices. */
module Seqs {

  /** Position of the first occurrence of `x` in `s`, as a `for i, v := range s`
      loop with an early `break` finds it. */
  function IndexOf<T(==)>(s: seq<T>, x: T): (i: nat)
    requires x in s
    ensures i < |s| && s[i] == x
    ensures forall j :: 0 <= j < i ==> s[j] != x
  {
    if s[0] == x then 0 else 1 + IndexOf(s[1..], x)
  }

  /** The first index is the only index before which `x` does not occur. */
  lemma IndexOfUnique<T>(s: seq<T>, x: T, i: nat)
    requires i < |s| && s[i] == x
    requires forall j :: 0 <= j < i ==> s[j] != x
    ensures IndexOf(s, x) == i
  {
  }

  /** `s` with every occurrence of `x` removed, preserving the order of the rest. */
  function Without<T(==)>(s: seq<T>, x: T): (r: seq<T>)
    ensures |r| <= |s|
  {
    if s == [] then []
    else (if s[0] == x then [] else [s[0]]) + Without(s[1..], x)
  }

  lemma {:induction false} WithoutMember<T>(s: seq<T>, x: T, y: T)
    ensures y in Without(s, x) <==> y in s && y != x
  {
    if s != [] {
      WithoutMember(s[1..], x, y);
      assert s == [s[0]] + s[1..];
    }
  }

  lemma {:induction false} WithoutAppend<T>(a: seq<T>, b: seq<T>, x: T)
    ensures Without(a + b, x) == Without(a, x) + Without(b, x)
  {
    if a == [] {
      assert a + b == b;
    } else {
      assert (a + b)[1..] == a[1..] + b;
      WithoutAppend(a[1..], b, x);
    }
  }

  /** Removing one occurrence of `x` (the slice splice `s[:i] ++ s[i+1:]`)
      is invisible once all occurrences of `x` are filtered out. */
  lemma {:induction false} WithoutSplice<T>(s: seq<T>, x: T, i: nat)
    requires i < |s| && s[i] == x
    ensures Without(s[..i] + s[i + 1..], x) == Without(s, x)
  {
    var a, b := s[..i], s[i + 1..];
    assert s == (a + [x]) + b;
    assert Without([x], x) == [] by {
      assert [x][1..] == [];
    }
    WithoutAppend(a + [x], b, x);
    WithoutAppend(a, [x], x);
    WithoutAppend(a, b, x);
  }

  lemma {:induction false} WithoutAbsent<T>(s: seq<T>, x: T)
    requires x !in s
    ensures Without(s, x) == s
  {
    if s != [] {
      WithoutAbsent(s[1..], x);
      assert s == [s[0]] + s[1..];
    }
  }

  /** No element occurs twice. */
  predicate NoDup<T(==)>(s: seq<T>)
  {
    forall i, j :: 0 <= i < j < |s| ==> s[i] != s[j]
  }
}
