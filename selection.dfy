/** Order-preserving selection of the elements that satisfy a per-element test. */
module Selection {

  /** The elements of `s` that satisfy `keep`, in their original order. */
  function Select<T>(keep: T -> bool, s: seq<T>): seq<T> {
    if s == [] then []
    else (if keep(s[0]) then [s[0]] else []) + Select(keep, s[1..])
  }

  /** `sub` can be obtained from `s` by deleting elements, without reordering or duplicating any. */
  predicate IsSubsequence<T(==)>(sub: seq<T>, s: seq<T>)
    decreases |s|
  {
    if sub == [] then true
    else if s == [] then false
    else (sub[0] == s[0] && IsSubsequence(sub[1..], s[1..])) || IsSubsequence(sub, s[1..])
  }

  /** Selection is per element, so it distributes over concatenation. */
  lemma {:induction false} SelectDistributes<T>(keep: T -> bool, a: seq<T>, b: seq<T>)
    ensures Select(keep, a + b) == Select(keep, a) + Select(keep, b)
    decreases |a|
  {
    if a != [] {
      assert (a + b)[1..] == a[1..] + b;
      SelectDistributes(keep, a[1..], b);
    } else {
      assert a + b == b;
    }
  }

  /** An element is selected exactly when it occurs in the input and passes the test. */
  lemma {:induction false} SelectMembership<T>(keep: T -> bool, s: seq<T>, x: T)
    ensures x in Select(keep, s) <==> x in s && keep(x)
    decreases |s|
  {
    if s != [] {
      SelectMembership(keep, s[1..], x);
      assert s == [s[0]] + s[1..];
    }
  }

  /** The selection keeps the input's order and neither adds nor duplicates anything. */
  lemma {:induction false} SelectIsSubsequence<T>(keep: T -> bool, s: seq<T>)
    ensures IsSubsequence(Select(keep, s), s)
    decreases |s|
  {
    if s != [] {
      SelectIsSubsequence(keep, s[1..]);
      if keep(s[0]) {
        assert Select(keep, s)[1..] == Select(keep, s[1..]);
      } else {
        assert Select(keep, s) == Select(keep, s[1..]);
        SubsequenceOfTail(Select(keep, s), s);
      }
    }
  }

  lemma SubsequenceOfTail<T>(sub: seq<T>, s: seq<T>)
    requires s != [] && IsSubsequence(sub, s[1..])
    ensures IsSubsequence(sub, s)
  {
  }

  /** A prefix of a subsequence is a subsequence too. */
  lemma {:induction false} PrefixOfSubsequence<T>(sub: seq<T>, s: seq<T>, n: nat)
    requires IsSubsequence(sub, s) && n <= |sub|
    ensures IsSubsequence(sub[..n], s)
    decreases |s|
  {
    if n == 0 {
    } else if s != [] {
      if sub[0] == s[0] && IsSubsequence(sub[1..], s[1..]) {
        PrefixOfSubsequence(sub[1..], s[1..], n - 1);
        assert sub[..n][1..] == sub[1..][..n - 1];
      } else {
        PrefixOfSubsequence(sub, s[1..], n);
      }
    }
  }

  /** A sequence whose every element passes the test is selected whole. */
  lemma {:induction false} SelectAllPass<T>(keep: T -> bool, s: seq<T>)
    requires forall i :: 0 <= i < |s| ==> keep(s[i])
    ensures Select(keep, s) == s
    decreases |s|
  {
    if s != [] {
      SelectAllPass(keep, s[1..]);
      assert s == [s[0]] + s[1..];
    }
  }

  /** Selecting twice is selecting once. */
  lemma SelectIdempotent<T>(keep: T -> bool, s: seq<T>)
    ensures Select(keep, Select(keep, s)) == Select(keep, s)
  {
    var once := Select(keep, s);
    forall i | 0 <= i < |once|
      ensures keep(once[i])
    {
      SelectMembership(keep, s, once[i]);
    }
    SelectAllPass(keep, once);
  }
}
