/**
 * Subsequences: `a` is obtained from `s` by deleting zero or more elements
 * and keeping the rest in their original order. Both the candidate filter and
 * the guess sanitizer produce subsequences of their input.
 */
module Subsequence {

  /** `a` can be read off `s` left to right, skipping elements of `s`. */
  ghost predicate IsSubsequence<T>(a: seq<T>, s: seq<T>)
    decreases |s|
  {
    if a == [] then true
    else if s == [] then false
    else
      IsSubsequence(a, s[..|s| - 1])
      || (a[|a| - 1] == s[|s| - 1] && IsSubsequence(a[..|a| - 1], s[..|s| - 1]))
  }

  lemma {:induction false} SubsequenceReflexive<T>(s: seq<T>)
    ensures IsSubsequence(s, s)
    decreases |s|
  {
    if s != [] {
      SubsequenceReflexive(s[..|s| - 1]);
    }
  }

  /** A subsequence is never longer than the sequence it is taken from. */
  lemma {:induction false} SubsequenceLength<T>(a: seq<T>, s: seq<T>)
    requires IsSubsequence(a, s)
    ensures |a| <= |s|
    decreases |s|
  {
    if a != [] && s != [] {
      if IsSubsequence(a, s[..|s| - 1]) {
        SubsequenceLength(a, s[..|s| - 1]);
      } else {
        SubsequenceLength(a[..|a| - 1], s[..|s| - 1]);
      }
    }
  }

  /** Every element of a subsequence is an element of the whole. */
  lemma {:induction false} SubsequenceMembers<T>(a: seq<T>, s: seq<T>, x: T)
    requires IsSubsequence(a, s) && x in a
    ensures x in s
    decreases |s|
  {
    if a != [] && s != [] {
      if IsSubsequence(a, s[..|s| - 1]) {
        SubsequenceMembers(a, s[..|s| - 1], x);
      } else if x != a[|a| - 1] {
        assert a == a[..|a| - 1] + [a[|a| - 1]];
        SubsequenceMembers(a[..|a| - 1], s[..|s| - 1], x);
      }
    }
  }

  lemma {:induction false} SubsequenceTransitive<T>(a: seq<T>, b: seq<T>, c: seq<T>)
    requires IsSubsequence(a, b) && IsSubsequence(b, c)
    ensures IsSubsequence(a, c)
    decreases |c|
  {
    if a != [] && b != [] && c != [] {
      var c' := c[..|c| - 1];
      if IsSubsequence(b, c') {
        SubsequenceTransitive(a, b, c');
      } else {
        var b' := b[..|b| - 1];
        if IsSubsequence(a, b') {
          SubsequenceTransitive(a, b', c');
        } else {
          SubsequenceTransitive(a[..|a| - 1], b', c');
        }
      }
    }
  }
}
