// Permutations of sequences.
module Sequences {

  ghost function Without<T>(s: seq<T>, k: nat): seq<T>
    requires k < |s|
  {
    s[..k] + s[k + 1..]
  }

  lemma RemoveOne<T>(s: seq<T>, k: nat)
    requires k < |s|
    ensures multiset(s) == multiset(Without(s, k)) + multiset{s[k]}
  {
    assert s == s[..k] + [s[k]] + s[k + 1..];
  }

  lemma CancelOne<T>(a: multiset<T>, b: multiset<T>, x: T)
    requires a + multiset{x} == b + multiset{x}
    ensures a == b
  {
    assert a == (a + multiset{x}) - multiset{x};
    assert b == (b + multiset{x}) - multiset{x};
  }

  // Where the first element of s stands in a permutation t; without it both are permutations again.
  lemma FirstInPermutation<T>(s: seq<T>, t: seq<T>) returns (k: nat)
    requires |s| > 0 && multiset(s) == multiset(t)
    ensures k < |t| && t[k] == s[0]
    ensures multiset(Without(s, 0)) == multiset(Without(t, k))
  {
    assert s[0] in multiset(t);
    k :| 0 <= k < |t| && t[k] == s[0];
    RemoveOne(s, 0);
    RemoveOne(t, k);
    CancelOne(multiset(Without(s, 0)), multiset(Without(t, k)), s[0]);
  }

  ghost function Renamed<T, U>(s: seq<T>, f: T -> U): (t: seq<U>)
    ensures |t| == |s| && forall i :: 0 <= i < |s| ==> t[i] == f(s[i])
  {
    seq(|s|, i requires 0 <= i < |s| => f(s[i]))
  }

  lemma {:induction false} RenamedPermutation<T, U>(s: seq<T>, t: seq<T>, f: T -> U)
    requires multiset(s) == multiset(t)
    ensures multiset(Renamed(s, f)) == multiset(Renamed(t, f))
    decreases |s|
  {
    if |s| == 0 {
      assert |t| == |multiset(t)| == 0;
    } else {
      var k := FirstInPermutation(s, t);
      RenamedPermutation(Without(s, 0), Without(t, k), f);
      RemoveOne(Renamed(s, f), 0);
      RemoveOne(Renamed(t, f), k);
      assert Renamed(Without(s, 0), f) == Without(Renamed(s, f), 0);
      assert Renamed(Without(t, k), f) == Without(Renamed(t, f), k);
    }
  }

  lemma DistinctHasMultiplicityOne<T>(s: seq<T>, x: T)
    requires forall i, j :: 0 <= i < j < |s| ==> s[i] != s[j]
    ensures multiset(s)[x] <= 1
  {
    if x in s {
      var k :| 0 <= k < |s| && s[k] == x;
      assert s == s[..k] + [x] + s[k + 1..];
      assert x !in s[..k] && x !in s[k + 1..];
    }
  }

  // A permutation of a sequence without repetitions has none either.
  lemma DistinctPermutation<T>(s: seq<T>, t: seq<T>)
    requires multiset(s) == multiset(t)
    requires forall i, j :: 0 <= i < j < |s| ==> s[i] != s[j]
    ensures forall i, j :: 0 <= i < j < |t| ==> t[i] != t[j]
  {
    forall i, j | 0 <= i < j < |t|
      ensures t[i] != t[j]
    {
      DistinctHasMultiplicityOne(s, t[j]);
      assert t == t[..j] + [t[j]] + t[j + 1..];
      assert t[i] in t[..j] by {
        assert t[..j][i] == t[i];
      }
    }
  }
}
