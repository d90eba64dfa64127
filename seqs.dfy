/** Facts about sequences shared by several stages. */
module Seqs {
  /** No element occurs twice. */
  predicate Distinct<T(==)>(s: seq<T>) {
    forall i, j :: 0 <= i < j < |s| ==> s[i] != s[j]
  }

  /** Two distinct sequences with no common element concatenate to a distinct sequence. */
  lemma DistinctConcat<T>(a: seq<T>, b: seq<T>)
    requires Distinct(a) && Distinct(b) && forall x :: x in a ==> x !in b
    ensures Distinct(a + b)
  {
    forall i, j | 0 <= i < j < |a + b| ensures (a + b)[i] != (a + b)[j] {
      if i < |a| && j >= |a| {
        assert (a + b)[i] in a && (a + b)[j] == b[j - |a|];
      }
    }
  }

  /** In a distinct sequence, no element occurs before its own position. */
  lemma DistinctPrefixLast<T>(s: seq<T>, j: nat)
    requires Distinct(s) && j < |s|
    ensures s[j] !in s[..j]
  {
    forall i | 0 <= i < j ensures s[..j][i] != s[j] {
      assert s[..j][i] == s[i];
    }
  }

  /** The prefix of length `j + 1` is the prefix of length `j` and then element `j`. */
  lemma PrefixSnoc<T>(s: seq<T>, j: nat, k: nat)
    requires k == j + 1 <= |s|
    ensures s[..k] == s[..j] + [s[j]]
  {
  }

  /** `0..n` collected into a vector. */
  function Iota(n: nat): (r: seq<nat>)
    ensures |r| == n && forall i :: 0 <= i < n ==> r[i] == i
  {
    seq(n, i requires 0 <= i => i)
  }

  /** Every id below `n` occurs exactly once in `0..n`. */
  lemma {:induction false} IotaCounts(n: nat, v: nat)
    ensures multiset(Iota(n))[v] == if v < n then 1 else 0
  {
    if n > 0 {
      assert Iota(n) == Iota(n - 1) + [n - 1];
      IotaCounts(n - 1, v);
    }
  }

  /** A reordering of `0..n` holds every id below `n`, each once. */
  lemma PermutationOfIota(a: seq<nat>, n: nat)
    requires multiset(a) == multiset(Iota(n))
    ensures |a| == n && Distinct(a)
    ensures forall i :: 0 <= i < |a| ==> a[i] < n
  {
    assert |a| == |multiset(a)| == |multiset(Iota(n))| == n;
    forall i | 0 <= i < |a| ensures a[i] < n {
      assert a[i] in multiset(a);
      IotaCounts(n, a[i]);
    }
    forall i, j | 0 <= i < j < |a| ensures a[i] != a[j] {
      if a[i] == a[j] {
        assert a == a[..i] + [a[i]] + a[i + 1..j] + [a[j]] + a[j + 1..];
        assert multiset(a)[a[i]] >= 2;
        IotaCounts(n, a[i]);
      }
    }
  }
}
