/** Facts about sequences and sets that several modules use. */
module Sequences {
  /** The sequence without its element `k`. */
  function Erased<T>(s: seq<T>, k: nat): seq<T>
    requires k < |s|
  {
    s[..k] + s[k + 1..]
  }

  lemma ErasedEntries<T>(s: seq<T>, k: nat)
    requires k < |s|
    ensures forall j :: 0 <= j < |Erased(s, k)| ==> Erased(s, k)[j] == s[if j < k then j else j + 1] && Erased(s, k)[j] in s
    ensures forall j :: 0 <= j < |s| && j != k ==> s[j] in Erased(s, k)
  {
    var r := Erased(s, k);
    assert forall j :: 0 <= j < |r| ==> r[j] == s[if j < k then j else j + 1];
    forall j | 0 <= j < |s| && j != k
      ensures s[j] in r
    {
      assert r[if j < k then j else j - 1] == s[j];
    }
  }

  lemma ErasedMultiset<T>(s: seq<T>, k: nat)
    requires k < |s|
    ensures multiset(Erased(s, k)) == multiset(s) - multiset{s[k]}
    ensures multiset(Erased(s, k) + [s[k]]) == multiset(s)
  {
    assert s == s[..k] + [s[k]] + s[k + 1..];
    MiddleMultiset(s[..k], s[k], s[k + 1..]);
  }

  lemma MiddleMultiset<T>(a: seq<T>, x: T, b: seq<T>)
    ensures multiset(a + [x] + b) == multiset(a) + multiset{x} + multiset(b)
    ensures multiset(a + b) == multiset(a) + multiset(b) && multiset(a + b + [x]) == multiset(a + [x] + b)
  {
  }

  ghost predicate Distinct<T>(s: seq<T>) { forall i, j :: 0 <= i < j < |s| ==> s[i] != s[j] }

  /** The sequence backwards. */
  function Reversed<T>(s: seq<T>): (r: seq<T>)
    ensures |r| == |s| && forall i :: 0 <= i < |s| ==> r[i] == s[|s| - 1 - i]
  {
    seq(|s|, i requires 0 <= i < |s| => s[|s| - 1 - i])
  }

  lemma ReversedSnoc<T>(s: seq<T>, x: T)
    ensures Reversed(s + [x]) == [x] + Reversed(s)
  {
  }

  lemma ReversedLast<T>(s: seq<T>)
    requires s != []
    ensures Reversed(s) == [s[|s| - 1]] + Reversed(s[..|s| - 1])
  {
  }

  lemma SubsetSize<T>(a: set<T>, b: set<T>)
    requires a <= b
    ensures |a| <= |b|
  {
    assert b == a + (b - a);
  }
}
