/** What the lists of several components share: no element twice, and taking one out. */
module Sequences {

  predicate AllDifferent<T(==)>(s: seq<T>) {
    forall i, j :: 0 <= i < j < |s| ==> s[i] != s[j]
  }

  function RemoveAt<T>(s: seq<T>, k: nat): (r: seq<T>)
    requires k < |s|
    ensures |r| == |s| - 1
    ensures forall i :: 0 <= i < |r| ==> r[i] == s[if i < k then i else i + 1]
  {
    s[..k] + s[k + 1..]
  }

  lemma OnlyAt<T>(s: seq<T>, j: nat)
    requires AllDifferent(s) && j < |s|
    ensures forall i :: 0 <= i < |s| && i != j ==> s[i] != s[j]
  {
  }

  lemma RemoveKeeps<T>(s: seq<T>, k: nat)
    requires AllDifferent(s) && k < |s|
    ensures AllDifferent(RemoveAt(s, k))
  {
  }
}
