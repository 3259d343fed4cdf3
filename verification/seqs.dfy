/** Facts about sequences used by the key queue. */
module Seqs {

  /** No element occurs twice. */
  predicate Distinct<T(==)>(xs: seq<T>) {
    forall i, j :: 0 <= i < j < |xs| ==> xs[i] != xs[j]
  }

  /** `xs` lists every element of `e` exactly once and nothing else. */
  predicate Enumerates<T(==)>(xs: seq<T>, e: set<T>) {
    && Distinct(xs)
    && (forall x | x in xs :: x in e)
    && (forall x | x in e :: x in xs)
  }

  /** Go's `append(xs[:i], xs[i+1:]...)`: drop position `i`, keeping the
      order of the other elements. */
  function RemoveAt<T>(xs: seq<T>, i: nat): (r: seq<T>)
    requires i < |xs|
    ensures |r| == |xs| - 1
    ensures forall j :: 0 <= j < i ==> r[j] == xs[j]
    ensures forall j :: i <= j < |r| ==> r[j] == xs[j + 1]
    ensures multiset(r) + multiset{xs[i]} == multiset(xs)
  {
    assert xs == xs[..i] + [xs[i]] + xs[i + 1..];
    xs[..i] + xs[i + 1..]
  }

  /** Removing a position of a duplicate-free sequence removes exactly that
      element and keeps the sequence duplicate-free. */
  lemma RemoveAtDistinct<T>(xs: seq<T>, i: nat)
    requires i < |xs|
    requires Distinct(xs)
    ensures Distinct(RemoveAt(xs, i))
    ensures forall x :: x in RemoveAt(xs, i) <==> x in xs && x != xs[i]
  {
  }

  /** The tail of a duplicate-free sequence is duplicate-free and does not
      contain the head. */
  lemma DistinctTail<T>(xs: seq<T>)
    requires |xs| > 0
    requires Distinct(xs)
    ensures Distinct(xs[1..])
    ensures xs[0] !in xs[1..]
  {
  }
}
