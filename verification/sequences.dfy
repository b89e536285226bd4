/** Facts about sequences shared by the argument scan and the pending queue. */
module Sequences {
  import opened Wrappers


  /** No value occurs twice in `s`. */
  predicate NoDuplicates<T(==)>(s: seq<T>)
  {
    forall i, j :: 0 <= i < j < |s| ==> s[i] != s[j]
  }

  /** Appending a value that is not yet present keeps `s` duplicate-free. */
  lemma AppendFreshNoDuplicates<T>(s: seq<T>, x: T)
    requires NoDuplicates(s) && x !in s
    ensures NoDuplicates(s + [x])
  {
  }

  /** Every element of a suffix is an element of the whole sequence. */
  lemma SuffixElements<T>(s: seq<T>, k: nat)
    requires k <= |s|
    ensures forall x :: x in s[k..] ==> x in s
  {
    forall x | x in s[k..]
      ensures x in s
    {
      var i :| 0 <= i < |s[k..]| && s[k..][i] == x;
      assert s[k + i] == x;
    }
  }

  /** Every suffix of a duplicate-free sequence is duplicate-free. */
  lemma SuffixNoDuplicates<T>(s: seq<T>, k: nat)
    requires NoDuplicates(s) && k <= |s|
    ensures NoDuplicates(s[k..])
  {
  }

  /** Position of the first `x` in `xs`, or `|xs|` when there is none. */
  function FirstIndex<T(==)>(xs: seq<T>, x: T): (k: nat)
    ensures k <= |xs|
    ensures k < |xs| ==> xs[k] == x
    ensures forall j :: 0 <= j < k ==> xs[j] != x
  {
    if xs == [] then 0
    else if xs[0] == x then 0
    else 1 + FirstIndex(xs[1..], x)
  }

  /** The present values of `found`, each kept once, in the order in which
      they first appear. */
  method KeepFirstOccurrences<T(==)>(found: seq<Option<T>>) returns (kept: seq<T>)
    ensures NoDuplicates(kept)
    ensures |kept| <= |found|
    ensures forall x :: x in kept ==> FirstIndex(found, Some(x)) < |found|
    ensures forall k :: 0 <= k < |found| && found[k].Some? ==> found[k].value in kept
    ensures forall p, q :: 0 <= p < q < |kept| ==>
      FirstIndex(found, Some(kept[p])) < FirstIndex(found, Some(kept[q]))
  {
    kept := [];
    var i := 0;
    while i < |found|
      invariant 0 <= i <= |found|
      invariant NoDuplicates(kept)
      invariant |kept| <= i
      invariant forall x :: x in kept ==> FirstIndex(found, Some(x)) < i
      invariant forall k :: 0 <= k < i && found[k].Some? ==> found[k].value in kept
      invariant forall p, q :: 0 <= p < q < |kept| ==>
        FirstIndex(found, Some(kept[p])) < FirstIndex(found, Some(kept[q]))
    {
      if found[i].Some? {
        var x := found[i].value;
        if x !in kept {
          assert FirstIndex(found, Some(x)) == i;
          kept := kept + [x];
        }
      }
      i := i + 1;
    }
  }
}
