/** Sequences without repeats, and Python's set(list) as a sequence. */
module Seqs {

  ghost predicate NoDuplicates<T>(s: seq<T>)
  {
    forall i, j :: 0 <= i < j < |s| ==> s[i] != s[j]
  }

  /**
   * The elements of s, each once: set(s) written as a sequence (Python's set
   * iteration order is unspecified; this one keeps last occurrences).
   */
  function Distinct<T(==,!new)>(s: seq<T>): (r: seq<T>)
    ensures NoDuplicates(r)
    ensures forall x :: x in r <==> x in s
    ensures |r| <= |s|
  {
    if s == [] then []
    else if s[0] in s[1..] then Distinct(s[1..])
    else [s[0]] + Distinct(s[1..])
  }

  /** A sequence without repeats has as many elements as the set it holds. */
  lemma {:induction false} NoDuplicatesCardinality<T>(s: seq<T>)
    requires NoDuplicates(s)
    ensures |set x | x in s| == |s|
  {
    if s != [] {
      NoDuplicatesCardinality(s[1..]);
      assert (set x | x in s) == (set x | x in s[1..]) + {s[0]};
      assert s[0] !in s[1..];
    }
  }
}
