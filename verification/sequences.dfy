/**
 * Generic facts about finite sequences used by the dashboard model:
 * order-preserving sub-sequences, duplicate-free sequences and the
 * first-occurrence search of Python's `list.index`.
 */
module Sequences {

  /** `sub` is obtained from `s` by deleting elements, keeping the order of the rest. */
  ghost predicate IsSubsequence<T>(sub: seq<T>, s: seq<T>)
  {
    if s == [] then sub == []
    else (sub != [] && sub[0] == s[0] && IsSubsequence(sub[1..], s[1..]))
         || IsSubsequence(sub, s[1..])
  }

  /** No element occurs twice. */
  predicate Unique<T(==)>(s: seq<T>)
  {
    forall i, j :: 0 <= i < j < |s| ==> s[i] != s[j]
  }

  /**
   * Python's `list.index(x)`: the position of the first occurrence of `x`.
   * The source raises ValueError when `x` is absent; every call in the
   * model is guarded by membership, so that case is a precondition here.
   */
  function IndexOf<T(==)>(s: seq<T>, x: T): (i: nat)
    requires x in s
    ensures i < |s| && s[i] == x
    ensures forall j :: 0 <= j < i ==> s[j] != x
  {
    if s[0] == x then 0
    else
      assert x in s[1..] by { assert s == [s[0]] + s[1..]; }
      1 + IndexOf(s[1..], x)
  }

  /** In a duplicate-free sequence, the first occurrence of `s[k]` is at `k`. */
  lemma IndexOfUnique<T>(s: seq<T>, k: nat)
    requires Unique(s) && k < |s|
    ensures IndexOf(s, s[k]) == k
  {
  }
}
