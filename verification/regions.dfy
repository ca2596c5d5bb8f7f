/**
 * The region multiselect (main.py lines 88-95): its options are the
 * distinct values of the region column in ascending string order, and
 * Tokyo and Osaka are pre-selected when they occur.
 */
module Regions {
  import Text
  import Sequences

  const Tokyo: string := "東京都"
  const Osaka: string := "大阪府"

  /** Ascending without repetition, in Python's string order. */
  ghost predicate StrictlySorted(s: seq<string>)
  {
    forall i, j :: 0 <= i < j < |s| ==> Text.Less(s[i], s[j])
  }

  /** Adds `x` to a strictly sorted list, unless it is already there. */
  function Insert(x: string, s: seq<string>): (r: seq<string>)
    requires StrictlySorted(s)
    ensures StrictlySorted(r)
    ensures forall y :: y in r <==> y == x || y in s
  {
    if s == [] then [x]
    else if x == s[0] then s
    else if Text.Less(x, s[0]) then
      Text.LessIsStrictOrder();
      [x] + s
    else
      Text.LessTotal(x, s[0]);
      var rest := Insert(x, s[1..]);
      assert forall y :: y in rest ==> Text.Less(s[0], y);
      [s[0]] + rest
  }

  /** `sorted(df[region].unique())`, line 88. */
  function RegionOptions(values: seq<string>): (r: seq<string>)
    ensures StrictlySorted(r)
    ensures forall y :: y in r <==> y in values
  {
    if values == [] then []
    else Insert(values[0], RegionOptions(values[1..]))
  }

  /** A strictly sorted list has no repeated element. */
  lemma StrictlySortedIsUnique(s: seq<string>)
    requires StrictlySorted(s)
    ensures Sequences.Unique(s)
  {
    Text.LessIsStrictOrder();
  }

  /**
   * Two strictly sorted lists with the same elements are equal: the
   * region options are the one ascending, repetition-free listing of the
   * region values.
   */
  lemma {:induction false} SortedListingIsUnique(a: seq<string>, b: seq<string>)
    requires StrictlySorted(a) && StrictlySorted(b)
    requires forall y :: y in a <==> y in b
    ensures a == b
  {
    assert a != [] ==> a[0] in b;
    assert b != [] ==> b[0] in a;
    if a != [] && b != [] {
      Text.LessIsStrictOrder();
      assert a == [a[0]] + a[1..] && b == [b[0]] + b[1..];
      assert a[0] == b[0] by {
        assert a[0] in a && b[0] in b;
        var i :| 0 <= i < |b| && b[i] == a[0];
        var j :| 0 <= j < |a| && a[j] == b[0];
      }
      forall y ensures y in a[1..] <==> y in b[1..] {
        if y in a[1..] {
          var k :| 0 <= k < |a[1..]| && a[1..][k] == y;
          assert a[k + 1] == y && Text.Less(a[0], y);
          assert y in b && y != b[0];
        }
        if y in b[1..] {
          var k :| 0 <= k < |b[1..]| && b[1..][k] == y;
          assert b[k + 1] == y && Text.Less(b[0], y);
          assert y in a && y != a[0];
        }
      }
      SortedListingIsUnique(a[1..], b[1..]);
    }
  }

  /** Lines 91-95: Tokyo, then Osaka, each only if it is an option. */
  function DefaultRegions(options: seq<string>): (r: seq<string>)
    ensures forall y :: y in r <==> y in options && (y == Tokyo || y == Osaka)
    ensures Sequences.IsSubsequence(r, [Tokyo, Osaka])
    ensures |r| <= 2
  {
    (if Tokyo in options then [Tokyo] else []) + (if Osaka in options then [Osaka] else [])
  }
}
