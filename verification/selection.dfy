/**
 * Comparing the selected regions (main.py lines 104-112 and 164): the
 * soft cap warning, the row filter on the region column and the detail
 * table sorted by the chosen category, largest first.
 */
module Selection {
  import Sequences

  /** One row of the uploaded table: its region cell and its numeric category cells by header. */
  datatype Row = Row(region: string, values: map<string, int>)

  /** One line of the detail table: region and the chosen category's value. */
  datatype Entry = Entry(region: string, value: int)

  datatype Option<T> = None | Some(value: T)

  /** What the comparison section shows once at least one region is selected. */
  datatype Comparison = Comparison(filtered: seq<Row>, detail: seq<Entry>)

  /** The outcome of one selection: the soft-cap warning and, if anything is selected, the comparison. */
  datatype View = View(warning: bool, comparison: Option<Comparison>)

  /** Selecting more regions than this shows a warning (line 104). */
  const SoftCap: nat := 5

  /** The region column, `df[prefecture_col]`. */
  function RegionValues(rows: seq<Row>): (r: seq<string>)
    ensures |r| == |rows|
    ensures forall y :: y in r <==> exists row :: row in rows && row.region == y
  {
    var r := seq(|rows|, i requires 0 <= i < |rows| => rows[i].region);
    forall y ensures y in r <==> exists row :: row in rows && row.region == y {
      if y in r {
        var i :| 0 <= i < |r| && r[i] == y;
        assert rows[i] in rows;
      }
      if exists row :: row in rows && row.region == y {
        var row :| row in rows && row.region == y;
        var i :| 0 <= i < |rows| && rows[i] == row;
        assert r[i] == y;
      }
    }
    r
  }

  /** Every row has a cell for `category`. */
  predicate HasCategory(rows: seq<Row>, category: string)
  {
    forall row :: row in rows ==> category in row.values
  }

  /** `df[df[prefecture_col].isin(selected)]`, line 112. */
  function Filter(rows: seq<Row>, selected: seq<string>): (r: seq<Row>)
    ensures Sequences.IsSubsequence(r, rows)
    ensures forall row :: row in r ==> row in rows && row.region in selected
    ensures forall row :: multiset(r)[row] == if row.region in selected then multiset(rows)[row] else 0
  {
    if rows == [] then []
    else
      assert rows == [rows[0]] + rows[1..];
      var rest := Filter(rows[1..], selected);
      if rows[0].region in selected then [rows[0]] + rest else rest
  }

  /** `filtered_df[[prefecture_col, category]]`, line 164. */
  function Project(rows: seq<Row>, category: string): (r: seq<Entry>)
    requires HasCategory(rows, category)
    ensures |r| == |rows|
    ensures forall i :: 0 <= i < |rows| ==> r[i] == Entry(rows[i].region, rows[i].values[category])
  {
    seq(|rows|, i requires 0 <= i < |rows| => Entry(rows[i].region, rows[i].values[category]))
  }

  /** Values never increase from one entry to a later one. */
  ghost predicate NonIncreasing(s: seq<Entry>)
  {
    forall i, j :: 0 <= i < j < |s| ==> s[i].value >= s[j].value
  }

  function InsertDescending(e: Entry, s: seq<Entry>): (r: seq<Entry>)
    requires NonIncreasing(s)
    ensures NonIncreasing(r)
    ensures multiset(r) == multiset(s) + multiset{e}
    ensures r != [] && (r[0] == e || (s != [] && r[0] == s[0]))
  {
    if s == [] then [e]
    else if e.value >= s[0].value then
      ConsNonIncreasing(e, s);
      [e] + s
    else
      var rest := InsertDescending(e, s[1..]);
      ConsNonIncreasing(s[0], rest);
      assert s == [s[0]] + s[1..];
      [s[0]] + rest
  }

  /** Putting an entry no smaller than the head in front keeps a list descending. */
  lemma ConsNonIncreasing(x: Entry, t: seq<Entry>)
    requires NonIncreasing(t) && (t != [] ==> x.value >= t[0].value)
    ensures NonIncreasing([x] + t)
  {
    var u := [x] + t;
    forall i, j | 0 <= i < j < |u| ensures u[i].value >= u[j].value {
      if i == 0 {
        assert u[j] == t[j - 1];
        assert t[0].value >= t[j - 1].value;
      } else {
        assert u[i] == t[i - 1] && u[j] == t[j - 1];
      }
    }
  }

  /**
   * `sort_values(by=category, ascending=False)`, line 164. The order of
   * entries with equal values is not specified.
   */
  function SortDescending(s: seq<Entry>): (r: seq<Entry>)
    ensures NonIncreasing(r)
    ensures multiset(r) == multiset(s)
  {
    if s == [] then []
    else
      assert s == [s[0]] + s[1..];
      InsertDescending(s[0], SortDescending(s[1..]))
  }

  /** The detail table of line 164 over the rows filtered at line 112. */
  function DetailTable(rows: seq<Row>, selected: seq<string>, category: string): (r: seq<Entry>)
    requires HasCategory(rows, category)
    ensures NonIncreasing(r)
    ensures multiset(r) == multiset(Project(Filter(rows, selected), category))
  {
    SortDescending(Project(Filter(rows, selected), category))
  }

  /** Every row contributes its entry to the projection. */
  lemma ProjectHasRow(rows: seq<Row>, category: string, row: Row)
    requires HasCategory(rows, category) && row in rows
    ensures Entry(row.region, row.values[category]) in Project(rows, category)
  {
    var i :| 0 <= i < |rows| && rows[i] == row;
    assert Project(rows, category)[i] == Entry(row.region, row.values[category]);
  }

  /** Every entry of the projection comes from a row. */
  lemma ProjectFromRow(rows: seq<Row>, category: string, e: Entry)
    requires HasCategory(rows, category) && e in Project(rows, category)
    ensures exists row :: row in rows && e == Entry(row.region, row.values[category])
  {
    var i :| 0 <= i < |rows| && Project(rows, category)[i] == e;
    assert rows[i] in rows;
  }

  /** The detail table holds one entry per selected row, with that row's value, and nothing else. */
  lemma DetailTableContents(rows: seq<Row>, selected: seq<string>, category: string)
    requires HasCategory(rows, category)
    ensures |DetailTable(rows, selected, category)| == |Filter(rows, selected)|
    ensures forall e :: e in DetailTable(rows, selected, category) ==>
      exists row :: row in rows && row.region in selected && e == Entry(row.region, row.values[category])
    ensures forall row :: row in rows && row.region in selected ==>
      Entry(row.region, row.values[category]) in DetailTable(rows, selected, category)
  {
    var filtered := Filter(rows, selected);
    var projected := Project(filtered, category);
    var table := DetailTable(rows, selected, category);
    assert |table| == |multiset(table)| == |multiset(projected)| == |projected|;
    forall e | e in table
      ensures exists row :: row in rows && row.region in selected && e == Entry(row.region, row.values[category])
    {
      assert e in multiset(table);
      ProjectFromRow(filtered, category, e);
    }
    forall row | row in rows && row.region in selected
      ensures Entry(row.region, row.values[category]) in table
    {
      ProjectHasRow(filtered, category, row);
      assert Entry(row.region, row.values[category]) in multiset(projected);
    }
  }

  /** Position by position, the two lists carry the same values. */
  ghost predicate SameValues(a: seq<Entry>, b: seq<Entry>)
  {
    |a| == |b| && forall i :: 0 <= i < |a| ==> a[i].value == b[i].value
  }

  /** The first entry of a descending list carries the largest value. */
  lemma HeadIsLargest(s: seq<Entry>, e: Entry)
    requires NonIncreasing(s) && e in multiset(s)
    ensures s[0].value >= e.value
  {
    var i :| 0 <= i < |s| && s[i] == e;
  }

  /** Removing the entry at `k` keeps a list descending. */
  lemma RemoveKeepsNonIncreasing(s: seq<Entry>, k: nat)
    requires NonIncreasing(s) && k < |s|
    ensures NonIncreasing(s[..k] + s[k + 1..])
  {
    var t := s[..k] + s[k + 1..];
    forall i, j | 0 <= i < j < |t| ensures t[i].value >= t[j].value {
      var i' := if i < k then i else i + 1;
      var j' := if j < k then j else j + 1;
      assert t[i] == s[i'] && t[j] == s[j'];
    }
  }

  lemma RemoveAtMultiset(s: seq<Entry>, k: nat)
    requires k < |s|
    ensures multiset(s[..k] + s[k + 1..]) == multiset(s) - multiset{s[k]}
  {
    assert s == s[..k] + [s[k]] + s[k + 1..];
  }

  lemma TailMultiset(s: seq<Entry>)
    requires s != []
    ensures multiset(s[1..]) == multiset(s) - multiset{s[0]}
  {
    assert s == [s[0]] + s[1..];
  }

  /** If the entry at `k` ties with the head, removing it shifts the value column up by one. */
  lemma RemoveTiedWithHead(s: seq<Entry>, k: nat)
    requires NonIncreasing(s) && k < |s| && s[k].value == s[0].value
    ensures forall i :: 0 < i < |s| ==> (s[..k] + s[k + 1..])[i - 1].value == s[i].value
  {
    var t := s[..k] + s[k + 1..];
    forall i | 0 < i < |s| ensures t[i - 1].value == s[i].value {
      if i <= k {
        assert t[i - 1] == s[i - 1];
        assert s[0].value >= s[i - 1].value >= s[k].value;
        assert s[0].value >= s[i].value >= s[k].value;
      } else {
        assert t[i - 1] == s[i];
      }
    }
  }

  /**
   * Any two descending orderings of the same entries show the same value
   * column: however ties are broken, the detail table reads the same
   * values top to bottom.
   */
  lemma {:induction false} DescendingValuesAreDetermined(a: seq<Entry>, b: seq<Entry>)
    requires NonIncreasing(a) && NonIncreasing(b)
    requires multiset(a) == multiset(b)
    ensures SameValues(a, b)
    decreases |a|
  {
    assert |b| == |multiset(b)| == |multiset(a)| == |a|;
    if a != [] {
      var k := RemoveTiedHeads(a, b);
      var b' := b[..k] + b[k + 1..];
      RemoveKeepsNonIncreasing(b, k);
      DescendingValuesAreDetermined(a[1..], b');
      forall i | 0 < i < |a| ensures a[i].value == b[i].value {
        assert a[i] == a[1..][i - 1];
      }
    }
  }

  /**
   * The inductive step: taking the head off `a` and a tied entry (at `k`)
   * off `b` leaves the same entries on both sides, and shifts `b`'s value
   * column up by one.
   */
  lemma RemoveTiedHeads(a: seq<Entry>, b: seq<Entry>) returns (k: nat)
    requires NonIncreasing(a) && NonIncreasing(b)
    requires multiset(a) == multiset(b) && a != []
    ensures k < |b| && a[0].value == b[0].value
    ensures multiset(a[1..]) == multiset(b[..k] + b[k + 1..])
    ensures forall i :: 0 < i < |b| ==> (b[..k] + b[k + 1..])[i - 1].value == b[i].value
  {
    k := TiedHead(a, b);
    RemoveAtMultiset(b, k);
    TailMultiset(a);
    RemoveTiedWithHead(b, k);
  }

  /** The heads of two descending orderings of the same entries tie; `k` locates the head of `a` in `b`. */
  lemma TiedHead(a: seq<Entry>, b: seq<Entry>) returns (k: nat)
    requires NonIncreasing(a) && NonIncreasing(b)
    requires multiset(a) == multiset(b) && a != []
    ensures k < |b| && b[k] == a[0] && a[0].value == b[0].value
  {
    assert a[0] in multiset(a);
    assert |b| == |multiset(b)| == |multiset(a)| == |a|;
    assert b[0] in multiset(b);
    HeadIsLargest(a, b[0]);
    HeadIsLargest(b, a[0]);
    assert a[0] in b;
    k :| 0 <= k < |b| && b[k] == a[0];
  }

  /** `len(selected_prefs) > 5`, line 104. */
  predicate OverSoftCap(selected: seq<string>): (over: bool)
    ensures over <==> |selected| >= SoftCap + 1
    ensures over ==> selected != []
  {
    |selected| > SoftCap
  }

  /** Lines 104-112 and 164: the warning, then the comparison when the selection is not empty. */
  function Compare(rows: seq<Row>, category: string, selected: seq<string>): (v: View)
    requires HasCategory(rows, category)
    ensures v.warning <==> |selected| > SoftCap
    ensures v.comparison.Some? <==> selected != []
    ensures v.comparison.Some? ==>
      && v.comparison.value.filtered == Filter(rows, selected)
      && v.comparison.value.detail == DetailTable(rows, selected, category)
  {
    View(OverSoftCap(selected),
         if selected != [] then Some(Comparison(Filter(rows, selected), DetailTable(rows, selected, category)))
         else None)
  }

  /**
   * The soft cap only warns: a selection over the cap still shows every
   * row of every selected region, in the detail table too.
   */
  lemma SoftCapDoesNotTruncate(rows: seq<Row>, category: string, selected: seq<string>)
    requires HasCategory(rows, category)
    requires |selected| > SoftCap
    ensures Compare(rows, category, selected).warning
    ensures Compare(rows, category, selected).comparison.Some?
    ensures forall row :: row in rows && row.region in selected ==>
      && row in Compare(rows, category, selected).comparison.value.filtered
      && Entry(row.region, row.values[category]) in Compare(rows, category, selected).comparison.value.detail
  {
    DetailTableContents(rows, selected, category);
    var filtered := Filter(rows, selected);
    forall row | row in rows && row.region in selected ensures row in filtered {
      assert multiset(filtered)[row] == multiset(rows)[row] > 0;
    }
  }
}
