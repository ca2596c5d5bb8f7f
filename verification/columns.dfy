/**
 * Header-level decisions of the dashboard (main.py lines 64-83): which
 * column holds the region (prefecture) name, which columns are offered as
 * spending categories, and which category is pre-selected.
 */
module Columns {
  import Text
  import Sequences

  /** The Python exceptions the header rules can raise. */
  datatype Failure =
    | IndexError   // `df.columns[0]` on no columns, `df.columns[1]` on one column
    | ValueError   // `list.index` of a default that is not among the options

  datatype Result<T> = Ok(value: T) | Err(failure: Failure)

  /** The header used as-is when present. */
  const CanonicalRegion: string := "Prefecture"
  /** Substring marking a Japanese region header ("prefecture"). */
  const RegionKanji: string := "都道府県"
  /** Substring marking a Latin region header, matched after lower-casing. */
  const RegionLatin: string := "prefecture"

  /**
   * The filter of the list comprehension at line 67: the header contains
   * the kanji marker, or its lower-cased form contains the Latin one.
   */
  predicate MentionsRegion(header: string): (m: bool)
    ensures m <==> (exists i :: Text.OccursAt(header, RegionKanji, i))
                   || (exists i :: Text.OccursAt(Text.Lower(header), RegionLatin, i))
  {
    Text.ContainsIff(header, RegionKanji);
    Text.ContainsIff(Text.Lower(header), RegionLatin);
    Text.Contains(header, RegionKanji) || Text.Contains(Text.Lower(header), RegionLatin)
  }

  /** Position of the first header mentioning a region, `|columns|` if none does. */
  function FirstMention(columns: seq<string>): (k: nat)
    ensures k <= |columns|
    ensures k < |columns| ==> MentionsRegion(columns[k])
    ensures forall j :: 0 <= j < k ==> !MentionsRegion(columns[j])
  {
    if columns == [] then 0
    else if MentionsRegion(columns[0]) then 0
    else 1 + FirstMention(columns[1..])
  }

  /** Region-column inference, lines 64-71. */
  function InferRegionColumn(columns: seq<string>): (r: Result<string>)
    ensures r.Err? <==> columns == []
    ensures r.Err? ==> r.failure == IndexError
    ensures r.Ok? ==> r.value in columns
    ensures CanonicalRegion in columns ==> r == Ok(CanonicalRegion)
  {
    if CanonicalRegion in columns then Ok(CanonicalRegion)
    else
      var k := FirstMention(columns);
      if k < |columns| then Ok(columns[k])
      else if columns != [] then Ok(columns[0])
      else Err(IndexError)
  }

  /**
   * The three-tier rule, stated declaratively: the canonical header if
   * present; otherwise the earliest header that mentions a region;
   * otherwise the first header.
   */
  ghost predicate ChosenByRule(columns: seq<string>, h: string)
  {
    if CanonicalRegion in columns then h == CanonicalRegion
    else if exists k :: 0 <= k < |columns| && MentionsRegion(columns[k]) then
      exists k :: 0 <= k < |columns| && columns[k] == h && MentionsRegion(columns[k])
                  && forall j :: 0 <= j < k ==> !MentionsRegion(columns[j])
    else |columns| > 0 && h == columns[0]
  }

  lemma InferRegionColumnFollowsRule(columns: seq<string>)
    requires columns != []
    ensures InferRegionColumn(columns).Ok?
    ensures ChosenByRule(columns, InferRegionColumn(columns).value)
  {
    if CanonicalRegion !in columns {
      var k := FirstMention(columns);
      if k < |columns| {
        assert columns[k] == InferRegionColumn(columns).value;
      }
    }
  }

  /** At most one header satisfies the rule. */
  lemma ChosenByRuleIsUnique(columns: seq<string>, h1: string, h2: string)
    requires ChosenByRule(columns, h1) && ChosenByRule(columns, h2)
    ensures h1 == h2
  {
    if CanonicalRegion !in columns && exists k :: 0 <= k < |columns| && MentionsRegion(columns[k]) {
      var k1 :| 0 <= k1 < |columns| && columns[k1] == h1 && MentionsRegion(columns[k1])
                && forall j :: 0 <= j < k1 ==> !MentionsRegion(columns[j]);
      var k2 :| 0 <= k2 < |columns| && columns[k2] == h2 && MentionsRegion(columns[k2])
                && forall j :: 0 <= j < k2 ==> !MentionsRegion(columns[j]);
      assert !(k1 < k2) && !(k2 < k1);
    }
  }

  /** Default category, lines 76-77: the header after the region column, else the second header. */
  function DefaultCategory(columns: seq<string>, regionColumn: string): (r: Result<string>)
    requires regionColumn in columns
    ensures r.Err? <==> |columns| < 2
    ensures r.Err? ==> r.failure == IndexError
    ensures r.Ok? ==> r.value in columns
  {
    var idx := Sequences.IndexOf(columns, regionColumn);
    if idx + 1 < |columns| then Ok(columns[idx + 1])
    else if 1 < |columns| then Ok(columns[1])
    else Err(IndexError)
  }

  /** With unique headers, the default follows the region column at `i`, or is the second header if `i` is last. */
  lemma DefaultCategoryAt(columns: seq<string>, i: nat)
    requires Sequences.Unique(columns) && i < |columns|
    ensures |columns| >= 2 ==>
      DefaultCategory(columns, columns[i]) == Ok(if i + 1 < |columns| then columns[i + 1] else columns[1])
  {
    Sequences.IndexOfUnique(columns, i);
  }

  /** Category options, line 82: every header except the region column, in header order. */
  function CategoryOptions(columns: seq<string>, regionColumn: string): (r: seq<string>)
    ensures forall h :: h in r <==> h in columns && h != regionColumn
    ensures Sequences.IsSubsequence(r, columns)
  {
    if columns == [] then []
    else
      assert columns == [columns[0]] + columns[1..];
      if columns[0] == regionColumn then CategoryOptions(columns[1..], regionColumn)
      else [columns[0]] + CategoryOptions(columns[1..], regionColumn)
  }

  /** The options of a concatenation are the options of its parts, in order. */
  lemma {:induction false} CategoryOptionsAppend(a: seq<string>, b: seq<string>, regionColumn: string)
    ensures CategoryOptions(a + b, regionColumn) == CategoryOptions(a, regionColumn) + CategoryOptions(b, regionColumn)
  {
    if a != [] {
      var ab := a + b;
      assert ab[0] == a[0] && ab[1..] == a[1..] + b;
      CategoryOptionsAppend(a[1..], b, regionColumn);
      var tail := CategoryOptions(a[1..], regionColumn) + CategoryOptions(b, regionColumn);
      if a[0] == regionColumn {
        assert CategoryOptions(ab, regionColumn) == tail;
      } else {
        assert CategoryOptions(ab, regionColumn) == [a[0]] + tail;
      }
    } else {
      assert a + b == b;
    }
  }

  /** With unique headers, exactly one header (the region column) is dropped. */
  lemma {:induction false} CategoryOptionsCount(columns: seq<string>, regionColumn: string)
    requires Sequences.Unique(columns) && regionColumn in columns
    ensures |CategoryOptions(columns, regionColumn)| == |columns| - 1
    ensures Sequences.Unique(CategoryOptions(columns, regionColumn))
  {
    if columns[0] == regionColumn {
      assert regionColumn !in columns[1..];
      CategoryOptionsAllKept(columns[1..], regionColumn);
    } else {
      assert regionColumn in columns[1..];
      CategoryOptionsCount(columns[1..], regionColumn);
      var rest := CategoryOptions(columns[1..], regionColumn);
      assert columns[0] !in rest by {
        assert columns[0] !in columns[1..];
      }
    }
  }

  /** Headers without the region column are all kept. */
  lemma {:induction false} CategoryOptionsAllKept(columns: seq<string>, regionColumn: string)
    requires regionColumn !in columns
    ensures CategoryOptions(columns, regionColumn) == columns
  {
    if columns != [] {
      CategoryOptionsAllKept(columns[1..], regionColumn);
    }
  }

  /** What the category selectbox is built from: its options and the position of the default. */
  datatype CategoryChoice = CategoryChoice(options: seq<string>, defaultIndex: nat)

  /** Lines 76-83: default category, options, and the `.index` of the default among the options. */
  function ChooseCategory(columns: seq<string>, regionColumn: string): (r: Result<CategoryChoice>)
    requires regionColumn in columns
    ensures r.Err? && r.failure == IndexError <==> |columns| < 2
    ensures r.Ok? <==> |columns| >= 2 && DefaultCategory(columns, regionColumn).value != regionColumn
    ensures r.Ok? ==> r.value.options == CategoryOptions(columns, regionColumn)
    ensures r.Ok? ==> r.value.defaultIndex < |r.value.options|
                      && r.value.options[r.value.defaultIndex] == DefaultCategory(columns, regionColumn).value
                      && regionColumn !in r.value.options
  {
    match DefaultCategory(columns, regionColumn)
    case Err(f) => Err(f)
    case Ok(d) =>
      var options := CategoryOptions(columns, regionColumn);
      if d in options then Ok(CategoryChoice(options, Sequences.IndexOf(options, d)))
      else Err(ValueError)
  }

  /**
   * With unique headers and the region column at `i`, the category step
   * succeeds exactly when there are two headers or more and the region
   * column is not the second and last one.
   */
  lemma ChooseCategorySucceedsIff(columns: seq<string>, i: nat)
    requires Sequences.Unique(columns) && i < |columns|
    ensures ChooseCategory(columns, columns[i]).Ok? <==> |columns| >= 2 && !(i == |columns| - 1 && i == 1)
  {
    DefaultCategoryAt(columns, i);
  }

  /** The header-level outcome of one upload. */
  datatype Setup = Setup(regionColumn: string, category: CategoryChoice)

  /** Lines 64-83 in sequence: infer the region column, then build the category choice. */
  function Configure(columns: seq<string>): (r: Result<Setup>)
    ensures |columns| < 2 ==> r == Err(IndexError)
    ensures r.Ok? ==> ChosenByRule(columns, r.value.regionColumn)
    ensures r.Ok? ==> r.value.category.options == CategoryOptions(columns, r.value.regionColumn)
    ensures r.Ok? ==> r.value.category.defaultIndex < |r.value.category.options|
                      && r.value.category.options[r.value.category.defaultIndex]
                         == DefaultCategory(columns, r.value.regionColumn).value
  {
    match InferRegionColumn(columns)
    case Err(f) => Err(f)
    case Ok(regionColumn) =>
      InferRegionColumnFollowsRule(columns);
      match ChooseCategory(columns, regionColumn)
      case Err(f) => Err(f)
      case Ok(choice) => Ok(Setup(regionColumn, choice))
  }

  /** With unique headers, `Configure` fails only on fewer than two headers or a two-header table whose region column is last. */
  lemma ConfigureSucceedsIff(columns: seq<string>)
    requires Sequences.Unique(columns)
    ensures Configure(columns).Ok? <==>
      |columns| >= 2 && !(|columns| == 2 && InferRegionColumn(columns) == Ok(columns[1]))
  {
    if |columns| >= 2 {
      var rc := InferRegionColumn(columns).value;
      var i := Sequences.IndexOf(columns, rc);
      ChooseCategorySucceedsIff(columns, i);
    }
  }
}
