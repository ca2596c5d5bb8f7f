/**
 * The region multiselect built from an uploaded table's rows, and worked
 * examples of the dashboard's header rules, region multiselect and
 * comparison on small tables.
 */
module Dashboard {
  import Text
  import Columns
  import Regions
  import Selection
  import Sequences

  /** The region multiselect for a table (lines 88-101): its options and its pre-selection. */
  datatype RegionChoice = RegionChoice(options: seq<string>, defaults: seq<string>)

  function ChooseRegions(rows: seq<Selection.Row>): (c: RegionChoice)
    ensures Regions.StrictlySorted(c.options)
    ensures forall y :: y in c.options <==> exists row :: row in rows && row.region == y
    ensures forall y :: y in c.defaults <==> y in c.options && (y == Regions.Tokyo || y == Regions.Osaka)
    ensures Sequences.IsSubsequence(c.defaults, [Regions.Tokyo, Regions.Osaka])
    ensures |c.defaults| <= 2
  {
    var values := Selection.RegionValues(rows);
    var options := Regions.RegionOptions(values);
    RegionChoice(options, Regions.DefaultRegions(options))
  }

  /** The pre-selected regions never exceed the soft cap, and they are compared whenever there are any. */
  lemma DefaultSelectionNeverWarns(rows: seq<Selection.Row>, category: string)
    requires Selection.HasCategory(rows, category)
    ensures !Selection.Compare(rows, category, ChooseRegions(rows).defaults).warning
    ensures Selection.Compare(rows, category, ChooseRegions(rows).defaults).comparison.Some?
            <==> ChooseRegions(rows).defaults != []
  {
  }

  /** Headers `["Prefecture", "Rice"]` take the canonical column; `["Area", "Rice"]` falls back to the first. */
  lemma InferenceExamples()
    ensures Columns.InferRegionColumn(["Prefecture", "Rice"]) == Columns.Ok("Prefecture")
    ensures Columns.InferRegionColumn(["Area", "Rice"]) == Columns.Ok("Area")
  {
    assert !Columns.MentionsRegion("Area") by {
      assert !Text.StartsWith("Area", Columns.RegionKanji) by { assert "Area"[..4][0] == 'A'; }
      assert "Area"[1..] == "rea";
      Text.ShortDoesNotContain("rea", Columns.RegionKanji);
      assert Text.Lower("Area") == "area";
      Text.ShortDoesNotContain("area", Columns.RegionLatin);
    }
    assert !Columns.MentionsRegion("Rice") by {
      assert !Text.StartsWith("Rice", Columns.RegionKanji) by { assert "Rice"[..4][0] == 'R'; }
      assert "Rice"[1..] == "ice";
      Text.ShortDoesNotContain("ice", Columns.RegionKanji);
      assert Text.Lower("Rice") == "rice";
      Text.ShortDoesNotContain("rice", Columns.RegionLatin);
    }
    assert Columns.FirstMention(["Area", "Rice"]) == 2;
  }

  /** Headers with the region column second of two end in the ValueError of line 83. */
  lemma RegionLastOfTwoFails()
    ensures Columns.Configure(["Rice", "Prefecture"]) == Columns.Err(Columns.ValueError)
  {
    assert Columns.CategoryOptions(["Rice", "Prefecture"], "Prefecture") == ["Rice"];
  }

  /** The worked example's headers 都道府県, 米, パン: region column 都道府県, categories 米 and パン, default 米. */
  lemma RiceExampleHeaders()
    ensures Columns.Configure(["都道府県", "米", "パン"])
      == Columns.Ok(Columns.Setup("都道府県", Columns.CategoryChoice(["米", "パン"], 0)))
  {
    var columns := ["都道府県", "米", "パン"];
    assert Columns.MentionsRegion("都道府県") by {
      assert Text.StartsWith("都道府県", Columns.RegionKanji);
    }
    assert Columns.FirstMention(columns) == 0;
    assert Columns.CategoryOptions(columns, "都道府県") == ["米", "パン"];
  }

  /** The worked example's rows 東京都 (米 100, パン 50) and 大阪府 (米 80, パン 60). */
  function RiceRows(): seq<Selection.Row>
  {
    [Selection.Row("東京都", map["米" := 100, "パン" := 50]),
     Selection.Row("大阪府", map["米" := 80, "パン" := 60])]
  }

  /** Both regions are offered in code-point order, and both are pre-selected, Tokyo first. */
  lemma RiceExampleRegions()
    ensures ChooseRegions(RiceRows()) == RegionChoice(["大阪府", "東京都"], ["東京都", "大阪府"])
  {
    assert Selection.RegionValues(RiceRows()) == ["東京都", "大阪府"];
    assert Text.Less("大阪府", "東京都");
    assert Regions.RegionOptions(["大阪府"]) == ["大阪府"];
    assert Regions.RegionOptions(["東京都", "大阪府"]) == ["大阪府", "東京都"];
  }

  /** Comparing 米 for both regions: no warning, both rows kept, detail table 東京都 100 then 大阪府 80. */
  lemma RiceExampleComparison()
    ensures Selection.Compare(RiceRows(), "米", ["東京都", "大阪府"])
      == Selection.View(false, Selection.Some(Selection.Comparison(
           RiceRows(), [Selection.Entry("東京都", 100), Selection.Entry("大阪府", 80)])))
  {
    var rows := RiceRows();
    var entries := [Selection.Entry("東京都", 100), Selection.Entry("大阪府", 80)];
    RiceExampleFilter();
    assert Selection.Project(rows, "米") == entries;
    RiceExampleSort();
  }

  lemma RiceExampleFilter()
    ensures Selection.Filter(RiceRows(), ["東京都", "大阪府"]) == RiceRows()
  {
    var rows := RiceRows();
    assert Selection.Filter(rows[1..], ["東京都", "大阪府"]) == rows[1..];
  }

  lemma RiceExampleSort()
    ensures
      var entries := [Selection.Entry("東京都", 100), Selection.Entry("大阪府", 80)];
      Selection.SortDescending(entries) == entries
  {
    var entries := [Selection.Entry("東京都", 100), Selection.Entry("大阪府", 80)];
    assert Selection.SortDescending(entries[1..]) == entries[1..];
  }
}
