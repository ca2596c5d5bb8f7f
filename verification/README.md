# Prefecture food-expenditure dashboard: selection, filter and sort core

The dashboard (`main.py`) lets a user upload a CSV of household food
spending by prefecture. It then picks a spending category and a few
prefectures, and shows a bar chart, a choropleth map of Japan and a
detail table. This project models the decisions made inside `main()`
between loading the CSV and drawing anything. Each one is a pure
function over the table's headers and rows:

- **Region-column inference** (`Columns`). The header `Prefecture` is
  used if present. Otherwise the first header containing `都道府県`, or
  whose lower-cased form contains `prefecture`. Otherwise the first
  header. An empty header list is Python's `IndexError`.
- **Category choice** (`Columns`). The options are every header except
  the region column, in header order. The default is the header after the
  region column, or the second header when the region column is last. The
  two exceptions the source can raise are modelled as errors:
  `IndexError` with a single header, and `ValueError` when the default is
  the region column itself. With unique headers that second case is the
  region column being the second of exactly two headers.
- **Region multiselect** (`Regions`, `Dashboard.ChooseRegions`). The
  options are the distinct region values in ascending code-point order.
  東京都 and then 大阪府 are pre-selected, each only if it occurs.
- **Soft cap, filter and detail table** (`Selection`). Selecting more
  than five regions only raises a warning and nothing is truncated. The
  rows whose region is selected are kept unchanged and in order. The
  detail table projects them to (region, category value) and orders them
  by value, largest first. Ties are left in no promised order, because
  pandas' default sort is not stable. The model proves instead that every
  such ordering has the same value column.

Shared pieces: `Sequences` (order-preserving sub-sequences, uniqueness,
`list.index`) and `Text` (ASCII `str.lower`, the substring test `in`,
and Python's string order).

## Model

| member | source | states |
|---|---|---|
| `Columns.InferRegionColumn` | main.py:64-71 | fails (IndexError) exactly on an empty header list; otherwise returns one of the headers, and `Prefecture` whenever it is a header |
| `Columns.MentionsRegion` | main.py:67 | the comprehension's filter holds exactly when `都道府県` occurs in the header or `prefecture` occurs in its lower-cased form |
| `Columns.FirstMention` | main.py:67-69 | the position of the first header mentioning `都道府県` or (lower-cased) `prefecture`: that header mentions it and no earlier one does; the length if none does |
| `Columns.InferRegionColumnFollowsRule` | main.py:64-71 | for a non-empty header list the inferred column satisfies the declarative three-tier rule (canonical header, else earliest mentioning header, else first header) |
| `Columns.ChosenByRuleIsUnique` | main.py:64-71 | the three-tier rule designates at most one header, so the inference is deterministic |
| `Sequences.IndexOf` | main.py:76 | `list.index`: a position holding the element, with no earlier occurrence |
| `Columns.DefaultCategory` | main.py:76-77 | fails (IndexError) exactly when there are fewer than two headers; otherwise the default is one of the headers |
| `Columns.DefaultCategoryAt` | main.py:76-77 | with unique headers and the region column at position i, the default is the header at i+1, or the header at position 1 when i is last |
| `Columns.CategoryOptions` | main.py:82 | a header is an option exactly when it is a header other than the region column; the options keep header order (a sub-sequence of the headers) |
| `Columns.CategoryOptionsAppend` | main.py:82 | the options of a concatenation of header lists are the options of each part, in order |
| `Columns.CategoryOptionsCount` | main.py:82 | with unique headers that include the region column, exactly one header is dropped and the options are unique |
| `Columns.ChooseCategory` | main.py:76-83 | fails with IndexError exactly below two headers; succeeds exactly when the default is not the region column (ValueError otherwise); on success the selected index points at the default among the options, and the region column is not an option |
| `Columns.ChooseCategorySucceedsIff` | main.py:76-83 | with unique headers and the region column at i: success exactly when there are at least two headers and not (i is last and i = 1) |
| `Columns.Configure` | main.py:64-83 | fewer than two headers give IndexError; on success the region column obeys the three-tier rule, the options are the other headers in order, and the pre-selected index points at the default of lines 76-77 (the header after the region column, or the second header when it is last) |
| `Columns.ConfigureSucceedsIff` | main.py:64-83 | with unique headers, the header step succeeds exactly when there are two headers or more and not (two headers with the region column second) |
| `Text.Lower` | main.py:67 | `col.lower()` on ASCII: same length, each `A`-`Z` moved to its lower-case letter, every other character unchanged |
| `Text.ContainsIff` | main.py:67 | the substring test holds exactly when the substring occurs at some position |
| `Text.LessIsStrictOrder` | main.py:88 | Python's string order is irreflexive, transitive and total on distinct strings |
| `Selection.RegionValues` | main.py:88 | `df[prefecture_col]`: one value per row, and a string is a value exactly when some row has it as its region |
| `Regions.RegionOptions` | main.py:88 | `sorted(unique(...))`: strictly ascending, and a string is an option exactly when it is a region value |
| `Regions.SortedListingIsUnique` | main.py:88 | two strictly ascending lists with the same elements are equal, so the options are the one sorted distinct listing |
| `Regions.StrictlySortedIsUnique` | main.py:88 | the region options contain no repeated value |
| `Regions.DefaultRegions` | main.py:91-95 | a region is pre-selected exactly when it is 東京都 or 大阪府 and is an option; the pre-selection is a sub-sequence of [東京都, 大阪府], so at most two |
| `Dashboard.ChooseRegions` | main.py:88-101 | options strictly ascending and exactly the regions of the rows; a region is pre-selected exactly when it is 東京都 or 大阪府 and is an option, in the order 東京都 then 大阪府, so at most two |
| `Dashboard.DefaultSelectionNeverWarns` | main.py:91-108 | the pre-selection never triggers the more-than-five warning, and it is compared exactly when it is non-empty |
| `Selection.Filter` | main.py:112 | keeps exactly the rows whose region is selected, each as many times as in the input, unchanged and in input order; adds no row |
| `Selection.Project` | main.py:164 | `filtered_df[[prefecture_col, category]]`: one entry per row, in row order, each the row's region and its category value |
| `Selection.ProjectHasRow` | main.py:164 | every row's (region, category value) pair is in the projection |
| `Selection.ProjectFromRow` | main.py:164 | every entry of the projection is the (region, category value) pair of some row |
| `Selection.SortDescending` | main.py:164 | the result is a permutation (same multiset) of the input whose values never increase |
| `Selection.DetailTable` | main.py:164 | the detail table is a permutation of the projected filtered rows, in non-increasing value order |
| `Selection.DetailTableContents` | main.py:112-164 | one entry per filtered row; every entry is (region, category value) of a selected row; every selected row's entry is present |
| `Selection.DescendingValuesAreDetermined` | main.py:164 | any two non-increasing orderings of the same entries have the same value at every position, so the tie order does not change the values shown |
| `Selection.OverSoftCap` | main.py:104 | the warning condition holds exactly when six or more regions are selected, and then the selection is non-empty, so the comparison section of line 108 is entered too |
| `Selection.Compare` | main.py:104-112 | warning exactly when more than five regions are selected; the comparison is shown exactly when the selection is non-empty (the map step of lines 114-159 assumed to complete), over the filtered rows and the detail table |
| `Selection.SoftCapDoesNotTruncate` | main.py:104-112 | over the cap, the warning is raised and still every row of every selected region is in the filtered rows and its entry in the detail table |
| `Dashboard.InferenceExamples` | main.py:64-71 | headers [Prefecture, Rice] infer Prefecture; [Area, Rice] fall back to Area |
| `Dashboard.RegionLastOfTwoFails` | main.py:76-83 | headers [Rice, Prefecture] end in the ValueError of the `.index` call |
| `Dashboard.RiceExampleHeaders` | main.py:64-83 | headers [都道府県, 米, パン]: region column 都道府県, options [米, パン], default 米 at index 0 |
| `Dashboard.RiceExampleRegions` | main.py:88-95 | rows 東京都 and 大阪府: options [大阪府, 東京都], pre-selection [東京都, 大阪府] |
| `Dashboard.RiceExampleComparison` | main.py:104-164 | comparing 米 for both: no warning, both rows kept, detail table 東京都 100 then 大阪府 80 |

## Left out

- Page setup, widgets, `st.dataframe`, `st.warning`, `st.info` and the markdown help text (main.py:10-13, 48-61, 80-101, 163-181) are UI. The user's choices in the selectbox and multiselect are parameters of `Selection.Compare`.
- `load_geojson` (main.py:16-21) is a network fetch with caching. The choropleth and bar chart rendering, the column rename to `prefecture` and the join on `properties.nam_ja` (main.py:114-159) happen inside plotly. None of this is part of the model.
- `detect_encoding` and `load_csv_data` (main.py:23-44) wrap chardet and `pd.read_csv`. The model starts from parsed headers and rows. It assumes the parser yields unique headers (pandas renames duplicates); the header functions still work on any list and use the first occurrence where `list.index` does.
- Scatter plots, Pearson correlation and the correlation-strength wording are not in main.py and are not modelled.
- Category values are integers. Floating-point values and NaN, and where pandas sorts NaN, are not modelled.
- Region cells are strings. A numeric or missing region cell is not modelled: `sorted` over mixed types raises TypeError in Python.
- `Text.Lower` maps only `A`-`Z` to `a`-`z`. Python's `str.lower` also maps other scripts, but no other character lower-cases to one of the Latin letters of `prefecture`, so the match at line 67 is unaffected.
- `Selection.Compare` assumes the map step (main.py:114-159) completes. If fetching or decoding the GeoJSON raises (lines 20-21), the run stops after the bar chart and the detail table of lines 163-166 is never shown; a failed fetch is not cached, so every rerun stops there too.
- `Selection.SortDescending` is one particular sort (insertion). Its contract and `Selection.DescendingValuesAreDetermined` promise only what holds of pandas' unstable sort: a permutation, with values non-increasing, whose value column is determined.
