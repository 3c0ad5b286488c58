# MBTI by country: a verified model of the analysis pages

The application is a set of Streamlit pages over one table of MBTI-type ratios
per country (a `Country` column followed by sixteen ratio columns) and, for one
page, a second table of economic indicators per country. This project models
in Dafny what three of those pages compute. The widgets, charts and file
loading are left out.

- **Top 10** (`pages/00_top10.py`): the types offered for selection, and the
  ten countries with the highest ratio of the selected type.
- **World map** (`pages/03_map.py`): for each country, the dominant type, its
  ratio and the three highest types. Also the emphasis flag that the sidebar
  selection gives each country, and the opacity series of line 71 computed
  from it.
- **GNP × MBTI** (`pages/04_GNP.py`): the pipeline from the two tables to the
  correlation table and the heatmap column. Its steps are:
  - country-name normalisation;
  - detection of the indicator column;
  - the inner, many-to-one merge on the normalised name;
  - the matching report;
  - the optional `log1p` transform;
  - `compute_correlations` and the display order;
  - the heatmap loop.

The modules are:

- **`Whitespace`** and **`CountryNames`**: `normalize_country_name`. This is
  `strip()`, the collapsing of whitespace runs, and the alias table.
- **`Frames`**: the data-frame model. A frame is an ordered list of columns and
  a list of rows, and a missing value (NaN) is the cell `Blank`. It provides
  `df[names]`, `rename` and column assignment. `Frames.Table` is a class for the
  frames the scripts update in place.
- **`Sorting`**: `sort_values(ascending=False)` and `head(k)` on an optional
  numeric key, with missing values last.
- **`GnpJoin`**, **`Correlations`** and **`GnpPage`**: the GNP page. `GnpPage`
  runs the page step by step as imperative methods (`JoinTables`, `Analyse`,
  `GnpPage`) over `Table` objects.
- **`MapPage`** and **`TopTen`**: the other two pages.

The scipy statistics, `np.log1p` and the way a number is printed as text cannot
be computed exactly over the reals. They are therefore parameters of the model:

- `Stats` holds the Pearson and Spearman functions on paired samples;
- `log1p` returns none for NaN;
- `showNum` is how `astype(str)` prints a number;
- `pct` is the `:.1%` formatting.

A user choice is also a parameter: the indicator index, the log and
absolute-value check boxes, the selected type, and the highlighted types. A
page that calls `st.stop()` or raises returns an `Err` with the reason.

## Model

| member | source | states |
|---|---|---|
| Whitespace.TrimStart | pages/04_GNP.py:28 | `lstrip`: the result is a suffix of the input, what was cut is all whitespace, and the result does not start with whitespace |
| Whitespace.TrimEnd | pages/04_GNP.py:28 | `rstrip`: the result is a prefix, what was cut is all whitespace, and the result does not end with whitespace |
| Whitespace.Strip | pages/04_GNP.py:28 | `strip()` leaves neither leading nor trailing whitespace |
| Whitespace.StripCutsOnlySpace | pages/04_GNP.py:28 | `strip()` returns a slice of the input; everything cut before and after it is whitespace |
| Whitespace.StripKeepsNonSpace | pages/04_GNP.py:28 | `strip()` keeps every non-whitespace character, in order |
| Whitespace.Collapse | pages/04_GNP.py:28 | `\s+` → `" "`: empty only for empty input, and the first and last characters keep their whitespace-ness |
| Whitespace.CollapseKeepsNonSpace | pages/04_GNP.py:28 | collapsing keeps every non-whitespace character, in order |
| Whitespace.CollapseRun | pages/04_GNP.py:28 | `\s+` → `" "` on one run: a non-empty whitespace run between a part not ending in whitespace and a part not starting with it becomes exactly one blank, each part collapsed on its own |
| Whitespace.CollapseSingleSpaced | pages/04_GNP.py:28 | after collapsing, whitespace is only single blanks |
| Whitespace.CollapseKeepsSingleSpaced | pages/04_GNP.py:28 | collapsing a single-spaced text changes nothing |
| Whitespace.Clean | pages/04_GNP.py:28 | strip then collapse gives a clean name (single-spaced, no whitespace at either end) with the same non-whitespace characters |
| Whitespace.CleanKeepsClean | pages/04_GNP.py:28 | a clean name is a fixpoint of the clean-up |
| Whitespace.CleanIdempotent | pages/04_GNP.py:28 | cleaning twice is cleaning once |
| Whitespace.CleanRun | pages/04_GNP.py:28 | two clean names with a whitespace run between them clean to the two names joined by one blank |
| CountryNames.AliasTableClosed | pages/04_GNP.py:29-56 | each of the 26 replacement names is clean and is not itself a key, so `replace` never chains |
| CountryNames.NormalizeName | pages/04_GNP.py:22-58 | the result is clean and never an alias key; a cleaned key becomes its mapped name; any other cleaned name passes through with the same non-whitespace characters |
| CountryNames.NormalizeIdempotent | pages/04_GNP.py:22-58 | normalising twice is normalising once |
| CountryNames.NormalizePadded | pages/04_GNP.py:28-57 | whitespace around a clean name does not change its normalised form or whether it matches an alias |
| CountryNames.NormalizeColumn | pages/04_GNP.py:22-58 | the series form: one normalised, clean, non-alias name per input name, in order |
| CountryNames.NormalizeColumnIdempotent | pages/04_GNP.py:22-58 | normalising a normalised column changes nothing |
| Frames.FirstMissing | pages/04_GNP.py:145-146 | none exactly when every listed column exists; otherwise a listed column that is absent |
| Frames.Select | pages/04_GNP.py:145-146 | `df[names]`: a `KeyError` naming an absent column exactly when one is absent; otherwise exactly the listed columns in order, each with its type, the same rows and the same cells |
| Frames.Rename | pages/04_GNP.py:150 | `rename`: the new name exists when the old did and the old is gone; cells move with the column; every other column and cell is unchanged; with no such column the frame is unchanged |
| Frames.RenameKeepsCells | pages/04_GNP.py:150 | a rename leaves the cells of every other column as they were |
| Frames.WithColumn | pages/04_GNP.py:164 | `df[name] = cells`: row `i` gets `cells[i]`; no other cell and no existing column is lost; a new column is appended at the right and an existing one is replaced in place |
| Frames.Table.SetColumn | pages/04_GNP.py:164 | the in-place assignment: the table's new value is `WithColumn` of its old value |
| Sorting.Insert | pages/00_top10.py:24 | inserting into a sorted list gives a sorted list with one more element, the same elements plus the new one |
| Sorting.SortDesc | pages/00_top10.py:24 | `sort_values(ascending=False)`: a permutation of the input (equal multisets), sorted descending with missing keys last |
| Sorting.TopK | pages/00_top10.py:24 | `head(k)` after the sort: `min(k, n)` elements, sorted, drawn from the input without repetition (sub-multiset) |
| Sorting.TopKKeepsLargest | pages/00_top10.py:24 | every element left out stands behind every element kept: no larger key, and missing keys are left out first |
| Sorting.TopKKeepsAllLargest | pages/03_map.py:27 | the same for all left-out elements at once |
| GnpJoin.MbtiColumns | pages/04_GNP.py:125 | `mbti_cols`: exactly the numeric-dtype columns other than `Country` |
| GnpJoin.MbtiColumnsAppend | pages/04_GNP.py:125 | the selection keeps column order (it distributes over concatenation) |
| GnpJoin.Lower | pages/04_GNP.py:128 | `str.lower()`: the same length, lower-casing each character |
| GnpJoin.IndicatorCandidates | pages/04_GNP.py:128 | `candidate_y`: exactly the columns whose lower-cased name is one of gnp, gnp_per_capita, gni, gni_per_capita, gdp or gdp_per_capita |
| GnpJoin.IndicatorCandidatesAppend | pages/04_GNP.py:128 | the candidates keep column order |
| GnpJoin.NoIndicatorPrefix | pages/04_GNP.py:128-131 | a column list with no indicator name gives no candidates |
| GnpJoin.ChooseIndicator | pages/04_GNP.py:128-139 | the page stops (`NoIndicatorColumn`) exactly when no column is an indicator; otherwise the chosen name is candidate `index`, an indicator column of the table |
| GnpJoin.DefaultIsLeftmost | pages/04_GNP.py:139 | the default pick (index 0) is the leftmost indicator column |
| GnpJoin.AsText | pages/04_GNP.py:134 | `astype(str)` of a `Country` cell: text stays as it is and a missing value becomes the text "nan"; a number is printed by the given float formatting |
| GnpJoin.CountryKeys | pages/04_GNP.py:134 | `Country_norm`: one normalised name per row, in order |
| GnpJoin.CountryKeysNormalized | pages/04_GNP.py:134-135 | every key is clean, is not an alias, and is unchanged by normalising again |
| GnpJoin.Lookup | pages/04_GNP.py:144-149 | finds a right-hand row with the key exactly when the key occurs on the right |
| GnpJoin.JoinRows | pages/04_GNP.py:144-149 | the inner join: no more rows than the left, and every joined key occurs on both sides |
| GnpJoin.RightColumns | pages/04_GNP.py:144-149 | the right-hand columns kept beside the left: all but the key |
| GnpJoin.Shared | pages/04_GNP.py:144-149 | the non-key names both frames have, which get the `_x`/`_y` suffixes |
| GnpJoin.KeyTypesClashCases | pages/04_GNP.py:144-149 | pandas' key-dtype check: never refuses keys of the same dtype or a merge where exactly one side has no rows; always refuses a numeric key against a key column holding text when both sides have rows |
| GnpJoin.Merge | pages/04_GNP.py:144-149 | `KeyError` for a missing key column; `KeyTypeMismatch` exactly when a text key meets a numeric one (pandas' dtype check, skipped when exactly one side has no rows); otherwise `MergeError` exactly when a right-hand key repeats (`validate="m:1"`); otherwise the joined rows of the suffixed frames |
| GnpJoin.JoinRowsAppend | pages/04_GNP.py:144-149 | the join keeps left-hand order |
| GnpJoin.JoinRowsCount | pages/04_GNP.py:144-149 | one joined row for each left row whose key occurs on the right |
| GnpJoin.JoinRowsKeys | pages/04_GNP.py:144-149 | the joined keys are exactly the keys found on both sides |
| GnpJoin.JoinRowsFrom | pages/04_GNP.py:144-149 | each joined row is a left row combined with a right row that has the same key |
| GnpJoin.Matches | pages/04_GNP.py:144-149 | the positions of the left keys that the right side has: as many as there are such keys |
| GnpJoin.MatchesAt | pages/04_GNP.py:144-149 | every listed position is in range and its key is on the right side |
| GnpJoin.MatchesIncreasing | pages/04_GNP.py:144-149 | the positions are strictly increasing, so each is listed once, in table order |
| GnpJoin.MatchesComplete | pages/04_GNP.py:144-149 | every left position whose key the right side has is listed |
| GnpJoin.JoinRowsAt | pages/04_GNP.py:144-149 | the inner join has one row per matching left row, in left order: row `i` is the left row at the `i`-th matching position joined with the right row of its key |
| GnpJoin.Suffixed | pages/04_GNP.py:144-149 | pandas' default `suffixes=("_x", "_y")`: each listed name becomes `name_x` on the left and `name_y` on the right, in turn; both frames keep their row counts |
| GnpJoin.Suffix | pages/04_GNP.py:144-149 | the suffixing the merge applies: `Suffixed` on the non-key names both sides have; both frames keep their row counts |
| GnpJoin.SuffixedKeepsKey | pages/04_GNP.py:144-149 | suffixing shared columns leaves the key cells of both sides unchanged |
| GnpJoin.MergeUnsuffixed | pages/04_GNP.py:144-149 | with no non-key name on both sides, the merge is the left columns then the right non-key columns, and its rows are the plain join |
| GnpJoin.MergeKeys | pages/04_GNP.py:144-149 | a successful merge's keys are the intersection of both sides' keys, and its size is the number of left rows that match |
| Correlations.Pairs | pages/04_GNP.py:67 | `df[[c, y]].dropna()`: every complete row gives its pair, every pair comes from a complete row, and the count equals the row count exactly when every row is complete |
| Correlations.PairsAppend | pages/04_GNP.py:67 | `dropna()` works row by row: the pairs of two blocks of rows are the pairs of each, in order |
| Correlations.PairsOfRow | pages/04_GNP.py:67 | a single row gives its pair exactly when both cells are present |
| Correlations.CorrelationOf | pages/04_GNP.py:65-83 | one pass: a `KeyError` for a missing column; `n` is the number of complete pairs; below three pairs the row is all NaN and never an error; `TypeError` exactly when three or more pairs hold text; otherwise the four statistics are scipy's Pearson and Spearman results on the pairs' numbers, in row order |
| Correlations.ShortSampleSkipsScipy | pages/04_GNP.py:68-75 | below three pairs the row does not depend on the statistics functions |
| Correlations.CorrelationTable | pages/04_GNP.py:60-84 | one row per column, in order, or the error of the first failing column |
| Correlations.ComputeCorrelations | pages/04_GNP.py:60-84 | the loop with its `continue` computes exactly `CorrelationTable` |
| Correlations.TableGrows | pages/04_GNP.py:64-84 | one more successful pass appends its row |
| Correlations.TableStopsAt | pages/04_GNP.py:65-76 | the first failing pass decides the table's error |
| Correlations.HeatmapPearson | pages/04_GNP.py:208-215 | the heatmap loop gives each column's Pearson r from the table, NaN below three pairs, and fails as the table does |
| Correlations.SortKeyName | pages/04_GNP.py:178 | `sort_key.name` is `pearson_r` whichever option is set, since `Series.abs()` keeps the name |
| Correlations.DisplayOrderAsWritten | pages/04_GNP.py:178-179 | as written: an empty table has no `pearson_r` column (`KeyError`); otherwise a permutation sorted by the signed r whatever the option |
| Correlations.AbsOptionIgnored | pages/04_GNP.py:178-179 | as written, the absolute-value option changes nothing |
| Correlations.DisplayOrder | pages/04_GNP.py:178-179 | corrected: a permutation sorted by \|r\| when the option is set, by r otherwise, missing last |
| Correlations.AbsSortAsWrittenKeepsSign | pages/04_GNP.py:178-179 | with r = 0.5 and r = −0.9 and the option on, the code as written keeps 0.5 first |
| Correlations.AbsSortByMagnitude | pages/04_GNP.py:178-179 | the corrected order puts −0.9 first |
| GnpPage.IndicatorNameLength | pages/04_GNP.py:128 | an indicator name never equals `Country`, `Country_norm`, `Y_value` or `Y_trans` |
| GnpPage.MbtiKeyed | pages/04_GNP.py:134 | `df_mbti` with its key column: a text column `Country_norm` holding the normalised names row by row; every other cell unchanged |
| GnpPage.GnpKeys | pages/04_GNP.py:135 | the GNP key column: the normalised names, or NaN in every row when the table has no `Country` |
| GnpPage.GnpKeyed | pages/04_GNP.py:135 | `df_gnp` with its key column: the normalised names row by row, typed numeric exactly when the table has no `Country` (the NaN fill); every other cell unchanged |
| GnpPage.NoGnpCountryRefused | pages/04_GNP.py:135-150 | without a GNP `Country`, when both tables have rows, the merge is refused (`KeyTypeMismatch`: text keys against the float NaN column) |
| GnpPage.NoGnpCountryRepeats | pages/04_GNP.py:135-150 | without a GNP `Country`, with no MBTI rows the type check is skipped and two GNP rows repeat the NaN key: `MergeError` |
| GnpPage.NoGnpCountryNoMatch | pages/04_GNP.py:135-150 | without a GNP `Country`, a merge that goes through joins no row |
| GnpPage.PageJoin | pages/04_GNP.py:134-150 | `KeyTypeMismatch` exactly when the GNP table has no `Country` and the tables are both empty or both non-empty; otherwise `MergeError` exactly when a GNP key repeats; otherwise the joined keys are the common keys, and (no MBTI column named like the indicator) the columns are `Country`, the key, the MBTI columns and `Y_value`, with one row per MBTI row whose key the GNP table has, in table order: row `i` holds the `i`-th such MBTI row's cells and the `y` cell of the GNP row with the same key |
| GnpPage.JoinTables | pages/04_GNP.py:134-150 | the key columns assigned in place, the two selections, the merge and the rename give exactly `PageJoin` |
| GnpPage.ReportCountsAddUp | pages/04_GNP.py:153-156 | unmatched plus matched MBTI countries are all MBTI countries; the same on the GNP side when it has `Country` |
| GnpPage.KeySetAlgebra | pages/04_GNP.py:153-156 | with the join's keys equal to the intersection, the page's two difference sets are the plain set differences of the two sides |
| GnpPage.ReportMatches | pages/04_GNP.py:153-156 | the sets and counts the page computes satisfy `Matched` |
| GnpPage.Log1pCell | pages/04_GNP.py:164 | `np.log1p` of one non-text cell: never text; a number exactly when the cell is a number whose `log1p` is defined, and then that value |
| GnpPage.Log1pCells | pages/04_GNP.py:164 | `np.log1p` of the column: `TypeError` exactly when a cell is text; otherwise the same length, computed cell by cell, and a present result only from a number |
| GnpPage.Transformed | pages/04_GNP.py:163-164 | `df_join` after the optional log step: same rows; with log scaling a `Y_trans` column holding `log1p` of each `Y_value` cell; every other cell unchanged; without log scaling the frame itself |
| GnpPage.CorrelationTargetAsWritten | pages/04_GNP.py:163-168 | `y_for_corr`: `Y_trans` exactly with log scaling, `Y_value` exactly without |
| GnpPage.LogShrinksSamples | pages/04_GNP.py:164 | the log transform never adds a complete pair to a column's sample |
| GnpPage.TableFrameColumns | pages/04_GNP.py:175 | the rename of line 175 (`TableFrame`): same rows; the `Y_value` cells come back under the indicator's name; `Y_trans` keeps its name and cells under log scaling; without log scaling and without `Y_trans` no `Y_value` column is left |
| GnpPage.CorrelationTarget | pages/04_GNP.py:175 | the corrected target: equal to `y_for_corr` under log scaling; without it the indicator's own name, which differs from `y_for_corr` |
| GnpPage.LogOffTableFails | pages/04_GNP.py:175 | as written, with log scaling off, the table raises `KeyError("Y_value")` |
| GnpPage.TableReadsJoin | pages/04_GNP.py:175 | corrected target: the table on the renamed frame equals the table read directly from the join (`Y_trans` or `Y_value`) |
| GnpPage.SelectKeepsKeys | pages/04_GNP.py:145-146 | selecting columns, the fresh key among them, succeeds and keeps the key cells and the key column's type |
| GnpPage.HeatmapMatchesTable | pages/04_GNP.py:175-215 | when no analysed column is named like the indicator, `Y_value` or `Y_trans`, each heatmap value is the Pearson r of the same row of the table |
| GnpPage.HeatmapOnPage | pages/04_GNP.py:175-215 | on the page's own join, with no MBTI column named like the indicator, `Y_value` or `Y_trans`, each heatmap value is the Pearson r of the same table row |
| GnpPage.Analyse | pages/04_GNP.py:162-215 | succeeds exactly when `AnalysisSucceeds` (the log step finds `Y_value` without text, there are analysed columns, and both correlation tables go through); `KeyError("Y_value")` or `TypeError` from the log step, otherwise the table's error; on success `Y_trans` is added only with log scaling and the report satisfies `Analysed` (table with the corrected target, display a sorted permutation, heatmap the Pearson r of the table read from `df_join`) |
| GnpPage.GnpPage | pages/04_GNP.py:120-215 | the page's stops (`MissingCountry`, `NoIndicatorColumn`); with candidate `index` as indicator, `KeyTypeMismatch` and `MergeError` exactly as `PageJoin` gives them, and success exactly when `PageJoin` succeeds and `AnalysisSucceeds` on its result; the report satisfies `Matched` and `Analysed`, and its heatmap equals the table's Pearson r when no MBTI column is named like the indicator, `Y_value` or `Y_trans` |
| MapPage.TypeColumns | pages/03_map.py:19 | `mbti_cols`: exactly the columns other than `Country` |
| MapPage.TypeColumnsAppend | pages/03_map.py:19 | the selection keeps column order |
| MapPage.RowValues | pages/03_map.py:23 | `row[mbti_cols]` as numbers, one per column, in order |
| MapPage.MaxOf | pages/03_map.py:25 | `max()` skipping NaN: none only when nothing is present; otherwise a present value no smaller than any other |
| MapPage.FirstAt | pages/03_map.py:24 | the first position holding the value |
| MapPage.Entries | pages/03_map.py:27 | the (type, ratio) items of the row, in column order |
| MapPage.DominantOf | pages/03_map.py:22-34 | `compute_dominant`: `TypeError` when a ratio is text; `EmptyArgmax` when no ratio is present; otherwise `IsDominant` holds (Country copied; dominant type = first column with the maximum; its ratio ≥ every ratio; top-3 has min(3, #types) entries, is sorted descending with NaN last, is drawn from the row, and every type left out ranks no higher) |
| MapPage.TopThreeLeadsWithDominant | pages/03_map.py:24-27 | the first entry of the top three carries the dominant ratio |
| MapPage.LeaderAhead | pages/03_map.py:27 | the head of a sorted top selection stands before every entry of the row |
| MapPage.Collect | pages/03_map.py:36 | `apply`: every row's result in row order, or the error of the first row without one |
| MapPage.DominantRows | pages/03_map.py:36 | one result per input row, each that row's `DominantOf`; otherwise the first failing row's error |
| MapPage.TopThreeText | pages/03_map.py:27-28 | the tooltip text `" / ".join(f"{k}:{v:.1%}")`: empty exactly when there are no entries, otherwise starting with the first type's name and a colon |
| MapPage.MapRow | pages/03_map.py:29-34 | one row of `map_df`: exactly the four columns Country, dominant type, dominant ratio and tooltip text, holding the record's values |
| MapPage.MapFrame | pages/03_map.py:29-36 | `map_df`: one row per country, with its Country, dominant type and ratio |
| MapPage.EmphasisFlags | pages/03_map.py:51 | flags are 0 or 1; with no selection all are 1; otherwise 1 exactly when the dominant type is selected |
| MapPage.Opacity | pages/03_map.py:71 | 0.95 at every position of the series with no selection; otherwise 0.95 for flag 1 and 0.6 for flag 0 |
| MapPage.BuildMap | pages/03_map.py:51-71 | the emphasis column added in place and the opacities read from it satisfy `Shown` |
| MapPage.ShowMap | pages/03_map.py:12-71 | `MissingCountry` without `Country` (the assert); fails exactly when `apply` does, with its error; otherwise `Shown`: one row per country, in order, with its dominant type and ratio, its flag, and the entry 0.95 or 0.6 of the opacity series |
| TopTen.SelectableTypes | pages/00_top10.py:18 | `df.columns[1:]`: every column name after the first, in order |
| TopTen.TypeColumnsWithoutCountry | pages/03_map.py:19 | without a `Country` column the map page keeps every name |
| TopTen.SelectableIsTail | pages/00_top10.py:18 | the selectable types are the names of the columns after the first |
| TopTen.SelectableMatchesMap | pages/00_top10.py:18 | when `Country` is the first column and only there, the top-10 choices equal the map page's `mbti_cols` |
| TopTen.Projected | pages/00_top10.py:24 | `df[["Country", sel]]` row by row |
| TopTen.TopTen | pages/00_top10.py:24 | `KeyError` for a missing column; selecting `Country` itself is ambiguous; otherwise min(10, #rows) rows, sorted descending with NaN last, drawn from the projected input without repetition |
| TopTen.TopTenKeepsLargest | pages/00_top10.py:24 | every country left out has a ratio no larger than every country shown, and countries without a ratio are left out first |
| TopTen.TopTenRowsFromInput | pages/00_top10.py:24 | each row shown is an input row cut to `Country` and the selected type, with both cells unchanged |

## Left out

- The Streamlit UI is not modelled: widgets, layout, captions, `st.cache_data`
  and the charts (Altair, Plotly choropleth, annotated heatmap, scatter plots).
  The widget values are parameters.
- File reading (`pd.read_csv`, uploads and their fallbacks) is not modelled.
  The tables are parameters. `main.py` is a landing page and is not part of
  this model. Neither is `pages/01_국가별MBTI.py`.
- Floating point is not modelled. Ratios are reals. `np.log1p`, scipy's
  `pearsonr` and `spearmanr`, the `:.1%` and `fmt` formatting, and
  `astype(str)` of a number are parameters. Their numerics (rounding, the
  p-values, NaN from a constant input) are therefore not modelled.
- The display-only formatting is not modelled: `fmt` of the table (lines
  182-188) and the renamed headers (190-200). On the map page, the `최다_비율(%)`
  column is added and the ratio dropped (lines 83-85). The display order itself
  is modelled.
- GnpJoin.JoinRowsAt: the joined rows follow the MBTI table's order, as
  pandas 2.2 and later keep it for an inner merge. Earlier pandas versions
  group the rows by key, which differs when two MBTI rows normalise to the
  same country. The correlations and the report's counts do not depend on
  row order.
- Tie order is not modelled. pandas' default sort is not stable. The model
  sorts by insertion, which is one of the orders pandas may produce. The
  properties proved (sorted, a permutation, what is left out) hold for any such
  order.
- GnpJoin.Lower: only ASCII letters are lower-cased. Only ASCII names can equal
  the six indicator names, so the choice of candidates is the same.
- GnpPage.GnpKeys: without a GNP `Country` column the key is a float column of
  NaN, as pandas assigns it. pandas then refuses to merge it with the text MBTI
  keys (a `ValueError`, modelled as `KeyTypeMismatch`) unless exactly one of
  the tables has no rows. With no MBTI rows, two GNP rows repeat the NaN key and
  fail `validate="m:1"`; otherwise the join is empty. The message of the
  `ValueError` is not modelled.
- Frames.Rename: when the new name already labels another column, pandas keeps
  two columns of that name; the model's rows keep one cell under it, the
  renamed one. The page reaches this only when an MBTI numeric column is
  called `Y_value` (line 150).
- GnpJoin.Suffixed: the contract gives the row counts, and `SuffixedKeepsKey`
  that the key is never renamed; which names each side ends up with is given
  by the definition, not stated as a property.
- GnpJoin.Merge: of pandas' key-dtype rules only text against numeric is
  modelled. An object key column holding numbers, booleans or dates is not;
  the page's keys are always text or all NaN.
- GnpPage.PageJoin: the row contents are stated only when no MBTI column has
  the indicator's name. Otherwise pandas suffixes both columns (`_x`, `_y`),
  which `GnpJoin.Merge` models, but the page's contract does not describe.
- GnpPage.Log1pCells: a text cell makes `np.log1p` fail (`TypeError`). Which
  numbers give NaN (below −1) is left to the `log1p` parameter.
- Correlations.CorrelationOf: text in a complete pair is a `TypeError`; the
  message scipy gives is not modelled.
- MapPage.DominantOf: the ratios are compared as numbers. A text ratio is a
  `TypeError`. Whether pandas' `idxmax` on an object-typed row behaves
  differently in a given pandas version is not modelled. On a row with no
  ratio present the model follows the raising behaviour of `idxmax`
  (`EmptyArgmax`, as pandas 3 raises); pandas 2.x instead returns NaN with a
  `FutureWarning` and the page goes on.
- MapPage.ShowMap: the chart is not modelled, so the contract stops at the
  opacity series of line 71. Line 72 assigns that series only to
  `fig.data[0]`, the first of the per-type traces that `px.choropleth` builds
  for the discrete `최다_MBTI` colour. Its countries take the series' first
  values by position, and the other traces keep the default opacity. The
  emphasis therefore does not reach every country's marker as the comment at
  line 70 describes.
- MapPage.ShowMap: on a table with no rows, `apply` in pandas returns a frame
  whose shape depends on result inference. The model gives an empty map.
- TopTen.TopTen: a text cell in the selected column is ordered as if missing.
  pandas would sort an all-text column lexicographically and fail on a mixed
  one. The ratio columns of the data are numeric.

## Findings

| source | as written | input that shows it | evidently intended | confidence | as-written member | corrected member |
|---|---|---|---|---|---|---|
| pages/04_GNP.py:175 | with log scaling off, the rename maps `Y_value` back to the indicator name and the absent `Y_trans` to `Y_value`, and the table then reads column `Y_value` | the log-scale check box off, with any MBTI column present | correlate against the indicator values (`Y_value` itself, or the renamed indicator column) | not executed | GnpPage.LogOffTableFails | GnpPage.TableReadsJoin |
| pages/04_GNP.py:178-179 | `corr_df["pearson_r"].abs()` keeps the name `pearson_r`, so the sort is always by the signed coefficient | two types with r = 0.5 and r = −0.9, with the absolute-value option on | sort by \|r\|, strongest first | not executed | Correlations.AbsSortAsWrittenKeepsSign | Correlations.AbsSortByMagnitude |

The rest of the model uses the corrected behaviour:

- `GnpPage.Analyse` computes the table with `CorrelationTarget`.
- `GnpPage.Analyse` orders the display with `Correlations.DisplayOrder`.
