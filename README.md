# socio4health core, modelled in Dafny

This project models the data-handling core of the socio4health Python
package: the steps that turn a set of survey and census tables into
harmonised tables, the extractor's validation and archive handling, the
`DataInfo` record, and the small JSON and CSV lookups of the `dict` and
`onto` packages. Tables are values (`Tables.Table`: ordered, distinct column
names, a dtype tag per column, and rows mapping each column to a cell that
is text, an integer or missing). Errors that Python raises become
`Result.Err` with the exception's kind (`Wrappers.ErrorKind`). Files,
archives, the web and pandas/dask laziness are replaced by the values they
would yield.

The modules follow the source files:

- `HarmonizerGrouping`, `HarmonizerMerge`, `HarmonizerPrune`,
  `HarmonizerSchema` and `HarmonizerSelect` model
  src/socio4health/harmonizer.py:
  - `vertical_merge`: its grouping pass and its merge pass;
  - `drop_nan_columns` and `get_available_columns`;
  - `harmonize_dataframes`;
  - `data_selector`.
- `TransformerClean`, `TransformerCluster` and `TransformerMerge` model
  src/socio4health/transformer.py:
  - `clean_nan_columns`;
  - the similarity clustering of `Transformer.vertical_merge`;
  - the merge of each cluster;
  - the `Transformer` class holding the frames.
- `DataInfoModel` models src/socio4health/dto/data_info.py as a class whose
  validating setters update its fields.
- `ExtractorModel` models src/socio4health/extractor.py:
  - the constructor's checks and mode;
  - the direct-download file name;
  - the local-mode extension order;
  - `delete_download_folder`'s safety checks.
- `ExtractorUtils` models src/socio4health/utils/extractor_utils.py:
  - the regular expressions of `parse_pnadc_sas_script`, as greedy matchers proved complete against the pattern;
  - the recursive archive walk of `compressed2files`.
- `JsonValues` and `JsonQuery` model src/socio4health/dict/jsonQuery.py.
- `OntoConfig` models src/socio4health/onto/config.py.
- `OntoLookup` models src/socio4health/onto/test.py.

Imperative source code stays imperative here. The loops of
`vertical_merge`, `data_selector`, `process_dataframe`,
`Transformer.vertical_merge`, `parse_pnadc_sas_script`, `compressed2files`
and `query_json` are methods with loop invariants. Each is proved equal to
a specification function, and the promised properties are proved about
that function.

Where the code does something other than its docstrings or names suggest, the model follows the code:

- In `vertical_merge` the seed's dtype record never grows. harmonizer.py:68-70 unions the column sets first and then iterates over `cols2 - cols1`, which is empty by then. Later candidates are therefore compared only against the seed's own dtypes.
- The similarity in harmonizer.py:53 is `|shared| / max(|acc|, |cand|)`, not a Jaccard index. Two column-less tables divide by zero. That is modelled as `Err(ZeroDivisionError)`, and `HarmonizerGrouping.GroupingDefined` states when it cannot happen.
- The transformer's similarity (transformer.py:88-94) is the Jaccard index, with 0 for two empty column sets.
- `clean_nan_columns` drops a column whose missing fraction is `>=` the threshold (transformer.py:181). `drop_nan_columns` drops only above it (harmonizer.py:127).

## Model

| member | source | states |
|---|---|---|
| HarmonizerGrouping.GroupingPartition | src/socio4health/harmonizer.py:31-72 | the groups hold every table index exactly once |
| HarmonizerGrouping.GroupingSeeds | src/socio4health/harmonizer.py:37-72 | each group starts with its seed, seeds increase, and every index below a seed lies in an earlier group |
| HarmonizerGrouping.GroupingAdmission | src/socio4health/harmonizer.py:46-70 | every later member passed the admission rule against the columns accumulated before it; every index left out of a group failed it at its turn |
| HarmonizerGrouping.GroupingDefined | src/socio4health/harmonizer.py:53 | grouping succeeds unless two column-less tables meet |
| HarmonizerGrouping.TwoColumnlessTables | src/socio4health/harmonizer.py:53 | two column-less tables make the similarity divide by zero |
| HarmonizerGrouping.Grouping | src/socio4health/harmonizer.py:31-72 | the only failure of grouping is a division by zero |
| HarmonizerGrouping.ScanShape | src/socio4health/harmonizer.py:46-70 | the inner loop keeps the group so far as a prefix, appends unused candidates in increasing order after it, and marks exactly those as used |
| HarmonizerGrouping.ScanErrorKind | src/socio4health/harmonizer.py:53 | the inner loop fails only by the similarity's division by zero |
| HarmonizerGrouping.GroupsFromErrorKind | src/socio4health/harmonizer.py:37-72 | the outer loop fails only by a failure of one of its inner loops |
| HarmonizerGrouping.CheckDTypes | src/socio4health/harmonizer.py:58-63 | the early-exit loop answers exactly whether every shared column has the seed's dtype |
| HarmonizerGrouping.ScanCandidates | src/socio4health/harmonizer.py:46-70 | the inner loop over candidates computes the specified scan from the seed |
| HarmonizerGrouping.GroupTables | src/socio4health/harmonizer.py:31-72 | the grouping loop with its used-index set computes the specified grouping |
| HarmonizerMerge.CommonColumns | src/socio4health/harmonizer.py:80-82 | a column is common iff every member has it |
| HarmonizerMerge.AlignedOrder | src/socio4health/harmonizer.py:86-88 | the reordering is a permutation of the columns with every common column before every other; the common columns keep their order among themselves, and so do the others |
| HarmonizerMerge.AlignedOrderUnique | src/socio4health/harmonizer.py:86-88 | any order with the common columns first that keeps both sub-orders is the aligned order |
| HarmonizerMerge.Align | src/socio4health/harmonizer.py:85-88 | aligning keeps rows, dtypes and column set, and its columns are the aligned order of the table's columns |
| HarmonizerMerge.MergeSingleton | src/socio4health/harmonizer.py:76-77 | a one-table group is returned unchanged |
| HarmonizerMerge.MergeGroup | src/socio4health/harmonizer.py:76-91 | a merged group is a valid table whose columns are the union of its members' and whose rows number their sum |
| HarmonizerMerge.MergeGroupCommonFirst | src/socio4health/harmonizer.py:86-90 | the merged table opens with the common columns in the first member's order, and no common column comes later |
| HarmonizerMerge.VerticalMerge | src/socio4health/harmonizer.py:31-93 | one output per group; failure exactly when grouping fails, and only by division by zero |
| HarmonizerMerge.VerticalMergeKeepsRows | src/socio4health/harmonizer.py:74-93 | the merged tables hold as many rows as the inputs together |
| HarmonizerMerge.VerticalMergeColumns | src/socio4health/harmonizer.py:79-91 | each output's column set is the union of its group's column sets |
| HarmonizerMerge.SumRowsPermutation | src/socio4health/harmonizer.py:74-91 | row totals do not depend on the order in which tables are taken |
| HarmonizerMerge.MergeGroupTables | src/socio4health/harmonizer.py:79-91 | the alignment loop builds the specified merged group |
| HarmonizerMerge.VerticalMergeTables | src/socio4health/harmonizer.py:74-93 | the merge loop over groups builds the specified outputs |
| HarmonizerPrune.DropList | src/socio4health/harmonizer.py:127 | a column is listed iff its missing fraction is strictly above the threshold |
| HarmonizerPrune.ProcessTable | src/socio4health/harmonizer.py:125-134 | exactly the over-threshold columns go; rows and kept cells are unchanged |
| HarmonizerPrune.DropNanColumns | src/socio4health/harmonizer.py:115-139 | a threshold outside [0,1] is a ValueError before any table is looked at; a list gives a list of the same length, a table a table |
| HarmonizerPrune.DropNanColumnsEach | src/socio4health/harmonizer.py:136-137 | each table of a list is processed as it would be alone |
| HarmonizerPrune.ProcessTableKeepsOrder | src/socio4health/harmonizer.py:131 | kept columns stay in their original order |
| HarmonizerPrune.ThresholdOneKeepsAll | src/socio4health/harmonizer.py:95-127 | with the default threshold 1.0 nothing is dropped |
| HarmonizerPrune.ProcessTableIdempotent | src/socio4health/harmonizer.py:118-134 | pruning twice prunes no more than once |
| HarmonizerPrune.AvailableColumns | src/socio4health/harmonizer.py:155-164 | TypeError iff the input or an element is not a table; otherwise the strictly sorted union of all column names |
| HarmonizerPrune.AvailableColumnsUnique | src/socio4health/harmonizer.py:164 | the sorted union is the only strictly sorted list of those names |
| HarmonizerSchema.CountryMapping | src/socio4health/harmonizer.py:233-235 | the country's mapping, else the default country's, else the empty mapping |
| HarmonizerSchema.EnumCountryMapping | src/socio4health/harmonizer.py:226-232 | for an Enum of mappings: KeyError exactly when the country is not a member and the default is a non-empty name that is not a member either; otherwise the country's, the default's or the empty mapping |
| HarmonizerSchema.EnumBranchAgrees | src/socio4health/harmonizer.py:226-235 | when the Enum branch succeeds and the default is not an empty name that is a member, both branches give the same mapping; when it raises, the dict branch gives the empty mapping |
| HarmonizerSchema.EnumBranchDiffers | src/socio4health/harmonizer.py:226-235 | an unknown country with an unknown default raises KeyError in the Enum branch and gives the empty mapping in the dict branch; an empty default that is a key is used only by the dict branch |
| HarmonizerSchema.Rename | src/socio4health/harmonizer.py:256 | DuplicateLabels exactly when the map sends two columns to one name; otherwise renaming keeps positions, rows and dtypes, and unmapped columns keep their names |
| HarmonizerSchema.MapCell | src/socio4health/harmonizer.py:262-273 | a cell becomes the mapped text of its string form, or missing when that text is unmapped |
| HarmonizerSchema.Harmonize | src/socio4health/harmonizer.py:250-271 | a failure is a strict-mode ValueError or DuplicateLabels, the latter exactly when the strict column check passes and renaming merges two columns |
| HarmonizerSchema.HarmonizeSpec | src/socio4health/harmonizer.py:243-275 | strict mode with an unmapped column gives ValueError; a success has distinct new names, renames each column and maps exactly the value-mapped columns' cells |
| HarmonizerSchema.StrictMappedCellsPresent | src/socio4health/harmonizer.py:265-273 | after a strict success no value-mapped cell is missing |
| HarmonizerSchema.UnmappedColumnKept | src/socio4health/harmonizer.py:259-271 | mapping other columns first does not change whether a column's values are all mapped |
| HarmonizerSchema.ProcessDataFrame | src/socio4health/harmonizer.py:243-275 | the strict check, the renaming and the column-by-column loop compute the specified harmonisation, error outcomes included |
| HarmonizerSchema.MapValues | src/socio4health/harmonizer.py:258-273 | the loop over the value maps, taken in any order, raises ValueError in strict mode exactly when a present mapped column has a value outside its map, and otherwise yields every present mapped column replaced |
| HarmonizerSchema.HarmonizeDataframes | src/socio4health/harmonizer.py:277-280 | ValueError iff some table raises it; otherwise DuplicateLabels if some table's renaming collides; success iff every table harmonises, with the same countries and list lengths and each table harmonised with its country's mappings |
| HarmonizerSchema.ValueErrorOnlyStrict | src/socio4health/harmonizer.py:249-272 | the whole call fails with ValueError only when strict mode is on |
| HarmonizerSelect.CheckArgs | src/socio4health/harmonizer.py:327-354 | no error iff every argument check passes; KeyError only for a dictionary lacking its two columns |
| HarmonizerSelect.KeepRows | src/socio4health/harmonizer.py:366 | the kept rows are exactly those whose key is among the key values |
| HarmonizerSelect.KeepRowsMultiplicity | src/socio4health/harmonizer.py:366 | a matching row is kept as often as it occurs in the input, any other row never |
| HarmonizerSelect.KeptIndices | src/socio4health/harmonizer.py:366 | the positions whose key is among the key values, increasing |
| HarmonizerSelect.KeepRowsAtIndices | src/socio4health/harmonizer.py:366 | the kept rows are the input rows at those positions, in the same order |
| HarmonizerSelect.Variables | src/socio4health/harmonizer.py:358-373 | exactly the distinct upper-cased variable names of the requested categories |
| HarmonizerSelect.VariablesOrder | src/socio4health/harmonizer.py:372-373 | `unique()` order: every dictionary row naming a later variable comes after a row naming each earlier one |
| HarmonizerSelect.SelectedColumns | src/socio4health/harmonizer.py:379-384 | the key first, then exactly the requested columns present in the table other than the key, in the dictionary's order, without repeats |
| Tables.FilterInOrder | src/socio4health/harmonizer.py:379-382 | the list comprehension keeps the order of the list it filters |
| HarmonizerSelect.UpperSelect | src/socio4health/harmonizer.py:370-386 | after upper-casing, each selected name holds the cells and dtype of the one column that upper-cases to it |
| HarmonizerSelect.SelectTable | src/socio4health/harmonizer.py:363-391 | the selected columns, one row per kept row, and every cell and dtype taken from the column that upper-cases to its name |
| HarmonizerSelect.SelectTableSpec | src/socio4health/harmonizer.py:363-391 | the selection opens with the key, then exactly the present requested variables in dictionary order, and its rows are the kept rows in order with their cells |
| HarmonizerSelect.SelectTableRows | src/socio4health/harmonizer.py:366-388 | the k-th output row carries the key value of the k-th kept row, which is among the key values |
| HarmonizerSelect.DataSelect | src/socio4health/harmonizer.py:327-395 | argument errors come first; then AttributeError iff the dictionary's names hold no text and some number, so `.str.upper()` fails; then KeyError if any table lacks the key column; success iff every table has it and no selected name stands for two columns; one output per table |
| HarmonizerSelect.DataSelectOutput | src/socio4health/harmonizer.py:363-393 | every output of a successful call is its table's selection: the key, exactly the present requested variables in dictionary order, and the kept rows in order with their cells |
| HarmonizerSelect.OnlyKeyWhenNoMatch | src/socio4health/harmonizer.py:386-391 | when no requested variable exists, only the key column is kept |
| HarmonizerSelect.SelectOne | src/socio4health/harmonizer.py:363-391 | the per-table body computes the specified selection |
| HarmonizerSelect.SelectEach | src/socio4health/harmonizer.py:361-395 | KeyError iff some table lacks the key column; otherwise DuplicateLabels iff some table would repeat a selected label; otherwise the i-th output is the selection made of the i-th table |
| HarmonizerSelect.DataSelector | src/socio4health/harmonizer.py:327-395 | the argument checks followed by the loop compute the specified selection |
| TransformerClean.NanColumns | src/socio4health/transformer.py:180-181 | a column is dropped iff its missing fraction is at least the threshold |
| TransformerClean.DropNanColumns | src/socio4health/transformer.py:182 | exactly those columns go and the others keep their order; rows and kept cells are unchanged |
| Tables.FilterOutInOrder | src/socio4health/transformer.py:182 | dropping columns keeps the remaining ones in their order |
| TransformerClean.DefaultThresholdDropsAllMissing | src/socio4health/transformer.py:159-181 | at threshold 1.0 a column goes iff the table has rows and the column is missing in all of them |
| TransformerClean.ValuedIndices | src/socio4health/transformer.py:184 | the positions of the rows that hold some value, increasing |
| TransformerClean.KeepRowsAtValuedIndices | src/socio4health/transformer.py:184 | the kept rows are the input rows at those positions, in the same order |
| TransformerClean.DropEmptyRows | src/socio4health/transformer.py:183-184 | exactly the rows missing everywhere go; the k-th kept row is the input row at the k-th position holding a value; columns unchanged |
| TransformerClean.CarriedDown | src/socio4health/transformer.py:185-186 | the forward-fill value is the nearest present value at or above the row |
| TransformerClean.CarriedUp | src/socio4health/transformer.py:185-186 | the backward-fill value is the nearest present value at or below the row |
| TransformerClean.FFillIdempotent | src/socio4health/transformer.py:186 | forward filling twice equals filling once |
| TransformerClean.FFillTable | src/socio4health/transformer.py:186 | every cell of a forward-filled table is its column's nearest value above |
| TransformerClean.BFillTable | src/socio4health/transformer.py:186 | every cell of a backward-filled table is its column's nearest value below |
| TransformerClean.FillWith | src/socio4health/transformer.py:187-188 | present cells stay, missing cells take the fill value |
| TransformerClean.Fill | src/socio4health/transformer.py:185-188 | no method and no value leave the table unchanged |
| TransformerClean.CleanTable | src/socio4health/transformer.py:180-188 | the kept columns are those under the threshold; rows are only dropped when asked |
| TransformerClean.CleanNanColumns | src/socio4health/transformer.py:177-188 | ValueError iff the input is not a table |
| TransformerClean.FillMethodWins | src/socio4health/transformer.py:185-188 | with a fill method the fill value is ignored |
| TransformerClean.FillValueFillsAll | src/socio4health/transformer.py:187-188 | with a fill value and no method no cell is left missing |
| TransformerClean.DroppedRowsHaveValues | src/socio4health/transformer.py:183-184 | after dropping empty rows every row has a value |
| TransformerCluster.Jaccard | src/socio4health/transformer.py:88-94 | in [0,1], 0 for two empty sets, 1 iff the sets are equal and non-empty |
| TransformerCluster.JaccardSymmetric | src/socio4health/transformer.py:88-94 | the similarity is symmetric |
| TransformerCluster.SimilarityMatrix | src/socio4health/transformer.py:97-103 | the filled matrix holds the pairwise similarity, zero on the diagonal |
| TransformerCluster.SeedIsBest | src/socio4health/transformer.py:111-112 | the seed has the highest mean similarity to the remaining frames, and is the first such in ascending order |
| TransformerCluster.RowMean | src/socio4health/transformer.py:112 | the loop computes the mean similarity of a row over the remaining set |
| TransformerCluster.ChooseSeed | src/socio4health/transformer.py:111-112 | the loop picks the specified seed |
| TransformerCluster.First | src/socio4health/transformer.py:114-127 | a cluster holds its seed, only frames at least as similar to the seed as the threshold, and all such frames |
| TransformerCluster.ClustersPartition | src/socio4health/transformer.py:106-127 | the clusters are non-empty, pairwise disjoint and cover all frames |
| TransformerCluster.AllSimilarOneCluster | src/socio4health/transformer.py:118-125 | when all frames are similar enough, there is one cluster |
| TransformerCluster.HighThresholdSingletons | src/socio4health/transformer.py:122 | above 1.0 every frame is alone |
| TransformerCluster.DefaultThresholdSameColumns | src/socio4health/transformer.py:67-122 | at the default threshold frames share a cluster only with the same non-empty column set |
| TransformerCluster.Gather | src/socio4health/transformer.py:121-125 | one pass moves exactly the similar remaining frames into the cluster and reports whether it moved any |
| TransformerCluster.GrowCluster | src/socio4health/transformer.py:114-125 | the `while added` loop builds the specified cluster |
| TransformerCluster.ClusterIndices | src/socio4health/transformer.py:106-127 | the outer loop builds the specified clusters |
| TransformerCluster.Clustering | src/socio4health/transformer.py:97-127 | matrix and loops together compute the specified clusters |
| TransformerMerge.AsList | src/socio4health/transformer.py:13 | a single frame is wrapped in a list, a list kept |
| TransformerMerge.ClusterColumns | src/socio4health/transformer.py:135-139 | the union of the cluster's columns without repeats, sorted when asked |
| TransformerMerge.Reindex | src/socio4health/transformer.py:144 | a reindexed frame has exactly the listed columns, old cells kept, new cells the fill value |
| TransformerMerge.ReindexSameColumns | src/socio4health/transformer.py:144 | reindexing to a frame's own columns changes nothing |
| TransformerMerge.Stack | src/socio4health/transformer.py:147 | the concatenation holds every row of every frame, on the shared columns |
| TransformerMerge.StackKeepsRows | src/socio4health/transformer.py:143-147 | each input row appears at its offset with its cells, and the fill value elsewhere |
| TransformerMerge.MergeCluster | src/socio4health/transformer.py:131-150 | a merged cluster is a valid frame |
| TransformerMerge.MergedClusterShape | src/socio4health/transformer.py:131-150 | a merged cluster is the cleaned stack of its reindexed members |
| TransformerMerge.VerticalMerge | src/socio4health/transformer.py:84-156 | no frames give an empty table; one cluster gives a table; several give a list of that many |
| TransformerMerge.EveryFrameOnce | src/socio4health/transformer.py:106-127 | every frame lies in exactly one cluster |
| TransformerMerge.SameColumnsSingleFrame | src/socio4health/transformer.py:122-154 | frames with one common non-empty column set merge into a single table |
| TransformerMerge.Transformer.constructor | src/socio4health/transformer.py:10-13 | the stored frames are the argument as a list |
| TransformerMerge.Transformer.SetDataframes | src/socio4health/transformer.py:29-31 | the setter stores the argument as a list |
| TransformerMerge.Transformer.VerticalMergeFrames | src/socio4health/transformer.py:67-156 | the method computes the specified merge of the stored frames |
| TransformerMerge.MergeFrames | src/socio4health/transformer.py:84-156 | clustering and the merge loop compute the specified merge, a single frame for one cluster |
| TransformerMerge.MergeClusters | src/socio4health/transformer.py:130-150 | the loop over clusters yields one merged frame per cluster, in cluster order |
| TransformerMerge.MergeOne | src/socio4health/transformer.py:131-150 | one loop body computes the specified merged cluster |
| TransformerMerge.CollectMembers | src/socio4health/transformer.py:132 | the members are the cluster's frames in ascending index order |
| TransformerMerge.ReindexMembers | src/socio4health/transformer.py:142-145 | the loop reindexes every member |
| DataInfoModel.TextCheck | src/socio4health/dto/data_info.py:51-54 | accepted iff None or a string not made only of whitespace; TypeError iff neither a string nor None |
| DataInfoModel.EmptyTextAccepted | src/socio4health/dto/data_info.py:53 | the empty string passes, since only non-empty blank text is refused |
| DataInfoModel.CountryCheck | src/socio4health/dto/data_info.py:79-84 | accepted iff one of the four country member names; TypeError iff neither a string nor None |
| DataInfoModel.CountryCodeRefused | src/socio4health/dto/data_info.py:83-84 | a country code and None are refused with ValueError |
| DataInfoModel.SourceTypeCheck | src/socio4health/dto/data_info.py:109-114 | accepted iff CENSUS or SURVEY |
| DataInfoModel.YearCheck | src/socio4health/dto/data_info.py:95-98 | accepted iff None, a bool or a non-negative int; ValueError iff a negative int |
| DataInfoModel.FlagCheck | src/socio4health/dto/data_info.py:125-126 | accepted iff None or a bool, else TypeError |
| DataInfoModel.DataInfo.constructor | src/socio4health/dto/data_info.py:22-28 | every argument is stored unchecked |
| DataInfoModel.DataInfo.Defaults | src/socio4health/dto/data_info.py:22 | the default arguments: all None, not aggregated |
| DataInfoModel.DataInfo.SetFilePath | src/socio4health/dto/data_info.py:49-55 | the field changes iff the check passes; no other field changes |
| DataInfoModel.DataInfo.SetUrl | src/socio4health/dto/data_info.py:63-69 | the field changes iff the check passes; no other field changes |
| DataInfoModel.DataInfo.SetCountry | src/socio4health/dto/data_info.py:77-85 | the field changes iff the check passes; no other field changes |
| DataInfoModel.DataInfo.SetYear | src/socio4health/dto/data_info.py:93-99 | the field changes iff the check passes; no other field changes |
| DataInfoModel.DataInfo.SetDataSourceType | src/socio4health/dto/data_info.py:107-115 | the field changes iff the check passes; no other field changes |
| DataInfoModel.DataInfo.SetIsAggregated | src/socio4health/dto/data_info.py:123-127 | the field changes iff the check passes; no other field changes |
| ExtractorModel.InitMode | src/socio4health/extractor.py:59-80 | success iff exactly one of path and url, extensions given, and a depth for url; mode 0 for url, 1 for path; errors are ValueError |
| ExtractorModel.PathUrlExclusive | src/socio4health/extractor.py:59-67 | both or neither of path and url is a ValueError |
| ExtractorModel.DownloadFileName | src/socio4health/extractor.py:105-107 | the name is the URL's last segment, with ".zip" added iff it lacks a known extension |
| ExtractorModel.DownloadFileNameIdempotent | src/socio4health/extractor.py:105-107 | naming a name again changes nothing |
| ExtractorModel.UpperCaseArchiveGetsSuffix | src/socio4health/extractor.py:102-107 | every URL whose last segment ends in an upper-cased archive extension and in no requested extension counts as a direct download yet still gets ".zip" appended |
| ExtractorModel.UpperCaseArchiveExample | src/socio4health/extractor.py:102-107 | "h/D.ZIP" is a direct download saved as "D.ZIP.zip" |
| ExtractorModel.SearchOrder | src/socio4health/extractor.py:252-253 | each requested extension once, archive extensions first |
| ExtractorModel.RootAlwaysProtected | src/socio4health/extractor.py:351-358 | the root is an ancestor of any absolute protected path |
| ExtractorModel.DeeperPathsNotProtected | src/socio4health/extractor.py:358 | a path deeper than every protected path is not protected |
| ExtractorModel.AncestorProtected | src/socio4health/extractor.py:358 | every ancestor of a protected path is protected |
| ExtractorModel.Extractor.Fields | src/socio4health/extractor.py:42-57 | the stored fields, with empty lists for missing extensions and keywords and the default folder |
| ExtractorModel.Extractor.New | src/socio4health/extractor.py:42-80 | construction fails with ValueError iff the mode check fails; otherwise fields and mode as computed |
| ExtractorModel.Extractor.DeleteDownloadFolder | src/socio4health/extractor.py:340-369 | False iff the folder is absent; ValueError iff present and not a folder or protected; True iff removed |
| ExtractorUtils.RunEnd | src/socio4health/utils/extractor_utils.py:180-184 | a greedy character-class run ends at the first character outside the class |
| ExtractorUtils.MatchSpec | src/socio4health/utils/extractor_utils.py:184 | a match has the pattern's shape, and its number is the digits after '@' |
| ExtractorUtils.SpecMatchComplete | src/socio4health/utils/extractor_utils.py:184 | wherever the pattern fits, the matcher succeeds with the same number |
| ExtractorUtils.MatchName | src/socio4health/utils/extractor_utils.py:180 | a match has the name pattern's shape and captures the word |
| ExtractorUtils.NameMatchComplete | src/socio4health/utils/extractor_utils.py:180 | wherever the name pattern fits, the matcher captures that word |
| ExtractorUtils.SearchName | src/socio4health/utils/extractor_utils.py:180 | a found name is a word ending after the start and within the text; no result only when the name pattern matches nowhere further on |
| ExtractorUtils.SearchSpec | src/socio4health/utils/extractor_utils.py:186 | no result iff the pattern matches nowhere further on |
| ExtractorUtils.SearchSpecLeftmost | src/socio4health/utils/extractor_utils.py:186 | a search result is the leftmost match |
| ExtractorUtils.SearchFindsNext | src/socio4health/utils/extractor_utils.py:184-188 | searching after a match finds the next match of the scan |
| ExtractorUtils.FindSpecs | src/socio4health/utils/extractor_utils.py:184 | every match the scan finds ends within the text |
| ExtractorUtils.FindNames | src/socio4health/utils/extractor_utils.py:180 | every found name is a non-empty word |
| ExtractorUtils.ParseSasScript | src/socio4health/utils/extractor_utils.py:176-194 | names as found; one spec per match starting one before its position; each ends where the next starts; the last is one wide |
| ExtractorUtils.NamesMayOutnumberSpecs | src/socio4health/utils/extractor_utils.py:180-184 | a line without a format gives a name but no spec |
| ExtractorUtils.ExtensionKey | src/socio4health/utils/extractor_utils.py:145 | the key is '.' plus the lower-cased text after the last dot of the name, a dot that stands just before that text; without a dot it is '.' plus the whole name lower-cased |
| ExtractorUtils.UpperCaseEntryNeverMatches | src/socio4health/utils/extractor_utils.py:145 | an extension written with capitals never matches a file |
| ExtractorUtils.KeptIgnoresCase | src/socio4health/utils/extractor_utils.py:145 | whether a file is kept ignores its case |
| ExtractorUtils.SplitExt | src/socio4health/utils/extractor_utils.py:147-148 | stem and extension concatenate back; the extension is empty or a dot with no other dot or slash; it is non-empty iff the last component has a dot after some character other than a dot |
| ExtractorUtils.HiddenFileHasNoExtension | src/socio4health/utils/extractor_utils.py:147 | leading dots do not start an extension |
| ExtractorUtils.UniqueName | src/socio4health/utils/extractor_utils.py:147-149 | archive stem, '_', then the file name, ending with the file's extension |
| ExtractorUtils.Collect | src/socio4health/utils/extractor_utils.py:111-158 | beyond the depth limit the found set is returned; within it, no result iff the archive does not open and its name does not end in ".7z", and the 7z reader's error iff it does not open and its name does; the set only grows, by paths in the target; errors are TypeError or the 7z reader's |
| ExtractorUtils.CollectFrom | src/socio4health/utils/extractor_utils.py:136-153 | the loop over the entries only grows the found set, by paths in the target; errors are TypeError or the 7z reader's |
| ExtractorUtils.CollectExact | src/socio4health/utils/extractor_utils.py:111-158 | when every nested archive opens, the result is the found set plus exactly the kept files of the whole tree within the depth limit; when one does not, the error of the first that does not: the 7z reader's for a ".7z" name, TypeError (`set(None)`) for any other |
| ExtractorUtils.NoNestingAtMaxDepth | src/socio4health/utils/extractor_utils.py:140-152 | at the depth limit nested archives are skipped and only kept files are added |
| ExtractorUtils.Compressed2Files | src/socio4health/utils/extractor_utils.py:86-158 | the recursive walk with its loop computes the specified collection |
| JsonValues.Lookup | src/socio4health/dict/jsonQuery.py:12-30 | absent iff no member has the key; a found value is the last member with that key, as `json.load` keeps it |
| JsonValues.Contains | src/socio4health/dict/jsonQuery.py:12-21 | on an object, true iff the key is a member; on a list, true iff some item equals the key as Python compares values, objects as the dicts they load to; errors are TypeError |
| JsonValues.PyEqReflexive | src/socio4health/dict/jsonQuery.py:12-21 | Python equality of loaded JSON values holds of every value and itself |
| JsonValues.ReorderedObjectFound | src/socio4health/dict/jsonQuery.py:12-21 | a list holding an object is found to contain the same object with its members in another order |
| JsonValues.Index | src/socio4health/dict/jsonQuery.py:13-22 | a value iff an object has the key; KeyError on an object, TypeError otherwise |
| JsonValues.Get | src/socio4health/dict/jsonQuery.py:13-30 | the member or the default; AttributeError off objects, TypeError for unhashable keys |
| JsonValues.DictKeys | src/socio4health/dict/jsonQuery.py:6 | the loaded dict holds each key of the object once, and only those keys |
| JsonValues.DictKeysOrder | src/socio4health/dict/jsonQuery.py:6 | the loaded dict's keys come in the order of their first appearance |
| JsonValues.DictItems | src/socio4health/dict/jsonQuery.py:6 | one item per key, in key order, holding the value of the key's last occurrence |
| JsonValues.DictItemsDistinct | src/socio4health/dict/jsonQuery.py:6 | an object without repeated keys loads as its own members |
| JsonValues.Items | src/socio4health/dict/jsonQuery.py:24-27 | `items()` gives the loaded dict's items for an object, AttributeError otherwise |
| JsonQuery.MappingEntry | src/socio4health/dict/jsonQuery.py:29-37 | an entry iff the target's detailed label is truthy, with code, label, target and target label |
| JsonQuery.MappingEntries | src/socio4health/dict/jsonQuery.py:28-37 | every entry comes from one mapping, at most one per mapping, and a success means no mapping raised |
| JsonQuery.MappingEntriesInOrder | src/socio4health/dict/jsonQuery.py:27-37 | exactly one entry per mapping whose turn yields one, in the mappings' order |
| JsonQuery.MappingEntriesComplete | src/socio4health/dict/jsonQuery.py:28-37 | every mapping with a truthy target label contributes its entry |
| JsonQuery.Query | src/socio4health/dict/jsonQuery.py:9-39 | an unknown variable gives no entries |
| JsonQuery.MissingOptionGivesNothing | src/socio4health/dict/jsonQuery.py:13-16 | no options or an unknown option gives no entries |
| JsonQuery.SourceEntries | src/socio4health/dict/jsonQuery.py:21-37 | no data sources or an unknown source gives no entries; when the source's variables object is present, the entries are those of its variables |
| JsonQuery.CollectSource | src/socio4health/dict/jsonQuery.py:21-37 | the checks and loops after the option was found compute the specified source entries |
| JsonQuery.VariablesEntriesOk | src/socio4health/dict/jsonQuery.py:24-37 | the loop over the variables succeeds iff no variable's turn raises |
| JsonQuery.VariablesEntriesJoined | src/socio4health/dict/jsonQuery.py:24-37 | the loop over the variables yields the first error of its turns or all their entries in order |
| JsonQuery.MissingVariablesGiveNothing | src/socio4health/dict/jsonQuery.py:24-25 | variables without mappings give no entries |
| JsonQuery.NoDetailedGivesNothing | src/socio4health/dict/jsonQuery.py:17-31 | without a detailed mapping no entry is produced |
| JsonQuery.QueryJson | src/socio4health/dict/jsonQuery.py:4-39 | the nested checks and loops compute the specified query |
| JsonQuery.VariablesEntriesSplit | src/socio4health/dict/jsonQuery.py:24-37 | each variable's entries lie after those of the variables before it and before those of the variables after it |
| JsonQuery.CollectVariables | src/socio4health/dict/jsonQuery.py:24-37 | the loop over variables appends their entries in order |
| JsonQuery.AppendVariable | src/socio4health/dict/jsonQuery.py:25-37 | one variable's turn appends its entries, `{}` standing for absent mappings, and keeps the earlier ones |
| JsonQuery.AppendMappings | src/socio4health/dict/jsonQuery.py:27-37 | the loop over one variable's mappings appends their entries in order and keeps the earlier ones |
| OntoConfig.GeneralOption | src/socio4health/onto/config.py:10-21 | when the variable, its mapping to detailed options and the option's text are present, the answer is the search over the items of the "option" object for the detailed option |
| OntoConfig.FirstContaining | src/socio4health/onto/config.py:17-21 | a returned general option is one of the option keys |
| OntoConfig.KeyText | src/socio4health/onto/config.py:13-14 | the option's text: a string as is, an integer as decimal digits that read back to it |
| OntoConfig.UnknownVariableNoMatch | src/socio4health/onto/config.py:11-21 | an unknown variable gives (None, "No match found") |
| OntoConfig.UnknownOptionNoMatch | src/socio4health/onto/config.py:13-21 | an option without a detailed entry gives (None, "No match found") |
| OntoConfig.IntegerOptionIsItsText | src/socio4health/onto/config.py:13-14 | an integer option and its decimal text give the same answer |
| OntoConfig.FoundIsFirstHolding | src/socio4health/onto/config.py:17-19 | a returned general option holds the detailed code, comes with its label, and every earlier option does not hold it |
| OntoConfig.FirstHoldingOptionWins | src/socio4health/onto/config.py:17-19 | the first holding option, in document order, is the one returned |
| OntoConfig.SkipMisses | src/socio4health/onto/config.py:17-19 | options that miss the code are passed over: the search answers as it would from the first option not known to miss |
| OntoConfig.NoMatchIffNoneHolds | src/socio4health/onto/config.py:17-21 | (None, "No match found") iff no general option holds the detailed code |
| OntoLookup.FirstMatch | src/socio4health/onto/test.py:15-26 | the first row whose present survey text starts with the code and '=' |
| OntoLookup.HarmonizedCode | src/socio4health/onto/test.py:9-34 | missing survey column is ValueError; None iff no row matches; else the first matching row's value; ValueError for an unknown variable only when a row matches |
| OntoLookup.UnknownVariableNeedsMatch | src/socio4health/onto/test.py:24-34 | an unknown harmonize variable is an error iff some row matches |
| OntoLookup.NumericCellsNeverMatch | src/socio4health/onto/test.py:18-21 | the text of a number, with or without ".0", never starts with a code and '=' |
| OntoLookup.CodeIsDelimited | src/socio4health/onto/test.py:21 | a row matches at most one code free of '=': two such codes matching the same row are equal |
| OntoLookup.CodeIsDelimitedExample | src/socio4health/onto/test.py:21 | code "1" does not match "12=urban", but matches "1=urban" |

## Left out

- Reading and writing files, JSON and CSV loading (`load_mapping`, the module-level code of config.py, jsonQuery.py and test.py), logging, progress bars and dask laziness: the model takes the loaded values as parameters.
- The `Enum` branch of `get_country_mapping` (harmonizer.py:226-232) inside `harmonize_dataframes`: the harmonisation is modelled with dictionary mappings only. The branch itself is modelled on its own by `HarmonizerSchema.EnumCountryMapping`; it differs from the dict branch in raising KeyError for an unknown country and an unknown non-empty default, and in never looking up an empty default.
- Sampling in `drop_nan_columns` (harmonizer.py:119-123): it is random; only the exact mode is modelled.
- The `Harmonizer` class (harmonizer.py:397-494): its properties are plain type checks on stored fields.
- `Transformer.translate`, `get_dfs_names`, `get_columns`, the dictionary and translated-frame properties (transformer.py:17-65): `translate` is a stub, and the rest only store values or list names.
- src/socio4health/etl/transformer.py is not part of this model.
- `Transformer` with `dataframes=None`: the source wraps None in a list and fails later; the model accepts a table or a list of tables.
- Floating point: missing fractions and similarities are exact rationals (`real`), so rounding at a threshold boundary is not modelled.
- dtype promotion on concatenation and on filling: dtypes are tags compared for equality, and a reindexed new column takes the fill value's tag.
- Set iteration order: the model takes the members of a cluster, and the ties among seeds, in ascending index order. CPython iterates an integer set in hash-table order. That is ascending for `remaining_indices`, built from `range(n)`. A cluster set can differ: {1, 8} in an 8-slot table iterates as 8, 1. So once a cluster holds an index at least its table size, the merged frame's row order in the source can differ from the model's. `list(set_of_columns)` (transformer.py:139) has no defined order, and the model uses order of first appearance.
- Upper and lower case are ASCII only; Python maps all of Unicode.
- The regular-expression classes `\d`, `\s` and `\w` are exact for Latin-1 text, which is what the SAS script is decoded as.
- The extractor's scraping, downloads, file readers, `input()` prompts, `makedirs` and `rmtree`: only the decisions around them are modelled; whether `rmtree` succeeds is a parameter.
- The extractor's stored reader options (`encoding`, `is_fwf`, `colnames`, `colspecs`, `sep`, `dtype`) and `dataframes`: stored, never inspected by the modelled code.
- The `download_dir is None` check (extractor.py:73-74) cannot fire, because line 55 always sets a folder; it is not modelled.
- `delete_download_folder`'s protected paths (home, root, working directory, user data folder) are parameters; paths are compared by their components, and the root is written "/". A leading "//", which pathlib keeps, is not distinguished.
- `compressed2files`: archive extraction, the temporary directory, and moving files are replaced by an archive tree whose entries say whether they open as archives. The directory walk's order is the entries' order. The nested-archive test reads the entry's own name; the source tests the joined path, which ends the same way.
- `compressed2files` with its shared default `found_files=set()`: the set is passed explicitly.
- JSON numbers are integers, and Python's `1 == True` equality between numbers and booleans is not modelled.
- `get_harmonized_code`: the code is text; an integer code would print the same way through the f-string.
- `get_harmonized_code`: pandas prints numbers as floats in a column with gaps ("4.0"). Such text never matches, because it holds no '='.
- `DataInfo.__str__`: it only formats the fields.
- HarmonizerSchema.Rename: a column map that sends two columns to one name gives pandas a frame with a repeated label. A model table cannot hold one, so the model returns `DuplicateLabels`, which is not a Python exception, and does not follow what the source then does with that frame.
- HarmonizerSchema.HarmonizeDataframes: when one table raises ValueError and another has colliding renamed columns, the model reports ValueError whatever the order of the countries.
- HarmonizerSelect.DataSelect: a table in which two columns upper-case to a selected name (the key or a requested variable) gives `DuplicateLabels`, where pandas returns both columns under one label. Collisions among columns that are not selected do not change the output and are modelled as such.
- HarmonizerSchema.MapCell: pandas stores an integer column with missing cells as float64, so `astype('str')` gives "4.0" where the model's text is "4". A value map keyed "4" then matches in the model and not in the source, and in strict mode the source raises ValueError where `Harmonize` and `MapValues` succeed.
- HarmonizerSelect.DataSelect: a `variable_name` column with no value at all succeeds in the model. pandas raises AttributeError when such a column has a numeric dtype (an all-NaN float64 column), which the model's dtype tags do not distinguish.
- OntoConfig.KeyText: `str()` of values other than integers and strings is not modelled.
- `query_json` prints the option's detailed mapping (jsonQuery.py:18). That console output is not modelled; the query's result does not depend on it.
- ExtractorModel.SearchOrder: `list(compressed_inter)` and `list(set(down_ext) - compressed_inter)` (extractor.py:253) enumerate sets of strings in hash order, which changes between interpreter runs. The model fixes one order: the archive extensions in their listed order, then the other extensions in order of first appearance. Only the archives-first split, each extension once and the set of extensions are what the source guarantees.
- JsonQuery.VariablesEntries and HarmonizerGrouping.Scan: their properties are stated by the lemmas listed for them (`VariablesEntriesOk`, `VariablesEntriesJoined`, `VariablesEntriesSplit`; `ScanShape`, `ScanErrorKind`) rather than by contracts on the recursive functions themselves.
