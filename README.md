# opentrakr table logic in Dafny

opentrakr downloads USDA FSIS whole-genome-sequencing data and NCBI
pathogen metadata, then reshapes the downloaded tables with pandas. This
project models the deterministic table logic of that reshaping and proves
what it guarantees:

- **JSON-array table extraction** (`extract_tables_from_list`). A top-level
  JSON array is walked item by item. Every list- or dict-valued field of
  every object item becomes one table named `list_item_{i}_{key}`.
- **Merge by category** (`merge_csv_files_by_type`). For the categories
  `primary` and `secondary`:
  - every CSV whose name matches `*{category}*.csv` is tagged with a
    `source_file` column;
  - the tagged tables are folded into one;
  - the first non-empty table fixes the column list, and later tables
    with a different column list are skipped.
- **Primary/secondary join** (`join_primary_secondary`):
  - deduplicate the primary table on `form_id`, keeping first occurrences;
  - derive `year` and `month` from `collection_date`;
  - reduce the secondary table to `form_id` plus three coalesced accession
    columns;
  - inner-join the two tables on `form_id`.
- **NCBI metadata merge** (`read_and_label_files` and the column step of
  `main` in `ncbi_tsv_merge.py`). Files ending in a pattern are read. Each
  row is labelled with a value computed from its file name. The frames are
  concatenated with an outer union of columns. The result is then
  restricted to its "common" columns.

A table is an ordered column list plus a sequence of rows. A row maps
column names to cells of type `Option<Value>`, where `None` is pandas
NaN/null. A column a row lacks reads as NaN (`Tables.Get`). Directory
listings, file contents and JSON documents are given as values. The
source's readers and writers are not modelled.

Files:

- `wrappers.dfy`: `Option` and `Result`.
- `strings.dfy`: suffix and substring tests, `str(i)` for naturals,
  `str.split`, `os.path.basename` and `os.path.join`.
- `tables.dfy`: the table model and column assignment `df[c] = v`.
- `json_tables.dfy`: `extract_tables_from_list`.
- `merge_by_type.dfy`: `merge_csv_files_by_type`.
- `primary_secondary_join.dfy`: `join_primary_secondary`.
- `ncbi_merge.dfy`: `read_and_label_files` and `main`.

The code's loops are methods, each proved equal to a left-fold
specification function:

- `JsonTables.ExtractTablesFromList`;
- `MergeByType.MergeFiles` and `MergeByType.MergeCsvFilesByType`;
- `NcbiMerge.ReadAndLabelFiles`.

Two further methods model the end of `main`. `NcbiMerge.SetToSeq`
models `list(set)` with a loop. Its result has no repetition and holds
exactly the set's elements. `NcbiMerge.MergeMetadata` models the body
of `main` after argument parsing, with no loop. It writes nothing iff
the merged frame is empty. Otherwise its output has the merged frame's
column set without repetition, the same number of rows, and the same
cell in every row and column.

The folds are then related to independent reference descriptions:

- `MergeByType.MergedReference` for the merge fold;
- `NcbiMerge.CollectSucceeds` and `NcbiMerge.CollectFrames` for the read
  loop.

`join_primary_secondary` is a straight pipeline of whole-table
expressions, so it is modelled as functions with lemmas.

The join's row count is at most the row count of the secondary input.
It is not bounded by the number of distinct primary `form_id`s. A
secondary table that repeats a `form_id` yields one joined row per
repetition. `PrimarySecondaryJoin.JoinCanExceedPrimary` exhibits this.

## Model

| member | source | states |
|---|---|---|
| Strings.EndsWith | opentrakr/ncbi_tsv_merge.py:20 | `str.endswith`; `NcbiMerge.MatchingHas` states which files it selects |
| Strings.Contains | opentrakr/fsis_wgs_download.py:175 | `sub in s`, the `*{category}*` part of the glob; `MergeByType.CategoryFilesExact` states which entries it selects |
| Strings.NatToString | opentrakr/fsis_wgs_download.py:130 | `str(i)` of a natural is a non-empty string of decimal digits |
| Strings.DecimalRoundTrip | opentrakr/fsis_wgs_download.py:130 | reading the decimal string back gives the number |
| Strings.NatToStringInjective | opentrakr/fsis_wgs_download.py:130 | different indices give different decimal strings |
| Strings.Split | opentrakr/ncbi_tsv_merge.py:47 | `str.split(sep)` always returns at least one field |
| Strings.SplitJoinRoundTrip | opentrakr/ncbi_tsv_merge.py:47 | joining the split fields with the separator gives back the string |
| Strings.SplitFieldsFree | opentrakr/ncbi_tsv_merge.py:47 | no split field contains the separator |
| Strings.SplitHasSecondField | opentrakr/ncbi_tsv_merge.py:47 | the split has a second field iff the separator occurs in the string |
| Strings.Basename | opentrakr/fsis_wgs_download.py:190 | the base name has no '/' and is a suffix of the path |
| Strings.BasenameMaximal | opentrakr/fsis_wgs_download.py:190 | the base name is the whole path when it has no '/', and otherwise starts right after a '/' |
| Strings.PathJoin | opentrakr/fsis_wgs_download.py:178 | `os.path.join(dir, name)` for two components; `BasenameOfJoin` states that the base name of the joined path is the name when the name has no slash |
| Strings.BasenameOfJoin | opentrakr/fsis_wgs_download.py:178-190 | the base name of `os.path.join(dir, name)` is `name` for a slash-free name |
| Tables.IsEmpty | opentrakr/fsis_wgs_download.py:192 | `DataFrame.empty`: no rows or no columns; `MergeByType.MergeFromEmpty`, `MergeByType.SchemaFixedOnceNonEmpty` and `NcbiMerge.MergeMetadata` state what it decides |
| Tables.WithColumnName | opentrakr/fsis_wgs_download.py:190 | `df[c] = ...` keeps existing columns in place, appends c only when new, and keeps the column list duplicate-free |
| Tables.WithConstColumn | opentrakr/fsis_wgs_download.py:190 | `df[c] = v` for a constant v; `WithConstColumnSets` states its columns, rows and cells |
| Tables.WithConstColumnSets | opentrakr/fsis_wgs_download.py:190 | after `df[c] = v` every row holds v in c, every other cell and the row count are unchanged, and well-formedness is kept |
| JsonTables.FrameOf | opentrakr/fsis_wgs_download.py:128-133 | a list value gives a frame with one row per element |
| JsonTables.TableName | opentrakr/fsis_wgs_download.py:130-133 | the key `list_item_{i}_{key}`; `TableNameInjective` states that it determines i and key |
| JsonTables.TableNameInjective | opentrakr/fsis_wgs_download.py:130-133 | `list_item_{i}_{key}` determines i and key, because `str(i)` has no underscore, so no extracted table overwrites another |
| JsonTables.ExtractTables | opentrakr/fsis_wgs_download.py:122-136 | the function as a fold over the items, empty for a non-list document; `ExtractProduces` and `OnlyContainerFieldsProduce` state which tables it yields |
| JsonTables.AddItemTables | opentrakr/fsis_wgs_download.py:125-133 | the loop over the items; `ItemTablesProduce`, `ItemTablesKeep` and `ItemTablesOrigin` state what it stores, keeps and adds |
| JsonTables.AddFieldTables | opentrakr/fsis_wgs_download.py:127-133 | the loop over one object item's fields; `FieldTablesProduce`, `FieldTablesKeep` and `FieldTablesOrigin` state what it stores, keeps and adds |
| JsonTables.ExtractTablesFromList | opentrakr/fsis_wgs_download.py:122-136 | the nested loops compute the left fold `ExtractTables` over items and fields |
| JsonTables.ExtractProduces | opentrakr/fsis_wgs_download.py:125-133 | the table for each list- or dict-valued field of an object item is present under `list_item_{i}_{key}`, built from that value; a list value gives as many rows as it has elements |
| JsonTables.OnlyContainerFieldsProduce | opentrakr/fsis_wgs_download.py:124-136 | every extracted table comes from a list- or dict-valued field of an object item of a top-level array, so a non-list document, non-object items and scalar fields give nothing |
| JsonTables.FieldTablesOrigin | opentrakr/fsis_wgs_download.py:127-133 | an entry after the field loop was there before or comes from a container field of this item |
| JsonTables.ItemTablesOrigin | opentrakr/fsis_wgs_download.py:125-133 | an entry after the item loop was there before or comes from a container field of a later item |
| JsonTables.FieldTablesProduce | opentrakr/fsis_wgs_download.py:127-133 | the field loop stores each container field's frame under its name |
| JsonTables.ItemTablesProduce | opentrakr/fsis_wgs_download.py:125-133 | the item loop stores each container field's frame under its name |
| JsonTables.FieldTablesKeep | opentrakr/fsis_wgs_download.py:127-133 | the field loop leaves entries it does not name untouched |
| JsonTables.ItemTablesKeep | opentrakr/fsis_wgs_download.py:125-133 | the item loop leaves entries of earlier items untouched |
| MergeByType.GlobMatches | opentrakr/fsis_wgs_download.py:175-178 | the pattern `*{category}*.csv`; `CategoryFilesExact` states that the file list holds exactly the matching entries |
| MergeByType.CategoryFiles | opentrakr/fsis_wgs_download.py:178 | `glob.glob` of the joined pattern; `CategoryFilesExact` states its contents |
| MergeByType.CategoryFilesExact | opentrakr/fsis_wgs_download.py:175-178 | the file list holds exactly the entries matching `*{category}*.csv`, each joined to the directory |
| MergeByType.Tag | opentrakr/fsis_wgs_download.py:189-190 | `read_csv` followed by the `source_file` assignment; `TagSetsSourceFile` states its columns and cells |
| MergeByType.TagSetsSourceFile | opentrakr/fsis_wgs_download.py:189-190 | tagging keeps the file's columns in place and adds only `source_file`: the column set gains exactly `source_file`, and the list grows by one unless the file already has that column; every row gets the file's base name there, the row count is kept and no other cell changes |
| MergeByType.MergeStep | opentrakr/fsis_wgs_download.py:192-199 | one turn of the merge loop; `MergeFromNonEmpty` and `SchemaFixedOnceNonEmpty` state when a table is appended and that the schema stays fixed |
| MergeByType.MergeFrom | opentrakr/fsis_wgs_download.py:186-199 | the merge loop as a left fold; `MergeFromEmpty`, `MergeFromNonEmpty`, `MergeMatchesReference` and `MergedRowCount` state its result |
| MergeByType.MergeFiles | opentrakr/fsis_wgs_download.py:186-199 | the merge loop computes the left fold `MergeFrom` from the empty frame |
| MergeByType.OutputName | opentrakr/fsis_wgs_download.py:176 | `merged_usda_fsis_data_{category}.csv`; `OutputNameInjective` states that it tells categories apart |
| MergeByType.CategoryOutput | opentrakr/fsis_wgs_download.py:178-202 | what one category writes; `WrittenFiles` states when it writes and what |
| MergeByType.Outputs | opentrakr/fsis_wgs_download.py:174-202 | the files written after a prefix of the categories; `OutputsKeys` and `OutputsAt` state its names and contents |
| MergeByType.MergeCsvFilesByType | opentrakr/fsis_wgs_download.py:174-204 | the loop over the categories writes exactly `Outputs(FILE_TYPES, CategoryOutput)`: per category, nothing without matching files, else the merged table |
| MergeByType.OutputNameInjective | opentrakr/fsis_wgs_download.py:176 | distinct categories get distinct output file names |
| MergeByType.OutputsKeys | opentrakr/fsis_wgs_download.py:174-202 | the written file names are exactly the output names of the categories that write something |
| MergeByType.OutputsAt | opentrakr/fsis_wgs_download.py:174-202 | a category that writes keeps its own output: no other distinct category overwrites it |
| MergeByType.WrittenFiles | opentrakr/fsis_wgs_download.py:174-204 | output exists exactly for the categories primary and secondary that have matching files, under `merged_usda_fsis_data_{category}.csv`, holding that category's merge |
| MergeByType.FirstWithRows | opentrakr/fsis_wgs_download.py:192-193 | finds the first file whose tagged table is non-empty, and no earlier one is |
| MergeByType.CompatibleSubset | opentrakr/fsis_wgs_download.py:195-197 | a file accepted after the schema test is one of the files |
| MergeByType.CompatibleFirst | opentrakr/fsis_wgs_download.py:195-199 | the first file is accepted iff its tagged column list equals the given column list `cols` |
| MergeByType.MergeFromNonEmpty | opentrakr/fsis_wgs_download.py:194-199 | from a non-empty accumulator the fold appends exactly the rows of the files with the same ordered column list |
| MergeByType.MergeFromEmpty | opentrakr/fsis_wgs_download.py:192-199 | from an empty accumulator the fold equals the reference: the first non-empty table, then the compatible later ones |
| MergeByType.MergedReference | opentrakr/fsis_wgs_download.py:186-199 | an independent description of the merge: the first tagged table with rows, then the rows of every later file with its column list; `MergeMatchesReference` states that the loop computes it |
| MergeByType.MergeMatchesReference | opentrakr/fsis_wgs_download.py:186-199 | the loop's result equals `MergedReference`, the independent description of the merge |
| MergeByType.SchemaFixedOnceNonEmpty | opentrakr/fsis_wgs_download.py:192-199 | once the accumulator is non-empty its column list never changes and it stays non-empty |
| MergeByType.TaggedRowsCount | opentrakr/fsis_wgs_download.py:199 | the concatenated rows number the sum of the tables' row counts |
| MergeByType.MergedRowCount | opentrakr/fsis_wgs_download.py:186-199 | the merged row count is the sum of the row counts of the accepted tables |
| MergeByType.TaggedRowsSource | opentrakr/fsis_wgs_download.py:190 | each concatenated row names one of the files in `source_file` |
| MergeByType.MergedRowsNameTheirFile | opentrakr/fsis_wgs_download.py:188-199 | every merged row names, in `source_file`, the base name of one of the merged files |
| MergeByType.CategoryRowsNameTheirEntry | opentrakr/fsis_wgs_download.py:175-199 | every merged row of a category names a directory entry matching that category's pattern |
| PrimarySecondaryJoin.MissingFrom | opentrakr/fsis_wgs_download.py:228-238 | the listed columns the table lacks, empty iff none is missing |
| PrimarySecondaryJoin.DropDuplicateKeys | opentrakr/fsis_wgs_download.py:220 | `df[~df.duplicated(subset=key)]`; `DropDuplicateKeysFails` states its error case |
| PrimarySecondaryJoin.DropDuplicateKeysFails | opentrakr/fsis_wgs_download.py:220 | deduplication fails exactly when the key column is absent, names that column, and otherwise keeps the column list |
| PrimarySecondaryJoin.KeepFirst | opentrakr/fsis_wgs_download.py:220 | the surviving rows; `KeepFirstOccurrences`, `KeepFirstKeySet` and `KeepFirstUnique` state which rows survive |
| PrimarySecondaryJoin.KeepFirstKeySet | opentrakr/fsis_wgs_download.py:220 | deduplication loses no `form_id` value |
| PrimarySecondaryJoin.KeepFirstUnique | opentrakr/fsis_wgs_download.py:220 | after deduplication no `form_id` occurs twice |
| PrimarySecondaryJoin.KeepFirstOccurrences | opentrakr/fsis_wgs_download.py:220 | the survivors are exactly the rows with no earlier row of the same key, in their original order |
| PrimarySecondaryJoin.PicksSnoc | opentrakr/fsis_wgs_download.py:220 | a kept last row is picked at the last position, after the earlier survivors |
| PrimarySecondaryJoin.FirstsSnoc | opentrakr/fsis_wgs_download.py:220 | the first occurrences of a table are those of its prefix, plus the last row exactly when its key is new |
| PrimarySecondaryJoin.DeriveYearMonth | opentrakr/fsis_wgs_download.py:223-225 | the three date assignments; `DeriveYearMonthRow` and `DeriveYearMonthFails` state its result |
| PrimarySecondaryJoin.ParsedDate | opentrakr/fsis_wgs_download.py:223 | `to_datetime(..., errors="coerce")` on one cell: NaT for a missing cell, otherwise the parser's result; `DatedRowCells` states how it sets the date, year and month |
| PrimarySecondaryJoin.DatedRow | opentrakr/fsis_wgs_download.py:223-225 | one row after the date assignments; `DatedRowCells` states its cells |
| PrimarySecondaryJoin.DeriveYearMonthRow | opentrakr/fsis_wgs_download.py:223-225 | no row is dropped; an unparseable or missing date becomes null with null year and month; a parsed date gives its year and month; other cells are unchanged |
| PrimarySecondaryJoin.DeriveYearMonthFails | opentrakr/fsis_wgs_download.py:223-225 | date derivation fails exactly when `collection_date` is absent, and the error names that column |
| PrimarySecondaryJoin.DatedRowCells | opentrakr/fsis_wgs_download.py:223-225 | per row: a missing or unparseable date nulls the date, year and month; a parsed date sets all three; no other cell changes |
| PrimarySecondaryJoin.DerivedColumns | opentrakr/fsis_wgs_download.py:224-225 | `year` and `month` follow the existing columns and are the only columns added |
| PrimarySecondaryJoin.DatedKeys | opentrakr/fsis_wgs_download.py:223-225 | date derivation keeps each row's `form_id` and hence key uniqueness |
| PrimarySecondaryJoin.SimplifySecondary | opentrakr/fsis_wgs_download.py:228-259 | the restriction, the three coalesced columns and the drop; `SimplifySecondaryFails` and `SimplifySecondaryRow` state its result |
| PrimarySecondaryJoin.SimplifiedRow | opentrakr/fsis_wgs_download.py:240-259 | one row of the simplified table; `SimplifySecondaryRow` states its cells |
| PrimarySecondaryJoin.Coalesce | opentrakr/fsis_wgs_download.py:240-248 | `bfill(axis=1).iloc[:, 0]` over two columns; `SimplifySecondaryRow` states that the result is the first value if non-null, else the second |
| PrimarySecondaryJoin.SimplifySecondaryFails | opentrakr/fsis_wgs_download.py:228-238 | the restriction fails exactly when a listed column is absent, naming the absent ones |
| PrimarySecondaryJoin.SimplifySecondaryRow | opentrakr/fsis_wgs_download.py:228-259 | the secondary table has exactly `form_id`, `bio_project_number`, `bio_sample_number` and `sra_accession_number`, keeps every row, and each merged column is the salmonella value if non-null, else the campylobacter value |
| PrimarySecondaryJoin.SimplifiedKeys | opentrakr/fsis_wgs_download.py:228-259 | the simplified secondary table keeps each row's `form_id` |
| PrimarySecondaryJoin.LeftNames | opentrakr/fsis_wgs_download.py:262 | each left column keeps its position, with `_x` when it overlaps a right non-key column |
| PrimarySecondaryJoin.RightNames | opentrakr/fsis_wgs_download.py:262 | the right columns other than the key, each with `_y` when it overlaps a left column |
| PrimarySecondaryJoin.JoinedColumns | opentrakr/fsis_wgs_download.py:262 | `pd.merge`'s output column list, the left names then the right names; `LeftNames`, `RightNames` and `InnerJoinPairs` state it |
| PrimarySecondaryJoin.LeftPart | opentrakr/fsis_wgs_download.py:262 | the left half of a joined row has exactly the left output names |
| PrimarySecondaryJoin.RightPart | opentrakr/fsis_wgs_download.py:262 | the right half of a joined row has exactly the right output names |
| PrimarySecondaryJoin.LeftPartAt | opentrakr/fsis_wgs_download.py:262 | each left cell sits under its output name |
| PrimarySecondaryJoin.RightPartAt | opentrakr/fsis_wgs_download.py:262 | each non-key right cell sits under its output name |
| PrimarySecondaryJoin.Combine | opentrakr/fsis_wgs_download.py:262 | one joined row; `CombineCells` and `CombineKey` state its cells |
| PrimarySecondaryJoin.CombineCells | opentrakr/fsis_wgs_download.py:262 | a joined row has exactly the output columns, the left cells under the left names, the right non-key cells under the right names, and the left row's key |
| PrimarySecondaryJoin.CombineKey | opentrakr/fsis_wgs_download.py:262 | a joined row carries the left row's key |
| PrimarySecondaryJoin.CountKeyIn | opentrakr/fsis_wgs_download.py:262 | the number of rows whose key is in a set is at most the number of rows |
| PrimarySecondaryJoin.Matches | opentrakr/fsis_wgs_download.py:262 | the right rows joining one left row; `MatchesCount`, `MatchesOrigin` and `MatchesComplete` state them |
| PrimarySecondaryJoin.MatchesCount | opentrakr/fsis_wgs_download.py:262 | a left row joins with as many rows as the right side has with its key |
| PrimarySecondaryJoin.MatchesOrigin | opentrakr/fsis_wgs_download.py:262 | every match of a left row comes from a right row with the same key |
| PrimarySecondaryJoin.MatchesComplete | opentrakr/fsis_wgs_download.py:262 | every right row with the left row's key yields a match |
| PrimarySecondaryJoin.JoinRows | opentrakr/fsis_wgs_download.py:262 | the rows of the inner join; `JoinRowsCount`, `JoinRowsOrigin` and `JoinRowsComplete` state them |
| PrimarySecondaryJoin.JoinRowsCount | opentrakr/fsis_wgs_download.py:220-262 | with a left side unique by key the join has one row per right row whose key occurs on the left |
| PrimarySecondaryJoin.JoinRowsOrigin | opentrakr/fsis_wgs_download.py:262 | every joined row combines a left and a right row with equal keys |
| PrimarySecondaryJoin.JoinRowsComplete | opentrakr/fsis_wgs_download.py:262 | every left/right pair with equal keys yields a joined row |
| PrimarySecondaryJoin.InnerJoin | opentrakr/fsis_wgs_download.py:262 | `pd.merge(..., on=key, how="inner")`; `InnerJoinPairs`, `InnerJoinKeys` and `InnerJoinFails` state its result |
| PrimarySecondaryJoin.InnerJoinPairs | opentrakr/fsis_wgs_download.py:262 | the inner join's rows are exactly the combinations of left and right rows with equal keys, under the suffixed columns |
| PrimarySecondaryJoin.InnerJoinKeys | opentrakr/fsis_wgs_download.py:262 | the join keeps exactly the keys present on both sides; with a unique left side it has at most as many rows as the right side |
| PrimarySecondaryJoin.JoinedKeyFromBoth | opentrakr/fsis_wgs_download.py:262 | every joined row's key occurs on both sides |
| PrimarySecondaryJoin.JoinedKeyOfBoth | opentrakr/fsis_wgs_download.py:262 | every key occurring on both sides is the key of some joined row |
| PrimarySecondaryJoin.InnerJoinFails | opentrakr/fsis_wgs_download.py:262 | the join reports a missing column exactly when a side lacks the key |
| PrimarySecondaryJoin.JoinPrimarySecondary | opentrakr/fsis_wgs_download.py:209-262 | the whole pipeline; `JoinPrimarySecondaryFails`, `JoinPrimarySecondaryKeys` and `JoinCanExceedPrimary` state its result |
| PrimarySecondaryJoin.JoinPrimarySecondaryFails | opentrakr/fsis_wgs_download.py:215-262 | a missing-column error arises exactly when the primary table lacks `form_id` or `collection_date`, or the secondary table lacks one of its seven listed columns |
| PrimarySecondaryJoin.JoinPrimarySecondaryKeys | opentrakr/fsis_wgs_download.py:219-262 | the output's `form_id`s are exactly those present in both inputs; it has one row per secondary row whose `form_id` occurs in the primary table, so at most the secondary row count |
| PrimarySecondaryJoin.JoinCanExceedPrimary | opentrakr/fsis_wgs_download.py:219-262 | one primary row whose `form_id` the secondary table lists twice joins into two rows, so the output is not bounded by the distinct primary keys |
| NcbiMerge.Matching | opentrakr/ncbi_tsv_merge.py:19-20 | the listed files whose names end with the pattern; `MatchingHas` states which |
| NcbiMerge.MatchingHas | opentrakr/ncbi_tsv_merge.py:19-20 | a file is read iff it is listed and its name ends with the pattern |
| NcbiMerge.Labelled | opentrakr/ncbi_tsv_merge.py:23-24 | a frame with its label column set; `LabelledShape` states its shape |
| NcbiMerge.LabelledShape | opentrakr/ncbi_tsv_merge.py:23-24 | labelling keeps rows, cells and the columns in place, adds only the label column, and puts the file's label in every row under it |
| NcbiMerge.AddNew | opentrakr/ncbi_tsv_merge.py:26 | appending a frame's new columns keeps earlier columns in place and adds exactly the new ones, without repetition |
| NcbiMerge.UnionColumns | opentrakr/ncbi_tsv_merge.py:26 | the concatenated column list has no repetition |
| NcbiMerge.UnionColumnsHas | opentrakr/ncbi_tsv_merge.py:26 | the concatenated columns are exactly those some frame has |
| NcbiMerge.UnionColumnsOf | opentrakr/ncbi_tsv_merge.py:26 | every column of a concatenated frame is in the result |
| NcbiMerge.UnionColumnsFrom | opentrakr/ncbi_tsv_merge.py:26 | every result column comes from one of the frames |
| NcbiMerge.Concat | opentrakr/ncbi_tsv_merge.py:26 | `pd.concat(dfs, ignore_index=True)`, or the empty frame for no frames; `UnionColumns`, `UnionColumnsHas`, `ConcatRows` and `ConcatRowsAt` state its columns and rows |
| NcbiMerge.PadRow | opentrakr/ncbi_tsv_merge.py:26 | a row reindexed to the union of columns, NaN where it has no cell; `ConcatRowsAt` and `PaddedRowCells` state its cells |
| NcbiMerge.ConcatRows | opentrakr/ncbi_tsv_merge.py:26 | the concatenation has as many rows as the frames together |
| NcbiMerge.ConcatRowsAt | opentrakr/ncbi_tsv_merge.py:26 | row j of frame k sits at offset (rows of frames before k) + j, padded to the union |
| NcbiMerge.ReadAndLabelFiles | opentrakr/ncbi_tsv_merge.py:18-26 | the loop computes the fold `Collect` followed by the concatenation |
| NcbiMerge.Collect | opentrakr/ncbi_tsv_merge.py:18-25 | the read loop as a fold; `CollectSucceeds` and `CollectFrames` state when it succeeds and what it collects |
| NcbiMerge.CollectSucceeds | opentrakr/ncbi_tsv_merge.py:19-25 | the loop completes iff the label function is defined on every matching name |
| NcbiMerge.CollectFrames | opentrakr/ncbi_tsv_merge.py:19-25 | on success the loop collects the labelled frames of exactly the matching files, in listing order |
| NcbiMerge.ReadAndLabel | opentrakr/ncbi_tsv_merge.py:18-26 | the whole function; `ReadFrames`, `ReadAndLabelFails`, `ReadAndLabelCount` and `ReadAndLabelRows` state its result |
| NcbiMerge.ReadFrames | opentrakr/ncbi_tsv_merge.py:25-26 | the resulting frame is the concatenation of the labelled matching frames |
| NcbiMerge.ReadAndLabelFails | opentrakr/ncbi_tsv_merge.py:24-26 | reading fails only when the label function fails on a matched name, and with no matching file the result is the empty frame |
| NcbiMerge.ReadAndLabelCount | opentrakr/ncbi_tsv_merge.py:25-26 | the result has exactly as many rows as the matched files together |
| NcbiMerge.MergedRowAt | opentrakr/ncbi_tsv_merge.py:25-26 | row j of the k-th matched file sits at its offset in the result |
| NcbiMerge.ReadAndLabelRows | opentrakr/ncbi_tsv_merge.py:19-26 | the row from file k carries that file's label and its own cells, NaN for columns it lacks, and the file's columns are all in the result |
| NcbiMerge.LabelledColumnsHas | opentrakr/ncbi_tsv_merge.py:23-24 | a labelled frame's columns are exactly the file's own columns plus the label column, if set |
| NcbiMerge.ReadAndLabelColumns | opentrakr/ncbi_tsv_merge.py:22-26 | the merged frame's columns are exactly the matched files' own columns, plus the label column when it is set and some file matched |
| NcbiMerge.PaddedRowCells | opentrakr/ncbi_tsv_merge.py:23-26 | a labelled row reindexed to the result columns holds the label and otherwise the file's own cell or NaN |
| NcbiMerge.ReadUnlabelled | opentrakr/ncbi_tsv_merge.py:23-26 | with a falsy label column no column is added: the result is the plain concatenation |
| NcbiMerge.MetadataLabel | opentrakr/ncbi_tsv_merge.py:47 | `lambda f: f.split('.')[1]`, undefined for a name without a dot; `MetadataLabelDefined` states that it is defined on metadata names |
| NcbiMerge.MetadataLabelDefined | opentrakr/ncbi_tsv_merge.py:46-47 | for a name ending in `.metadata.tsv`, `f.split('.')[1]` exists and contains no dot |
| NcbiMerge.MetadataReadSucceeds | opentrakr/ncbi_tsv_merge.py:46-47 | reading the metadata files never fails |
| NcbiMerge.Intersection | opentrakr/ncbi_tsv_merge.py:54 | `set.intersection` holds exactly the elements common to every set |
| NcbiMerge.SetToSeq | opentrakr/ncbi_tsv_merge.py:54 | `list(set)` lists every element exactly once |
| NcbiMerge.Project | opentrakr/ncbi_tsv_merge.py:57 | `df[cols]`; `MergeMetadata` states what the projection on the common columns keeps |
| NcbiMerge.MergeMetadata | opentrakr/ncbi_tsv_merge.py:46-57 | nothing is written iff the merged frame is empty (in particular when no file matches); otherwise the output keeps exactly the merged column set and the same rows and cells |

## Left out

- File and directory I/O is not modelled, and neither are `print` messages or the output folder's creation:
  - `json.load`, `read_csv`, `to_csv` and `os.makedirs`;
  - the directory listing and globbing. A listing is a given sequence of entries, in an order the model leaves open.
- `to_datetime`'s format inference is not modelled. The date parser is a parameter, a partial function from a cell value to a date. pandas infers one format per column, which is not captured.
- `json_normalize` flattening and `DataFrame(list)` column inference are not modelled. An extracted table keeps its JSON payload and its row count.
- `read_csv`'s dtype inference and `dtype=str` are not modelled. Cells are given values.
- The `year` and `month` columns are integers. In pandas they are floats when a NaT is present.
- PrimarySecondaryJoin.InnerJoin: any repeated output column label is reported as an error. pandas raises only when the suffixes create the repetition within one side; otherwise it keeps repeated labels.
- PrimarySecondaryJoin.InnerJoin: the output row order (left rows in order, each followed by its matches in right order) is a modelling choice, and no lemma depends on it. NaN keys match each other, as in pandas.
- NcbiMerge.UnionColumns: columns of concatenated frames are assumed to appear in first-appearance order (pandas `concat` without sorting).
- NcbiMerge.SetToSeq: the order `list(set)` yields is left open. The model picks any order.
- NcbiMerge.ReadAndLabelFiles: `os.path.join(directory, filename)` is used only to open the file, so it is not modelled. The entry supplies its frame directly.
- MergeByType.MergeCsvFilesByType: the written files are keyed by their file name. The directory that `os.path.join` puts in front of it is not included.
- JsonTables.FrameOf: `pd.DataFrame(value)` can raise, and the model does not say so. For example, a list that starts with a record and later holds a scalar, such as `[{"a": 1}, 2]`, raises AttributeError, which ends `extract_tables_from_list`. The model instead keeps the list's items and counts one row per item, so `ExtractProduces` promises a table where the source raises.
- MergeByType.MergeCsvFilesByType: one directory listing serves both categories. The source globs again for `secondary` after writing `merged_usda_fsis_data_primary.csv`. That file name does not contain `secondary`, so the second glob sees the same matching entries, in an order the model leaves open, as for the first listing.
- JsonTables.ExtractTables: a JSON object is a list of key/value pairs, so the type admits a repeated key, which a Python dict cannot hold (`json.load` keeps the last value). For such an object the model stores a table for each container occurrence, a later one overwriting an earlier one, whereas Python sees only the last value: when that value is a scalar, Python yields no table where the model does. `FieldTablesProduce`, `ItemTablesProduce` and `ExtractProduces` require an item without repeated keys (`DistinctKeys`), as every parsed item is.
- The label function's exceptions are modelled as `None`, which stops the read with `LabelFailed`.
- The following are not part of this model: the download code (browser sessions, polling with timeouts, subprocesses, HTTP requests), `process_primary_and_secondary_tables_per_file`, `convert_to_tab_delimited`, `complete_workflow`, the command-line parsing and packaging.
