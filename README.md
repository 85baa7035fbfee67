# Data comparison: a verified model

`Data_Comparison.py` reconciles two delimited exports of the same table: an
"oracle" source file and a "datacloud" target file. It sniffs each file's
encoding, delimiter and extension, loads both into tables sorted by the
primary key, and derives the matched, unmatched, source-only, target-only and
value-mismatch record sets. It builds an annotated `old -> new` difference
report and writes a list of scenario verdicts.

This project models that logic in Dafny, without the file, plot and console
output, and proves what each step promises:

- `Tables`: bytes, cells (`Null`, `Text`, `Number`), rows, tables, the key
  order the loader sorts by, and the decimal rendering of counts.
- `Delimiter`: `get_file_delimiter`, as methods over the dictionary of totals,
  both as written and with every candidate's total updated.
- `Encoding`: `detect_encoding2`, with decoding as a parameter.
- `Escape`: `convert_delimiter_to_raw` (`re.escape`).
- `Extension`: `detect_extension` (`os.path.splitext`, then `lower`).
- `Loader`: the concatenation and the in-place sort of `read_and_merge_csv`.
- `Reconcile`: the merges, `drop_duplicates(keep=False)` and the `isin`
  filters.
- `Diff`: `fillna('')` and the nested loop that builds `unmatched_data`.
- `Counts`: `nunique` on the key and `duplicated().sum()`.
- `Sorting`: `sorted()` on lists of `str`.
- `Scenarios`: the verdict lines of scenarios 1, 2, 3, 5 (first branch), 6,
  9, 10, 15 and 16.

The model assumes both tables have the same columns, with the target's rows
in the source's column order. `k` is the primary key's position.

Cells compare structurally, so a missing value equals a missing value. This
is how `merge`, `drop_duplicates`, `isin` and `DataFrame.equals` treat NaN.

Facts about the code that the model makes explicit:

- Inside the readline comprehension of `get_file_delimiter`
  (`Data_Comparison.py:60`), the name `delimiter` is not the dictionary
  comprehension's variable, which lives in its own scope. It is the
  module-level `delimiter = '|'` of `Data_Comparison.py:15`. Only the entry of
  `|` ever grows, so the function returns `|` when a `|` occurs in the lines
  read and `,` otherwise (`Delimiter.GetFileDelimiter`). A file separated by
  `;` is sniffed as `,` (`Delimiter.SemicolonFileGivesComma`). The corrected
  sniffer, `Delimiter.GetFileDelimiterCorrected`, totals every candidate. The
  lemmas `Delimiter.NeverPipeStar` and `Delimiter.NothingFoundGivesComma` are
  about it. No other member uses the result of either sniffer: the tables
  the reconciliation works on are given already split into cells.
- Even corrected, the sniffer never returns `|*|`: every `|*|` holds two `|`,
  and `|` is also a candidate (`Delimiter.NeverPipeStar`).
- The comment at `Data_Comparison.py:64` says `|*|` becomes `\|*\|`. It
  becomes `\|\*\|` (`Escape.EscapedCandidates`).
- `sort_values` uses quicksort, which is not stable. The model promises only
  a permutation whose keys are in order, with missing keys last.

## Model

| member | source | states |
|---|---|---|
| Tables.KeyLeTotal | Data_Comparison.py:30 | any two key cells are comparable in the order sort_values uses |
| Tables.KeyLeTransitive | Data_Comparison.py:30 | the key order is transitive, so adjacent order gives order throughout |
| Tables.LexLeAntisymmetric | Data_Comparison.py:257 | two strings that each sort no later than the other are equal, so sorted() has one result per multiset |
| Tables.DecimalRoundTrip | Data_Comparison.py:245 | the rendered digits of a count read back as that count |
| Delimiter.CandidatesDistinct | Data_Comparison.py:54-56 | the 32 candidates are non-empty and pairwise different, so the dictionary of totals has one entry per candidate |
| Delimiter.CountIn | Data_Comparison.py:60 | str.count finds at most len(s) occurrences of a non-empty string, and len(s) + 1 of the empty string |
| Delimiter.CountInBound | Data_Comparison.py:60 | the occurrences str.count finds do not overlap: at most len(s)/len(d) of them |
| Delimiter.Lines | Data_Comparison.py:59-61 | at most check_lines lines are read, and the empty string at end of file is skipped |
| Delimiter.FirstLargest | Data_Comparison.py:62 | max(results, key=results.get) returns a key whose value no entry exceeds, and every earlier key's value is smaller |
| Delimiter.AddPipeCount | Data_Comparison.py:60 | as written, one readline adds the line's count of the module-level `|` (line 15) to the entry of `|`; no other entry moves |
| Delimiter.Totals | Data_Comparison.py:56-61 | as written, after the loop the entry of `|` holds its total over the lines read and every other entry is still 0 |
| Delimiter.PipeOrFirst | Data_Comparison.py:62 | when only the `|` entry can be non-zero, max picks `|` if that entry is positive and the first candidate otherwise |
| Delimiter.GetFileDelimiter | Data_Comparison.py:53-62 | as written, the result is `|` exactly when a `|` occurs in the lines read, and `,` otherwise |
| Delimiter.SemicolonLineCounts | Data_Comparison.py:59-61 | the file `a;b` has one line, holding one `;` and no `|` or `,` |
| Delimiter.SemicolonFileGivesComma | Data_Comparison.py:53-62 | as written, a `;`-separated file is sniffed as `,` although `;` has the largest total and `,` is not the first maximal candidate |
| Delimiter.AddLine | Data_Comparison.py:60 | corrected, one readline adds each candidate's count in that line to that candidate's entry |
| Delimiter.TotalsCorrected | Data_Comparison.py:56-61 | corrected, after the loop each entry holds the candidate's total over the lines read |
| Delimiter.GetFileDelimiterCorrected | Data_Comparison.py:53-62 | corrected, the result is a candidate with the largest total, every earlier candidate scoring less; it is never `|*|`, and it is `,` when no candidate occurs |
| Delimiter.PipeScoresTwicePipeStar | Data_Comparison.py:54-60 | over any lines, the total for `|` is at least twice the total for `|*|`, the fact the corrected sniffer relies on |
| Delimiter.NeverPipeStar | Data_Comparison.py:54-62 | corrected, the first maximal candidate is never `|*|` |
| Delimiter.NothingFoundGivesComma | Data_Comparison.py:54-62 | corrected, when no candidate occurs, `,` (the first candidate) is chosen |
| Encoding.RawData | Data_Comparison.py:39 | the joined readlines are a prefix of the file, empty only for zero rows or an empty file |
| Encoding.ScanCandidates | Data_Comparison.py:40-41 | a found encoding is in the list and decodes the sample to non-empty text; with zero rows the first candidate is returned |
| Encoding.DetectEncoding | Data_Comparison.py:36-44 | the result is None or a member of the list; an unopenable file gives None |
| Encoding.ScanStopsAtFirstNonEmpty | Data_Comparison.py:40-44 | after candidates that decode to empty text, the next one is found if its text is non-empty and aborts the scan if it raises; with none left, nothing is found |
| Encoding.DetectedIsFirstNonEmpty | Data_Comparison.py:40-41 | a detected encoding is the first that decodes to non-empty text, and every earlier one decoded to empty text |
| Encoding.RaiseEndsDetection | Data_Comparison.py:40-44 | a raising decode ends detection with None, and later candidates are never tried |
| Encoding.NoAnsiCodecGivesNone | Data_Comparison.py:36-44 | a platform without an `ANSI` codec detects nothing for a non-empty file, because the first candidate raises |
| Encoding.EmptyFileGivesNone | Data_Comparison.py:39-41 | an empty file gives None, because the empty text is falsy |
| Encoding.NoRowsGivesFirstCandidate | Data_Comparison.py:40-41 | with num_rows = 0, all() is vacuous and the first candidate is returned |
| Escape.ConvertDelimiterToRaw | Data_Comparison.py:73-74 | the escaped text is one character longer for each re-special character |
| Escape.UnescapeConvert | Data_Comparison.py:65-74 | removing the inserted backslashes gives back the delimiter |
| Escape.PlainDelimiterUnchanged | Data_Comparison.py:73 | a delimiter without special characters is returned unchanged |
| Escape.EscapedCandidates | Data_Comparison.py:64-74 | pipe-star-pipe gets all three characters escaped, not only the two pipes; `,`, `;` and `:` are unchanged |
| Extension.SplitExt | Data_Comparison.py:79 | root + ext is the path, and ext is empty or a dot followed by no further dot or slash |
| Extension.DetectExtension | Data_Comparison.py:78-80 | the extension is the lower-cased tail of the path, empty or a dot followed by no further dot or slash |
| Extension.ExtensionFoundIff | Data_Comparison.py:78-80 | an extension is found exactly when the last path component has a dot with a non-dot character before it |
| Extension.ExtensionOfDataFile | Data_Comparison.py:78-80 | `in/Data.CSV` gives `.csv` |
| Extension.ExtensionOfHiddenFile | Data_Comparison.py:78-80 | a hidden file `/u/.bashrc` has no extension |
| Extension.ExtensionOfDottedDirectory | Data_Comparison.py:78-80 | a dot in a directory name, as in `a.d/readme`, starts no extension |
| Loader.AdjacentSortedIsSorted | Data_Comparison.py:30 | rows in key order pairwise when adjacent rows are in key order |
| Loader.ConcatHasColumn | Data_Comparison.py:29 | the concatenated chunks keep the key column |
| Loader.SiftStep | Data_Comparison.py:30 | one step of the sort's insertion pass (a swap with an earlier row whose key follows) keeps the rows before and after the moving row in key order |
| Loader.InsertAt | Data_Comparison.py:30 | one insertion pass keeps the same rows and leaves the first i + 1 of them in key order |
| Loader.SortByKey | Data_Comparison.py:30 | after the in-place sort, the array holds the same rows, in key order |
| Loader.ReadAndMerge | Data_Comparison.py:26-31 | the loaded rows are the chunks' rows, in key order, with missing keys last |
| Reconcile.MatchAll | Data_Comparison.py:129 | a row occurring a times in the source and b times in the target is matched a*b times |
| Reconcile.MatchAllOfDistinct | Data_Comparison.py:129 | when each source row occurs once in the target, the matches are the source rows in order |
| Reconcile.KeepSingles | Data_Comparison.py:131-132 | drop_duplicates(keep=False) never adds rows |
| Reconcile.KeepSinglesMembers | Data_Comparison.py:131-132 | drop_duplicates(keep=False) keeps exactly the rows occurring once |
| Reconcile.DropDuplicates | Data_Comparison.py:131-132 | drop_duplicates(keep=False) keeps exactly the rows occurring once, and never adds rows |
| Reconcile.OnceAndAbsentMembers | Data_Comparison.py:131-132 | a row survives exactly when it occurs once on its side and not at all on the other |
| Reconcile.DropMatchedCopies | Data_Comparison.py:131-132 | after the matches are appended and duplicates dropped, what remains are the rows occurring once on their side and absent from the other |
| Reconcile.UnmatchedSource | Data_Comparison.py:131 | an unmatched source row is a source row occurring once there and not among the matches, in source order |
| Reconcile.UnmatchedTarget | Data_Comparison.py:132 | the same for the target side |
| Reconcile.PairsWith | Data_Comparison.py:136 | a source row meets every target row with its key, and nothing else |
| Reconcile.KeyJoin | Data_Comparison.py:136 | a merge on the key pairs exactly the rows with equal keys |
| Reconcile.PairsWithMultiplicity | Data_Comparison.py:136 | a source row meets a target row with its key as often as the target holds that row, and meets nothing else |
| Reconcile.KeyJoinMultiplicity | Data_Comparison.py:136 | a merge on the key holds each pair of rows with equal keys as often as the product of the two rows' counts, and no other pair |
| Reconcile.JoinOfDistinctOnce | Data_Comparison.py:136 | a merge of two tables in which no row occurs twice holds no pair twice |
| Reconcile.OnceAndAbsentCount | Data_Comparison.py:131-132 | dropping matched and duplicated rows keeps each surviving row as often as it was, and no other row |
| Reconcile.UnmatchedOnce | Data_Comparison.py:131-132 | no unmatched row occurs twice on either side |
| Reconcile.Sample | Data_Comparison.py:136-137 | sample pairs an unmatched source row with an unmatched target row exactly when their keys are equal, and holds no pair twice |
| Reconcile.JoinedKeysAreShared | Data_Comparison.py:136 | sample's keys are the keys the two unmatched sets share |
| Reconcile.Select | Data_Comparison.py:140-151 | an isin filter never adds rows and keeps the key column |
| Reconcile.SelectCount | Data_Comparison.py:140-151 | an isin filter never keeps a row more often than the table holds it |
| Reconcile.SelectMembers | Data_Comparison.py:140-151 | an isin filter keeps exactly the rows whose key is (or is not) in the set |
| Reconcile.SelectAppend | Data_Comparison.py:140-151 | the filter keeps the rows' order: filtering two blocks is filtering each in turn |
| Reconcile.SelectPartition | Data_Comparison.py:140-151 | a filter and its negation split the rows |
| Reconcile.SampleKeys | Data_Comparison.py:136-151 | the keys in sample are the unmatched source keys that are also unmatched target keys |
| Reconcile.SourceOnly | Data_Comparison.py:140-141 | oracle_only_records are the unmatched source rows whose key no unmatched target row has |
| Reconcile.TargetOnly | Data_Comparison.py:144-145 | datacloud_only_records are the unmatched target rows whose key no unmatched source row has |
| Reconcile.KeyedSource | Data_Comparison.py:148-149 | unmatched source rows whose key an unmatched target row has |
| Reconcile.KeyedTarget | Data_Comparison.py:150-151 | unmatched target rows whose key an unmatched source row has |
| Reconcile.DataMismatch | Data_Comparison.py:152-153 | data_mismatch pairs an unmatched source row with an unmatched target row exactly when their keys are equal, and holds no pair twice |
| Reconcile.PresentInBoth | Data_Comparison.py:178 | source rows whose key occurs in the target |
| Reconcile.NotPresentInBoth | Data_Comparison.py:179 | source rows whose key does not occur in the target |
| Reconcile.UnmatchedCount | Data_Comparison.py:133 | num_unmatching_records never exceeds the two files' records together |
| Reconcile.UnmatchedSplit | Data_Comparison.py:140-151 | source-only and key-matched rows split the unmatched source rows, and likewise on the target side |
| Reconcile.PresenceSplit | Data_Comparison.py:178-179 | present_in_both and not_present_in_both split the source rows |
| Reconcile.IdenticalTables | Data_Comparison.py:129-179 | a table compared with itself leaves nothing unmatched, source-only, target-only or mismatched, and every row present |
| Reconcile.ExtraTargetRow | Data_Comparison.py:129-153 | a target that is the source plus one row with a new key makes that row the one unmatched, target-only row |
| Reconcile.UniqueKeysCons | Data_Comparison.py:122-123 | a table's keys are unique exactly when its tail's are and the head's key is not among them |
| Reconcile.SelectUniqueKeys | Data_Comparison.py:140-151 | an isin filter keeps keys unique |
| Reconcile.OnceAndAbsentUniqueKeys | Data_Comparison.py:131-132 | dropping matched and duplicated rows keeps keys unique |
| Reconcile.PairsWithNone | Data_Comparison.py:136 | a row whose key the other table lacks joins no row |
| Reconcile.PairsWithOne | Data_Comparison.py:136 | a row whose key occurs once in the other table joins exactly one row |
| Reconcile.KeyJoinCount | Data_Comparison.py:136 | when each key occurs once in the other table, the merge on the key has one pair per row |
| Reconcile.KeyedUniqueKeys | Data_Comparison.py:148-151 | the key-matched rows of files with unique keys have unique keys |
| Reconcile.KeyedSameKeys | Data_Comparison.py:148-151 | the key-matched source rows and target rows carry the same keys |
| Reconcile.MismatchAccounting | Data_Comparison.py:129-153 | with the key unique in each file, source-only rows, target-only rows and twice the mismatch pairs add up to num_unmatching_records |
| Reconcile.OnceAndAbsentNone | Data_Comparison.py:131-132 | rows that all occur in the matches are all dropped |
| Reconcile.SingleDifference | Data_Comparison.py:129-132 | two tables differing in one row, each holding its row nowhere else, leave that row the one unmatched row |
| Reconcile.SingletonFilters | Data_Comparison.py:136-153 | over one unmatched row per side with a shared key, the filters and the merge give no one-sided rows and one pair |
| Reconcile.SingleUnmatchedPair | Data_Comparison.py:136-153 | one unmatched row per side with a shared key: nothing is one-sided and the two rows are the one mismatch pair |
| Reconcile.OneCellUnmatched | Data_Comparison.py:129-132 | changing one non-key cell of a row with a unique key makes the old and the new row the one unmatched row on each side |
| Reconcile.OneCellChange | Data_Comparison.py:129-153 | changing one non-key cell, the key being unique: nothing is one-sided and the one mismatch pair is the old row against the new |
| Diff.FillNa | Data_Comparison.py:156 | fillna('') keeps the width, leaves no missing value and changes only missing cells |
| Diff.DiffRow | Data_Comparison.py:161-168 | a report row has the pair's width, each column holding that column's cell of the nested loop (key copied, changed cells annotated, others filled) |
| Diff.BuildUnmatchedData | Data_Comparison.py:158-168 | one report row per mismatch pair, in order, each that pair's report row |
| Diff.DiffRowMarksChanges | Data_Comparison.py:161-168 | the key cell is copied; the row departs from the filled source row exactly on the changed columns, and elsewhere equals the filled target row |
| Diff.ChangeDiffers | Data_Comparison.py:165 | an `x -> y` annotation never equals x itself |
| Diff.AgreeingPairUnannotated | Data_Comparison.py:156-168 | a pair that agrees after fillna gives the filled source row, with no annotation |
| Diff.MissingAgainstEmptyUnannotated | Data_Comparison.py:152-168 | a mismatch pair that differs only as NaN against '' produces a row with no annotation |
| Diff.OneCellPair | Data_Comparison.py:156-168 | a pair differing in one non-key cell, also after fillna, is annotated at that cell only |
| Diff.OneCellChangeReport | Data_Comparison.py:129-168 | changing one non-key cell (not NaN against ''), the key being unique, gives one report row, annotated `old -> new` at that column and nowhere else |
| Counts.KeySetSnoc | Data_Comparison.py:122-123 | the keys of a table are the keys of all rows but the last, plus the last row's key |
| Counts.KeySetSize | Data_Comparison.py:122-123 | a table never has more distinct key values than rows; with a unique key it has exactly as many, a missing key counting as one value; with no key missing, no missing value is among them |
| Counts.NUnique | Data_Comparison.py:122-123 | nunique is at most the record count, and equals it when keys are distinct and present |
| Counts.NUniqueAllMissing | Data_Comparison.py:122-123 | missing keys are not counted |
| Counts.Duplicated | Data_Comparison.py:373-374 | duplicated().sum() is below the record count of a non-empty table, since the first row is never a duplicate |
| Counts.DuplicatedPlusDistinct | Data_Comparison.py:373-374 | duplicated().sum() plus the number of distinct rows is the row count |
| Counts.NoDuplicatesIff | Data_Comparison.py:373-374 | duplicated().sum() is zero exactly when no row occurs twice |
| Sorting.Insert | Data_Comparison.py:257 | inserting into a sorted list adds one element and keeps it sorted |
| Sorting.Sort | Data_Comparison.py:257 | sorted() returns a sorted permutation of its argument |
| Sorting.SortedUnique | Data_Comparison.py:257 | two sorted permutations of one list are equal |
| Sorting.SortEqualIff | Data_Comparison.py:257 | sorted(a) == sorted(b) exactly when a and b hold the same strings equally often |
| Scenarios.RecordCountVerdict | Data_Comparison.py:244-245 | the scenario 1 line starts with the oracle record count text |
| Scenarios.CountVerdictMeaning | Data_Comparison.py:245 | the equal-count line appears exactly when the record counts agree, and it shows the reported number |
| Scenarios.RecordCountReportsColumns | Data_Comparison.py:245 | as written, equal record counts are reported with the source's column count |
| Scenarios.RecordCountMisreported | Data_Comparison.py:245 | two copies of a 2-record, 1-column table are reported as 1 record each |
| Scenarios.RecordCountCorrectedReportsRecords | Data_Comparison.py:241-245 | corrected, the equal-count line shows the shared record count |
| Scenarios.ColumnVerdict | Data_Comparison.py:253-260 | one of the three column messages, the in-order one exactly when the name lists are equal |
| Scenarios.ColumnVerdictMeaning | Data_Comparison.py:253-260 | same list gives "same order"; reordered names give "not in the same order"; different names give "not identical" |
| Scenarios.DatetimeIndex | Data_Comparison.py:272-273 | the index is -1 or the first `datetime64[ns]` position |
| Scenarios.DatetimeIndexAbsent | Data_Comparison.py:272-273 | the index is -1 exactly when no column has the datetime dtype |
| Scenarios.DtypeVerdict | Data_Comparison.py:275-277 | one of the three dtype messages, never the count message for equal column counts |
| Scenarios.DtypeVerdictMeaning | Data_Comparison.py:275-277 | "matched" exactly for equal dtype multisets; otherwise "don't match" for equal column counts and "can't compare" for different ones |
| Scenarios.DatetimeFormatVerdict | Data_Comparison.py:296-298 | the no-datetime message exactly when one of the datetime indexes is -1 |
| Scenarios.NoDatetimeIff | Data_Comparison.py:296-298 | the first branch is taken exactly when one dtype list has no datetime column |
| Scenarios.NullCount | Data_Comparison.py:319-320 | a column's null count is at most the record count |
| Scenarios.NullCountPermutation | Data_Comparison.py:319-320 | null counts do not depend on row order |
| Scenarios.NullVerdict | Data_Comparison.py:319-326 | one of the two null-count messages |
| Scenarios.NullVerdictMeaning | Data_Comparison.py:319-326 | "match" exactly when the column names and each column's null count agree |
| Scenarios.NullVerdictIgnoresRowOrder | Data_Comparison.py:316-326 | tables with the same columns and the same rows in any order get "match" |
| Scenarios.EncodingVerdict | Data_Comparison.py:342-348 | the different-encodings message or the same-encoding line |
| Scenarios.EncodingVerdictMeaning | Data_Comparison.py:342-348 | "same" exactly when the two detections agree, failures included |
| Scenarios.UnopenableFilesSameEncoding | Data_Comparison.py:342-348 | two files that cannot be opened get "same, i.e.: None" |
| Scenarios.OrderVerdict | Data_Comparison.py:357-362 | one of the three order messages, "same order" only for equal tables |
| Scenarios.OrderVerdictByMeaning | Data_Comparison.py:357-362 | "sorted in the same order" only for comparable equal tables; the size message only when sizes are not comparable |
| Scenarios.OrderVerdictAsWritten | Data_Comparison.py:361-362 | as written, equal tables get "same order" only when the column count equals the row count |
| Scenarios.OrderVerdictMisreported | Data_Comparison.py:361-362 | a 1-record, 2-column file compared with itself is reported as differing in size |
| Scenarios.OrderVerdictCorrectedMeaning | Data_Comparison.py:357-362 | corrected, "same order" exactly when the tables are equal, and the size message exactly when the shapes differ |
| Scenarios.SourceDuplicateVerdict | Data_Comparison.py:414-415 | the scenario 15 line starts "There are", in its "No Duplicates" form when nothing is duplicated |
| Scenarios.TargetDuplicateVerdict | Data_Comparison.py:426-427 | the same for scenario 16 and the target |
| Scenarios.DuplicateVerdictMeaning | Data_Comparison.py:411-427 | "No Duplicates" exactly when no row occurs twice, for source and target alike |

## Left out

- `downloadcode.py` is not part of this model. It is an S3 download, which is network I/O.
- `pd.read_csv` parsing, `on_bad_lines='skip'`, chunking and dtype inference are not modelled. The parsed chunks and the dtype names are inputs.
- Real codecs are not modelled. `decode` is a parameter, since which names exist (even `ANSI`) depends on the platform.
- Plotting, the CSV files, the report file, console prints and timing are not modelled. Each verdict function returns its verdict text.
- Scenario headers and the dumps after a "don't match" are not modelled. Scenarios 12, 13, 14 and 17 only print counts, which `Counts` and `Reconcile` model.
- Scenario 5 beyond its first branch is not modelled. It relies on `pd.to_datetime` coercion and `strftime('')`. `Scenarios.DatetimeFormatVerdict` returns None for that branch.
- `mismatched_columns` is not modelled. It compares `matching_records` with itself, so it carries no property.
- Tables with different column sets are not modelled. The target's rows are taken in the source's column order.
- Floating-point cells are not modelled. `Number` holds integers, so `1 == 1.0` and float rendering are out of scope.
- Index labels are not modelled. `unmatched_data` rows are positional, as are the rows of every derived table.
- Delimiter.GetFileDelimiter: takes the decoded text with line endings already translated to `\n`. Decoding errors while reading in text mode are not modelled.
- Diff.DiffRow: str() is the parameter `show`. Diff.DiffRowMarksChanges assumes only that str() of a string is the string.
- Extension.DetectExtension: lower-cases ASCII letters only. Python's full Unicode lower-casing is not modelled.
- Loader.SortByKey: pandas raises when one key column mixes numbers and text. The model ranks numbers before text instead. Like the source, it promises no stability.
- Scenarios.DtypeVerdict: dtypes are compared by name. numpy orders dtype objects by safe casting, a partial order under which `sorted()` of two permutations could differ.
- Scenarios.OrderVerdict: `DataFrame.equals` is modelled as equal column names and equal rows. Dtypes and index labels are not compared. `DataFrame.equals` does compare index labels, and after `sort_values` the labels are the rows' positions in the files. So for two files holding the same rows in different orders, the script writes "not sorted in the same order" when the size test passes, while the model writes "same order".
- Scenarios.OrderVerdictByMeaning: "same order" means equal rows, not equal index labels, for the reason given for Scenarios.OrderVerdict.
- Scenarios.OrderVerdictAsWritten: the same; index labels are not compared.
- Scenarios.OrderVerdictCorrectedMeaning: the same; index labels are not compared.
- Scenarios.DtypeVerdictMeaning: dtypes are compared by name, for the reason given for Scenarios.DtypeVerdict.
- Reconcile.MatchAll: `pd.merge` raises ValueError when a merge column is numeric in one file and text in the other. The model compares such cells as unequal and goes on.
- Reconcile.KeyJoin: the same; a key column that is numeric in one file and text in the other raises in `pd.merge`.
- Extension.SplitExt: follows `posixpath.splitext`. On Windows, `ntpath.splitext` also treats `\` (and a drive's `:`) as separators, which is not modelled.
- Scenarios.NullVerdict: `Series.equals` is modelled as equality of the (column name, null count) lists.

## Findings

| source | as written | input that shows it | evidently intended | confidence | as-written member | corrected member |
|---|---|---|---|---|---|---|
| Data_Comparison.py:60 | the update names `delimiter`, which inside that comprehension is the module-level `'|'` of line 15, so only the entry of `|` grows | the one-line file `a;b`: `,` is returned though `;` occurs once and nothing else does | add each candidate's own count to its entry and return the first candidate with the largest total | high; not executed | Delimiter.SemicolonFileGivesComma | Delimiter.GetFileDelimiterCorrected |
| Data_Comparison.py:245 | when the record counts agree, the line prints `num_cols_df1` | two copies of a table with 2 records and 1 column: the line says 1 | print the shared record count `num_rows_df1` | high; not executed | Scenarios.RecordCountMisreported | Scenarios.RecordCountCorrectedReportsRecords |
| Data_Comparison.py:361-362 | the size test compares `num_cols_df1` with `num_rows_df2` | a file with 1 record and 2 columns compared with itself: "Both files differ in size" | compare `num_cols_df1` with `num_cols_df2` | high; not executed | Scenarios.OrderVerdictMisreported | Scenarios.OrderVerdictCorrectedMeaning |
