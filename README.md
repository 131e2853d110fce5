# Comparison engine of the Excel comparison tool — a Dafny model

The engine compares two tables, File A and File B, that share one or more
key columns. It works as follows:

1. It checks that every key column exists in both tables.
2. It normalises private copies of both tables:
   - trims whitespace from text cells;
   - then lower-cases them when the comparison is case-insensitive.
3. It collects the distinct key tuples of each table and splits them into:
   - the common keys;
   - the keys only in A;
   - the keys only in B.
4. For every common key, in ascending key order, it builds the key group:
   - it fetches the key's rows from each table, in table order;
   - under SECONDARY_SORT it sorts them by the secondary column;
   - it pairs them by position.
   Each pair is classified MATCH or MODIFIED, and unpaired rows are
   REMOVED_ROW or ADDED_ROW.
5. Every row of a key only in A becomes a REMOVED_KEY record, and every row
   of a key only in B a NEW_KEY record, each in ascending key order.
6. Finally it builds the summary counts.

The model has these modules:

- `Types`: values, rows, tables, the configuration, the statuses and the
  key-column error.
- `Order`: the order that `sorted` and `sort_values` use.
- `Normalization`: cell normalisation, plus the `Frame` class whose columns
  the normaliser overwrites in place.
- `Keys`: validation, key extraction and the key mask.
- `Alignment`: the secondary sort, row classification, aligned records and
  the key-group loop.
- `Summary`: the counts and the summary.
- `Engine`: `compare` and its specification `CompareSpec`.
- `Properties` and `Identity`: the properties of whole comparisons.

The imperative parts are methods proved against specification functions:
- `compare` is proved against `CompareSpec`;
- `_compare_key_group` against `KeyGroup`;
- `_create_aligned_row` against `RecordOf`;
- `_normalize_dataframe` against `NormalizeTable`;
- `sorted` over a key set against `SortedKeys`.

The pure parts are functions with lemmas.

Only the key columns are validated. The secondary sort column is not
checked: when it is unset, empty or absent from a table, `_sort_by_secondary`
leaves that table's rows in fetch order (src/core/comparison_engine.py:223),
and the model does the same.

## Model

| member | source | states |
|---|---|---|
| Keys.Validate | src/core/comparison_engine.py:134-140 | no error iff every key column is in both tables; the error names the first missing key column in key order, with File A reported before File B for the same column |
| Properties.MissingKeyColumnIsError | src/core/comparison_engine.py:73-74 | a comparison fails exactly when some key column is missing from a table, naming that column and the table it is missing from |
| Engine.Compare | src/core/comparison_engine.py:62-132 | the result equals `CompareSpec`: the key-column error, or the outcome computed on normalised copies; it fails iff a key column is missing |
| Engine.CompareNormalized | src/core/comparison_engine.py:80-132 | after validation and normalisation, the result equals `Outcome`: records, sorted single-sided key lists, summary and metadata |
| Engine.CompareSpec | src/core/comparison_engine.py:62-132 | fails exactly when some key column is missing from a table; otherwise the outcome on the normalised copies |
| Engine.Outcome | src/core/comparison_engine.py:80-132 | the records compared are all the aligned records, the common-key count is the one in the metadata, and both single-sided key lists ascend strictly; Properties.RecordOrdering and Properties.OutcomeArithmetic say the rest |
| Engine.CommonRecords | src/core/comparison_engine.py:93-95 | the key groups of the keys, concatenated in order; Properties.CommonRecordsSpec and CommonRecordsAscend characterise it |
| Engine.KeyRows | src/core/comparison_engine.py:99-111 | one record per row fetched for the key, each carrying the key and no changed-cells list |
| Engine.SingleSidedRecords | src/core/comparison_engine.py:97-111 | the single-sided records of the keys, key after key; Properties.SingleSidedSpec and SingleSidedAscend characterise it |
| Engine.AppendCommon | src/core/comparison_engine.py:93-95 | the records of the common keys are the key groups of the sorted keys, concatenated in order |
| Engine.AppendSingleSided | src/core/comparison_engine.py:97-111 | appends, key by key in the given order, one record per fetched row of each single-sided key |
| Engine.EmitKeyRows | src/core/comparison_engine.py:98-103 | one REMOVED_KEY (A side) or NEW_KEY (B side) record per row fetched for the key, in fetch order |
| Engine.CommonKeys | src/core/comparison_engine.py:87 | the common keys are strictly ascending and are exactly the keys of both tables |
| Engine.KeysOnlyIn | src/core/comparison_engine.py:85-86 | the single-sided keys are strictly ascending, are exactly the keys of one table missing from the other, and number as many as that set difference |
| Keys.KeySetsPartition | src/core/comparison_engine.py:85-87 | keys only in A, keys only in B and common keys are pairwise disjoint; common and A-only make up A's keys, common and B-only make up B's; the counts subtract |
| Normalization.Frame.Normalize | src/core/comparison_engine.py:142-152 | the copy stays well-formed, and each row becomes the normalised row: trimmed if configured, then lower-cased if case-insensitive |
| Normalization.Frame.ApplyToColumns | src/core/comparison_engine.py:145-146 | overwriting the columns one by one applies the pass to every text cell of every row and leaves all other cells as they were |
| Normalization.Frame.Copy | src/core/comparison_engine.py:77-78 | the working copy has the caller's columns and rows; the caller's table is a value and is never changed |
| Normalization.Strip | src/core/comparison_engine.py:146 | `str.strip()`; Normalization.StripSpec, StripEnds, StripSlice and StripIdempotent characterise it |
| Normalization.StripEnds | src/core/comparison_engine.py:146 | the stripped text neither starts nor ends with whitespace |
| Normalization.StripSlice | src/core/comparison_engine.py:146 | the stripped text is the slice of the input between a leading and a trailing run of whitespace |
| Normalization.Lower | src/core/comparison_engine.py:150 | `str.lower()` on ASCII letters; Normalization.LowerSpec characterises it, and Normalization.LowerEqualIff says which texts it identifies |
| Normalization.NormalizeCell | src/core/comparison_engine.py:144-150 | a null cell stays null, a text cell stays text, any other cell is unchanged; Normalization.NormalizeCellSpec gives what happens to text |
| Normalization.NormalizeTable | src/core/comparison_engine.py:142-152 | the normalised copy has the same columns and as many rows; Normalization.NormalizeTableShape and NormalizeTableIdempotent say the rest |
| Normalization.ApplyRowTwice | src/core/comparison_engine.py:144-150 | for each setting of the two options, the passes the normaliser runs (trim, lower, both or neither) give the normalised row |
| Normalization.NormalizeCellSpec | src/core/comparison_engine.py:142-152 | a non-text cell is unchanged; a text cell stays text, is free of surrounding whitespace when trimming, has no upper-case letter when case-insensitive, and is unchanged when both are off |
| Normalization.NormalizeCellIdempotent | src/core/comparison_engine.py:142-152 | normalising a cell twice equals normalising it once |
| Normalization.NormalizeTableIdempotent | src/core/comparison_engine.py:142-152 | normalising a table twice equals normalising it once |
| Normalization.NormalizeTableShape | src/core/comparison_engine.py:142-152 | normalisation keeps the columns, the row count and well-formedness; a null cell stays null and a non-null one non-null |
| Normalization.StripLeading | src/core/comparison_engine.py:146 | the result is a suffix of the input; all removed characters are whitespace; the result is empty or starts with a non-space |
| Normalization.StripTrailing | src/core/comparison_engine.py:146 | the result is a prefix of the input; all removed characters are whitespace; the result is empty or ends with a non-space |
| Normalization.StripSpec | src/core/comparison_engine.py:146 | the stripped text is a slice of the input with whitespace only outside it and non-space characters at both of its ends |
| Normalization.StripIdempotent | src/core/comparison_engine.py:146 | stripping twice equals stripping once |
| Normalization.LowerSpec | src/core/comparison_engine.py:150 | lower-casing keeps the length, sends each upper-case letter to the same letter of the lower-case alphabet, leaves every other character, leaves no upper-case letter, and is idempotent |
| Normalization.LowerCharFolds | src/core/comparison_engine.py:150 | lower-casing a character is case folding by lookup in the lower-case alphabet |
| Normalization.LowerEqualIff | src/core/comparison_engine.py:150 | two texts lower-case to the same text exactly when they differ at most in the case of their letters |
| Normalization.CaseInsensitiveMerges | src/core/comparison_engine.py:148-150 | under case-insensitive comparison, two text cells that differ only in case normalise to the same cell, so their keys fall into one group; with trimming off, only such cells do |
| Normalization.StripLowerCommute | src/core/comparison_engine.py:144-150 | trimming and lower-casing commute |
| Keys.KeyOf | src/core/comparison_engine.py:157-161 | a key tuple has one cell per key column, in key-column order; with Properties.NullInKeyOf, it holds a null exactly when one of the row's key columns is null |
| Keys.UniqueKeys | src/core/comparison_engine.py:154-161 | every key has one cell per key column and the key set is empty exactly when the table has no rows; Keys.UniqueKeysMembers gives its exact members |
| Keys.RowMatches | src/core/comparison_engine.py:165-167 | the mask at one row: every key column equals the key's cell and is not null; Keys.RowMatchesIff characterises it |
| Keys.UniqueKeysMembers | src/core/comparison_engine.py:154-161 | a key is in the key set iff it is the key tuple of some row; every key has one cell per key column |
| Keys.UniqueKeysBound | src/core/comparison_engine.py:154-161 | a table has no more distinct keys than rows |
| Keys.RowMatchesIff | src/core/comparison_engine.py:165-167 | the mask selects a row iff the row's key tuple is the key and no cell of the key is null |
| Keys.RowsForKey | src/core/comparison_engine.py:163-168 | the fetched rows are rows of the table, no more of them than the table has |
| Keys.RowsForKeySpec | src/core/comparison_engine.py:163-168 | the fetched rows are exactly the matching rows in their original order: strictly ascending positions, every matching position present |
| Keys.MatchIndicesAscend | src/core/comparison_engine.py:163-168 | the positions the mask selects are in range and strictly ascending |
| Keys.FetchedAtIndices | src/core/comparison_engine.py:163-168 | there are as many fetched rows as selected positions, and the i-th fetched row is the row at the i-th selected position |
| Keys.MatchIndicesComplete | src/core/comparison_engine.py:163-168 | a position is selected exactly when its row matches the key |
| Keys.NullKeyFetchesNothing | src/core/comparison_engine.py:167 | a key with a null cell fetches no row |
| Keys.KeyOfTableFetchesRows | src/core/comparison_engine.py:163-168 | a null-free key of the table fetches at least one row |
| Order.StrLessTotal | src/core/comparison_engine.py:93 | string order is total on distinct strings (with StrLessIrreflexive and StrLessTransitive: a strict total order) |
| Order.ValueLessTotal | src/core/comparison_engine.py:93 | cell order is total on distinct cells (with ValueLessIrreflexive and ValueLessTransitive) |
| Order.KeyLessTransitive | src/core/comparison_engine.py:93 | key order is transitive |
| Order.KeyLessTotal | src/core/comparison_engine.py:93 | key order is total on distinct keys |
| Order.KeyLeAntisymmetric | src/core/comparison_engine.py:93 | two keys each at most the other are equal |
| Order.LeastExists | src/core/comparison_engine.py:93 | every non-empty key set has a least key |
| Order.SortedKeys | src/core/comparison_engine.py:93 | `sorted()` of a key set, by repeatedly taking the least key; Order.SortedKeysSpec characterises it |
| Order.SortedKeysSpec | src/core/comparison_engine.py:93 | the sorted key list holds every key of the set once, strictly ascending |
| Order.StrictlySortedIsSortedKeys | src/core/comparison_engine.py:93 | a strictly ascending list is the sorted form of its keys, so the sorted order is unique |
| Order.SortKeys | src/core/comparison_engine.py:93 | the method returns the sorted key list: strictly ascending, as long as the set, with the same members |
| Alignment.InsertRow | src/core/comparison_engine.py:224 | inserting into rows ascending in the column keeps them ascending and adds exactly the one row |
| Alignment.SortRowsBy | src/core/comparison_engine.py:224 | the result ascends in the column and is a permutation of the input |
| Alignment.SortBySecondary | src/core/comparison_engine.py:221-225 | with a non-empty secondary column present in the table, the rows come back sorted by it and permuted; otherwise they come back unchanged |
| Alignment.Arrange | src/core/comparison_engine.py:185-187 | the alignment step: the secondary sort under SECONDARY_SORT, fetch order otherwise; Alignment.ArrangeKeepsRows says it only permutes |
| Alignment.ArrangeKeepsRows | src/core/comparison_engine.py:185-187 | the alignment step only permutes a key group's rows |
| Alignment.ValuesEqual | src/core/comparison_engine.py:293-299 | two nulls are equal, a null and a value are not, otherwise equality of values |
| Alignment.CompareRows | src/core/comparison_engine.py:227-251 | the status is MATCH or MODIFIED, and MODIFIED iff some non-key column of row A that row B also has holds unequal values |
| Alignment.ChangedColumns | src/core/comparison_engine.py:284-288 | a column is listed iff it is a non-key column of row A, present in row B, whose values are unequal |
| Alignment.ClassificationAgrees | src/core/comparison_engine.py:283-289 | a pair is MODIFIED iff its changed-cells list is non-empty, and MATCH iff it is empty |
| Alignment.NullAgainstValueIsModified | src/core/comparison_engine.py:244-245 | a compared column that is null on exactly one side makes the pair MODIFIED and is listed as changed |
| Alignment.SameRowMatches | src/core/comparison_engine.py:227-251 | a row compared with itself is a MATCH |
| Alignment.RecordOf | src/core/comparison_engine.py:253-291 | the record carries the key and the status, and a changed-cells list only for a pair of rows, listing only non-key columns of row A that row B has with an unequal value |
| Alignment.CopyNonKeyCells | src/core/comparison_engine.py:268-271 | the copied cells are exactly the row's non-key cells |
| Alignment.CollectChanged | src/core/comparison_engine.py:283-289 | the collected list is the changed columns in row A's column order |
| Alignment.CreateAlignedRow | src/core/comparison_engine.py:253-291 | the record carries the key and the status, the non-key cells of each present row, and a changed-cells list exactly for a MODIFIED pair with both rows |
| Alignment.AlignGroup | src/core/comparison_engine.py:195-217 | positional pairing of two ordered row lists; Alignment.PositionalPairing characterises it |
| Alignment.PositionalPairing | src/core/comparison_engine.py:195-217 | max(m, n) records: the first min(m, n) pair row i with row i and are MATCH/MODIFIED by their changed columns; A's overflow is REMOVED_ROW with no B side; B's is ADDED_ROW with no A side |
| Alignment.KeyGroup | src/core/comparison_engine.py:170-219 | fetch both sides, arrange, pair by position; Alignment.KeyGroupStatuses, Properties.KeyGroupEmptyIff and Identity.SelfKeyGroup characterise it |
| Alignment.KeyGroupStatuses | src/core/comparison_engine.py:198-217 | every record of a key group carries the key and one of MATCH, MODIFIED, ADDED_ROW, REMOVED_ROW |
| Alignment.AlignRows | src/core/comparison_engine.py:193-219 | the pairing loop returns the positional alignment of the ordered rows |
| Alignment.CompareKeyGroup | src/core/comparison_engine.py:170-219 | the records are the key group of the key, each carrying the key and a within-key status |
| Summary.CountStatus | src/core/comparison_engine.py:309 | a count is at most the number of records, and zero iff no record has that status |
| Summary.CountStatusAppend | src/core/comparison_engine.py:309 | counts add up over concatenated record lists |
| Summary.CountsSumToTotal | src/core/comparison_engine.py:309-323 | the seven status counts add up to the number of records |
| Summary.GenerateSummary | src/core/comparison_engine.py:301-324 | single-sided key counts are the differences; total is the record count; with no HEURISTIC_MATCH the six counts add up to the total; an empty list gives zero counts |
| Properties.CommonRecordsSpec | src/core/comparison_engine.py:93-95 | every common-key record carries one of the keys and a within-key status |
| Properties.SingleSidedSpec | src/core/comparison_engine.py:97-111 | keys only in A give REMOVED_KEY records with only an A side; keys only in B give NEW_KEY records with only a B side; none lists changed cells |
| Properties.CommonRecordsAscend | src/core/comparison_engine.py:93 | over ascending keys, common-key records ascend by key |
| Properties.SingleSidedAscend | src/core/comparison_engine.py:98 | over ascending keys, single-sided records ascend by key |
| Properties.RecordOrdering | src/core/comparison_engine.py:89-111 | the records are the common-key block, then the REMOVED_KEY block, then the NEW_KEY block, each ascending by key; the key lists are the sorted set differences |
| Properties.OutcomeArithmetic | src/core/comparison_engine.py:116-119 | on normalised tables: no HEURISTIC_MATCH, the six counts add up to the records compared, and the key counts agree with the key lists and the metadata |
| Properties.SummaryArithmetic | src/core/comparison_engine.py:116-119 | no HEURISTIC_MATCH is emitted, so the six counts add up to the records compared; the key counts agree with the key lists and the metadata |
| Properties.NullKeyGroupIsEmpty | src/core/comparison_engine.py:181-182 | a common key with a null cell yields no records |
| Properties.PreNormalizedInputs | src/core/comparison_engine.py:76-78 | comparing pre-normalised tables gives the same result as comparing the originals |
| Properties.EmptyTablesGiveNoRecords | src/core/comparison_engine.py:114-119 | two tables without rows give no records and zero counts, while the summary, and so `compare`, as written fail on them |
| Engine.CompareAsWritten | src/core/comparison_engine.py:113-119 | as written, `compare` never returns a result without records |
| Properties.AsWrittenAgreesExceptEmpty | src/core/comparison_engine.py:309 | `compare` as written gives the same key-column error and the same result as the corrected comparison, except that it fails with the missing `status` column exactly when validation passes and no record is produced |
| Properties.AsWrittenFailsIff | src/core/comparison_engine.py:309 | in the model, `compare` as written fails exactly when a key column is missing or every row of both tables has a null key cell. In the source, that covers two tables without rows, null key cells in non-text columns, and any null key cell when both normalisation options are off; a null in a text key column is turned into a string by normalisation and does not make the source fail |
| Properties.NoRecordsIff | src/core/comparison_engine.py:89-111 | two normalised tables give no record exactly when every row of both has a null key cell |
| Properties.NoRecordsIffNullKeys | src/core/comparison_engine.py:89-111 | no record is produced exactly when every key of either table has a null cell |
| Properties.CommonBlockEmptyIff | src/core/comparison_engine.py:93-95 | the common-key block is empty exactly when every common key has a null cell |
| Properties.SingleSidedBlockEmptyIff | src/core/comparison_engine.py:97-111 | a single-sided block is empty exactly when every key of it has a null cell |
| Properties.CommonRecordsEmptyIff | src/core/comparison_engine.py:93-95 | over keys of both tables, the common-key records are empty exactly when every key has a null cell |
| Properties.SingleSidedEmptyIff | src/core/comparison_engine.py:97-111 | the single-sided records are empty exactly when no key fetches a row |
| Properties.KeyGroupEmptyIff | src/core/comparison_engine.py:181-219 | a key group is empty exactly when neither table has a row for the key |
| Properties.TableKeyFetchesNothingIff | src/core/comparison_engine.py:163-168 | a key of the table fetches no row exactly when one of its cells is null |
| Properties.NullKeysIffRows | src/core/comparison_engine.py:154-161 | every key of a table has a null cell exactly when every row's key tuple has one |
| Properties.NullInKeyOf | src/core/comparison_engine.py:157-161 | a row's key tuple holds a null exactly when one of its key columns is null |
| Properties.NullsKept | src/core/comparison_engine.py:142-152 | normalisation neither creates nor removes a null key cell |
| Identity.FetchTotalAll | src/core/comparison_engine.py:163-168 | over distinct keys covering every row's null-free key, each row is fetched exactly once |
| Identity.HitsOnce | src/core/comparison_engine.py:165-167 | a row with a null-free key is selected by exactly one of a list of distinct keys holding it |
| Identity.HitsNone | src/core/comparison_engine.py:165-167 | a row whose key is not in a list is selected by none of its keys |
| Identity.SelfKeyGroup | src/core/comparison_engine.py:170-219 | a key group compared with itself gives one MATCH per fetched row |
| Identity.SelfCommonRecords | src/core/comparison_engine.py:93-95 | a table's common-key block against itself has only MATCH records, one per fetched row |
| Identity.NormalizedKeysNullFree | src/core/comparison_engine.py:142-152 | normalisation keeps null-free keys null-free |
| Identity.SelfOutcome | src/core/comparison_engine.py:80-132 | a normalised table with null-free keys compared with itself yields one MATCH per row and no single-sided keys |
| Identity.CompareWithItself | src/core/comparison_engine.py:62-132 | comparing a table with null-free keys with itself succeeds with exactly one MATCH record per row, no single-sided keys, and a match count equal to the row count |

## Left out

- Cells are strings, integers, booleans or null. pandas' float/integer coercion, NaN as a float, and dtypes per column are not modelled. A "text cell" stands for a cell of an `object` column.
- Normalisation applies to text cells only. `astype(str)` turns a null in a text column into the string "nan", and that is not modelled. So a null key stays null and, as the mask does with NaN, matches nothing. In the source, a null in a text key column becomes "nan" or "None" when either option is on, the mask then matches that string, and the key yields records where the model yields none.
- Normalization.LowerSpec: lower-casing covers ASCII letters only; Python's full Unicode case mapping is not modelled.
- Values of different kinds are ordered by kind, and are never equal: booleans, then integers, then strings, then nulls. Python differs in five ways:
  - It compares booleans and integers numerically (`False == 0`, `True == 1`), in sorting, in the key sets and in the mask. The model keeps them apart, so it puts `(True,)` before `(0,)` where Python puts `(0,)` first.
  - It raises a TypeError when `sorted()` meets a string and a number, or None and a value, in the same key position. The model sorts them by kind.
  - `sort_values` puts nulls in the secondary column last without raising, and so does the model.
  - Alignment.ValuesEqual and Alignment.CompareRows: `val_a != val_b` in `_compare_rows` (src/core/comparison_engine.py:248) and `val_a == val_b` in `_values_equal` (:299) treat `True` and `1`, and `False` and `0`, as equal. So Python calls such a pair MATCH. The model calls it MODIFIED and lists the column as changed.
  - Alignment.SortBySecondary: `sort_values` (src/core/comparison_engine.py:224) raises a TypeError when the secondary column mixes strings and numbers. The model sorts such rows by kind instead.
- Alignment.SortBySecondary: promises sorted and a permutation only. The model's insertion sort is stable, but pandas' default quicksort is not, so the order of rows with equal secondary values is not promised.
- BEST_MATCH alignment falls through to positional pairing, as in the code. HEURISTIC_MATCH is never produced, and `compare_formulas` has no effect.
- The aligned DataFrame is a sequence of records, not a dict with `key_<col>`, `A_<col>`, `B_<col>` and `status` entries. The changed cells are a list of column names, not the `', '.join` string.
- The mask's index alignment on a table with a non-default index is not modelled: rows are matched by position.
- An empty key-column list, and the configuration checks that the code does not perform, are not modelled.
- File reading, the GUIs, the report generator and the command-line entry point are not part of this model.

## Findings

| source | as written | input that shows it | evidently intended | confidence | as-written member | corrected member |
|---|---|---|---|---|---|---|
| src/core/comparison_engine.py:309 | `aligned_df['status']` on a frame built from an empty record list raises KeyError, because such a frame has no `status` column | two tables that have the key columns and produce no record: two tables without rows; or tables in which every row has a null key cell, where each such cell is in a non-text (float or all-null) column, or trimming is off and comparison is case-sensitive so that no text column is converted to strings | a result without records and with zero counts | high; not executed | Engine.CompareAsWritten (exhibited by Properties.EmptyTablesGiveNoRecords and Properties.AsWrittenFailsIff) | Summary.GenerateSummary |
