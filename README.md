# Car data cleaning and reporting, modelled in Dafny

This project models two table pipelines from a used-car data repository.

The first is the cleaning script `clean_car_data.py`. It takes a table and runs a fixed
sequence of in-place steps on it:

1. Whitespace and placeholder normalisation of the object (string) columns.
2. Comma-stripping numeric coercion of `year`, `selling_price` and `km_driven`, with a
   per-column `conversion_issues` count.
3. Domain validation of those three columns.
4. First-occurrence duplicate removal.
5. Dropping the rows that miss a critical value.
6. The derived `age` column.
7. Categorical tagging of the low-cardinality columns.
8. Nullable-integer narrowing.

It then reports the metrics `rows_before`, `rows_after`, `duplicates_removed`,
`dropped_rows_due_to_missing_critical_fields` and `conversion_issues`.

The second is the reporting script `run_car_report.py`. It does four things:

- It classifies the columns into categorical and numerical lists.
- It counts the nulls per column and the duplicate rows.
- It assembles the report record.
- It renders the report as the list of Markdown lines that `save_markdown_report` writes.

A table is a list of column names, a parallel list of pandas column types, and rows of
cells. A cell is `Null | Str | Num | Bool`. Two `Null` cells are equal, as NaN is equal to
NaN in pandas' `duplicated`.

The files and their modules:

| file | module | what it holds |
|---|---|---|
| `wrappers.dfy` | `Wrappers` | the `Option` type |
| `text.dfy` | `Text` | `strip`, `lower`, comma removal, integer printing and parsing, `join` |
| `tables.dfy` | `Tables` | the table model, null counts, `duplicated`/`drop_duplicates` |
| `cleaning_steps.dfy` | `CleaningSteps` | one specification function per cleaning step |
| `cleaning.dfy` | `Cleaning` | the class `Cleaner` |
| `cleaning_props.dfy` | `CleaningProperties` | the laws the cleaning steps obey |
| `reporting.dfy` | `Reporting` | classification, missing-value and duplicate info, `make_report` |
| `markdown.dfy` | `Markdown` | `_format_value_for_md` and the Markdown lines |
| `twice.dfy` | `CleaningTwice` | what a second cleaning of cleaned data removes |

Two parts are written imperatively: the cleaning script and the loops of
`run_car_report.py`. The cleaning script becomes:

- a class `Cleaner` holding the working table;
- one method per step, each proved to leave exactly the table its specification function
  describes;
- `CleanCarData`, which runs the steps and assembles the metrics.

`ClassifyColumns`, and the `Append…` methods behind `BuildMarkdown`, are loops over
sequences. Each is proved equal to a function that states the result.

Inputs the scripts take from their environment are parameters:

- the current year (`datetime.now().year`) is `currentYear`;
- the number parser behind `pd.to_numeric` is `parse: string -> Option<int>`;
- the absolute path of the CSV is `sourceCsv`.

## Model

| member | source | states |
|---|---|---|
| `Cleaning.Cleaner.constructor` | clean_car_data.py:24-27 | the cleaner starts on the loaded table |
| `Cleaning.Cleaner.NormalizeStrings` | clean_car_data.py:32-48 | the loop over the object columns leaves exactly `NormalizeTable` of the old table |
| `CleaningSteps.ReplacePlaceholder` | clean_car_data.py:38-47 | definition: `None`, the empty string and a string whose lower-case form is a lower-cased placeholder become null; anything else is kept |
| `CleaningSteps.NormalizeCell` | clean_car_data.py:35-48 | definition: a string is stripped, then `replace_placeholder` applies |
| `CleaningSteps.NormalizeTable` | clean_car_data.py:32-48 | normalisation keeps the columns and the row count, and changes a column type only from `object` to `float64` |
| `CleaningProperties.NormalizeTableTypes` | clean_car_data.py:35-48 | a column comes back `float64` exactly when it was `object`, has a row, and every normalised cell is null (the type `apply` infers again); every other type is unchanged |
| `Cleaning.NormalizeRound` | clean_car_data.py:33-48 | one round of the loop: the table after the round for the n-th object column |
| `Cleaning.NormalizeStep` | clean_car_data.py:33-48 | round n normalises the cells of the n-th object column, and retypes it `float64` exactly when they all became null |
| `CleaningProperties.NormalizeTableCells` | clean_car_data.py:32-48 | object columns have each cell normalised; every other column is untouched |
| `CleaningProperties.NormalizeString` | clean_car_data.py:36-46 | a string is stripped; it becomes null exactly when its lower-case form is one of "", " ", "na", "n/a", "none", "?"; otherwise it is the stripped string |
| `CleaningProperties.LoweredPlaceholdersValue` | clean_car_data.py:30-45 | the lower-cased placeholder set is {"", " ", "na", "n/a", "none", "?"} |
| `CleaningProperties.PlaceholderMember` | clean_car_data.py:45 | membership in the lower-cased placeholders, spelled out |
| `CleaningProperties.NormalizeNonString` | clean_car_data.py:38-47 | a cell that is not a string passes through unchanged (null stays null) |
| `CleaningProperties.NormalizeResult` | clean_car_data.py:36-47 | a string left after normalisation has no surrounding whitespace and is no placeholder |
| `CleaningProperties.NormalizeIdempotent` | clean_car_data.py:36-48 | normalising twice is normalising once |
| `CleaningProperties.NormalizeCapitalNA` | clean_car_data.py:45 | "NA" becomes null |
| `CleaningProperties.NormalizeCapitalSlashed` | clean_car_data.py:45 | "N/A" becomes null |
| `CleaningProperties.NormalizeEmpty` | clean_car_data.py:42-43 | "" becomes null |
| `CleaningProperties.NormalizeQuestionMark` | clean_car_data.py:30-46 | "?" becomes null |
| `CleaningProperties.NormalizeIgnoresPadding` | clean_car_data.py:36 | a space before and after a string (as in " na ") does not change the result |
| `Text.StripIdempotent` | clean_car_data.py:36 | stripping twice is stripping once |
| `Text.StripEnds` | clean_car_data.py:36 | a stripped string neither starts nor ends with whitespace |
| `Text.Lower` | clean_car_data.py:45 | lower-casing keeps the length and maps each character |
| `CleaningSteps.Render` | clean_car_data.py:58 | definition: `astype(str)` of a cell; null prints "nan", a boolean "True" or "False" |
| `CleaningSteps.CoerceCell` | clean_car_data.py:57-61 | definition: commas removed, stripped, the null spellings to null, then the parser; a failed parse is null |
| `CleaningSteps.CoercedColumnDType` | clean_car_data.py:61 | definition: `int64` when no cell of the parsed column is null, `float64` otherwise |
| `CleaningSteps.CoerceTable` | clean_car_data.py:53-67 | coercion keeps the columns and the row count |
| `CleaningSteps.ConversionIssues` | clean_car_data.py:52-67 | definition: one entry per designated name, `None` for an absent column |
| `Cleaning.ParseColumn` | clean_car_data.py:61 | parsing one column keeps the columns and the row count |
| `Cleaning.Cleaner.CoerceNumeric` | clean_car_data.py:50-67 | the loop over the designated columns leaves exactly `CoerceTable` of the old table and returns exactly `ConversionIssues` of it |
| `Cleaning.CoerceRound` | clean_car_data.py:54-65 | one round: the table after round n+1, and the issue entry for the n-th designated name |
| `Cleaning.CoerceStep` | clean_car_data.py:54-61 | round n parses the column of the n-th name, and retypes it, exactly when it is an object column |
| `Cleaning.CoerceAbsent` | clean_car_data.py:66-67 | a designated name the table lacks changes nothing |
| `Cleaning.IssueFromCounts` | clean_car_data.py:55-63 | the issue entry is the non-null count before minus the non-null count after |
| `CleaningSteps.CoerceOn` | clean_car_data.py:53-65 | after n rounds: the object-typed columns among the first n designated names are parsed and retyped; no other column changes |
| `CleaningSteps.CoerceTableCells` | clean_car_data.py:57-61 | cell by cell, coercion parses exactly the designated object columns; the new type is `int64` without nulls, else `float64` |
| `CleaningSteps.IssueFor` | clean_car_data.py:53-67 | a column's entry is `None` exactly when the table lacks the column |
| `CleaningSteps.IssueForPresent` | clean_car_data.py:55-63 | a present column's entry is the difference of its non-null counts |
| `CleaningSteps.IssuesOfComprehension` | clean_car_data.py:52-67 | the dictionary filled in n rounds has one entry per handled name |
| `CleaningProperties.ConversionIssuesEntries` | clean_car_data.py:51-67 | `conversion_issues` has exactly the three designated keys; an entry is `None` exactly when that column is absent |
| `CleaningProperties.ConversionIssuePresent` | clean_car_data.py:55-63 | a present designated column's entry is `Some` of its count difference |
| `CleaningProperties.IssueCountsFailures` | clean_car_data.py:55-63 | the count is the number of non-null cells coercion turned to null, so it is never negative |
| `CleaningProperties.IssueOfUnparsedColumn` | clean_car_data.py:57-63 | a designated column that is not an object column has issue count 0 |
| `CleaningProperties.CountNonNullDrop` | clean_car_data.py:55-62 | when nulls stay null, the drop in non-null count is the number of cells lost |
| `CleaningProperties.CoerceMissing` | clean_car_data.py:58-61 | null and "" coerce to null |
| `CleaningProperties.CoerceNullSpelling` | clean_car_data.py:58-60 | a value that is "", "nan", "None" or "none" once its commas and surrounding whitespace are removed coerces to null |
| `CleaningProperties.CoerceIgnoresCommas` | clean_car_data.py:58 | a comma anywhere is ignored ("1,200" coerces like "1200") |
| `CleaningProperties.CoerceIgnoresPadding` | clean_car_data.py:58 | surrounding spaces are ignored |
| `CleaningProperties.CoerceIgnoresCommasAndPadding` | clean_car_data.py:58-61 | a string coerces like its comma-free stripped form |
| `CleaningProperties.CoerceResult` | clean_car_data.py:58-61 | coercion yields null or a number; a number is what the parser read; an unparsable value becomes null |
| `CleaningProperties.CoerceNumberKept` | clean_car_data.py:58-61 | with the decimal parser, a number in an object column is kept |
| `Text.RemoveAll` | clean_car_data.py:58 | comma removal leaves no comma and never lengthens |
| `CleaningSteps.Passes` | clean_car_data.py:71-79 | definition: a year in [1900, current year], a price > 0, a distance ≥ 0; a boolean compares as 1 or 0; a null or a string fails; other columns have no check |
| `CleaningSteps.CheckCell` | clean_car_data.py:73-79 | definition: a failing cell becomes null |
| `CleaningSteps.Upcast` | clean_car_data.py:73-79 | definition: writing NaN makes an `int64` column `float64` and a `bool` column `object` |
| `CleaningSteps.ValidateTable` | clean_car_data.py:69-79 | validation keeps the columns and the row count |
| `Cleaning.Cleaner.ValidateDomains` | clean_car_data.py:69-79 | the three checks leave exactly `ValidateTable` of the old table |
| `Cleaning.Cleaner.NullFailing` | clean_car_data.py:73-79 | one check nulls exactly the failing cells of its column, upcasts that column's type when it writes, and leaves every other column unchanged |
| `CleaningProperties.ValidatedRanges` | clean_car_data.py:71-79 | after validation a cell is unchanged or null; a non-null year lies in [1900, current year], a price is > 0, a distance is ≥ 0 |
| `CleaningProperties.ValidatedKeeps` | clean_car_data.py:71-79 | cells of other columns, and cells that pass, are kept |
| `Tables.Dedup` | clean_car_data.py:83 | definition: every row that does not repeat an earlier one, in order |
| `Tables.DuplicateCount` | run_car_report.py:55 | the number of rows equal to an earlier row is at most the row count |
| `CleaningSteps.DedupTable` | clean_car_data.py:82-83 | duplicate removal keeps the columns and their types |
| `Cleaning.Cleaner.DropDuplicates` | clean_car_data.py:81-84 | the table becomes `DedupTable` of the old one; the count is the number of rows equal to an earlier row |
| `CleaningProperties.DedupTableRows` | clean_car_data.py:82-84 | exactly `duplicates_removed` rows go; the rest are distinct; the same rows remain; none of them is a duplicate |
| `Tables.DedupOrder` | clean_car_data.py:83 | the kept rows are the first occurrences, in their original order |
| `Tables.DedupLength` | clean_car_data.py:82-83 | rows kept plus duplicates counted is the row count |
| `Tables.DuplicateCountZero` | run_car_report.py:56 | the duplicate count is 0 exactly when all rows are distinct |
| `CleaningSteps.CriticalColumns` | clean_car_data.py:87 | the critical columns are the designated columns present in the table |
| `CleaningSteps.Complete` | clean_car_data.py:89 | definition: the row has a value in every critical column |
| `CleaningSteps.DropIncomplete` | clean_car_data.py:87-89 | the drop keeps the columns and their types |
| `Cleaning.Cleaner.DropMissingCritical` | clean_car_data.py:86-91 | the table becomes `DropIncomplete` of the old one; the count is the drop in row count |
| `CleaningProperties.CompleteIffNotMissing` | clean_car_data.py:87-89 | a row is kept exactly when no present designated column is null in it |
| `CleaningProperties.DropIncompleteComplete` | clean_car_data.py:89 | a kept row has no null in a designated column |
| `CleaningProperties.DroppedAreMissing` | clean_car_data.py:88-91 | the dropped count is the number of rows missing a critical value |
| `CleaningProperties.DropIncompleteIdempotent` | clean_car_data.py:89 | dropping twice is dropping once |
| `CleaningSteps.AgeCell` | clean_car_data.py:96 | definition: current year − year, or null without a year |
| `CleaningSteps.WithAge` | clean_car_data.py:94-98 | adding `age` keeps the row count |
| `Cleaning.Cleaner.AddAge` | clean_car_data.py:93-98 | the table becomes `WithAge` of the old one |
| `CleaningProperties.AgeOfValidYear` | clean_car_data.py:96 | for a valid year, age is current year − year, and lies in [0, current year − 1900] |
| `CleaningProperties.AgeColumn` | clean_car_data.py:94-98 | with a `year` column, `age` is a column distinct from it; each row's age is computed from that row's year; the earlier columns and other cells are kept |
| `Cleaning.Cleaner.TagCategoricals` | clean_car_data.py:100-104 | the loop leaves exactly `TagCategories` of the old table |
| `CleaningSteps.TagCategories` | clean_car_data.py:102-104 | tagging changes no column name and no cell, types every present low-cardinality column `category`, and leaves every other type |
| `CleaningProperties.TaggedCategorical` | clean_car_data.py:102-104 | a tagged column is classified categorical and not numerical |
| `CleaningProperties.CleanedCategorical` | clean_car_data.py:100-114 | a low-cardinality column of the input is categorical, and not numerical, in the cleaned table |
| `Cleaning.Cleaner.NarrowIntegers` | clean_car_data.py:106-114 | the loop leaves exactly `NarrowTable` of the old table |
| `CleaningSteps.NarrowCell` | clean_car_data.py:114 | definition: `astype('Int64')` of a cell; a boolean becomes 1 or 0 |
| `CleaningSteps.Narrows` | clean_car_data.py:108-112 | definition: the column is designated and present, has a non-null value, and every non-null value is whole |
| `CleaningSteps.NarrowTable` | clean_car_data.py:107-114 | narrowing keeps the columns and the row count |
| `Cleaning.NarrowRound` | clean_car_data.py:108-114 | one round: the table after the round for the n-th designated name |
| `Cleaning.NarrowStep` | clean_car_data.py:108-114 | round n gives that column type `Int64` exactly when it has a non-null value and all of them are whole |
| `Cleaning.NarrowAbsent` | clean_car_data.py:108 | a designated name the table lacks changes nothing |
| `CleaningSteps.NarrowOn` | clean_car_data.py:107-114 | after n rounds, exactly the qualifying columns among the first n names are converted |
| `CleaningSteps.NarrowTableCells` | clean_car_data.py:107-114 | cell by cell, narrowing converts exactly the designated whole-valued non-empty columns |
| `CleaningProperties.NarrowKeepsValues` | clean_car_data.py:114 | converting a cell keeps its numeric value and its nullness |
| `CleaningProperties.NarrowTableKeepsValues` | clean_car_data.py:106-114 | narrowing changes no value; other columns are untouched |
| `CleaningSteps.Validated` | clean_car_data.py:29-79 | the table after steps 1 to 3 keeps the columns and the row count |
| `CleaningSteps.Reduced` | clean_car_data.py:81-91 | the table after steps 4 and 5 keeps the columns |
| `CleaningSteps.CleanTable` | clean_car_data.py:29-114 | the cleaned table is well formed |
| `Cleaning.Cleaner.Prepare` | clean_car_data.py:29-79 | steps 1 to 3 leave exactly `Validated` of the old table and return its conversion issues |
| `Cleaning.Cleaner.Reduce` | clean_car_data.py:81-91 | steps 4 and 5 leave `Reduced` and return both counts |
| `Cleaning.Cleaner.Derive` | clean_car_data.py:93-114 | steps 6 to 8 leave the cleaned table |
| `Cleaning.CleanCarData` | clean_car_data.py:27-133 | the cleaned table and every metric; `rows_after == rows_before - duplicates_removed - dropped_rows_due_to_missing_critical_fields` |
| `CleaningProperties.RowCounts` | clean_car_data.py:121-132 | the row-count law, and the dropped count is the number of incomplete rows |
| `CleaningProperties.KeptRowOrigin` | clean_car_data.py:83-89 | every row left is a row of the validated table |
| `CleaningProperties.ReducedYear` | clean_car_data.py:71-89 | every row left has a valid year |
| `CleaningProperties.DerivedAge` | clean_car_data.py:94-114 | after steps 6 to 8, year keeps its value and age is current year − year |
| `CleaningProperties.CleanedAge` | clean_car_data.py:69-114 | in the cleaned table every row's year lies in [1900, current year] and its age is current year − year |
| `CleaningTwice.SecondCleaningRemovesNothing` | clean_car_data.py:81-91 | cleaning the cleaned table of data without an `age` column, none of whose columns mixes booleans and numbers, counts no duplicate, drops no row and keeps the row count |
| `CleaningTwice.SecondCleaningFindsDuplicate` | clean_car_data.py:93-98 | two rows of the year 2015 whose `age` is 1 and 2 both survive the first cleaning, which gives them the same `age`; the second cleaning counts one duplicate and keeps one row |
| `CleaningTwice.SameYearCollapses` | clean_car_data.py:81-98 | the same for any two different clean rows of one year with an `age` column |
| `CleaningTwice.CleanedSettled` | clean_car_data.py:29-114 | in the cleaned table, object columns are normalised, designated values are present and pass their checks, and a designated column left `object` is empty |
| `CleaningTwice.CleanedDistinct` | clean_car_data.py:81-114 | for such data, the cleaned rows are distinct |
| `CleaningTwice.Revalidated` | clean_car_data.py:29-79 | on a table in that state, steps 1 to 3 change no row |
| `CleaningTwice.WithAgeDistinct` | clean_car_data.py:94-98 | appending `age` keeps distinct rows distinct |
| `CleaningTwice.NarrowDistinct` | clean_car_data.py:107-114 | narrowing keeps distinct rows distinct when no column mixes booleans and numbers |
| `Reporting.CategoricalColumns` | run_car_report.py:35-38 | definition: the columns typed bool, category or object, in order |
| `Reporting.NumericalColumns` | run_car_report.py:35-40 | definition: the other columns of a numeric type, in order |
| `Reporting.ClassifyColumns` | run_car_report.py:31-44 | the loop returns exactly the categorical and the numerical column lists |
| `Reporting.Classification` | run_car_report.py:35-42 | categorical exactly for bool, category or object; numerical exactly for the other numeric types; never both; bool never numerical; any other type in neither |
| `Reporting.ClassificationOrder` | run_car_report.py:35-44 | both lists name each column once, in table order |
| `Reporting.ClassificationDisjoint` | run_car_report.py:37-40 | no column is in both lists |
| `Tables.ColumnsWhereMembers` | run_car_report.py:35-40 | a column is selected exactly when its type satisfies the test |
| `Reporting.MissingValuesInfo` | run_car_report.py:47-49 | one entry per column, holding that column's null count |
| `Reporting.HasMissingMeaning` | run_car_report.py:50 | `has_missing` exactly when some count is positive, exactly when some cell is null |
| `Reporting.MissingHasNull` | run_car_report.py:48-50 | a positive count points to a null cell |
| `Reporting.NullIsMissing` | run_car_report.py:48-50 | a null cell makes its column's count positive |
| `Tables.CountNullPositive` | run_car_report.py:48 | a column's null count is positive exactly when it holds a null |
| `Reporting.DuplicatesInfo` | run_car_report.py:54-57 | the duplicate count is at most the row count |
| `Reporting.DuplicatesMeaning` | run_car_report.py:55-56 | the count is the number of rows `drop_duplicates` removes; the flag holds exactly when two rows are equal |
| `Reporting.NonNullCount` | run_car_report.py:65 | definition: `describe()`'s `count` of a column, its number of non-null cells |
| `Reporting.NumericSummary` | run_car_report.py:60-69 | empty exactly when no column is numerical; otherwise one entry, keyed by the statistic `count`, holding one value per numerical column (the orientation lines 67-69 produce) |
| `Reporting.SummaryKeyedByStatistic` | run_car_report.py:65-69 | with two numerical columns the summary still has one entry, and it is named `count`, not after a column |
| `Reporting.PerColumnSummary` | run_car_report.py:60-88 | the summary keyed by column, as the function's comments and the section title describe: one entry per numerical column |
| `Reporting.PerColumnSummaryCount` | run_car_report.py:60-88 | in it each numerical column has its own entry holding its count, and no column has two |
| `Reporting.MakeReport` | run_car_report.py:91-114 | the report's shape is the row and column count and its columns are the table's; dtypes and missing counts have one key per column; the flags match the counts; the lists are disjoint; the summary is empty exactly when the numerical list is, and otherwise has one entry, `count`, with one value per numerical column |
| `Reporting.ReportCounts` | run_car_report.py:94-104 | per column the report holds its null count and its type's name; the duplicate count is the table's |
| `Reporting.ReportSummaryCount` | run_car_report.py:60-69 | a numerical column appears in the `count` entry with its non-null count; a column that is not numerical appears in no entry |
| `Reporting.MissingAndCountAddUp` | run_car_report.py:47-69 | a column's missing count and its `count` add up to the row count |
| `Markdown.FormatValue` | run_car_report.py:117-132 | definition: the cases of `_format_value_for_md` in the order the function checks them |
| `Markdown.FormatNA` | run_car_report.py:117-123 | a single value prints "NA" exactly when it is None, `pd.NA` or NaN, or is the string "NA" |
| `Markdown.FormatPresent` | run_car_report.py:124-132 | a present value prints as Python's `str` of it |
| `Markdown.FormatIntRoundTrip` | run_car_report.py:124-125 | an integer prints as digits that read back as it |
| `Markdown.FormatFloatRoundTrip` | run_car_report.py:126-127 | a whole float below 10^16 prints as its integer digits followed by ".0" |
| `Markdown.FormatList` | run_car_report.py:130-131 | a list prints nothing when empty and its item's `str` when it has one; a longer list prints its first item, ", " and the rest; one more item adds ", " and its `str` at the end; `[None]` prints "None" |
| `Text.IntToStringRoundTrip` | run_car_report.py:125 | the decimal rendering of an integer parses back to it |
| `Text.JoinAppend` | run_car_report.py:131 | joining one more item appends the separator and the item |
| `Text.JoinLength` | run_car_report.py:131 | the joined length is the items' total length plus one separator between each two |
| `Markdown.Listed` | run_car_report.py:253-261 | definition: the statistics `stat_order` names first, then the others in their own order |
| `Markdown.Lookup` | run_car_report.py:255-256 | `stats[stat]` is absent exactly when the key is, and is an entry's value otherwise |
| `Markdown.LookupDistinct` | run_car_report.py:255-256 | with distinct keys, the lookup of an entry's key gives its value |
| `Markdown.StatOrderDistinct` | run_car_report.py:253 | `stat_order` names each statistic once |
| `Markdown.PickedFacts` | run_car_report.py:254-257 | after n rounds the first loop listed exactly the statistics among the first n names that the column has, each with its value |
| `Markdown.PickedOrder` | run_car_report.py:254-257 | those rows follow the canonical order |
| `Markdown.PickedAll` | run_car_report.py:254-257 | the first loop lists exactly the canonical statistics the column has, each once |
| `Markdown.UnpickedIsFilter` | run_car_report.py:258-261 | the second loop lists the non-canonical statistics in the column's own order |
| `Markdown.UnpickedFacts` | run_car_report.py:258-261 | those rows are non-canonical entries of the column, each once |
| `Markdown.ListedDistinct` | run_car_report.py:253-261 | no statistic is listed twice |
| `Markdown.KeyListed` | run_car_report.py:253-261 | every statistic of the column is listed |
| `Markdown.ListedKey` | run_car_report.py:253-261 | every listed statistic is one of the column's |
| `Markdown.ListedValues` | run_car_report.py:253-261 | every listed row shows the column's value for that statistic |
| `Markdown.StatsExactlyOnce` | run_car_report.py:248-262 | each statistic appears exactly once, with its value; the rows after the canonical ones are the other statistics in their original order |
| `Markdown.StatsInStatOrder` | run_car_report.py:253-257 | the canonical rows come in the order count, mean, std, min, 25%, 50%, 75%, max |
| `Markdown.ListedSingle` | run_car_report.py:253-261 | a column with one canonical statistic gets that one row |
| `Markdown.AppendOrderedRows` | run_car_report.py:254-257 | the canonical-order loop appends a row for each picked statistic |
| `Markdown.AppendOtherRows` | run_car_report.py:258-261 | the second loop appends a row for each other statistic |
| `Markdown.AppendColumnBlock` | run_car_report.py:249-262 | one column's heading, table and blank line |
| `Markdown.AppendSummaryBlocks` | run_car_report.py:248-262 | the loop over the summary appends each column's block in turn |
| `Markdown.AppendDtypes` | run_car_report.py:196-204 | the dtype section |
| `Markdown.AppendList` | run_car_report.py:206-222 | a titled bullet list, or "None" |
| `Markdown.AppendMissing` | run_car_report.py:224-234 | the missing-values section |
| `Markdown.AppendSummary` | run_car_report.py:242-262 | the summary section, or "No numeric columns present." |
| `Markdown.HeaderLines` | run_car_report.py:187-194 | definition: the title, source and shape lines |
| `Markdown.ColumnBlock` | run_car_report.py:249-262 | definition: one summary entry's heading, table rows and blank line |
| `Markdown.MarkdownLines` | run_car_report.py:186-267 | definition: the sections in the order the script appends them |
| `Markdown.BuildMarkdown` | run_car_report.py:186-267 | the appended lines are exactly `MarkdownLines` of the report |
| `Markdown.ListSectionLines` | run_car_report.py:208-221 | a list section says "None" exactly when the list is empty, else shows one bullet per item, in order |
| `Markdown.DtypeSectionRows` | run_car_report.py:199-204 | the dtype table has one row per column, in column order |
| `Markdown.MissingSectionRows` | run_car_report.py:226-232 | the missing-value table has one row per column, in column order |
| `Markdown.DtypeTableShowsTypes` | run_car_report.py:198-203 | for a table's report, each row shows that column's type name |
| `Markdown.MissingTableShowsCounts` | run_car_report.py:228-231 | for a table's report, each row shows that column's null count |
| `Markdown.MissingAnswerShowsTable` | run_car_report.py:233 | the answer is "Yes" exactly when some cell is null |
| `Markdown.DuplicateLinesShowTable` | run_car_report.py:236-240 | the count shown is the number of rows `drop_duplicates` would remove; "Yes" exactly when two rows are equal |
| `Markdown.CountOnlyBlock` | run_car_report.py:248-262 | a column whose one statistic is its count gets the heading, one row and a blank line |
| `Markdown.SummarySectionShowsCounts` | run_car_report.py:242-262 | for a table's report, the summary section is "No numeric columns present." when no column is numerical, and otherwise one block headed `count`, whose rows name each numerical column once, with its non-null count |
| `Markdown.CountsInColumnOrder` | run_car_report.py:253-261 | when no numerical column is named like a statistic, those rows come in column order |
| `Markdown.PerColumnBlockShowsCount` | run_car_report.py:248-262 | with the summary keyed by column, each numerical column gets its own block with one `count` row |

## Left out

- Reading the CSV (`os.path.exists`, `pd.read_csv`, `load_csv`'s error translation) is not
  modelled. Nor is any writing (`os.makedirs`, `to_csv`, the Markdown file, the
  4000-character snippet). These are file I/O. The model starts from a loaded table.
- The `try`/`except` envelopes and the error-shaped `output` record built with
  `traceback.format_exc()` are not modelled. Nor are `status`, `error_message`,
  `cleaned_path`/`os.path.abspath`, the `preview` text (`df.head(10).to_csv`) or
  `dtypes_after`.
- `print_report` is not modelled. It only writes to standard output.
- `datetime.now()` is the parameter `currentYear`.
- The parser behind `pd.to_numeric` is the parameter `parse`. What the model fixes is the
  work done before parsing: comma removal, stripping and the null spellings.
- Numbers are integers. Cells hold no fractional values, so every non-null number passes
  the narrowing test's "whole" check.
- pandas' dtype strings are `Tables.DTypeName` of a closed set of types. Any other type is
  `Other(name)` and counts as neither numeric nor categorical.
- The statistics of `describe()` other than `count` are not modelled: mean, std,
  percentiles, min and max. Nor is `_convert_value`'s NaN-to-None conversion. These are
  floating-point computations.
- `Reporting.NumericSummary`: covers the `count` statistic only. `describe()` gives eight
  statistics, so the script's summary has eight entries, one per statistic, each mapping
  every numerical column to a value. The model has the `count` entry only, holding each
  numerical column's non-null count as a whole float (the model's `FloatV` scalar).
- `Markdown.FormatValue`: prints a whole float as its digits followed by ".0" at any size.
  Python's `str` switches to exponent notation from 10^16 on (`1e+16`). The only floats
  the report holds are row counts.
- `Text.Lower`: lower-cases the ASCII letters only. Python's `str.lower` also maps other
  letters.
- `CleaningSteps.NormalizeTable`: retypes a column only when all its normalised cells are
  null. pandas infers the type of every `apply` result again, so an object column holding
  only numbers or booleans would come back `int64`, `float64` or `bool`. The columns
  `read_csv` types `object` hold strings.
- `CleaningTwice.SecondCleaningRemovesNothing`: requires data without an `age` column
  (otherwise the second cleaning can find duplicates, see Findings). It also requires that
  no column holds both a boolean and a number. `astype('Int64')` turns `True` and `1`
  into the same value, and the model's tables do not tie the cells to the column type.
- The `report.get(key, default)` fallbacks for top-level keys are not modelled, because a
  report built by `make_report` has every key. The per-column fallbacks are modelled:
  `dtypes.get(col, "unknown")` and `missing.get(col, 0)`.
- The final `'\n'.join(lines)` and the file write are not modelled. The model produces the
  list of lines.
- A string in a validated column is nulled by validation. pandas would raise there
  instead, but this case cannot occur after coercion, which leaves only numbers and nulls.
- `Cleaning.CoerceRound` and `Cleaning.NarrowRound` take the table of the previous round
  as a value. The class method `CoerceNumeric` holds the in-place column update.

## Notes on the scripts

- **Bool columns.** run_car_report.py:37-42 checks bool, category and object before
  `is_numeric_dtype`. A bool column is therefore categorical only, and a column of any
  other non-numeric type is in neither list.
- **Columns in the summary.** run_car_report.py:60-63 selects the `np.number` columns, and
  returns `{}` when there are none. An all-null numerical column stays in `describe()`,
  with count 0, so it is in the summary.
- **The summary's keys.** run_car_report.py:65-69 builds a dictionary keyed by statistic
  (see Findings). The Markdown section at lines 248-262 then writes one block per
  statistic, each listing the columns.
- **Integer narrowing.** The comment at clean_car_data.py:65 says "if no NaNs". The test at
  line 112 requires only a non-null value and whole values.
- **Null spellings in coercion.** clean_car_data.py:60 maps "None" to null, as well as ""
  "nan" and "none".
- **The shape line.** run_car_report.py:191 writes the two characters U+00C3 U+2014 ("Ã—")
  between the counts, not "×". The model keeps them as written.

## Findings

| source | as written | input that shows it | evidently intended | confidence | as-written member | corrected member |
|---|---|---|---|---|---|---|
| run_car_report.py:65-69 | `describe().to_dict()` is keyed by column, and the loop names its outer key `stat`; the result is keyed by statistic | any table with two numerical columns: the summary has the entries `count`, `mean`, … and the Markdown has a block `### count` listing the columns | one entry per numerical column, holding its statistics, as the section title "per numeric column" says | not executed | `Reporting.SummaryKeyedByStatistic` | `Reporting.PerColumnSummaryCount` |
| clean_car_data.py:93-98 | `age` overwrites an existing `age` column after duplicates are removed | two rows (2015, age 1) and (2015, age 2): both kept, then both get the same `age`, so cleaning the output again removes one as a duplicate | cleaning cleaned data removes nothing; proved for data without an `age` column | not executed | `CleaningTwice.SecondCleaningFindsDuplicate` | `CleaningTwice.SecondCleaningRemovesNothing` |

`MakeReport` and the Markdown lines follow the code as written. `PerColumnSummary` and its
lemmas state the evidently intended summary beside them. The second row's corrected
member holds for data without an `age` column.
