# Customer-loyalty data cleaning, modelled in Dafny

This project models the cleaning steps of `src/data_cleaning.py`, a pandas script that
prepares the airline "Customer Flight Activity" and "Customer Loyalty History" tables.
It also proves properties of each step. The steps modelled are:

- the join planning inside `lectura_ficheros`: find a shared column, measure how many key
  values of each side occur on the other side, and choose inner, left, right or outer;
- `normalizar_nombres_columnas`, snake-case normalisation of column labels;
- `renombrar_columnas_semanticas`, the fixed rename of `year`, `month` and `clv`;
- `eliminar_filas_duplicadas`, exact-row deduplication with keep first, last or none;
- `convertir_negativos_a_nulos`, which blanks negative values in one column;
- `imputar_salary_por_grupos`, median imputation in three tiers;
- `clasificar_estado_cliente`;
- `limpiar_categoricas`, strip and title-case on chosen text columns;
- `revisar_incoherencias_vuelos`, four counts of contradictory flight figures.

A table (`Frames.Table`) is a list of labels and a list of columns of equal length. Each
column holds numbers (`real`) or text (`string`). A missing cell (NaN) is `None`. Labels may
repeat; `df[name]` is modelled as the first column with that label. A KeyError, a ValueError
or a type error that the script would raise becomes an `Err` value naming the labels involved, if any.

Modules, one file each:

- `Wrappers`: `Option`.
- `Text`: ASCII character classes, `strip`, `lower`, string order.
- `Frames`: tables, lookups, missing-value counts.
- `ColumnNames`, `JoinPlanner`, `SemanticRename`, `Dedup`, `Sanitize`, `Categorical`,
  `Incoherence`: one per script function.
- `Stats`: the median.
- `Impute`: the three imputation passes.

Steps that update variables in a loop are methods with loop invariants. Most methods are proved
against a specification function, and the properties the script promises are lemmas about
that function; `JoinPlanner.DetectKey` and `JoinPlanner.PlanJoin` state their results directly. The pure table lookups and branch tables are functions.

## Model

| member | source | states |
|---|---|---|
| Text.TrimStart | src/data_cleaning.py:138 | `lstrip` returns a suffix of its input that does not start with a stripped character |
| Text.TrimStartDropsOnly | src/data_cleaning.py:138 | every character `lstrip` removes is one of the stripped characters, so it removes the longest such prefix |
| Text.TrimEnd | src/data_cleaning.py:150 | `rstrip` returns a prefix of its input that does not end with a stripped character |
| Text.TrimEndDropsOnly | src/data_cleaning.py:150 | every character `rstrip` removes is one of the stripped characters |
| Text.Strip | src/data_cleaning.py:138 | `strip` never lengthens the string, and after it neither end is a stripped character |
| Text.Lower | src/data_cleaning.py:144 | `lower` keeps the length of the label |
| Text.LowerMeaning | src/data_cleaning.py:144 | after `lower` no upper-case letter is left: each becomes the lower-case letter it is the capital of, and every other character is kept |
| Text.LowerAppend | src/data_cleaning.py:144 | `lower` works character by character, so it distributes over concatenation |
| Text.TextLessMeaning | src/data_cleaning.py:482 | Python's `<` on strings is the lexicographic order on code points: `s < u` exactly when `s` is a proper prefix of `u` or `s` has the smaller character where they first differ |
| Text.TextLessTrichotomy | src/data_cleaning.py:482 | of `s < u`, `s == u` and `u < s` exactly one holds |
| ColumnNames.ReplaceNonAlnumRuns | src/data_cleaning.py:141 | the substitution never lengthens the label and empties only the empty label |
| ColumnNames.ReplaceShape | src/data_cleaning.py:141 | after `re.sub(r"[^0-9a-zA-Z]+", "_", ...)` the label holds only ASCII letters, digits and underscores, with no two underscores adjacent |
| ColumnNames.ReplaceKeepsAlnums | src/data_cleaning.py:141 | the substitution keeps every letter and digit of the label, in order |
| ColumnNames.ReplaceKeeps | src/data_cleaning.py:141 | the substitution changes nothing on letters, digits and single underscores |
| ColumnNames.CollapseUnderscores | src/data_cleaning.py:147 | `re.sub(r"_+", "_", ...)` never lengthens the label and empties only the empty label |
| ColumnNames.CollapseKeeps | src/data_cleaning.py:147 | `re.sub(r"_+", "_", ...)` changes nothing when no underscore is doubled |
| ColumnNames.NormalizeName | src/data_cleaning.py:137-150 | the five steps applied in the script's order: strip spaces, replace non-alphanumeric runs, lower-case, collapse underscores, strip underscores; what they yield is stated by the three lemmas below |
| ColumnNames.NormalizeNameIsSnake | src/data_cleaning.py:137-150 | every normalised label holds only lower-case letters, digits and single underscores, with none at either end |
| ColumnNames.NormalizeNameKeepsSnake | src/data_cleaning.py:137-150 | a label already in that form comes out unchanged |
| ColumnNames.NormalizeNameIdempotent | src/data_cleaning.py:137-150 | normalising twice gives the same as normalising once |
| ColumnNames.NormalizeAlnumName | src/data_cleaning.py:137-150 | a non-empty label of letters and digits only is just lower-cased |
| ColumnNames.NormalizeTwoWords | src/data_cleaning.py:137-150 | two words of letters and digits separated by one space become `word_word` in lower case |
| ColumnNames.NormalizeColumnNames | src/data_cleaning.py:133-161 | the list has one label per input label, position by position; each is that label normalised and in snake case; a list already in snake case comes back unchanged |
| ColumnNames.NormalizedListFacts | src/data_cleaning.py:133-152 | a position-wise normalised list holds only snake-case labels, and equals the input when the input was already in snake case |
| ColumnNames.NormalizeDocstringExample | src/data_cleaning.py:129-130 | `Loyalty Number` becomes `loyalty_number` |
| ColumnNames.NormalizeAcronymExample | src/data_cleaning.py:129-130 | `CLV` becomes `clv` |
| ColumnNames.NormalizeKeepsCamelCaseJoined | src/data_cleaning.py:141-144 | `LoyaltyNumber` becomes `loyaltynumber`: CamelCase is lower-cased, not split into words |
| JoinPlanner.CommonNames | src/data_cleaning.py:50 | a label is shared exactly when both tables have it |
| JoinPlanner.DetectKey | src/data_cleaning.py:50-60 | the error `NoCommonKey` is returned exactly when the two label lists are disjoint; otherwise the key is a label of both tables |
| JoinPlanner.CountFound | src/data_cleaning.py:67-68 | the number of rows whose key occurs on the other side is at most the row count; it equals the row count exactly when every key is found, and is zero exactly when none is |
| JoinPlanner.MatchPercent | src/data_cleaning.py:67-68 | the percentage is undefined (NaN) exactly for an empty table; otherwise it lies in [0, 100], is 100 exactly when every key is found and 0 exactly when none is |
| JoinPlanner.PercentRange | src/data_cleaning.py:67 | `100 * n / len` with `0 <= n <= len` lies in [0, 100] and reaches either bound only when `n` does |
| JoinPlanner.ChooseJoin | src/data_cleaning.py:74-89 | inner exactly when both percentages are 100; a left or right join only when exactly one side is at 100 (the second for left, the first for right); a NaN percentage always gives outer |
| JoinPlanner.ChooseJoinMeaning | src/data_cleaning.py:75-89 | inner iff every key of each side is found on the other; left iff only the second table's keys are all found; right iff only the first's; outer otherwise, including when either table is empty |
| JoinPlanner.ChooseJoinSwap | src/data_cleaning.py:75-89 | swapping the two percentages swaps left and right and keeps inner and outer |
| JoinPlanner.PlanJoin | src/data_cleaning.py:50-89 | the same error condition as key detection; otherwise both percentages are those of the key columns' values, and the join type is the table's choice for them |
| SemanticRename.Renamed | src/data_cleaning.py:199-207 | a label changes exactly when it is `year`, `month` or `clv`, and then to its fixed new name; no new name is renamed again |
| SemanticRename.RenamedIdempotent | src/data_cleaning.py:199-207 | renaming twice is renaming once |
| SemanticRename.RenameLabels | src/data_cleaning.py:207 | the label list keeps its length and each label is renamed in place |
| SemanticRename.DataFrame.RenameSemantic | src/data_cleaning.py:207 | in place: only `year`, `month` and `clv` change, to their new names; other labels, the number of labels and all columns stay as they were |
| SemanticRename.RenameExample | src/data_cleaning.py:187-189 | the labels `loyalty_number, year, month, clv` become `loyalty_number, flight_year, flight_month, customer_lifetime_value` |
| Dedup.Survivors | src/data_cleaning.py:249 | the kept positions are increasing, each kept row survives the keep policy, and every surviving row is kept |
| Dedup.IncreasingBound | src/data_cleaning.py:251-252 | there are never more kept rows than rows |
| Dedup.SurvivorsDistinct | src/data_cleaning.py:230-234 | under any policy, no two kept rows are equal |
| Dedup.FirstOccurrenceSurvives | src/data_cleaning.py:232 | with `keep='first'`, the first occurrence of every row value survives |
| Dedup.LastOccurrenceSurvives | src/data_cleaning.py:233 | with `keep='last'`, the last occurrence of every row value survives |
| Dedup.SurvivorsCover | src/data_cleaning.py:232-233 | with `first` or `last`, every input row equals some kept row |
| Dedup.TakeRows | src/data_cleaning.py:249 | selecting rows keeps the labels and yields the selected rows in the given order |
| Dedup.DedupIdempotent | src/data_cleaning.py:249 | on a table whose rows are pairwise different every row survives under any `keep`, so deduplicating again returns the table unchanged with nothing removed |
| Dedup.TakeSurvivorsCovers | src/data_cleaning.py:249 | with `first` or `last`, every row of the table is also a row of what the survivors make up |
| Dedup.EliminateDuplicateRows | src/data_cleaning.py:244-252 | the result holds exactly the surviving rows in their original order, and no two of them are equal; with `first`/`last` every input row is still represented; `removed = before - after` and `after <= before` |
| Sanitize.CountNegative | src/data_cleaning.py:358 | the count of negatives is at most the column length, and zero exactly when no value is negative |
| Sanitize.Sanitized | src/data_cleaning.py:362 | a sanitised entry is never negative, and differs from the original exactly when that was negative |
| Sanitize.NullNegatives | src/data_cleaning.py:358-362 | each negative value becomes missing and every other entry is kept; no negative is left; the count is the number of negatives; the column gains exactly that many missing values |
| Sanitize.SanitizedMissing | src/data_cleaning.py:362 | blanking negatives adds exactly one missing value per negative |
| Sanitize.NullNegativesIdempotent | src/data_cleaning.py:362 | a sanitised column has no negatives and sanitising it again changes nothing |
| Sanitize.ConvertNegativesToMissing | src/data_cleaning.py:354-367 | an absent label is a KeyError; `< 0` on a text column raises exactly when the column holds a string, and otherwise returns the table unchanged with count 0; on a numeric column only that column changes, each of its entries is sanitised, and the count is its number of negatives |
| Stats.InsertSorted | src/data_cleaning.py:412 | inserting into a sorted list keeps it sorted and adds exactly the new value |
| Stats.Sort | src/data_cleaning.py:412 | the sort is sorted and a permutation of its input |
| Stats.Median | src/data_cleaning.py:412 | the median is undefined exactly when there is no value |
| Stats.MedianSplits | src/data_cleaning.py:412 | the median splits the sorted values: the lower half lies at or below it, the upper half at or above it |
| Stats.MedianBetween | src/data_cleaning.py:412 | the median lies between two of the values |
| Stats.SortedUnique | src/data_cleaning.py:412 | two sorted arrangements of the same values are equal |
| Stats.MedianOfPermutation | src/data_cleaning.py:412 | the median does not depend on row order |
| Frames.CountMissing | src/data_cleaning.py:401 | `isnull().sum()` is at most the length, and zero exactly when nothing is missing |
| Frames.Present | src/data_cleaning.py:412 | `dropna()` keeps each present value exactly as many times as the column holds it; a value occurs exactly when the column holds it; the number of values plus the missing count is the length; the result is empty exactly when every cell is missing |
| Frames.Find | src/data_cleaning.py:358 | `df[name]` selects the first column with that label, and fails exactly when there is none |
| Frames.NumericColumn | src/data_cleaning.py:401-404 | the column to impute is looked up; it fails with the missing label, or with `NotNumeric` for a text column, which stands for the median of line 403 over text, and otherwise returns that column |
| Frames.HasText | src/data_cleaning.py:358 | a column holds a string exactly when it is a text column whose missing count is below its length; comparing it with 0 (here `< 0`, and `> 0` at lines 489 and 493) raises exactly then |
| Frames.CountMissingAll | src/data_cleaning.py:401 | `isnull().sum()` equals the length exactly when every cell is missing |
| Frames.Col | src/data_cleaning.py:482 | `df[name]` on a present label is one of the table's columns and has the table's row count |
| Frames.CellColumn | src/data_cleaning.py:404 | lookup fails exactly when the label is absent |
| Frames.SetColumn | src/data_cleaning.py:405 | assigning a column replaces only that column and keeps the table well formed |
| Impute.GroupValues | src/data_cleaning.py:403 | a group holds each entry exactly as many times as the rows with that key hold it, and nothing else |
| Impute.GroupMedians | src/data_cleaning.py:403 | a row whose key is missing gets no median, and rows with the same key get the same median, as `transform("median")` broadcasts one value per group |
| Impute.MedianWithin | src/data_cleaning.py:412 | the median of values in [lo, hi] lies in [lo, hi] |
| Impute.GroupMediansWithin | src/data_cleaning.py:404 | every group median of values in [lo, hi] lies in [lo, hi] |
| Impute.GroupMediansOfNothing | src/data_cleaning.py:403-404 | with no present value, no group has a median, so the pass fills nothing |
| Impute.FillCountsMissing | src/data_cleaning.py:415 | filling never increases the number of missing values |
| Impute.ImputeKeepsPresent | src/data_cleaning.py:405-413 | a present value survives all three passes |
| Impute.ImputeFillsAll | src/data_cleaning.py:412-413 | one present value is enough for every row to be filled |
| Impute.ImputeOfNothing | src/data_cleaning.py:403-413 | a column with no present value comes back unchanged |
| Impute.ImputeWithin | src/data_cleaning.py:404-413 | every filled value lies in any range that holds all present values |
| Impute.Imputed | src/data_cleaning.py:403-413 | the three `fillna` passes in order keep the column's length; what they guarantee is stated by `ImputeByGroups` |
| Impute.FillMissing | src/data_cleaning.py:405 | `fillna` never changes a present value and leaves no cell missing where the filler has a value; the same rule applies at lines 409 and 413 |
| Impute.ImputedFacts | src/data_cleaning.py:403-413 | after the three passes present values are unchanged, each missing value takes the first median that exists, nothing stays missing unless nothing was present, and ranges are kept |
| Impute.ImputeByGroups | src/data_cleaning.py:401-415 | present values never change; a missing value takes the (education, loyalty_card) median if it exists, else the education median of the partly filled column, else the overall median; nothing stays missing unless nothing was present; ranges are kept; `imputed = before - after` |
| Impute.ImputeSalary | src/data_cleaning.py:399-423 | the lookup errors come in the script's order; otherwise only the imputed column changes, to the three-pass result, and the count is the number of values filled |
| Categorical.Title | src/data_cleaning.py:468 | `title()` keeps the length; `TitleAt` states each character |
| Categorical.CleanCategory | src/data_cleaning.py:468 | `strip().title()` never lengthens the value and leaves no whitespace at either end |
| Categorical.TitleFromAt | src/data_cleaning.py:468 | each character of `str.title()` depends only on itself and on whether the character before it is a letter |
| Categorical.TitleAt | src/data_cleaning.py:468 | a letter is upper-cased when it starts a run of letters and lower-cased inside one; other characters are kept |
| Categorical.TitleIdempotent | src/data_cleaning.py:468 | title-casing twice is title-casing once |
| Categorical.CleanCategoryIdempotent | src/data_cleaning.py:468 | `strip().title()` applied twice is applied once |
| Categorical.CleanTexts | src/data_cleaning.py:468 | a cleaned column keeps its length, and missing cells stay missing |
| Categorical.CleanCategoricals | src/data_cleaning.py:460-470 | the error is that of the first listed column that is absent or not text, and there is an error exactly when such a column exists; otherwise exactly the listed text columns are cleaned and everything else is kept |
| Categorical.CustomerStatus | src/data_cleaning.py:426-437 | "Active" exactly when the cancellation year is missing, "Cancelled" exactly when it is present |
| Incoherence.Flagged | src/data_cleaning.py:482-494 | a row can fail a check only when its `total_flights` is present, since every check compares it and a comparison with NaN is false |
| Incoherence.Greater | src/data_cleaning.py:482-485 | cell `>` holds only between two present cells of one kind (numbers as numbers, strings in Python's order); a missing cell is never above or below anything |
| Incoherence.IsZero | src/data_cleaning.py:488-494 | `== 0` holds only for a present number, and that number is neither above nor below 0, so a string or a missing cell is never equal to 0 (the test itself never raises, see `FlightInputs`) |
| Incoherence.CompareRaises | src/data_cleaning.py:482-485 | columns of one kind never raise; a raise needs a string in one of them: a text left side raises only on a row where a string meets a present number, a numeric left side once the right holds any string |
| Incoherence.GreaterStrict | src/data_cleaning.py:482-485 | cell comparison is a strict order: never both ways, never a cell above itself, and two different strings compare one way or the other |
| Incoherence.TextRowsCompared | src/data_cleaning.py:482-485 | on text cells a row fails line 482 or 484 exactly when Python's string comparison puts its string above the `total_flights` string |
| Incoherence.CountFlagged | src/data_cleaning.py:482-494 | a count of failing rows is at most the row count, zero exactly when no row fails, and the row count exactly when all rows fail |
| Incoherence.CountIncoherent | src/data_cleaning.py:482-494 | one `(...).sum()` is the number of rows failing the check, and at most the row count |
| Incoherence.FirstFailing | src/data_cleaning.py:482-493 | the position found is that of the first step that raises: every earlier step passes, and the step there raises unless no step does |
| Incoherence.FlightInputs | src/data_cleaning.py:482-493 | when the review reads its inputs, all five labels are present and the five columns are exactly the table's columns under them, aligned and with the table's row count |
| Incoherence.FlightInputsFirstFailure | src/data_cleaning.py:482-493 | the review fails exactly when one of its steps raises (a lookup, the comparisons of lines 482 and 484, or `> 0` on lines 489 and 493, in Python's evaluation order), and its error is that of the first such step |
| Incoherence.BookedTotalFailure | src/data_cleaning.py:482 | an absent `flights_booked`, then an absent `total_flights`, then comparing them, is the first failing step when line 482 fails |
| Incoherence.CompanionsTotalFailure | src/data_cleaning.py:484-486 | after line 482 passes, an absent `flights_with_companions` or its comparison with `total_flights` is the first failing step |
| Incoherence.DistanceFailure | src/data_cleaning.py:488-490 | after lines 482 and 484 pass, an absent `distance` or `distance > 0` on a column holding a string is the first failing step |
| Incoherence.PointsStep | src/data_cleaning.py:492-494 | after the earlier lines pass, an absent `points_accumulated` or a string in it is the first failing step, and otherwise no step fails |
| Incoherence.SameKindsRead | src/data_cleaning.py:482-494 | with all five labels present, each compared pair of one kind, and `distance` and `points_accumulated` numeric, the review reads its columns, text columns included |
| Incoherence.MissingTotalBeforeTextBooked | src/data_cleaning.py:482 | a text `flights_booked` beside an absent `total_flights` gives the KeyError for `total_flights` |
| Incoherence.LabelsDistinct | src/data_cleaning.py:482-492 | the four report keys are distinct, so the report has four entries |
| Incoherence.ReviewFlightIncoherences | src/data_cleaning.py:478-500 | the error of the first failing step, as above; otherwise the report has exactly one entry per check, holding the number of rows failing it, which is at most the row count |

## Left out

- Reading the CSV files, the `merge` itself, `main` and every `print`: these are file I/O,
  console output, or work done inside pandas. The join plan stops at the chosen key,
  percentages and join type.
- `corregir_tipos_datos` (`astype` casting): dtype conversion is pandas' own behaviour.
  Numbers are exact `real` values throughout.
- Floating point and NaN arithmetic: values are exact reals, and NaN is `None`. A comparison
  with a missing value is false, as it is with NaN. `isin` treats missing as equal to missing.
- Unicode: `strip`, `lower` and `title` are modelled on ASCII only. Python's `str.isspace`
  is modelled by its ASCII members.
- Object-dtype detection in `limpiar_categoricas` (`columnas=None`): the column list is
  always a parameter.
- JoinPlanner.DetectKey: the script takes the first element of `list(set(...))`. Set order is
  unspecified, so the model promises only that some shared label is chosen.
- ColumnNames.NormalizeName: the docstring promises CamelCase splitting, but the code only
  lower-cases. The model follows the code, as `NormalizeKeepsCamelCaseJoined` shows.
- Incoherence.ReviewFlightIncoherences: the report dictionary is keyed by the check. `Label`
  gives each check's string key, and `LabelsDistinct` shows the four keys are distinct.
- Incoherence.FlightInputs: the script reads `total_flights` again in later checks. Those
  reads cannot fail once line 482 has succeeded, so the model looks the five labels up once
  each. `total_flights == 0` never raises, so it is not a step that can fail.
- Comparisons follow pandas 2 on the column kinds modelled here. Two columns of one kind
  compare cell by cell: numbers as numbers, strings by code point. Text compared with a
  number raises a TypeError: with the text on the left only on a row where both cells are
  present; with the numbers on the left as soon as the text column holds a string; and for
  `> 0` or `< 0` on a text column as soon as it holds a string. `== 0` on text is false.
  Other pandas versions, and object columns mixing strings with numbers, are not modelled.
- Exception types: a failed comparison of two columns is `NotComparable` naming both labels.
  A text column compared with 0, or averaged by `imputar_salary_por_grupos`, is `NotNumeric`.
  The model rejects every text column that `imputar_salary_por_grupos` would average,
  whatever the column holds. `.str` on a numeric column is `NotText`. Only which labels
  failed is modelled, not pandas' exception messages.
- Categorical.CleanCategoricals: the script writes into `df[col]` one column at a time. A
  label that appears twice in `columnas` is cleaned twice, which is the same as once
  (`CleanCategoryIdempotent`). The model checks each listed label against the input table.
- The `customer_status` column assignment in `main` (`apply` of `clasificar_estado_cliente`)
  is left out with `main`. `CustomerStatus` models the per-value function.
- Duplicate labels: `df[name]` is modelled as the first column with that label. pandas would
  return several columns.
