# Wildlife observation cleaner, modelled in Dafny

This project models the cleaning pass `DatasetCleaner.sistemazione` of a
small data-preparation program for wildlife observations. The pass reads
a table with columns such as "Animal name", "Animal type", "Country",
"Weight kg", "Body Length cm", "Gender", "Latitude", "Longitude" and
"Observation date". It then runs these steps, in order:

- it drops the columns that are empty in every row, and then "Animal name";
- it collapses misspelled animal types and country codes onto canonical labels;
- it fills missing genders with "not determined";
- it parses the observation dates;
- it takes absolute values of weight, body length and latitude;
- it fills missing animal types and countries with the column's mode;
- it fills missing numbers with the median of their (animal type, country) group;
- it caps weight and body length to Tukey's fences;
- it drops duplicate rows;
- it renames the columns to snake_case.

A table is a header plus rows of optional cells (`None` is pandas' NaN).
The header and its column positions are computed at run time, because
pruning decides which columns survive. Every step is a pure function.
A step that pandas would abort with an exception returns an `Err` instead:
a missing column, text in a numeric column, a column without a mode, or
a date the parser rejects. `Pipeline.Clean` chains the steps and stops at
the first failure.

Files, one module each:

- `tables.dfy` (`Tables`): the table datatype, column lookup, and the
  "only this column changed" and "no value lost" relations.
- `prune.dfy` (`Prune`): dropping all-missing columns and "Animal name".
- `substitute.dfy` (`Substitution`): the two fixed correction tables.
- `fill.dfy` (`CategoricalFill`): the constant fill of "Gender" and the mode fills.
- `dates.dfy` (`Dates`): date parsing, with the parser as a parameter.
- `signs.dfy` (`Signs`): absolute values.
- `stats.dfy` (`Stats`): sorting, the median, linear-interpolation quantiles, and the mode.
- `impute.dfy` (`GroupMedian`): group-median imputation.
- `outliers.dfy` (`Outliers`): Tukey fences and capping.
- `dedup.dfy` (`Dedup`): duplicate-row removal.
- `rename.dfy` (`Rename`): relabelling and its inverse.
- `pipeline.dfy` (`Pipeline`): the whole pass.

Two behaviours of the code are easy to misread:

- **Renaming.** pandas `rename(columns=...)` ignores keys the frame does
  not have, so `Rename.Relabel` never fails, even when an expected column
  is absent.
- **Capping twice.** Capping is idempotent only with fixed fences
  (`Outliers.CapColumnIdempotent`). The code recomputes the quartiles from
  the data it caps, so a second run can move values again. For example,
  the sample -1000, 0, 0, 0 gets fences -625 and 375, and after capping its
  lower fence is -390.625 (`Outliers.RecomputedFencesMove`).
- **Order of the mode fills.** The code visits the frame's columns in
  header order and fills "Animal type" and "Country" as it meets them.
  `CategoricalFill.FillCategorical` fills "Animal type" first. Each fill
  touches only its own column, so the result is the same.

## Model

| member | source | states |
|---|---|---|
| Prune.DropAllMissing | src/src.py:19 | The result is the selection, in order and with cells untouched, of exactly the columns that hold a value in some row; every remaining column has a value |
| Prune.DropColumn | src/src.py:22 | Fails with a missing-column error exactly when no column has that name; otherwise every column of that name is gone and every other column survives, in order, with its cells |
| Prune.PruneColumns | src/src.py:19-22 | Fails exactly when no "Animal name" column holds a value; otherwise the survivors are exactly the columns with a value not called "Animal name", in order, with their cells |
| Substitution.Substitute | src/src.py:25-48 | Fails only for an absent column; a cell that is exactly a key becomes the mapped label; every other cell (other text, numbers, missing) and every other column is kept |
| Substitution.SubstituteLeavesNoVariant | src/src.py:25-48 | When no target is itself a key, no cell of the rewritten column is a key any more |
| Substitution.SubstituteIdempotent | src/src.py:25-48 | When no target is itself a key, substituting twice equals substituting once |
| Substitution.MappingsCanonical | src/src.py:25-47 | Neither correction table maps a label onto another key |
| CategoricalFill.FillMissing | src/src.py:51 | Fails only for an absent column; afterwards the column has no missing cell, present values are unchanged, the missing ones hold the fill value, and other columns are unchanged |
| CategoricalFill.FillMissingIdempotent | src/src.py:51 | A second fill of the same column, with any value, changes nothing |
| Dates.ParseDates | src/src.py:54-56 | Fails for an absent column or when some present cell is rejected by the parser; otherwise missing stays missing and each present cell holds what the parser returns for its text |
| Signs.AbsColumn | src/src.py:59-65 | Fails exactly when the column is absent or holds text. On success only that column changes: missing stays missing and each number becomes a non-negative number of the same magnitude |
| Signs.AbsColumnIdempotent | src/src.py:59-65 | Taking absolute values twice equals taking them once |
| Signs.NormalizeSigns | src/src.py:59-65 | Fails exactly when weight, body length or latitude is absent or holds text. Otherwise, in each of the three columns, missing stays missing and every number becomes a non-negative number of the same magnitude. Every other column, longitude included, is unchanged |
| Stats.Sort | src/src.py:76-77 | The result is sorted and a permutation of the input |
| Stats.Median | src/src.py:76-77 | The median is the mean of the lower and the upper median of the sample. At least half of the sample is at most it and at least half is at least it. It lies between two sample values |
| Stats.LowerMedianOfSorted | src/src.py:77 | In a sorted permutation of a sample, the element at position (n-1)/2 is the lower median: the smallest value with at least half of the sample at most it |
| Stats.UpperMedianOfSorted | src/src.py:77 | In a sorted permutation of a sample, the element at position n/2 is the upper median: the largest value with at least half of the sample at least it |
| Stats.Quantile | src/src.py:83-84 | The interpolated quantile lies between the two order statistics it interpolates, hence within the sample's range |
| Stats.QuantileMonotone | src/src.py:83-85 | The quantile grows with the fraction, so the first quartile never exceeds the third and the interquartile range is non-negative |
| Stats.Mode | src/src.py:71 | The mode occurs in the values and no value occurs more often |
| Stats.ModeFirstOfMaximal | src/src.py:71 | Among values of maximal frequency the mode is the first to occur, so the choice is deterministic |
| CategoricalFill.ModeFill | src/src.py:69-71 | An absent column is skipped. A present column without any value has no mode and fails. Otherwise no cell is missing, present cells are kept, and filled cells hold a value of maximal frequency in the column |
| CategoricalFill.ModeFillUsesPresentValue | src/src.py:71 | All filled cells of a column hold one value that already occurred in that column |
| CategoricalFill.FillCategorical | src/src.py:67-71 | Fails exactly when "Animal type" or "Country" is present but holds no value. Otherwise each of them that is present keeps its present cells and has its missing cells filled with a value of maximal frequency. Every other column is unchanged and no value is lost |
| GroupMedian.GroupCells | src/src.py:76 | A cell is in a group's list exactly when some row with the group's keys holds it |
| GroupMedian.GroupCellsPerRow | src/src.py:76 | The group's list holds, in row order, one cell for each row of the group, so repeated values keep their multiplicity |
| Tables.NumbersCount | src/src.py:76-77 | Each number occurs among the numbers of a column exactly as often as a cell holding it occurs in the column |
| GroupMedian.GroupNumbersEmpty | src/src.py:76-77 | In a numeric column a group has no number exactly when every row of the group is missing that column |
| GroupMedian.GroupFill | src/src.py:76-78 | Present cells are kept; a missing cell stays missing exactly when its group has no value in the column; a filled cell holds the median of the group's numbers |
| GroupMedian.MedianFill | src/src.py:76-78 | Fails exactly when a key column or the column is absent, or the column holds text. On success only that column changes: present cells are kept, a cell stays missing exactly when its group has no value, and a filled cell holds the median of its group's numbers |
| GroupMedian.FilledWithinGroupRange | src/src.py:76-78 | A missing cell whose group has some value in the column is filled, and the imputed number lies between two numbers of its own group |
| GroupMedian.FillQuantitative | src/src.py:74-78 | Fails exactly when a key column is absent, or one of the four quantitative columns is absent or holds text. Otherwise each of the four is filled with its group medians, which are computed on the input: present cells are kept, a cell stays missing exactly when its group has no value, and a filled cell holds the group median. Every other column is unchanged |
| Outliers.TukeyFences | src/src.py:85-87 | The fences enclose the quartiles, stand at equal distances outside them, and span four interquartile ranges; so each is one and a half ranges outside its quartile |
| Outliers.SampleFences | src/src.py:83-87 | A non-empty sample has fences with the lower one not above the upper one; an empty sample (NaN quartiles) has none |
| Outliers.ColumnFences | src/src.py:83-87 | A column has fences exactly when some cell holds a number, and then the lower fence is not above the upper one |
| Outliers.ColumnFencesAroundQuartiles | src/src.py:83-87 | The fences of a column enclose the quartiles of its sorted numbers and span four interquartile ranges |
| Outliers.CapColumn | src/src.py:88-89 | Only the column changes. Missing stays missing, a number within the fences is kept, a number below is raised to the lower fence and one above is lowered to the upper fence |
| Outliers.CapValue | src/src.py:88-89 | The capped number lies within the fences, equals the input when that is inside, and equals the crossed fence otherwise |
| Outliers.CapValueMonotone | src/src.py:88-89 | Capping keeps the order of numbers |
| Outliers.CapColumnIdempotent | src/src.py:88-89 | Capping again to the same fences changes nothing |
| Outliers.CapOutliers | src/src.py:82-89 | Fails exactly when the column is absent or holds text. A column without numbers is unchanged. Otherwise only that column changes: missing stays missing and every number is capped to the column's own fences |
| Outliers.CapOutliersKeepsOrder | src/src.py:82-89 | Capping a present numeric column succeeds, and a number not larger than another is still not larger after capping |
| Outliers.RecomputedFencesMove | src/src.py:83-89 | On -1000, 0, 0, 0 the fences are -625 and 375; on the capped sample the lower fence becomes -390.625 |
| Outliers.CapAll | src/src.py:81-89 | Fails exactly when weight or body length is absent or holds text. Otherwise each of the two is capped to the fences of its own numbers in the input, missing stays missing, and every other column is unchanged |
| Dedup.Distinct | src/src.py:93 | The result has no duplicates and holds exactly the elements of the input |
| Dedup.DistinctKeepsFirstOrder | src/src.py:93 | Kept elements appear in the order of their first occurrence |
| Dedup.DistinctOfNoDuplicates | src/src.py:92-93 | A sequence without duplicates is returned as it is |
| Dedup.DistinctIdempotent | src/src.py:93 | Removing duplicates twice equals removing them once |
| Dedup.DistinctShorter | src/src.py:92-93 | The length drops exactly when some element repeats |
| Dedup.DropDuplicates | src/src.py:92-93 | The header is kept; no row repeats; every input row is kept, in first-occurrence order; rows disappear exactly when some row repeated |
| Dedup.DropDuplicatesIdempotent | src/src.py:92-93 | Dropping duplicate rows twice gives the same table as dropping them once |
| Rename.Relabel | src/src.py:96-106 | Rows are unchanged; a label that is a key gets its new name and every other label is kept |
| Rename.RestoreMapInverts | src/src.py:96-106 | The relabelling table has an inverse, so it is one-to-one |
| Rename.RelabelRoundTrip | src/src.py:96-106 | Relabelling and then applying the inverse gives the original table back, when no label of the table already is a new name |
| Rename.RelabelLeavesNoOldLabel | src/src.py:96-106 | After relabelling no column carries one of the old labels |
| Pipeline.RepairLabels | src/src.py:24-56 | Fails exactly when "Animal type", "Country", "Gender" or "Observation date" is absent, or the parser rejects a date of the input. On success no value is lost and "Gender" has no missing cell |
| Pipeline.RepairNumbers | src/src.py:58-89 | Fails when weight, body length or latitude is absent or holds text. On success the four quantitative columns were numeric, "Animal type" and "Country" have no missing cell, and no value is lost |
| Pipeline.RepairCells | src/src.py:19-89 | Fails when there is no "Animal name" column with a value. On success the row count is kept, no column is empty, "Animal name" is gone and "Gender" has no missing cell |
| Pipeline.Clean | src/src.py:14-108 | Fails when there is no "Animal name" column with a value. On success no row repeats, no row is added, no column is empty, and no column carries an old label or "Animal name" |

## Left out

- Loading the CSV file (`pd.read_csv`) and the `ModelloBase` base class are left out. The first is I/O; the second is not part of this model.
- The MySQL connection, table creation and batch insert, and the module-level script are left out. They are database side effects outside the cleaning pass.
- Dates.ParseDates: the day-first heuristics of `dateutil.parser.parse` and the later `pd.to_datetime` are a foreign library. The parser is a parameter that returns a value or `None`. A rejected date aborts the pass, as the parser's exception does.
- Floating point is modelled as exact `real`, and NaN as a missing cell. Rounding in quantiles and medians is therefore not modelled.
- Stats.Mode: pandas sorts tied modes and takes the smallest. The model takes the first one to occur. Both choices are deterministic.
- GroupMedian.MedianFill: pandas leaves a row whose group key is missing out of every group. The model treats a missing key as a group of its own. In the pass the keys are always filled by the mode fill before grouping, so the pass itself is unaffected.
- Column lookup uses the first column of a given name. Tables with repeated column names, which pandas would treat as a frame rather than a series, are not modelled beyond that. Dropping "Animal name" removes every column of that name, as pandas does.
- Pipeline.RepairLabels, Pipeline.RepairNumbers: they state the facts the later steps and the whole pass rely on. The per-column facts are stated by the steps they chain (`Signs.NormalizeSigns`, `CategoricalFill.FillCategorical`, `GroupMedian.FillQuantitative`, `Outliers.CapAll`).
- Pipeline.RepairNumbers: its failure condition covers the first step only. Later failures (a categorical column without a value, an absent key column, text in "Longitude") are stated by the steps themselves.
- CategoricalFill.FillCategorical: when both "Animal type" and "Country" have no value, the code reports the column that comes first in the header. The model always reports "Animal type".
- Numeric steps fail on any text in their column. pandas may coerce some mixed columns instead; the model does not reproduce that coercion.
