# Medicare provider feature pipeline, modelled in Dafny

The pipeline has three pandas scripts. Each reads the CSV file that the previous one wrote.

1. `clean_data.py` loads the raw Medicare "by provider" file.
   - It picks the identifier (NPI) column.
   - It keeps that column together with the context and billing columns the file has.
   - It coerces the billing columns to numbers.
   - It drops the rows that have no identifier.
2. `build_features.py` works on the cleaned file.
   - It checks that the six required columns are present.
   - It keeps providers with a positive beneficiary count and a positive service count.
   - It derives seven billing ratios.
   - It projects the result onto a fixed list of output columns.
3. `prep_provider_features.py` works on the feature file.
   - It turns infinities into missing values.
   - It imputes each numeric column with its median, or with 0 when the column has no value.
   - It encodes provider, specialty and state as dense integer category codes.
   - It writes a feature matrix keyed by provider code, and a provider lookup table with one row per code.

## How the model represents the pipeline

**Cells.** A cell is `Missing` (NaN/None), `Fin(real)`, `PosInf`, `NegInf` or `Text(string)`.
- Division follows IEEE 754, with NaN read as `Missing`. This is `Cells.Div`.
- Category values are sorted by a strict total order on cells, `Cells.Less`.

**Frames.** A DataFrame is a value `Tables.Table`:
- an ordered list of distinct column names;
- a map from each name to its column;
- a row count.

Row filters (`FilterRows`, through the increasing index list `Kept`), projections (`Project`, `PresentIn`) and column assignment (`Assigned`) are defined once, in `Tables`.

**In-place updates.** The scripts change their frame step by step in three places:
- the billing coercion loop;
- the seven ratio assignments;
- the imputation loop and the code columns.

The model writes these as methods on the class `Tables.Frame`. Its `Assign` method is `df[name] = col`. Each method is proved equal to a specification function over the list of columns it processes: `CoerceFrom`, `WithRatios` and `ImputeFrom`.

**Whole stages.** Each stage is a pure function, `CleanData.Clean`, `BuildFeatures.Build` and `PrepProviderFeatures.Prepare`.
- Each returns a `Result` whose error cases are the ones that make the script raise.
- A method `Run` executes each stage statement by statement and is proved equal to the function.
- The lemmas beside each function state what the stage promises.

Module `Pipeline` chains the three stages.

`df.replace` at prep_provider_features.py:36 is applied to the whole frame, so `ReplaceInf` clears infinities from every column, not only the feature columns.

## Model

| member | source | states |
|---|---|---|
| CleanData.IdColumn | clean_data.py:12-17 | None exactly when no column name contains "npi" once lower-cased; otherwise the first such name in column order (every earlier name is not id-like) |
| CleanData.FixedColumnsNotIdLike | clean_data.py:21-35 | none of the fixed context and billing names contains "npi", so the chosen identifier can never be one of them and the keep list never repeats a name |
| CleanData.KeptColumnsValid | clean_data.py:38 | the identifier plus the present fixed columns is a list of distinct names, all of them columns of the raw frame |
| CleanData.CoerceCell | clean_data.py:46 | `to_numeric(errors="coerce")` on one cell: a numeric cell is unchanged, text the parser accepts becomes that number, other text becomes Missing; the result is never text |
| CleanData.CoerceColumnIdempotent | clean_data.py:46 | coercing an already coerced column changes nothing |
| CleanData.CoerceFrom | clean_data.py:44-46 | the coercion loop keeps the column names and the row count |
| CleanData.CoerceFromColumns | clean_data.py:44-46 | after the loop, a listed column that is present holds its coerced cells and every other column is unchanged |
| CleanData.CoerceColumns | clean_data.py:44-46 | the in-place loop over the billing list leaves the frame equal to CoerceFrom of the frame before it |
| CleanData.Clean | clean_data.py:12-49 | a successful result is a well-formed frame |
| CleanData.Run | clean_data.py:12-49 | the script run statement by statement (select, project, coerce in place, drop rows) gives exactly Clean's result |
| CleanData.CleanFailsIffNoId | clean_data.py:15-16 | the stage fails, with NoIdColumn, exactly when no column name contains "npi" |
| CleanData.CleanColumns | clean_data.py:38-39 | the output columns are the identifier, then the present context and billing columns in the fixed list order, and no other column |
| CleanData.CleanOk | clean_data.py:38-49 | an Ok result is the coerced projection with the id-less rows dropped; the identifier column is not coerced, billing columns are coerced and the rest are copied |
| CleanData.CleanRows | clean_data.py:49 | the rows kept are exactly the raw rows whose identifier is present, in increasing original order; the row count can only shrink |
| CleanData.CleanCells | clean_data.py:44-49 | every output cell is the cell of its kept raw row, coerced in billing columns and copied in the others |
| CleanData.CleanIdNeverMissing | clean_data.py:49 | no output row has a missing identifier |
| BuildFeatures.RatiosValid | build_features.py:34-42 | the seven assignments each read two billing inputs and write a non-input column; each divides by Tot_Benes, Tot_Srvcs or Tot_Mdcr_Alowd_Amt |
| BuildFeatures.RatioTable | build_features.py:34-42 | the seven assignments write the seven distinct ratio names of the keep list, in script order |
| BuildFeatures.FirstAbsent | build_features.py:23-25 | None exactly when every listed column is present; otherwise the first listed column that is absent |
| BuildFeatures.CheckRequired | build_features.py:23-25 | the checking loop returns the first absent required column, and nothing exactly when all six are present |
| BuildFeatures.ExposureMask | build_features.py:29 | a row passes exactly when both Tot_Benes and Tot_Srvcs compare greater than 0 (NaN compares false, +inf true) |
| BuildFeatures.FilteredInputs | build_features.py:29 | after the required check and the filter, the five billing inputs are present and hold no text |
| BuildFeatures.AddRatio | build_features.py:34 | one ratio assignment keeps the inputs present and numeric and keeps the row count |
| BuildFeatures.WithRatios | build_features.py:34-42 | the seven assignments keep the inputs present and numeric and keep the row count |
| BuildFeatures.AssignRatio | build_features.py:34-42 | one assignment done on the frame in place takes it from one frame of the trace to the next |
| BuildFeatures.DeriveRatios | build_features.py:34-42 | the seven in-place assignments leave the frame equal to WithRatios of the frame before them |
| BuildFeatures.AddRatiosInputs | build_features.py:34-42 | the assignments never change an input column |
| BuildFeatures.AddRatiosName | build_features.py:34-42 | after the assignments, a name is a column exactly when it was one before or an assignment wrote it |
| BuildFeatures.AddRatiosUntouched | build_features.py:34-42 | every column that no assignment writes is unchanged |
| BuildFeatures.AddRatiosWritten | build_features.py:34-42 | when the assignments write distinct names, the column written by each one is the element-wise quotient of the original input columns |
| BuildFeatures.WithRatiosColumns | build_features.py:34-42 | each of the seven ratio columns is the quotient of its own original columns; every other column and the row count are unchanged |
| BuildFeatures.WithRatiosNames | build_features.py:34-42 | the assignments add exactly the seven ratio names to the column names |
| BuildFeatures.Output | build_features.py:65-66 | the output is the keep list restricted to the present columns, in keep-list order, with every column copied unchanged |
| BuildFeatures.Build | build_features.py:14-66 | a successful result is a well-formed frame |
| BuildFeatures.Run | build_features.py:14-66 | the script run statement by statement (check loop, filter, in-place ratios, projection) gives exactly Build's result |
| BuildFeatures.BuildFailsIffMissingRequired | build_features.py:14-25 | the stage fails with MissingColumn exactly when a required column is absent, and it names the first absent one in the required order |
| BuildFeatures.BuildErrors | build_features.py:14-42 | the stage succeeds exactly when the required columns are present, Tot_Benes and Tot_Srvcs hold no text, and the three amounts hold no text on the rows the filter keeps; otherwise it fails with the first missing column, or else with the first of those columns that holds text |
| BuildFeatures.BuildOk | build_features.py:23-66 | an Ok result means the required columns were present and the ratio inputs numeric; it is the projection of the filtered frame with the ratios |
| BuildFeatures.BuildHeight | build_features.py:29 | the output row count is the number of rows that pass the filter |
| BuildFeatures.BuildRows | build_features.py:27-29 | the output rows are exactly the input rows with positive Tot_Benes and Tot_Srvcs, in increasing input order; zero or Missing in either drops the row |
| BuildFeatures.BuildCells | build_features.py:29-42 | each output row comes from a passing input row: cells that are not ratios are copied, and each ratio cell divides that row's own numerator by its own denominator |
| BuildFeatures.BuildRatiosNumeric | build_features.py:34-42 | the seven ratio columns are always in the output and hold no text |
| BuildFeatures.BuildFiniteRatio | build_features.py:34-42 | the six per-unit ratios divide by a positive count; finite cells give the exact quotient; a finite submitted amount over a zero allowed amount gives a non-finite cell |
| BuildFeatures.BuildColumns | build_features.py:45-66 | the output names are the keep list restricted to the input's columns plus the seven ratios, in keep-list order |
| Cells.DivByPositive | build_features.py:34-40 | a finite amount divided by a positive finite count is the ordinary quotient |
| Cells.DivByZeroNotFinite | build_features.py:42 | a finite amount divided by zero is +inf, -inf or NaN (Missing), never a finite number |
| Cells.LessStrictTotal | prep_provider_features.py:55 | the category sort order is irreflexive, transitive, asymmetric and total |
| Tables.Kept | build_features.py:29 | the kept row indices all have a true mask entry, strictly increase, and include every row whose mask entry is true |
| Tables.KeptMembers | clean_data.py:49 | a row is kept exactly when its mask entry is true |
| Tables.First | clean_data.py:17 | `candidates[0]`: None exactly when nothing qualifies; otherwise the earliest element that qualifies |
| Tables.PresentIn | build_features.py:65 | `[c for c in cs if c in names]` holds exactly the listed names that are present, without repeats when the list has none |
| Tables.PresentInOrder | prep_provider_features.py:32 | the filtered list is the original list with the absent names struck out, order preserved |
| Tables.NonNumericIn | build_features.py:34-42 | None exactly when every listed column that is present is free of text; otherwise the first listed column that holds text |
| Tables.Project | clean_data.py:39 | `df[cs]` has exactly the listed columns, in the listed order, with cells and row count unchanged |
| Tables.FilterRows | build_features.py:29 | `df[mask]` keeps the same columns and, in each of them, the cells of the kept rows in their original order |
| Tables.Assigned | build_features.py:34 | `df[name] = col` replaces a column in place or appends a new one at the end, and leaves every other column unchanged |
| Tables.Constant | prep_provider_features.py:46 | a scalar assigned to a column fills every row with that value |
| Tables.Frame.constructor | clean_data.py:39 | a new frame starts with exactly the given contents |
| Tables.Frame.Assign | clean_data.py:46 | assigning a column in place leaves the frame equal to Assigned of its previous contents |
| Medians.Insert | prep_provider_features.py:42 | inserting into sorted values keeps them sorted and adds exactly one copy of the new value |
| Medians.Sort | prep_provider_features.py:42 | the values in ascending order: sorted, and a permutation of the input |
| Medians.MedianSplitsInHalf | prep_provider_features.py:42 | at least half of the values are at most the median, and at least half are at least the median |
| Medians.MedianWithinRange | prep_provider_features.py:42 | some value is at most the median and some value is at least the median |
| Medians.SortedUnique | prep_provider_features.py:42 | two sorted sequences with the same values, counted with multiplicity, are equal |
| Medians.MedianPermutation | prep_provider_features.py:42 | the median depends only on the values and how often each occurs, not on their row order |
| Medians.MedianExample | prep_provider_features.py:42 | the median of 1 and 3 is 2 (the mean of the two middle values) |
| Categories.RanksDense | prep_provider_features.py:55 | the ranks of the distinct categories are exactly 0 .. k - 1 |
| Categories.CodesRange | prep_provider_features.py:55 | a code is -1 exactly for a missing cell, and otherwise lies in [0, k) for k distinct non-missing values |
| Categories.CodesOrder | prep_provider_features.py:55 | equal values get equal codes, different values get different codes, and codes are ordered as the values sort |
| Categories.CodesDense | prep_provider_features.py:55 | the codes of the non-missing rows are exactly 0 .. k - 1 |
| PrepProviderFeatures.FixedNames | prep_provider_features.py:15-30 | the feature and lookup lists have no repeats, and no identifier or code column is a feature column |
| PrepProviderFeatures.NumericCols | prep_provider_features.py:15-32 | the feature columns present are exactly the fixed names the frame has, without repeats and with no identifier or code column among them |
| PrepProviderFeatures.ReplaceInfColumn | prep_provider_features.py:36 | no infinity is left: each infinite cell becomes Missing and every other cell is unchanged |
| PrepProviderFeatures.ReplaceInf | prep_provider_features.py:36 | every column of the frame is cleared of infinities; names and row count are unchanged |
| PrepProviderFeatures.ReplaceInfKeepsText | prep_provider_features.py:36 | replacing infinities neither adds nor removes text, so the first text column is the same before and after |
| PrepProviderFeatures.Values | prep_provider_features.py:42 | the values `median()` looks at are the finite numbers of the column, each as many times as the column holds it; a column without one gives none |
| PrepProviderFeatures.FillValueIsMedian | prep_provider_features.py:41-43 | the fill value is the median of any list holding the column's finite values with their multiplicities, or 0 when there are none |
| PrepProviderFeatures.ImputeColumnFill | prep_provider_features.py:41-43 | a numeric column without infinities is imputed by filling its missing cells with the fill value |
| PrepProviderFeatures.ValuesReplaceInf | prep_provider_features.py:36-42 | replacing infinities does not change the finite values the median is taken of |
| PrepProviderFeatures.Fill | prep_provider_features.py:43 | `fillna(m)` puts m in every missing cell and leaves every other cell alone |
| PrepProviderFeatures.ImputeColumn | prep_provider_features.py:40-46 | fails exactly on a column holding text; otherwise every cell is finite, missing cells get the fill value (the median, or 0 for an all-missing column) and other cells are kept |
| PrepProviderFeatures.ImputeColumnCases | prep_provider_features.py:40-46 | the script's three branches: all missing gives zeros; with a value present, text makes it fail; otherwise the median fills the gaps |
| PrepProviderFeatures.ImputeExampleMedian | prep_provider_features.py:40-43 | [1, missing, 3] becomes [1, 2, 3] |
| PrepProviderFeatures.ImputeExampleEmpty | prep_provider_features.py:44-46 | [missing, missing] becomes [0, 0] |
| PrepProviderFeatures.ImputeExampleText | prep_provider_features.py:42 | a column with a text cell cannot be imputed |
| PrepProviderFeatures.ImputeFrom | prep_provider_features.py:40-46 | a successful imputation keeps the names and the row count and leaves no infinity |
| PrepProviderFeatures.ImputeFromFails | prep_provider_features.py:40-46 | imputing a list fails exactly when one of its columns holds text, and it names the first such column |
| PrepProviderFeatures.ImputeFromColumns | prep_provider_features.py:40-46 | after imputing distinct columns, each listed column is imputed from its own cells and every other column is untouched |
| PrepProviderFeatures.ImputeOne | prep_provider_features.py:41-46 | the script's tests for one column (`notna().any()`, then `median()`) give ImputeColumn's result |
| PrepProviderFeatures.ImputeNumeric | prep_provider_features.py:40-46 | the in-place loop leaves the frame equal to ImputeFrom's result, or stops with ImputeFrom's error |
| PrepProviderFeatures.CodesOrSentinel | prep_provider_features.py:57-65 | the category codes of the column when the frame has it, and -1 in every row when it does not |
| PrepProviderFeatures.EncodeColumns | prep_provider_features.py:55-65 | encoding adds prov_id, spec_id and state_id, computed from the frame before encoding, and leaves every other column unchanged |
| PrepProviderFeatures.Features | prep_provider_features.py:76-77 | the feature matrix is prov_id followed by the feature columns, with the frame's row count and cells |
| PrepProviderFeatures.Lookup | prep_provider_features.py:82-91 | the lookup table has the present lookup columns, in the fixed order |
| PrepProviderFeatures.Run | prep_provider_features.py:32-91 | the script run statement by statement on one frame updated in place gives exactly Prepare's result |
| PrepProviderFeatures.PrepareOk | prep_provider_features.py:32-91 | an Ok result means imputation succeeded, the provider column was there, and there were rows and feature columns; the outputs come from the encoded frame |
| PrepProviderFeatures.PrepareErrors | prep_provider_features.py:40-73 | the stage fails exactly in these cases, in this order: a feature column with text, no provider column, no rows, no feature column; each case gives its own error |
| PrepProviderFeatures.PrepareFeatureCells | prep_provider_features.py:36-77 | the feature matrix keeps the input row count; every feature cell is finite, equal to the input cell when that was finite and to the column's fill value otherwise |
| PrepProviderFeatures.PrepareProviderColumn | prep_provider_features.py:55-77 | the matrix's prov_id column is the category codes of the provider column, row for row |
| PrepProviderFeatures.PrepareProviderCodes | prep_provider_features.py:55 | two rows have equal prov_id exactly when they have the same provider; codes follow the provider order and lie in [0, k) |
| PrepProviderFeatures.PrepareProviderCodesDense | prep_provider_features.py:55 | the provider codes used are exactly 0 .. k - 1 for k distinct providers |
| PrepProviderFeatures.LookupRows | prep_provider_features.py:90-91 | the lookup rows are the first occurrence of each prov_id, in row order; each code appears once and every code of the frame appears |
| PrepProviderFeatures.PrepareLookupColumns | prep_provider_features.py:82-90 | the lookup table always has the provider, prov_id, spec_id and state_id, plus the specialty and state columns when the input has them, and nothing else |
| PrepProviderFeatures.PrepareLookup | prep_provider_features.py:91 | the lookup table has one row per provider code, and exactly the codes of the feature matrix |
| PrepProviderFeatures.PrepareLookupSentinels | prep_provider_features.py:57-65 | when the specialty or state column is absent, its code is -1 in every lookup row |
| Pipeline.FeatureColumnsOrigin | prep_provider_features.py:15-30 | every stage-3 feature column is a stage-1 billing column or a stage-2 ratio column, and stages 2 and 3 use the same provider column, `Rndrng_NPI` |
| Pipeline.BillingCellNumeric | clean_data.py:44-46 | a billing cell of the cleaned file went through the coercion, so it holds no text |
| Pipeline.Stage2CellNumeric | build_features.py:34-66 | every feature-column cell of the stage-2 output is numeric |
| Pipeline.BillingColumnNumeric | clean_data.py:44-46 | every billing column of the cleaned file holds no text |
| Pipeline.CleanThenBuild | build_features.py:14-42 | on the file stage 1 writes, stage 2 succeeds exactly when the required columns are present, and can fail only with MissingColumn |
| Pipeline.BuildInputsNumeric | build_features.py:29-42 | on the file stage 1 writes, the five amounts stage 2 reads hold no text, before and after the row filter |
| Pipeline.RequiredAfterClean | clean_data.py:12-39 | the required columns are in the stage-1 output exactly when the chosen identifier is Rndrng_NPI and the raw file has the five billing inputs |
| Pipeline.BuiltThenPrepare | prep_provider_features.py:40-73 | on the files the first two stages write, the third stage succeeds exactly when there is at least one row, and fails with NoSamples otherwise |
| Pipeline.StagesCompose | build_features.py:14-29 | for any raw file stage 1 accepts: stage 2 succeeds exactly when stage 1 chose Rndrng_NPI and the raw file has the five billing inputs; then stage 3 succeeds exactly when there is at least one row, and fails with NoSamples otherwise |

## Left out

- Reading and writing CSV files, the hard-coded paths and every `print`: each stage starts from a table and returns tables.
- The `print` at prep_provider_features.py:67-69 indexes the specialty and state columns unconditionally, so the real script raises KeyError when either is absent. The model follows the explicit `-1` fallback at prep_provider_features.py:57-65 and ignores the diagnostic print.
- The standardisation at prep_provider_features.py:72-73, a StandardScaler library call on floating point: the feature matrix carries the imputed, unscaled values. The scaler's own failures, on zero rows and on zero columns, are modelled as NoSamples and NoFeatures.
- The number grammar of `pd.to_numeric`: it is the parameter `parse`, which maps a text cell to an optional number.
- Type inference when a CSV file is read: a column holds whatever cells the input table gives it. At each arithmetic step, a column holding text stands for an object column on which pandas raises.
- `CleanData.Lower` lower-cases only ASCII letters. Python's `str.lower` also folds non-ASCII letters.
- Float rounding and signed zero: values are exact reals, and a zero divisor counts as +0.
- `Cells.Less` sorts the categories of a column that mixes numbers and text with the numbers first. The model does not cover category values that pandas cannot order at all, because every cell here is a number, an infinity or text.
- `.copy()` calls and pandas' categorical storage: only the resulting values are modelled.
- BuildFeatures.DeriveRatios: the seven assignment statements of build_features.py:34-42 are a loop over the table `RATIOS` of (name, numerator, denominator) triples, run in the script's order. Each step is the same `df[name] = df[num] / df[den]`.
