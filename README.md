# ExcelTableTools, modelled in Dafny

ExcelTableTools is a Tkinter desktop editor for Excel and CSV tables. The
user loads a file, picks a column and an operation, and the operation
rewrites the table. Some operations work on each cell of the column:
masking, trimming, case change, character removal, find and replace,
filling missing values and validation. Others change the table's shape:
splitting by delimiter or by surname, concatenating and merging columns,
renaming, marking and removing duplicates, distinct-group encoding and the
numeric column operations. Every operation returns the new table together
with a status (success, warning, error, or info in the window) and a
message. The window keeps an undo and a redo stack of tables. A preview
applies an operation to a copy of a sample and highlights the cells it
changed. A deferred-operation manager queues operations recorded on a
preview of a large file, replays them on the whole file when it is saved,
and reports progress or stops when cancelled.

The repository holds two generations of the program:

- `src/`: the newer application (`src/main.py`) with its `src/operations`
  package. Most of its per-cell operations leave a value alone when its
  text equals the column name, which guards a header row.
- The root directory: the older single-file window (`main.py`) and the
  older `operations` package, without that guard.

Each source file is modelled by one module. `Trimming`, `Masking`,
`RemoveChars` and the other names without a prefix model `src/operations`.
The `Legacy…` modules model the root `operations` package and `main.py`.
`operations/splitting.py` and `operations/duplicates.py` are identical to
their `src` copies, so `Splitting` and `Duplicates` model both. The
functions in `main.py` that repeat a package function reuse its model:

- `mask_data` is `LegacyMasking`;
- `split_surname` is `Splitting`;
- `get_operation_key` is `App.FirstKey`.

Shared modules:

- `PyStr`: the Python string operations the source relies on, as
  functions. These are `strip`, `split()`, `split(sep)` with and without a
  limit, `join`, `find`, `replace` and filtering. Their properties are
  proved once, here.
- `Cells`: a cell is missing, a string, an integer, a float (with its
  `str` text), a boolean, or the `(value, flag)` tuple that the newer
  removal and find/replace functions return. `Str` is Python's `str` of a
  cell; inside a tuple, text is written with `repr`'s quote choice and
  escapes.
- `Tables`: a table is its column names and one cell sequence per column.
  A `Frame` adds the highlighted-rows map the previews attach to a frame.
  The mutable `DataFrame` class is used where the source changes a frame
  in place.
- `ColumnNames`: the counter loop that makes a column name unique.
- `OperationRegistry`: the preview dispatchers import `operations.*`, and
  which copy of the package that resolves to depends on how the program was
  started. The dispatchers therefore take the per-value functions as a
  parameter. `SrcRegistry` is that parameter filled with the `src` copies.

The window classes are Dafny classes whose fields are the state the source
updates: the current table, the two stacks, the button states and the
column chooser. Loops in the source are methods with loop invariants,
proved against the functions that specify them:

- the unique-name loop;
- the operation-key loop;
- the part-name loop of the older split;
- the replay in `simulate_operations`;
- the operation loop of `save_with_operations`.

## Model

| member | source | states |
|---|---|---|
| Cells.SafeStrCases | src/operations/concatenate.py:4-8 | `_safe_str` writes an integral float as the integer it holds and renders every other value (fractional floats included) with `str` |
| Cells.SafeStrIntegralHasNoPoint | src/operations/concatenate.py:5-7 | an integral float is rendered without a decimal point |
| Cells.NumCell | src/operations/numeric_operations.py:72 | a numeric result cell is NaN exactly when there is no number, and otherwise coerces back to that number |
| Concatenate.MissingColumns | src/operations/concatenate.py:12 | the missing list holds exactly the selected names absent from the table, and is empty exactly when every selected column exists |
| Concatenate.ConcatenateWithSpec | src/operations/concatenate.py:10-20 | a missing selected column gives an error naming all missing ones and the table unchanged; otherwise only the new column is added or replaced, and its cell i joins the rendered values of row i in selection order |
| Concatenate.ConcatenateRoundTrip | src/operations/concatenate.py:18 | with a one-character separator that occurs in no rendered value, splitting a new cell on it returns the row's rendered values |
| LegacyConcatenate.RenderingDiffers | operations/concatenate.py:4-16 | the older copy (rendering with `astype(str)`) agrees with the newer one on every table that holds no integral float |
| LegacyConcatenate.RenderingExample | operations/concatenate.py:12 | on a float 5.0 the older copy writes `5.0` and the newer one writes `5` |
| CaseChange.ChangeCaseSpec | src/operations/case_change.py:3-15 | the header guard comes first; then `upper`, `lower` and `title` apply their case map to `str(data)`, and any other case type returns `str(data)` |
| CaseChange.ChangeCaseIdempotent | src/operations/case_change.py:5-15 | an unguarded value always comes back as text under the chosen case map, and a second conversion changes nothing when that map is idempotent on the value |
| FillMissing.FillMissingSpec | src/operations/fill_missing.py:5-23 | header-like and present values stay; NaN, empty and whitespace-only values become the fill value, written as an integer when `float()` reads it as an integral number |
| FillMissing.FillMissingIdempotent | src/operations/fill_missing.py:12-23 | filling twice equals filling once when the rendered fill value is not blank |
| LegacyFillMissing.LegacyFillMissingSpec | operations/fill_missing.py:5-10 | NaN, empty and whitespace-only values become the fill value as given; every other value stays |
| LegacyFillMissing.LegacyFillMissingIdempotent | operations/fill_missing.py:8-10 | filling twice equals filling once when the fill value is neither missing nor blank |
| Duplicates.DuplicatedAll | src/operations/duplicates.py:11 | row i is marked exactly when some other row holds an equal value (`keep=False`) |
| Duplicates.MarkDuplicatesSpec | src/operations/duplicates.py:4-13 | a missing column gives an error and the table unchanged; otherwise the marks go into the new column (appended, or replacing one of that name), row i is marked exactly when its value occurs in another row, and no other column changes; operations/duplicates.py is the same code |
| Duplicates.FirstOccurrencesSpec | src/operations/duplicates.py:21 | the kept rows are in increasing order, and row i is kept exactly when its value does not occur in an earlier row (`keep='first'`) |
| Duplicates.KeptDistinct | src/operations/duplicates.py:21 | the values at the kept rows are pairwise different |
| Duplicates.KeptCovers | src/operations/duplicates.py:21 | every value of the column is the value of some kept row |
| Duplicates.KeptCount | src/operations/duplicates.py:21-22 | exactly one row is kept per distinct value |
| Duplicates.RemoveDuplicatesSpec | src/operations/duplicates.py:15-24 | a missing column gives an error; otherwise the result keeps the column names, holds the input's rows at increasing kept indices, one per distinct value, with pairwise different values in the column, and reports the number of rows dropped |
| Duplicates.FirstOccurrencesOfDistinct | src/operations/duplicates.py:21 | a column of pairwise different values keeps every row |
| Duplicates.RemoveDuplicatesIdempotent | src/operations/duplicates.py:15-24 | removing duplicates from the result changes nothing |
| Duplicates.DroppedAreMarked | src/operations/duplicates.py:11-21 | every row that removal drops is one that marking marks |
| Masking.MaskDefault | src/operations/masking.py:25-29 | a value longer than 4 keeps its first and last two characters with stars between; one of 2 to 4 keeps its first and last character; a single character is doubled (Python's `s[:1] + s[-1:]`); the empty value stays empty |
| Masking.MaskDefaultIdempotent | src/operations/masking.py:25-29 | default masking of a masked value changes nothing |
| Masking.EmailGroupsSpec | src/operations/masking.py:15-17 | `^([^@]+)(@.+)$` matches with groups (u, d) exactly when u is non-empty and `@`-free and d is `@` followed by at least one character and no line break, and the value is u then d, optionally followed by one newline (`$`) |
| Masking.MaskEmailModeSpec | src/operations/masking.py:14-23 | a matching value keeps at most two characters of its user part, then `***` and its `@` part, and the result matches the pattern again with that `@` part; a value that does not match is returned as it is |
| Masking.MaskDataCases | src/operations/masking.py:4-31 | the header guard comes first; then `email` and `default` apply their mask to `str(data)` and any other mode returns `str(data)` |
| Masking.MaskDataDefaultIdempotent | src/operations/masking.py:4-31 | default-mode masking of cells is idempotent, header guard included |
| Masking.MaskEmailAbsent | src/operations/masking.py:49-51 | a value without `@` is returned as `str(data)` |
| Masking.MaskEmailSpec | src/operations/masking.py:38-48 | with i the first `@`, the local part is the text before it, the domain is the longest `@`-free text after it, and the result is `***` (local part of at most 2) or its first two characters then `***`, then `@` and the domain |
| Masking.MaskWord | src/operations/masking.py:59-63 | a word of at most two characters stays; a longer one keeps its first two characters and its length, with stars after |
| Masking.MaskWordsTextWords | src/operations/masking.py:58-64 | the masked text has one word per word of `str(data)`, each the masked word |
| Masking.MaskWordsTextIdempotent | src/operations/masking.py:58-64 | masking words twice equals masking them once |
| Masking.MaskWordsIdempotent | src/operations/masking.py:53-64 | `mask_words` on cells is idempotent, header guard included |
| LegacyMasking.LegacyMaskData | operations/masking.py:3-9 | a value of up to 4 characters stays; a longer one keeps its length and its first and last two characters, with stars between |
| LegacyMasking.LegacyMaskDataIdempotent | operations/masking.py:3-9 | masking the masked text changes nothing |
| RemoveChars.RemoveListed | src/operations/remove_chars.py:13-15 | the loop that removes each listed character in turn with `replace(char, '')` leaves exactly the characters not listed, in order |
| RemoveChars.RemoveChars | src/operations/remove_chars.py:4-33 | the method with its loop returns the value and change flag of the functional model |
| RemoveChars.KeptSpec | src/operations/remove_chars.py:12-30 | each known mode keeps exactly the characters passing its test (not listed; `[0-9.-]`; `isalpha` or `isspace`), each as often as it occurs and in order |
| RemoveChars.RemoveCharsSpec | src/operations/remove_chars.py:4-33 | a header-like value comes back flagged unchanged; any other result is a subsequence of `str(data)` whose flag says whether it differs, and an unknown mode returns `str(data)` unchanged |
| RemoveChars.RemoveCharsIdempotent | src/operations/remove_chars.py:4-33 | removing again with the same settings changes nothing and is flagged unchanged |
| LegacyRemoveChars.LegacyRemove | operations/remove_chars.py:4-18 | the method with its loop returns the functional model's result |
| LegacyRemoveChars.LegacyKeptSpec | operations/remove_chars.py:7-16 | each known mode keeps exactly the characters passing its test (not listed; `[0-9.-]`; `\w` or `\s`), each as often as it occurs and in order |
| LegacyRemoveChars.LegacyKeptIdempotent | operations/remove_chars.py:4-18 | every mode gives a subsequence of `str(data)`, an unknown mode all of it, and a second application changes nothing |
| FindReplace.FindReplaceSpec | src/operations/find_replace.py:3-11 | a header-like value comes back flagged unchanged; otherwise the value is `str(data)` split on the find text and joined with the replacement, flagged exactly when it differs |
| FindReplace.FindReplaceNoChange | src/operations/find_replace.py:8-11 | when the find text does not occur, or equals the replacement, the result is `(str(data), False)` |
| LegacyFindReplace.LegacyFindReplaceSpec | operations/find_replace.py:3-7 | the result is `str(data)` split on the find text and joined with the replacement, and is `str(data)` itself when the find text is absent or equals the replacement |
| LegacyFindReplace.LegacyFindReplaceLength | operations/find_replace.py:7 | replacing k occurrences changes the length by k times the difference of the two texts' lengths |
| Trimming.TrimSpacesSpec | src/operations/trimming.py:3-7 | a header-like value comes back as it is; any other value becomes a middle part of `str(data)` that neither starts nor ends with whitespace, and everything cut from either end is whitespace |
| Trimming.TrimSpacesIdempotent | src/operations/trimming.py:3-7 | trimming twice equals trimming once |
| ColumnNames.UniqueNameSpec | src/main.py:165-172 | the chosen name is free; it is the base when the base is free, and otherwise `base_k` for the least k >= 1 whose name is free |
| ColumnNames.LeastFreeIsLeast | src/main.py:169-171 | the counter stops at the first free suffix and at no other |
| ColumnNames.TakenBound | src/main.py:169-171 | the counter loop ends: the candidates `base_1 .. base_n` are pairwise different, so n taken candidates need n taken names |
| ColumnNames.FreshName | src/main.py:165-172 | the counter loop returns the name `UniqueName` describes, which is not among the existing names |
| Splitting.SplitSurnameSpec | src/operations/splitting.py:4-14 | with two or more words the last word is the surname and the others joined by single spaces the name, so that the words are kept in order; otherwise the stripped value is the name and the surname is empty; operations/splitting.py is the same code |
| Splitting.WordsStrip | src/operations/splitting.py:6-7 | stripping before `split()` changes no word |
| Splitting.ApplySplitSurname | src/operations/splitting.py:16-38 | the method with its naming loop returns the reply the functional model describes |
| Splitting.SurnameReplySpec | src/operations/splitting.py:16-38 | on a frame with distinct column names the split inserts one new name, `{col}_Surname` or the first free `{col}_Surname_{k}`, right after `col`; `col` holds the name parts, the new column the surnames, the names stay distinct and every other column keeps its cells and order |
| Splitting.MaxPieces | src/operations/splitting.py:50 | the maximum is at least the piece count of every row and equals that of some row |
| Splitting.PartNamesForSpec | src/operations/splitting.py:51-62 | the chosen part names are pairwise different and none is an existing column name |
| Splitting.PartNames | src/operations/splitting.py:54-62 | the naming loop returns the names the functional model describes |
| Splitting.PartColumnNotTruncated | src/operations/splitting.py:64 | with `n = max_splits - 1` no row is cut short: part p holds piece p of the full split, or `None` where the row has fewer pieces |
| Splitting.PartColumnsSpec | src/operations/splitting.py:64-71 | part column p at row i holds piece p of the row's value split on the delimiter (or `None`, which `str` writes as "None", in a row with fewer pieces), the pieces joined with the delimiter give the value back, and each row has between 1 and `max_splits` pieces |
| Splitting.ApplySplitByDelimiter | src/operations/splitting.py:40-80 | the method with its naming loop returns the reply the functional model describes; a missing column is an error and no row containing the delimiter a warning, both with the input frame |
| Splitting.DelimiterReplySpec | src/operations/splitting.py:40-80 | on a frame with distinct column names a successful split keeps the rows, puts m >= 1 new part names where `col` was, none of them an existing name, and leaves all names distinct |
| DistinctGroup.ValueMapping | src/operations/distinct_group.py:35 | the mapping has exactly the distinct non-missing values as keys |
| DistinctGroup.CodeBounds | src/operations/distinct_group.py:29-32 | a non-missing value gets a code from 1 to the number of distinct values |
| DistinctGroup.CodeMonotone | src/operations/distinct_group.py:29 | a value sorted before another gets the smaller code (`sort=True`) |
| DistinctGroup.CodesSpec | src/operations/distinct_group.py:29-41 | rows get equal codes exactly when their values are equal, the codes follow the sort order, a missing value gets 0 (factorize's -1 plus 1) and only it, and the mapping has one entry per distinct value |
| DistinctGroup.ApplyDistinctGroupEncoding | src/operations/distinct_group.py:5-44 | a missing column raises `ValueError` and leaves the frame alone; otherwise the codes are written into the caller's frame under `{column}_distinct_group` or its first free `_{k}` variant, and the metadata holds that name, the mapping and its size |
| DistinctGroup.EncodedSpec | src/operations/distinct_group.py:20-32 | the encoded table gains exactly one column, appended under a name not used before, holding the codes; nothing else changes |
| DistinctGroup.PreviewDistinctGroup | src/operations/distinct_group.py:46-71 | the caller's frame is never changed; on a missing column the same frame comes back with `False` and the error text; otherwise a new frame holds the encoding of the first `preview_rows` rows, with the message naming the column, the count and the mapping |
| NumericOperations.BinOp | src/operations/numeric_operations.py:54-73 | the four operators give a finite result except division by zero, which gives none |
| NumericOperations.Updated | src/operations/numeric_operations.py:18-29 | skipped cells stay; every other cell becomes the function's number for its coerced value, or missing |
| NumericOperations.UpdateSpec | src/operations/numeric_operations.py:12-29 | writing the updated column back changes only that column, leaving skipped cells as they were and making each other cell missing or the computed number |
| NumericOperations.RoundNumbersSpec | src/operations/numeric_operations.py:7-30 | a missing column is an error; a column of header-like cells only (or no rows) succeeds unchanged with the skipped note; one with no number outside the header-like cells is a warning with the input; otherwise every other cell is rounded or becomes missing, and nothing else changes |
| NumericOperations.CalculateConstantSpec | src/operations/numeric_operations.py:32-83 | the same outcomes as rounding, and in addition an unknown operator and division by zero are errors with the input table, both checked only after the warning |
| NumericOperations.HeadersUntouched | src/operations/numeric_operations.py:15-18 | a header-like cell is never changed by rounding or by the constant calculation, whatever the outcome |
| NumericOperations.Combined | src/operations/numeric_operations.py:116-130 | row i holds `a op b` for the row's two numbers, and is missing when either is missing or when dividing by zero (inf replaced by NaN) |
| NumericOperations.RoundedTo | src/operations/numeric_operations.py:135-136 | the result is rounded only when some decimals were found and some result is a number |
| NumericOperations.CreateCalculatedColumnSpec | src/operations/numeric_operations.py:85-139 | checks in order: first column missing, second missing, name taken, first not numeric, second not numeric, unknown operator; on success exactly one column is appended, holding for each row the result for that row's two numbers, rounded when the operands have decimals, and missing when either number is missing or the divisor is zero |
| NumericOperations.DivisionByZeroCellIsMissing | src/operations/numeric_operations.py:123-130 | dividing by a zero cell gives a missing cell, not an error |
| LegacyNumericOperations.RoundNumbersSpec | operations/numeric_operations.py:7-19 | a missing column is an error; a column with no number at all is a warning with the input; otherwise every cell of the column, header-like or not, becomes its rounded number or missing, and nothing else changes |
| LegacyNumericOperations.CalculateConstantSpec | operations/numeric_operations.py:21-45 | the same outcomes, plus an error for an unknown operator and one for division by zero, both checked after the warning |
| LegacyNumericOperations.CreateCalculatedColumnSpec | operations/numeric_operations.py:47-85 | on success one column is appended holding, for each row, the unrounded result for the row's two numbers, or missing |
| LegacyNumericOperations.AgreesWithoutHeaders | operations/numeric_operations.py:7-45 | when no cell is header-like and the column holds a number, the older rounding and constant calculation give exactly the newer ones' results |
| LegacyNumericOperations.HeaderExample | operations/numeric_operations.py:13-18 | a header-like text cell that is no number becomes missing in the older rounding and is kept by the newer one |
| MergeColumns.Filled | src/operations/merge_columns.py:18 | `fillna('')` turns exactly the missing cells into empty text and keeps every other cell |
| MergeColumns.FillSelected | src/operations/merge_columns.py:17-18 | filling changes only the selected columns |
| MergeColumns.MergedText | src/operations/merge_columns.py:17-21 | a missing value (NaN or `None`) renders as empty text when filling, and otherwise as `nan` or `None`; any other value renders with `_safe_str` |
| MergeColumns.ApplyMergeColumnsSpec | src/operations/merge_columns.py:8-23 | a missing selected column gives an error naming all missing ones; otherwise cell i of the new column joins the row's rendered values, a missing one as empty text exactly when filling, the selected columns change only at their missing values and only when filling, and no other column changes |
| MergeColumns.MergeWithoutFillIsConcatenate | src/operations/merge_columns.py:8-23 | without filling, merging gives the table that concatenation gives |
| RenameColumn.Renamed | operations/rename_column.py:10 | each column called `old_col` is renamed, every other name stays |
| RenameColumn.ApplyRenameColumnSpec | operations/rename_column.py:3-11 | a missing old name is reported before a taken new name (so renaming a column to its own name is refused); on success the cells and positions stay, the old name is gone, the new one is there, and distinct names stay distinct |
| RenameColumn.RenameBack | operations/rename_column.py:3-11 | renaming back restores the table |
| ValidateInputs.EmailOneAt | src/operations/validate_inputs.py:15-16 | neither character class holds `@`, so an address the pattern accepts has exactly one `@`, not at its start |
| ValidateInputs.PhoneSpec | src/operations/validate_inputs.py:30-37 | a valid phone value holds a digit and consists of phone characters, 7 to 20 of them (21 with the newline `$` lets through); conversely every such value of 7 to 20 characters is accepted |
| ValidateInputs.NumericExamples | src/operations/validate_inputs.py:81-82 | `.5` and `-1` are accepted, `1.` and `--1` are not |
| ValidateInputs.NumericBodyShape | src/operations/validate_inputs.py:81 | an accepted number text ends with a digit and has at most one point |
| ValidateInputs.AlphanumericSpec | src/operations/validate_inputs.py:95-96 | the pattern accepts exactly the non-empty values made of ASCII letters, digits and whitespace: the newline `$` lets through is itself whitespace |
| ValidateInputs.PrecheckOrder | src/operations/validate_inputs.py:5-111 | every validator answers `(False, "Column Header")` for a header-like value, even a missing one, and `(False, "Empty")` for any other missing or empty value |
| ValidateInputs.ValidMask | src/operations/validate_inputs.py:137-140 | entry i is the validity the validator gives row i |
| ValidateInputs.ApplyValidationSpec | src/operations/validate_inputs.py:113-165 | a missing column and an unknown type are errors with the input; on success the cells are unchanged, the copy's side map holds only `col` (the copy does not carry the attribute over), its mask is true exactly at the invalid cells, header-like and empty ones among them, and the message counts the valid cells out of the rows |
| DomainValidation.FirstTypeSpec | src/operations/domain_validation.py:145-148 | the loop over the patterns finds no type exactly when no pattern matches, and otherwise the type of a matching pattern none of whose predecessors matches |
| DomainValidation.PatternExamples | src/operations/domain_validation.py:18-28 | the first pattern in table order decides: `x.edu` is educational, `x.edu.tr` international educational, `x.ac.uk` academic |
| DomainValidation.LastTwoLabels | src/operations/domain_validation.py:142 | the suffix looked up is the last two labels joined by a dot |
| DomainValidation.DomainVerdictSpec | src/operations/domain_validation.py:119-150 | the blocked list is checked before the allowed one; a domain is accepted exactly when it is allowed and not blocked, or on neither list, well formed, with at least two labels, and its last two labels or `*.` and its last label are a public suffix; a well-formed domain without a dot is rejected as badly formed; the reason names the first matching type |
| DomainValidation.DomainCaseInsensitive | src/operations/domain_validation.py:124 | when lower-casing is idempotent on the domain, a domain and its lower-case form get the same answer |
| DomainValidation.DomainValidator.AddCustomDomain | src/operations/domain_validation.py:101-110 | the lower-cased domain joins the chosen list and leaves the other; lists that were disjoint stay disjoint |
| DomainValidation.DomainValidator.RemoveCustomDomain | src/operations/domain_validation.py:112-117 | the lower-cased domain leaves both lists; disjoint lists stay disjoint |
| DomainValidation.AfterAdd | src/operations/domain_validation.py:101-130 | a domain just added to the allowed list passes, one just added to the blocked list fails, and a removed one is judged as if both lists were empty |
| DomainValidation.DomainPartSpec | src/operations/domain_validation.py:164 | the domain part holds no `@`; it is the whole address when there is no `@`, and otherwise what follows the last `@` |
| OperationRegistry.AsStr | src/operations/preview_utils.py:45 | `astype(str)` turns each cell into the text `str` gives for it |
| OperationRegistry.MapOutcome | src/operations/preview_utils.py:45 | `apply` returns one result per value, in order, when no value raises, and otherwise the exception of the first value that raises |
| OperationRegistry.SrcMaskEmailRaises | src/operations/preview_utils.py:49-51 | the src `mask_data` takes no `track_invalid` argument, so the tracked e-mail call raises `TypeError` on every value |
| OperationRegistry.MapOutcomeAllRaise | src/operations/preview_utils.py:49-51 | when every value raises the same exception, so does the whole column |
| OperationRegistry.ValidateWithoutTextsSpec | src/operations/validate_inputs.py:113-165 | with `texts=None` validation raises on every path that formats a text, and only an unknown type on a present column returns, with the input frame and an error |
| PreviewUtils.Changed | src/operations/preview_utils.py:65 | entry i is true exactly when row i's new cell differs from the stringified original |
| PreviewUtils.Unpaired | src/operations/preview_utils.py:52 | a tuple result is replaced by its first element, every other result stays |
| PreviewUtils.InvalidMask | src/operations/preview_utils.py:53 | entry i is true exactly when result i is a tuple whose flag is false |
| PreviewUtils.AssignSpec | src/operations/preview_utils.py:45 | a missing column raises `KeyError`; otherwise a returning assignment changes only that column, to the function's results on the stringified cells, and keeps the side map |
| PreviewUtils.AssignTrackedSpec | src/operations/preview_utils.py:60-68 | with change tracking the side map gains `col`, keeps every other entry, and marks exactly the rows whose new cell differs from the stringified original |
| PreviewUtils.AssignEmailMaskSpec | src/operations/preview_utils.py:46-56 | the e-mail branch raises `KeyError` on a missing column and otherwise, when it returns, changes only that column |
| PreviewUtils.ApplyOperationPassThrough | src/operations/preview_utils.py:33-103 | a record of another operation type returns the caller's frame itself; an unknown key returns a copy with the same cells and no side map |
| PreviewUtils.ColumnOperationSpec | src/operations/preview_utils.py:35-95 | each single-column key raises `KeyError` on a missing column and otherwise, when it returns, changes only that column and the side map |
| PreviewUtils.ValidateSpec | src/operations/preview_utils.py:96-101 | a validation whose status is not success raises with its message; otherwise its frame is the result |
| PreviewUtils.SrcTrimSpec | src/operations/preview_utils.py:60-68 | with the src copies trimming returns on a present column, keeps a header-like value as its text, and flags exactly the rows that trimming changed |
| PreviewUtils.SrcRemovalFlagsEveryRow | src/operations/preview_utils.py:78-95 | with the src copies character removal stores `(value, changed)` tuples, which never equal the original text, so every row is flagged as changed |
| PreviewUtils.SrcMaskEmailPreviewFails | src/operations/preview_utils.py:105-128 | with the src copies the e-mail masking preview of a column with rows fails with the `TypeError` text and returns the input frame |
| PreviewUtils.GeneratePreviewSpec | src/operations/preview_utils.py:105-128 | on an exception the preview returns the input frame, `False` and the exception's text; otherwise the result and `True`, with the highlighted-changes message exactly when the column has a side-map entry |
| App.Commit | src/main.py:501-505 | a commit keeps the current table, pushes the snapshot onto the undo stack and empties the redo stack |
| App.Undo | src/main.py:519-531 | with an empty undo stack nothing changes; otherwise the top of undo becomes current and the old current table is pushed onto redo |
| App.Redo | src/main.py:533-545 | the mirror image of undo: the top of redo becomes current and the old current table is pushed onto undo |
| App.UndoRedoInverse | src/main.py:519-545 | undo followed by redo restores the whole history when undo had an entry, and redo followed by undo does the same when redo had one |
| App.UndoTimesShape | src/main.py:519-531 | k undos take k entries off undo and put k onto redo, keeping the redo entries that were already there |
| App.RedoTimesUndoTimes | src/main.py:519-545 | k redos after k undos give back exactly the history before them |
| App.RedoTimesFirst | src/main.py:533-545 | k redos are one redo followed by k - 1 more |
| App.AfterOperationSpec | src/main.py:750-753 | an operation whose status is not an error makes its result current, empties redo, and is reverted by one undo; an error leaves the history as it was |
| App.AfterRenameSpec | src/main.py:576-585 | a rename is committed only on success and one undo reverts it; any other status leaves the history as it was |
| App.SelectedForSpec | src/main.py:888-900 | the selected column is one of the columns exactly when there are columns, is empty when there are none, and is the preferred name whenever that is a non-empty column, else the first column |
| App.FirstKeySpec | src/main.py:288-292 | with every key translated, the lookup returns, gives no key exactly when no translation equals the text, and otherwise gives the first key whose translation equals it |
| App.GetOperationKey | src/main.py:288-292 | the loop returns the first key whose translation is the text, None when there is none, and the `KeyError` of an untranslated key that it reaches first |
| App.TableToolsApp.constructor | src/main.py:41-57 | a new window has no table, empty stacks, buttons that match them and empty selections |
| App.TableToolsApp.UpdateUndoRedoButtons | src/main.py:507-517 | each button is enabled exactly when its stack is non-empty, and nothing else changes |
| App.TableToolsApp.CommitUndoableAction | src/main.py:501-505 | the history becomes the commit of the snapshot and the buttons match the stacks |
| App.TableToolsApp.UpdateColumnCombobox | src/main.py:888-900 | with a table the choices are its columns and the selection is the preferred one when it is a non-empty column, else the first; without a table both are empty |
| App.TableToolsApp.UndoAction | src/main.py:519-531 | the history becomes its undo; the action is done exactly when the undo stack was non-empty, and then the buttons match the stacks and the column chooser lists the restored table's columns with its first column selected, or is emptied when the restored table is none |
| App.TableToolsApp.RedoAction | src/main.py:533-545 | the history becomes its redo; the action is done exactly when the redo stack was non-empty, and then the buttons match the stacks and the column chooser lists the restored table's columns with its first column selected, or is emptied when the restored table is none |
| App.TableToolsApp.FinishOperation | src/main.py:547-787 | without a table nothing changes; otherwise the history follows the commit rule, an error leaves the undo and redo buttons as they were, and when the operation asks for a refresh the chooser lists the new table's columns with the preferred column selected if it is one |
| App.TableToolsApp.FinishRename | src/main.py:572-586 | without a table nothing changes; a successful rename commits and selects the new name; any other status leaves the chooser as it was |
| App.TableToolsApp.LoadExcel | src/main.py:315-358 | an empty path does nothing; a read that returns resets the history to the loaded table as its one undo entry; a read that raises clears the table and the selections and keeps the stacks |
| App.TableToolsApp.RefreshApp | src/main.py:254-286 | no table, an empty history, both buttons disabled and no selection |
| LegacyApp.TrimSpaces | main.py:99-101 | the result has no leading or trailing whitespace and is the text of the cell with only leading and trailing whitespace removed |
| LegacyApp.TrimSpacesIdempotent | main.py:99-101 | trimming a trimmed value changes nothing |
| LegacyApp.ToggledSpec | main.py:214-217 | the toggle always lands on English or Turkish and never stays put; toggling twice gives back exactly those two languages |
| LegacyApp.PlainPartNames | main.py:345 | the older split names its parts `{col}_part1` to `{col}_partm`, with no suffixing |
| LegacyApp.PartBaseInjective | main.py:345 | two part numbers give the same part name only when they are equal |
| LegacyApp.PlainNamesWhenFree | main.py:345 | when no plain part name is taken, the newer unique naming picks exactly the plain names |
| LegacyApp.LegacySplitAgrees | main.py:332-351 | the older split builds the same cells as the newer one, and the same table whenever none of the plain part names is already a column |
| LegacyApp.LegacySplitRepeatsNames | main.py:343-351 | when `{col}_part1` is already a column, the older split's result has a repeated column name |
| LegacyApp.LegacySplitExample | main.py:343-351 | columns `a` and `a_part1`, with `a` holding "x y", split on a space: the older result repeats `a_part1` and the newer one has distinct names |
| LegacyApp.AsStrApply | main.py:283 | `astype(str).apply(f)` gives one cell per cell, `f` applied to the text of each |
| LegacyApp.ExcelEditorApp.constructor | main.py:117-126 | a new window starts in English with no table and no selected column |
| LegacyApp.ExcelEditorApp.ToggleLanguage | main.py:214-217 | only the language changes, to its toggle |
| LegacyApp.ExcelEditorApp.SplitSurnameOperation | main.py:309-330 | a missing column is an error that leaves the table alone; otherwise the table becomes the surname split, with the surname in a fresh column right after `col` |
| LegacyApp.ExcelEditorApp.SplitColumnOperation | main.py:332-353 | a missing column is an error and a delimiter found in no row a warning, both leaving the table alone; otherwise the table becomes the older split |
| LegacyApp.ExcelEditorApp.ApplyOperation | main.py:264-307 | no table, no column or an unknown operation gives a warning and no change; masking or trimming a missing column is an error with no change, and otherwise sets the column to the masked or trimmed texts; the two delimiter splits give an error on a missing column, a warning with the table kept when no row holds the delimiter, and otherwise the older split; the surname split gives an error or the surname table; whenever one of these five operations ran without a KeyError the chooser lists the new columns and keeps the column if it is still one, else the first column when some name is non-empty, else nothing; on every other path the chooser is unchanged |
| PyStr.StripSpec | src/operations/trimming.py:7 | `strip()` removes only whitespace, only from the two ends, and leaves a result that neither starts nor ends with whitespace |
| PyStr.StripIdempotent | src/operations/trimming.py:7 | stripping twice is stripping once |
| PyStr.StripEmptyIffAllSpace | src/operations/splitting.py:6-7 | a text strips to nothing exactly when it is all whitespace |
| PyStr.WordsOfJoin | src/operations/splitting.py:7-10 | non-empty words without whitespace survive `' '.join` followed by `split()` |
| PyStr.JoinSplitOn | src/operations/splitting.py:50 | joining the pieces of `split(sep)` with `sep` gives back the text |
| PyStr.SplitOnJoin | src/operations/splitting.py:50 | with a one-character separator found in no part, splitting the joined parts gives back the parts |
| PyStr.SplitOnJoinStraddle | src/operations/splitting.py:50 | with a two-character separator the round trip can fail: `"a-"` and `"b"` joined by `"--"` split into `"a"` and `"-b"` |
| PyStr.SplitOnNNoTruncation | src/operations/splitting.py:64 | a split limit of at least the number of pieces minus one cuts nothing off |
| PyStr.FindSpec | src/operations/find_replace.py:9 | `find` gives the first occurrence, and none exactly when the pattern does not occur |
| PyStr.ReplaceIsSplitJoin | src/operations/find_replace.py:9 | replacing a non-empty text is splitting on it and joining with the replacement |
| PyStr.ReplaceAbsent | src/operations/find_replace.py:9-10 | a text that does not occur is not replaced |
| PyStr.ReplaceLength | src/operations/find_replace.py:9 | the length changes by the replacement's surplus once per occurrence |
| PyStr.FilterKeeps | src/operations/remove_chars.py:27 | every character that filtering keeps passes the test |
| PyStr.FilterSubsequence | src/operations/remove_chars.py:27 | the filtered text is a subsequence of the original |
| PyStr.FilterIdempotent | src/operations/remove_chars.py:27 | filtering twice with one test is filtering once |
| PyStr.NatToStringInjective | src/operations/splitting.py:51 | different numbers are rendered as different decimal texts |
| DelayedOperations.PartitionValid | src/operations/delayed_operations.py:11-58 | every branch that returns hands back a well-formed table when validation does |
| DelayedOperations.SrcValidationKeepsFrame | src/operations/delayed_operations.py:53-56 | with the src copies a deferred validation, called with `texts=None`, either raises or gives back the frame unchanged |
| DelayedOperations.ApplyOperationToPartition | src/operations/delayed_operations.py:11-58 | an exception leaves the frame alone; otherwise the frame passed in is updated in place and returned, except that a validation returns a new frame and leaves the one passed in as it was |
| DelayedOperations.RFind | src/operations/delayed_operations.py:71 | the index found holds the character and no later index does; -1 when there is none |
| DelayedOperations.RFindIs | src/operations/delayed_operations.py:71 | the last occurrence of a character is what the search finds |
| DelayedOperations.RFindNone | src/operations/delayed_operations.py:71 | a character that does not occur is not found |
| DelayedOperations.SplitExtSpec | src/operations/delayed_operations.py:71 | the extension is empty, or it is a dot followed by no other dot and no separator that ends the path |
| DelayedOperations.CsvFileType | src/operations/delayed_operations.py:69-73 | a `.csv` path in a directory is a CSV file |
| DelayedOperations.ExcelFileType | src/operations/delayed_operations.py:74-75 | a `.xlsx` path is an Excel file |
| DelayedOperations.UnsupportedFileType | src/operations/delayed_operations.py:76-77 | another extension raises `ValueError` naming it, and a dot in a directory name is not an extension |
| DelayedOperations.HiddenFileType | src/operations/delayed_operations.py:71-77 | a file named `.csv` has no extension and so is unsupported |
| DelayedOperations.Window | src/operations/delayed_operations.py:85-111 | a preview window is a well-formed table with the file's columns |
| DelayedOperations.WindowSpec | src/operations/delayed_operations.py:85-111 | head gives the first min(n, limit) rows and tail the last min(n, limit); the middle gives every row when there are at most `limit`, and otherwise `limit` consecutive rows starting at (n - limit) div 2 |
| DelayedOperations.ProgressUpTo | src/operations/delayed_operations.py:159-180 | a save that reaches operation k has reported 0 and then (1 + i) / (n + 2) for each operation i before k |
| DelayedOperations.FractionLess | src/operations/delayed_operations.py:179 | over a positive denominator a smaller numerator gives a smaller fraction |
| DelayedOperations.FullProgressAt | src/operations/delayed_operations.py:153-215 | report i of a completed save is i / (n + 2), and the last one is 1.0 |
| DelayedOperations.ProgressSpec | src/operations/delayed_operations.py:153-215 | a completed save reports n + 3 strictly rising values ending in 1.0, and no report before the last reaches 1.0 |
| DelayedOperations.SaveStepValid | src/operations/delayed_operations.py:182-196 | one step keeps the sample and the whole data well-formed |
| DelayedOperations.SaveRunStep | src/operations/delayed_operations.py:174-196 | the run over a queue is its first step followed by the run over the rest |
| DelayedOperations.ApplySaveStep | src/operations/delayed_operations.py:182-196 | the in-place step on the sample frame matches one step of the run: a raising operation is skipped, any other one is also queued on the whole data |
| DelayedOperations.RunQueue | src/operations/delayed_operations.py:174-196 | the loop stops exactly when the cancel flag is seen before some operation, having reported the progress up to that operation; otherwise it reports one value per operation and its result is the run over the whole queue |
| DelayedOperations.ProgressStep | src/operations/delayed_operations.py:178-180 | reaching one more operation adds exactly one report |
| DelayedOperations.FirstCancel | src/operations/delayed_operations.py:175-176 | the first check at which the flag is seen, with no earlier one seeing it |
| DelayedOperations.FirstCancelAt | src/operations/delayed_operations.py:175-176 | a check that sees the flag, with none before it seeing it, is the first one |
| DelayedOperations.SaveResultSpec | src/operations/delayed_operations.py:147-217 | the reports rise strictly from 0; the file is saved exactly when the result is True, which is exactly when 1.0 is reported, and then after n + 3 reports; a cancel seen before any operation or before saving gives False |
| DelayedOperations.ProgressPrefix | src/operations/delayed_operations.py:174-180 | the reports of a save cut short are a prefix of those of a completed one |
| DelayedOperations.PrefixBelowLast | src/operations/delayed_operations.py:202-215 | a prefix of a strictly rising sequence that stops before its end rises strictly and does not contain its last value |
| DelayedOperations.DelayedOperationManager.constructor | src/operations/delayed_operations.py:61-67 | a new manager has an empty queue, no file, no file type and the cancel flag clear |
| DelayedOperations.DelayedOperationManager.LoadPreview | src/operations/delayed_operations.py:79-111 | the path is recorded; an unsupported file type raises and keeps the previous type; otherwise the type is recorded and the result is the window for the size and position |
| DelayedOperations.DelayedOperationManager.AddOperation | src/operations/delayed_operations.py:115-123 | a column operation is appended to the queue, anything else leaves it as it was, and nothing else changes |
| DelayedOperations.DelayedOperationManager.ClearOperations | src/operations/delayed_operations.py:125-127 | the queue is empty and nothing else changes |
| DelayedOperations.DelayedOperationManager.CancelProcessing | src/operations/delayed_operations.py:139-141 | only the cancel flag changes, and it is set |
| DelayedOperations.DelayedOperationManager.SimulateOperations | src/operations/delayed_operations.py:129-137 | the result is a new frame holding the queued operations replayed in order on a copy of the input, a raising operation being skipped |
| DelayedOperations.DelayedOperationManager.SaveWithOperations | src/operations/delayed_operations.py:147-217 | the verdict, the reports and the saved rows are those of the save model over the queue, run on the first 1000 rows as sample and the whole file; the queue and the file fields are kept, and the flag ends set exactly when a cancel was seen |
| Tables.Copy | src/operations/preview_utils.py:40 | a copy has the same cells and no highlighted-rows entries |
| Tables.SetColumnSpec | src/operations/preview_utils.py:45 | assigning a column adds it at the end when it is new and otherwise replaces exactly that column |
| Tables.Head | src/operations/delayed_operations.py:164 | the first rows of a table, as many as asked for and the table holds |
| Tables.DataFrame.constructor | src/operations/delayed_operations.py:164 | a new frame holds the given table and no highlighted-rows entries |
| Cells.ReprPlain | src/operations/find_replace.py:11 | the text of a stored `(value, flag)` tuple quotes a value without quotes, backslashes or control characters in single quotes, unchanged |
| Cells.ReprQuoteExample | src/operations/find_replace.py:11 | a value holding a single quote and no double quote is put in double quotes, as `repr` does for "O'Brien" |
| Cells.StrPairQuoteExample | src/main.py:665 | the stored tuple for "O'Brien" reads back through `astype(str)` as `("O'Brien", False)` |
| Cells.ReprTabExample | src/operations/find_replace.py:11 | a tab inside a stored value is written as the escape `\t` |
| Cells.StrOfPair | src/operations/preview_utils.py:65 | the text of a tuple starts with a parenthesis |
| ColumnNames.LeastFree | src/main.py:169-171 | the counter search stops at the first free suffixed name at or after its start |
| ColumnNames.SuffixedInjective | src/main.py:170 | different counters give different suffixed names |
| Splitting.SplitNameSpec | src/operations/splitting.py:4-14 | with two or more words the name part is the words before the last joined by single spaces and the surname the last word, and together they give back the words; otherwise the result is the stripped text and an empty surname |
| Splitting.PartColumns | src/operations/splitting.py:64-71 | one part column per piece of the longest split, part p holding piece p of each row and `None` where a row has fewer pieces |
| Masking.EmailGroupsSound | src/operations/masking.py:15-17 | a match has a non-empty user without `@`, then `@` and a rest without a line break, with at most one trailing newline |
| Masking.EmailGroupsComplete | src/operations/masking.py:15-17 | every text of that shape matches, with those groups |
| Masking.MaskEmailModeSome | src/operations/masking.py:14-23 | a matching value becomes the first two characters of the user, `***` and the rest, and the masked text matches again with the masked user |
| Masking.MaskWordIsWord | src/operations/masking.py:59-63 | a masked word is still a non-empty word without whitespace |
| ValidateInputs.EmailBodyOneAt | src/operations/validate_inputs.py:15-17 | a valid e-mail address has exactly one `@`, neither first nor last |
| ValidateInputs.UnsignedBodyShape | src/operations/validate_inputs.py:81 | an accepted unsigned number ends in a digit and has at most one decimal point |
| ValidateInputs.CountTrue | src/operations/validate_inputs.py:143-144 | the number of valid rows is at most the number of rows |
| Duplicates.FirstOccurrences | src/operations/duplicates.py:21 | the kept row indices are at most as many as the rows, and each is a row |
| DistinctGroup.Codes | src/operations/distinct_group.py:29-32 | one code per row, each the code of that row's value |
| DistinctGroup.Encoded | src/operations/distinct_group.py:32 | adding the code column keeps the table well-formed and its row count |
| NumericOperations.Numbers | src/operations/numeric_operations.py:95-96 | one coerced number per cell |
| DomainValidation.DomainValidator.constructor | src/operations/domain_validation.py:13-68 | the allowed, blocked and suffix sets are the ones given |
| PyStr.ReplaceCharIsFilter | src/operations/remove_chars.py:13-14 | removing one character with `replace(c, '')` is filtering that character out |
| PyStr.ReplaceSame | src/operations/find_replace.py:9-10 | replacing a text by itself changes nothing |
| PyStr.SplitOnContains | src/operations/splitting.py:47-50 | a text splits into two or more pieces exactly when it contains the separator |

## Left out

- Widgets, dialogs, message boxes, the status log and the preview window are not modelled; they are user interface with no state the operations read. Dialog answers (the chosen column, the new name, the file path) are parameters. The same holds for `update_ui_language`, `toggle_language`'s relabelling, `_on_operation_change`, `preview_operation`, `show_preview_dialog` and language persistence.
- The branches of `apply_operation` in `src/main.py` that open dialogs are not modelled one by one. These are concatenate, merge, remove duplicates, extract pattern and the numeric dialogs. `FinishOperation` and `FinishRename` model how their results are committed. The operations themselves are modelled in their own modules.
- The translation tables are not modelled. A status message is a key plus its arguments (`Message`), and `render` in the registry formats one.
- Reading and writing files (CSV, Excel, JSON) is left out because it is I/O. The contents of a file are parameters: the `read` outcome of `LoadExcel` and the `file` rows of `LoadPreview` and `SaveWithOperations`. So are `save_file`, `browse_file`, the older `load_excel`, `browse_file` and `save_file`, and the operations configuration file.
- `LoadPreview` does not model the "Error loading file" wrapping of a failed read, since the read itself is a parameter.
- `DomainValidator` does not model the public suffix list download and its cache, the JSON persistence of the custom lists, or the command-line loop; these are network and file I/O. The suffix set and the stored lists are constructor parameters.
- `validate_email_address` building its own `DomainValidator` when none is given is left out, because that reads files.
- The lookahead e-mail pattern of `validate_email_address` is the `format` parameter.
- dask partitions, threading, the unused progress queue, `_get_dask_meta`, `preview_df` and the `print` calls are left out. A cancel request comes from another thread, so it is the `cancelSeen` sequence (what each check sees). The partitions of the whole file are one frame.
- Floating-point numbers are not modelled beyond their real value and their `str` text. Parsing, `pd.to_numeric` on text, NumPy rounding and `str` of a float are the `NumberSemantics` parameter. `get_decimal_places` is the `places` parameter of `CreateCalculatedColumn`.
- `Cells.Repr`: `repr` escapes characters above U+00FF that are not printable by the Unicode tables (for example line and paragraph separators) as `\u` or `\U` sequences; the model writes them as they are. Every character up to U+00FF is escaped exactly as Python does.
- `AsStr`: through `Cells.Repr`, the text of a stored tuple differs from Python's only when its value holds a non-printable character above U+00FF.
- `Cells.NumCell`: every numeric result is written as a float cell. pandas keeps integers when rounding an integer column (src/operations/numeric_operations.py:29, operations/numeric_operations.py:18) and for `+`, `-` and `*` of two integer columns (src/operations/numeric_operations.py:117-122, operations/numeric_operations.py:66-71). In those cases `str` of a result is "3" in the program and usually "3.0" in the model.
- `DistinctGroup`: the sort order of `factorize(sort=True)` is the `lt` parameter, assumed to be a strict total order on keys. Python's mixed-type ordering is not modelled.
- The Unicode tables are the `CharTables` parameter: `str.isalpha`, `\w`, `\d` and the case maps. `str.isspace` is spelled out.
- `validate_date` after its two prechecks and the body of the URL pattern are the `OtherChecks` parameter; they depend on `strptime` and a large regex.
- `src/operations/extract_pattern.py`, `operations/rounding.py`, `operations/case_change.py` and the launcher `excel_table_tools.py` are not part of this model. They are a user-supplied regex, float rounding, a wrapper over the case maps, and start-up code.
- `SplitExt` models `os.path.splitext` with `/` as the only separator, as on POSIX systems.
- `Splitting.ApplySplitByDelimiter` and `LegacyApp.ExcelEditorApp.SplitColumnOperation` require a one-character delimiter. The window passes only `' '` and `':'`, and pandas treats longer patterns as regular expressions.
- `Concatenate.ApplyConcatenate`, `LegacyConcatenate.ApplyConcatenate` and `MergeColumns.ApplyMergeColumns` require at least one selected column. The window allows them only with two or more (src/main.py:791, 848).
- Tables with repeated column names are not modelled. Lookups take the first column of a name, and lemmas that promise distinct names assume distinct input names. pandas allows repeats, but no operation of the program creates them except the older split (see Findings).
- `PreviewUtils.AssignEmailMaskSpec`: states only which column changes when the e-mail branch returns. Under `SrcRegistry` that branch always raises (`SrcMaskEmailPreviewFails`).

## Findings

| source | as written | input that shows it | evidently intended | confidence | as-written member | corrected member |
|---|---|---|---|---|---|---|
| main.py:343-351 | the older `split_column_operation` names its parts `{col}_part1` … `{col}_partk` without making them unique | columns `a` and `a_part1`, `a` holding "x y", split on a space: the result has two columns named `a_part1` | part names unique against the existing columns, as the newer `apply_split_by_delimiter` makes them (src/operations/splitting.py:54-62) | not executed | LegacyApp.LegacySplitRepeatsNames | Splitting.DelimiterReplySpec |
